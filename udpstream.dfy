/** udpstream.c as objects: a stream whose fields the socket reader, read
    and write update in place, and the process-wide list of streams. Every
    method is proved against the functions of module UdpFrames. */
module UdpStream {
  import opened Bytes
  import opened Wrappers
  import opened UdpFrames

  /** struct udpstream. The socket and the peer address never change;
      outbox holds, in order, the datagrams sent through sock to addr. */
  class Stream {
    const sock: int
    const addr: seq<byte>
    var inseq: u16
    var outseq: u16
    var sent: seq<Packet>
    var recv: seq<Packet>
    var buf: seq<byte>
    var outbox: seq<seq<byte>>

    /** The state as a value of the pure model. */
    function View(): Conn
      reads this
    {
      Conn(inseq, outseq, sent, recv, buf, outbox)
    }

    /** udpstream_new without the registration, which Registry.NewStream does. */
    constructor (sock: int, addr: seq<byte>)
      ensures this.sock == sock && this.addr == addr
      ensures View() == Fresh
    {
      this.sock := sock;
      this.addr := addr;
      inseq := 0;
      outseq := 0;
      sent := [];
      recv := [];
      buf := [];
      outbox := [];
    }

    /** stream_send: the header datagram, then the payload datagram. */
    method SendFrame(kind: byte, sq: u16, payload: seq<byte>)
      requires |payload| < 0x1_0000_0000
      modifies this
      ensures View() == old(View()).(outbox := old(outbox) + Send(kind, sq, payload))
    {
      outbox := outbox + [Header(|payload|, sq, kind)];
      outbox := outbox + [payload];
    }

    /** The scan of udpstream_requestresend: every sequence number from
        inseq up to, not including, sq that no received packet carries. */
    static method MissedSeqs(inseq: u16, sq: u16, recv: seq<Packet>) returns (missed: seq<u16>)
      ensures missed == Missing(inseq, sq, recv)
    {
      var count := Offset(inseq, sq);
      missed := [];
      var i := 0;
      while i < count
        invariant 0 <= i <= count
        invariant missed + MissingFrom(inseq, i, count, recv) == Missing(inseq, sq, recv)
      {
        var s := SeqAt(inseq, i);
        var found := Carries(recv, s);
        MissingStep(inseq, i, count, recv, missed);
        if !found {
          missed := missed + [s];
        }
        i := i + 1;
      }
      MissingStep(inseq, i, count, recv, missed);
    }

    /** The inner scan of udpstream_requestresend: whether a received
        packet carries s. */
    static method Carries(recv: seq<Packet>, s: u16) returns (found: bool)
      ensures found == HasSeq(recv, s)
    {
      var i2 := 0;
      while i2 < |recv|
        invariant 0 <= i2 <= |recv|
        invariant forall k :: 0 <= k < i2 ==> recv[k].seqno != s
      {
        if recv[i2].seqno == s {
          return true;
        }
        i2 := i2 + 1;
      }
      return false;
    }

    /** udpstream_requestresend, called after receiving packet sq. */
    method RequestResend(sq: u16)
      modifies this
      ensures View() == old(View()).(outbox := old(outbox) + ResendRequest(old(inseq), sq, old(recv)))
    {
      var missed := MissedSeqs(inseq, sq, recv);
      if |missed| == 0 {
        return;
      }
      SendFrame(TYPE_RESEND, 0, SeqList(missed));
    }

    /** The ACK branch of udpstream_readsocket: remove every sent packet
        numbered sq, keeping the others in order. */
    method RemoveAcked(sq: u16)
      modifies this
      ensures View() == old(View()).(sent := Without(old(sent), sq))
    {
      sent := DropAcked(sent, sq);
    }

    /** The frame loop of udpstream_readsocket. */
    method ParseFrames()
      modifies this
      ensures View() == Drain(old(View()))
    {
      Pow256Values();
      while |buf| >= HEADERSIZE
        invariant Drain(View()) == Drain(old(View()))
        decreases |buf|
      {
        var size := FromLE(buf[..4]);
        if |buf| < HEADERSIZE + size {
          break;
        }
        ghost var before := View();
        assert FrameReady(before.buf);
        var sq: u16 := FromLE(buf[4..6]);
        var kind := buf[6];
        if kind == TYPE_ACK {
          if size == 2 {
            RemoveAcked(FromLE(buf[HEADERSIZE..HEADERSIZE + 2]));
          }
          buf := buf[HEADERSIZE + size..];
          assert View() == Consume(before);
          continue;
        }
        if kind == TYPE_RESEND {
          buf := buf[HEADERSIZE + size..];
          assert View() == Consume(before);
          continue;
        }
        var payload := buf[HEADERSIZE..HEADERSIZE + size];
        SendFrame(TYPE_ACK, 0, LE(sq, 2));
        recv := recv + [Packet(sq, payload)];
        buf := buf[HEADERSIZE + size..];
        RequestResend(sq);
        assert View() == Consume(before);
      }
    }

    /** The scan shared by udpstream_poll and udpstream_read: the first
        received packet carrying inseq. */
    method FindNext() returns (r: Option<nat>)
      ensures r == FindSeq(recv, inseq)
    {
      var i := 0;
      while i < |recv|
        invariant 0 <= i <= |recv|
        invariant forall j :: 0 <= j < i ==> recv[j].seqno != inseq
      {
        if recv[i].seqno == inseq {
          return Some(i);
        }
        i := i + 1;
      }
      return None;
    }

    /** udpstream_read: -1 when the next packet in order has not arrived;
        otherwise up to size bytes of it, keeping any rest for the next read. */
    method Read(size: nat) returns (n: int, bytes: seq<byte>)
      modifies this
      ensures ReadResult(View(), n, bytes) == ReadConn(old(View()), size)
    {
      var found := FindNext();
      if found.None? {
        return -1, [];
      }
      var i := found.value;
      var p := recv[i];
      if |p.data| > size {
        bytes := p.data[..size];
        recv := recv[i := Packet(p.seqno, p.data[size..])];
        return size, bytes;
      }
      bytes := p.data;
      recv := recv[..i] + recv[i + 1..];
      inseq := (inseq + 1) % SEQMOD;
      n := |p.data|;
    }

    /** udpstream_write: keep a copy until acknowledged, send it numbered
        outseq, advance outseq. */
    method Write(data: seq<byte>) returns (n: int)
      requires |data| < 0x1_0000_0000
      modifies this
      ensures View() == WriteConn(old(View()), data)
      ensures n == |data|
    {
      sent := sent + [Packet(outseq, data)];
      SendFrame(TYPE_PAYLOAD, outseq, data);
      outseq := (outseq + 1) % SEQMOD;
      n := |data|;
    }
  }

  /** The removal loop of the ACK branch on the sent array. */
  method DropAcked(sent: seq<Packet>, sq: u16) returns (ps: seq<Packet>)
    ensures ps == Without(sent, sq)
  {
    ps := sent;
    var i: nat := 0;
    ghost var j := 0;
    while i < |ps|
      invariant 0 <= j <= |sent| && i <= |ps|
      invariant ps[..i] == Without(sent[..j], sq) && ps[i..] == sent[j..]
      decreases |sent| - j
    {
      ps, i := DropRound(sent, j, ps, i, sq);
      j := j + 1;
    }
    DropDone(sent, j, ps, i, sq);
  }

  /** One round of that loop: a match at the cursor is cut out and the
      cursor stays (the `--i` before `++i`); any other packet is stepped
      over. */
  method DropRound(ghost sent: seq<Packet>, ghost j: nat, ps: seq<Packet>, i: nat, sq: u16)
    returns (ps': seq<Packet>, i': nat)
    requires j <= |sent| && i < |ps| && ps[..i] == Without(sent[..j], sq) && ps[i..] == sent[j..]
    ensures j < |sent| && i' <= |ps'| && |ps'| - i' == |ps| - i - 1
    ensures ps'[..i'] == Without(sent[..j + 1], sq) && ps'[i'..] == sent[j + 1..]
  {
    if ps[i].seqno == sq {
      DropHit(sent, j, ps, i, sq);
      ps', i' := ps[..i] + ps[i + 1..], i;
    } else {
      DropKeep(sent, j, ps, i, sq);
      ps', i' := ps, i + 1;
    }
  }

  /** The index stream_find returns: the first stream whose address is addr. */
  function Lookup(ss: seq<Stream>, addr: seq<byte>): (r: Option<nat>)
    ensures r.None? <==> forall i :: 0 <= i < |ss| ==> ss[i].addr != addr
    ensures r.Some? ==> (r.value < |ss| && ss[r.value].addr == addr &&
                         forall j :: 0 <= j < r.value ==> ss[j].addr != addr)
  {
    if ss == [] then None
    else if ss[0].addr == addr then Some(0)
    else
      match Lookup(ss[1..], addr)
      case None => None
      case Some(k) => Some(k + 1)
  }

  /** The static streams array of udpstream.c. */
  class Registry {
    var streams: seq<Stream>

    /** Each stream is registered once. */
    ghost predicate Valid()
      reads this
    {
      forall i, j :: 0 <= i < j < |streams| ==> streams[i] != streams[j]
    }

    constructor ()
      ensures Valid() && streams == []
    {
      streams := [];
    }

    /** The registration part of udpstream_new. */
    method NewStream(sock: int, addr: seq<byte>) returns (s: Stream)
      requires Valid()
      modifies this
      ensures Valid()
      ensures fresh(s) && s.sock == sock && s.addr == addr && s.View() == Fresh
      ensures streams == old(streams) + [s]
    {
      s := new Stream(sock, addr);
      streams := streams + [s];
    }

    /** stream_find. */
    method Find(addr: seq<byte>) returns (s: Stream?)
      ensures s == null <==> Lookup(streams, addr).None?
      ensures s != null ==> s == streams[Lookup(streams, addr).value]
    {
      var i := 0;
      while i < |streams|
        invariant 0 <= i <= |streams|
        invariant forall j :: 0 <= j < i ==> streams[j].addr != addr
      {
        if streams[i].addr == addr {
          return streams[i];
        }
        i := i + 1;
      }
      return null;
    }

    /** udpstream_readsocket for one datagram dgram from address from on
        socket sock: the stream for that address (created when unknown)
        takes the datagram through Deliver; no other stream changes. */
    method ReadSocket(sock: int, from: seq<byte>, dgram: seq<byte>) returns (s: Stream)
      requires Valid()
      modifies this, streams
      ensures Valid()
      ensures old(Lookup(streams, from)).Some? ==>
        streams == old(streams) && s == streams[old(Lookup(streams, from)).value] &&
        s.View() == Deliver(old(streams[Lookup(streams, from).value].View()), dgram)
      ensures old(Lookup(streams, from)).None? ==>
        fresh(s) && streams == old(streams) + [s] && s.sock == sock && s.addr == from &&
        s.View() == Deliver(Fresh, dgram)
      ensures forall t :: t in old(streams) && t != s ==> t.View() == old(t.View())
    {
      var received := Received(dgram);
      var found := Find(from);
      if found == null {
        s := NewStream(sock, from);
      } else {
        s := found;
      }
      s.buf := s.buf + received;
      s.ParseFrames();
    }

    /** udpstream_poll: the first stream, in creation order, whose next
        in-order packet has arrived; null when there is none. */
    method Poll() returns (r: Stream?)
      ensures r == null <==> forall i :: 0 <= i < |streams| ==> !Ready(streams[i].View())
      ensures r != null ==> exists i :: (0 <= i < |streams| && streams[i] == r && Ready(r.View()) &&
                                         forall j :: 0 <= j < i ==> !Ready(streams[j].View()))
    {
      var i := 0;
      while i < |streams|
        invariant 0 <= i <= |streams|
        invariant forall j :: 0 <= j < i ==> !Ready(streams[j].View())
      {
        var next := streams[i].FindNext();
        if next.Some? {
          return streams[i];
        }
        i := i + 1;
      }
      return null;
    }
  }
}
