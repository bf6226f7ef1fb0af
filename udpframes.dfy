/** The reliable-UDP stream of udpstream.c, as values: the 7-byte frame
    header, the per-stream state, and the effect of each received frame, of
    a read and of a write on that state. The classes of module UdpStream are
    proved against these functions. */
module UdpFrames {
  import opened Bytes
  import opened Wrappers

  const HEADERSIZE: nat := 7
  const TYPE_PAYLOAD: byte := 0
  const TYPE_ACK: byte := 1
  const TYPE_RESEND: byte := 2
  /** Sequence numbers are uint16_t and wrap at this modulus. */
  const SEQMOD: nat := 0x1_0000
  /** udpstream_readsocket receives into a 1024-byte buffer. */
  const RECVMAX: nat := 1024

  /** struct packet: a sequence number and a copy of the payload. */
  datatype Packet = Packet(seqno: u16, data: seq<byte>)

  /** The state of one stream (struct udpstream without its socket and
      address), together with the datagrams sent to its address so far. */
  datatype Conn = Conn(inseq: u16, outseq: u16, sent: seq<Packet>,
                       recv: seq<Packet>, buf: seq<byte>, outbox: seq<seq<byte>>)

  /** The state udpstream_new gives a stream. */
  const Fresh: Conn := Conn(0, 0, [], [], [], [])

  /** One frame on the wire: type, sequence number and payload. */
  datatype Frame = Frame(kind: byte, seqno: u16, payload: seq<byte>)

  predicate Sized(f: Frame) { |f.payload| < 0x1_0000_0000 }

  /** The header stream_send builds: payload size (4 bytes), sequence
      number (2 bytes), type (1 byte). */
  function Header(size: u32, sq: u16, kind: byte): (h: seq<byte>)
    ensures |h| == HEADERSIZE
  {
    Pow256Values();
    LE(size, 4) + LE(sq, 2) + [kind]
  }

  function Encode(f: Frame): (r: seq<byte>)
    requires Sized(f)
    ensures |r| == HEADERSIZE + |f.payload|
  {
    Header(|f.payload|, f.seqno, f.kind) + f.payload
  }

  function EncodeAll(fs: seq<Frame>): seq<byte>
    requires forall i :: 0 <= i < |fs| ==> Sized(fs[i])
  {
    if fs == [] then [] else Encode(fs[0]) + EncodeAll(fs[1..])
  }

  /** stream_send: one datagram holding the header, one holding the payload. */
  function Send(kind: byte, sq: u16, payload: seq<byte>): (d: seq<seq<byte>>)
    requires |payload| < 0x1_0000_0000
    ensures |d| == 2
  {
    [Header(|payload|, sq, kind), payload]
  }

  // ---- The frame loop of udpstream_readsocket ----

  function SizeField(buf: seq<byte>): nat
    requires |buf| >= HEADERSIZE
  {
    FromLE(buf[..4])
  }

  function SeqField(buf: seq<byte>): u16
    requires |buf| >= HEADERSIZE
  {
    Pow256Values();
    FromLE(buf[4..6])
  }

  /** The loop consumes a frame only when the header and the whole payload
      it announces are buffered. */
  predicate FrameReady(buf: seq<byte>)
  {
    |buf| >= HEADERSIZE && |buf| >= HEADERSIZE + SizeField(buf)
  }

  /** The complete frame at the front of the buffer. */
  function NextFrame(buf: seq<byte>): (f: Frame)
    requires FrameReady(buf)
    ensures |f.payload| == SizeField(buf)
  {
    Frame(buf[6], SeqField(buf), buf[HEADERSIZE..HEADERSIZE + SizeField(buf)])
  }

  predicate HasSeq(ps: seq<Packet>, s: u16)
  {
    exists i :: 0 <= i < |ps| && ps[i].seqno == s
  }

  /** The sent list after an ACK for s: every packet with that sequence
      number is dropped, the others keep their order. */
  function Without(ps: seq<Packet>, s: u16): (r: seq<Packet>)
    ensures forall p :: p in r <==> p in ps && p.seqno != s
    ensures !HasSeq(r, s)
    ensures !HasSeq(ps, s) ==> r == ps
    ensures |r| <= |ps|
  {
    if ps == [] then []
    else if ps[0].seqno == s then Without(ps[1..], s)
    else
      assert !HasSeq(ps, s) ==> !HasSeq(ps[1..], s) by {
        if HasSeq(ps[1..], s) {
          var i :| 0 <= i < |ps[1..]| && ps[1..][i].seqno == s;
          assert ps[i + 1].seqno == s;
        }
      }
      [ps[0]] + Without(ps[1..], s)
  }

  /** Distance from inseq forward to s, modulo 65536. */
  function Offset(inseq: u16, s: u16): (d: nat)
    ensures d < SEQMOD
  {
    (SEQMOD + s - inseq) % SEQMOD
  }

  function MissingFrom(inseq: u16, i: nat, count: nat, recv: seq<Packet>): seq<u16>
    decreases count - i
  {
    if i >= count then []
    else
      var s := SeqAt(inseq, i);
      (if HasSeq(recv, s) then [] else [s]) + MissingFrom(inseq, i + 1, count, recv)
  }

  /** One round of the scan of udpstream_requestresend keeps what is
      found so far followed by what is still to be found. */
  lemma MissingStep(inseq: u16, i: nat, count: nat, recv: seq<Packet>, missed: seq<u16>)
    requires i <= count
    ensures i == count ==> missed + MissingFrom(inseq, i, count, recv) == missed
    ensures i < count ==> (missed + MissingFrom(inseq, i, count, recv) ==
      (if HasSeq(recv, SeqAt(inseq, i)) then missed else missed + [SeqAt(inseq, i)]) + MissingFrom(inseq, i + 1, count, recv))
  {
    if i == count {
      assert missed + [] == missed;
    }
  }

  /** The sequence numbers udpstream_requestresend asks for: from inseq up
      to, not including, sq (modulo 65536), those not in the received list. */
  function Missing(inseq: u16, sq: u16, recv: seq<Packet>): (r: seq<u16>)
    ensures |r| < SEQMOD
    ensures forall x :: x in r ==> Offset(inseq, x) < Offset(inseq, sq) && !HasSeq(recv, x)
  {
    MissingFromLength(inseq, 0, Offset(inseq, sq), recv);
    MissingFromMembers(inseq, 0, Offset(inseq, sq), recv);
    MissingFrom(inseq, 0, Offset(inseq, sq), recv)
  }

  /** The uint16_t array of requested sequence numbers, as bytes. */
  function SeqList(xs: seq<u16>): (r: seq<byte>)
    ensures |r| == 2 * |xs|
  {
    Pow256Values();
    if xs == [] then [] else LE(xs[0], 2) + SeqList(xs[1..])
  }

  /** The RESEND request sent after receiving sq, if anything is missing. */
  function ResendRequest(inseq: u16, sq: u16, recv: seq<Packet>): (r: seq<seq<byte>>)
    ensures r == [] <==> forall x: u16 :: Offset(inseq, x) < Offset(inseq, sq) ==> HasSeq(recv, x)
    ensures r != [] ==> |r| == 2 && r[1] == SeqList(Missing(inseq, sq, recv))
  {
    var m := Missing(inseq, sq, recv);
    MissingSpec(inseq, sq, recv);
    if m == [] then [] else Send(TYPE_RESEND, 0, SeqList(m))
  }

  /** The sequence number an ACK payload carries. */
  function AckedSeq(payload: seq<byte>): u16
    requires |payload| == 2
  {
    Pow256Values();
    FromLE(payload)
  }

  /** What one complete frame does to the stream. */
  function OnFrame(c: Conn, f: Frame): (r: Conn)
    ensures r.buf == c.buf
    ensures r.inseq == c.inseq && r.outseq == c.outseq
  {
    Pow256Values();
    if f.kind == TYPE_ACK then
      if |f.payload| == 2 then c.(sent := Without(c.sent, AckedSeq(f.payload))) else c
    else if f.kind == TYPE_RESEND then c
    else
      var recv := c.recv + [Packet(f.seqno, f.payload)];
      c.(recv := recv,
         outbox := c.outbox + Send(TYPE_ACK, 0, LE(f.seqno, 2)) + ResendRequest(c.inseq, f.seqno, recv))
  }

  function OnFrames(c: Conn, fs: seq<Frame>): Conn
    decreases |fs|
  {
    if fs == [] then c else OnFrames(OnFrame(c, fs[0]), fs[1..])
  }

  /** One iteration of the frame loop: take the frame off the front of the
      buffer, then act on it. */
  function Consume(c: Conn): (r: Conn)
    requires FrameReady(c.buf)
    ensures |r.buf| < |c.buf|
    ensures r.inseq == c.inseq && r.outseq == c.outseq
  {
    var f := NextFrame(c.buf);
    OnFrame(c.(buf := c.buf[HEADERSIZE + |f.payload|..]), f)
  }

  /** The frame loop: consume frames while a complete one is buffered. */
  function Drain(c: Conn): (r: Conn)
    ensures !FrameReady(r.buf)
    ensures |r.buf| <= |c.buf| && r.inseq == c.inseq && r.outseq == c.outseq
    decreases |c.buf|
  {
    if FrameReady(c.buf) then Drain(Consume(c)) else c
  }

  /** The bytes of one datagram that recvfrom stores in the 1024-byte buffer. */
  function Received(dgram: seq<byte>): (r: seq<byte>)
    ensures r <= dgram && |r| <= RECVMAX
    ensures |dgram| <= RECVMAX ==> r == dgram
  {
    if |dgram| <= RECVMAX then dgram else dgram[..RECVMAX]
  }

  /** udpstream_readsocket's effect on the stream the datagram came from. */
  function Deliver(c: Conn, dgram: seq<byte>): (r: Conn)
    ensures !FrameReady(r.buf) && |r.buf| <= |c.buf| + |dgram|
    ensures r.inseq == c.inseq && r.outseq == c.outseq
  {
    Drain(c.(buf := c.buf + Received(dgram)))
  }

  // ---- udpstream_poll, udpstream_read, udpstream_write ----

  /** The stream has its next in-order packet. */
  predicate Ready(c: Conn)
  {
    HasSeq(c.recv, c.inseq)
  }

  /** The first received packet with sequence number s. */
  function FindSeq(ps: seq<Packet>, s: u16): (r: Option<nat>)
    ensures r.None? <==> !HasSeq(ps, s)
    ensures r.Some? ==> r.value < |ps| && ps[r.value].seqno == s
    ensures r.Some? ==> forall j :: 0 <= j < r.value ==> ps[j].seqno != s
  {
    if ps == [] then None
    else if ps[0].seqno == s then Some(0)
    else
      match FindSeq(ps[1..], s)
      case None => None
      case Some(k) => Some(k + 1)
  }

  /** The outcome of udpstream_read: the new state, the return value and
      the bytes copied to the caller's buffer. */
  datatype ReadResult = ReadResult(conn: Conn, n: int, bytes: seq<byte>)

  function ReadConn(c: Conn, size: nat): (r: ReadResult)
    ensures |r.bytes| <= size
    ensures r.conn.sent == c.sent && r.conn.outseq == c.outseq && r.conn.outbox == c.outbox && r.conn.buf == c.buf
  {
    match FindSeq(c.recv, c.inseq)
    case None => ReadResult(c, -1, [])
    case Some(i) =>
      var p := c.recv[i];
      if |p.data| > size then
        ReadResult(c.(recv := c.recv[i := Packet(p.seqno, p.data[size..])]), size, p.data[..size])
      else
        ReadResult(c.(recv := c.recv[..i] + c.recv[i + 1..], inseq := (c.inseq + 1) % SEQMOD),
                   |p.data|, p.data)
  }

  /** memmove of k entries from index src to index dst of an array of |a|
      entries; None when either range runs past the array. The entries are
      taken as they were before the move, as memmove promises for
      overlapping ranges. */
  function Memmove<T>(a: seq<T>, dst: nat, src: nat, k: nat): (r: Option<seq<T>>)
    ensures r.Some? <==> dst + k <= |a| && src + k <= |a|
    ensures r.Some? ==> |r.value| == |a|
    ensures r.Some? ==> forall j :: dst <= j < dst + k ==> r.value[j] == a[j - dst + src]
    ensures r.Some? ==> forall j :: 0 <= j < |a| && !(dst <= j < dst + k) ==> r.value[j] == a[j]
  {
    if dst + k > |a| || src + k > |a| then None
    else Some(a[..dst] + a[src..src + k] + a[dst + k..])
  }

  /** Dropping entry i of the n live entries of a packet array as the ACK
      loop of udpstream_readsocket and udpstream_read do: after the count
      drops to n - 1, n - 1 entries are moved down from i + 1. */
  function RemoveAsWritten<T>(a: seq<T>, n: nat, i: nat): Option<seq<T>>
    requires i < n <= |a|
  {
    Memmove(a, i, i + 1, n - 1)
  }

  /** The same removal moving only the n - 1 - i entries after i. */
  function RemoveIntended<T>(a: seq<T>, n: nat, i: nat): Option<seq<T>>
    requires i < n <= |a|
  {
    Memmove(a, i, i + 1, n - 1 - i)
  }

  /** realloc leaves the array exactly n entries long after an append; in
      that state the move as written runs past the end for every entry but
      the first. */
  lemma RemoveAsWrittenOverruns<T>(a: seq<T>, i: nat)
    requires i < |a|
    ensures RemoveAsWritten(a, |a|, i).None? <==> i > 0
  {
  }

  /** An ACK for the second of two sent packets. */
  lemma RemoveSecondOfTwo<T>(p: T, q: T)
    ensures RemoveAsWritten([p, q], 2, 1) == None
  {
  }

  /** The intended move never leaves the array, and the n - 1 live entries
      are the old ones without entry i, which is the list ReadConn keeps and
      Without builds one match at a time. */
  lemma RemoveIntendedLive<T>(a: seq<T>, n: nat, i: nat)
    requires i < n <= |a|
    ensures RemoveIntended(a, n, i).Some?
    ensures RemoveIntended(a, n, i).value[..n - 1] == a[..i] + a[i + 1..n]
    ensures RemoveIntended(a, n, i).value[n - 1..] == a[n - 1..]
  {
    var r := RemoveIntended(a, n, i).value;
    assert r == a[..i] + a[i + 1..n] + a[n - 1..];
  }

  /** The recv list udpstream_read leaves once a whole packet is copied out
      is the live part of the intended move. */
  lemma ReadConnRemoves(c: Conn, size: nat)
    requires FindSeq(c.recv, c.inseq).Some?
    requires |c.recv[FindSeq(c.recv, c.inseq).value].data| <= size
    ensures ReadConn(c, size).conn.recv
            == RemoveIntended(c.recv, |c.recv|, FindSeq(c.recv, c.inseq).value).value[..|c.recv| - 1]
  {
    RemoveIntendedLive(c.recv, |c.recv|, FindSeq(c.recv, c.inseq).value);
  }

  function WriteConn(c: Conn, data: seq<byte>): (r: Conn)
    requires |data| < 0x1_0000_0000
    ensures HasSeq(r.sent, c.outseq) && |r.sent| == |c.sent| + 1 && r.sent[..|c.sent|] == c.sent
    ensures r.outseq == (c.outseq + 1) % SEQMOD && |r.outbox| == |c.outbox| + 2
    ensures r.recv == c.recv && r.inseq == c.inseq && r.buf == c.buf
  {
    assert (c.sent + [Packet(c.outseq, data)])[|c.sent|].seqno == c.outseq;
    c.(sent := c.sent + [Packet(c.outseq, data)],
       outbox := c.outbox + Send(TYPE_PAYLOAD, c.outseq, data),
       outseq := (c.outseq + 1) % SEQMOD)
  }

  /** udpstream_getaddr: the address cut to the caller's capacity. */
  function AddrUpTo(addr: seq<byte>, cap: nat): (a: seq<byte>)
    ensures a <= addr
    ensures |a| == if cap < |addr| then cap else |addr|
  {
    if cap < |addr| then addr[..cap] else addr
  }

  // ---- Lemmas ----

  lemma {:induction false} MissingFromLength(inseq: u16, i: nat, count: nat, recv: seq<Packet>)
    ensures |MissingFrom(inseq, i, count, recv)| <= if i >= count then 0 else count - i
    decreases count - i
  {
    if i < count {
      MissingFromLength(inseq, i + 1, count, recv);
    }
  }


  /** The header stream_send writes decodes, in the frame loop, to the same
      size, sequence number and type, and the payload follows it. */
  lemma NextFrameOfEncode(f: Frame, tail: seq<byte>)
    requires Sized(f)
    ensures FrameReady(Encode(f) + tail)
    ensures NextFrame(Encode(f) + tail) == f
    ensures (Encode(f) + tail)[HEADERSIZE + |f.payload|..] == tail
  {
    Pow256Values();
    var b := Encode(f) + tail;
    var n := |f.payload|;
    assert b[..4] == LE(n, 4);
    FromLEOfLE(n, 4);
    assert b[4..6] == LE(f.seqno, 2);
    FromLEOfLE(f.seqno, 2);
    assert b[HEADERSIZE..HEADERSIZE + n] == f.payload;
  }

  /** A frame that is not yet completely buffered is not consumed: the
      loop stops and the buffer keeps its bytes. */
  lemma PartialFrameWaits(c: Conn, f: Frame, k: nat)
    requires Sized(f) && k < |Encode(f)|
    requires c.buf == Encode(f)[..k]
    ensures !FrameReady(c.buf)
    ensures Drain(c) == c
  {
    if k >= HEADERSIZE {
      Pow256Values();
      assert c.buf[..4] == LE(|f.payload|, 4);
      FromLEOfLE(|f.payload|, 4);
    }
  }

  /** The effect of consuming a frame does not depend on the bytes behind it. */
  lemma OnFrameBuf(c: Conn, f: Frame, b: seq<byte>)
    ensures OnFrame(c.(buf := b), f) == OnFrame(c, f).(buf := b)
  {
  }

  /** Consuming an encoded frame takes exactly its 7 + |payload| bytes off
      the front and acts on that frame. */
  lemma ConsumeEncoded(c: Conn, f: Frame, tail: seq<byte>)
    requires Sized(f)
    ensures FrameReady(Encode(f) + tail)
    ensures Consume(c.(buf := Encode(f) + tail)) == OnFrame(c.(buf := tail), f)
  {
    NextFrameOfEncode(f, tail);
  }

  /** The frame loop over a buffer of whole frames followed by an incomplete
      tail acts on those frames in order and leaves exactly the tail. */
  lemma {:induction false} DrainFrames(c: Conn, fs: seq<Frame>, tail: seq<byte>)
    requires forall i :: 0 <= i < |fs| ==> Sized(fs[i])
    requires !FrameReady(tail)
    requires c.buf == EncodeAll(fs) + tail
    ensures Drain(c) == OnFrames(c.(buf := tail), fs)
    decreases |fs|
  {
    if fs != [] {
      var f := fs[0];
      var rest := EncodeAll(fs[1..]) + tail;
      assert c.buf == Encode(f) + rest;
      ConsumeEncoded(c, f, rest);
      var c1 := OnFrame(c.(buf := rest), f);
      assert Consume(c) == c1;
      DrainFrames(c1, fs[1..], tail);
      OnFrameBuf(c.(buf := rest), f, tail);
      assert c1.(buf := tail) == OnFrame(c.(buf := tail), f);
    } else {
      assert c.buf == tail;
    }
  }

  /** Bytes appended behind a complete frame change neither that frame nor
      its effect. */
  lemma ConsumeExtend(c: Conn, d: seq<byte>)
    requires FrameReady(c.buf)
    ensures FrameReady(c.buf + d)
    ensures Consume(c.(buf := c.buf + d)) == Consume(c).(buf := Consume(c).buf + d)
  {
    var b := c.buf + d;
    assert b[..4] == c.buf[..4];
    assert b[4..6] == c.buf[4..6];
    var n := SizeField(c.buf);
    assert b[HEADERSIZE..HEADERSIZE + n] == c.buf[HEADERSIZE..HEADERSIZE + n];
    assert b[HEADERSIZE + n..] == c.buf[HEADERSIZE + n..] + d;
  }

  /** How the bytes arrive, in one datagram or in two, does not matter:
      draining, appending and draining again is draining once. */
  lemma {:induction false} DrainAppend(c: Conn, d: seq<byte>)
    ensures Drain(Drain(c).(buf := Drain(c).buf + d)) == Drain(c.(buf := c.buf + d))
    decreases |c.buf|
  {
    if FrameReady(c.buf) {
      ConsumeExtend(c, d);
      DrainAppend(Consume(c), d);
    }
  }

  /** Received datagrams, one call of udpstream_readsocket each. */
  function DeliverAll(c: Conn, ds: seq<seq<byte>>): Conn
    decreases |ds|
  {
    if ds == [] then c else DeliverAll(Deliver(c, ds[0]), ds[1..])
  }

  function Concat(ds: seq<seq<byte>>): seq<byte>
  {
    if ds == [] then [] else ds[0] + Concat(ds[1..])
  }

  /** Delivering datagrams of at most 1024 bytes one at a time to a drained
      stream is draining their concatenation once. */
  lemma {:induction false} DeliverAllConcat(c: Conn, ds: seq<seq<byte>>)
    requires forall i :: 0 <= i < |ds| ==> |ds[i]| <= RECVMAX
    requires !FrameReady(c.buf)
    ensures DeliverAll(c, ds) == Drain(c.(buf := c.buf + Concat(ds)))
    decreases |ds|
  {
    if ds == [] {
      assert c.(buf := c.buf + Concat(ds)) == c;
    } else {
      var x := c.(buf := c.buf + ds[0]);
      var rest := Concat(ds[1..]);
      DeliverFirst(c, ds);
      DeliverAllConcat(Drain(x), ds[1..]);
      DrainAppend(x, rest);
      ConcatFirst(c, ds);
    }
  }

  lemma DeliverFirst(c: Conn, ds: seq<seq<byte>>)
    requires ds != [] && |ds[0]| <= RECVMAX
    ensures DeliverAll(c, ds) == DeliverAll(Drain(c.(buf := c.buf + ds[0])), ds[1..])
  {
  }

  lemma ConcatFirst(c: Conn, ds: seq<seq<byte>>)
    requires ds != []
    ensures c.(buf := c.buf + ds[0]).(buf := c.buf + ds[0] + Concat(ds[1..])) == c.(buf := c.buf + Concat(ds))
  {
    assert c.buf + ds[0] + Concat(ds[1..]) == c.buf + Concat(ds);
  }

  // ---- Modular sequence-number arithmetic ----

  lemma OffsetOf(inseq: u16, j: nat)
    requires j < SEQMOD
    ensures Offset(inseq, ((inseq + j) % SEQMOD) as u16) == j
  {
  }

  lemma OffsetBack(inseq: u16, x: u16)
    ensures (inseq + Offset(inseq, x)) % SEQMOD == x
  {
  }

  /** udpstream_requestresend's list from position i on: exactly the
      absent sequence numbers at offsets i to count - 1, by increasing offset. */
  lemma MissingFromSpec(inseq: u16, i: nat, count: nat, recv: seq<Packet>)
    requires i <= count <= SEQMOD
    ensures forall x: u16 :: x in MissingFrom(inseq, i, count, recv) <==>
      i <= Offset(inseq, x) < count && !HasSeq(recv, x)
    ensures forall k, l :: 0 <= k < l < |MissingFrom(inseq, i, count, recv)| ==>
      Offset(inseq, MissingFrom(inseq, i, count, recv)[k]) < Offset(inseq, MissingFrom(inseq, i, count, recv)[l])
  {
    MissingFromMembers(inseq, i, count, recv);
    MissingFromIncreasing(inseq, i, count, recv);
  }

  /** Every number in the list lies at an offset from i to count - 1. */
  lemma {:induction false} MissingFromBounds(inseq: u16, i: nat, count: nat, recv: seq<Packet>)
    requires i <= count <= SEQMOD
    ensures forall k :: 0 <= k < |MissingFrom(inseq, i, count, recv)| ==>
      i <= Offset(inseq, MissingFrom(inseq, i, count, recv)[k]) < count
    decreases count - i
  {
    if i < count {
      var s := SeqAt(inseq, i);
      OffsetOf(inseq, i);
      MissingFromBounds(inseq, i + 1, count, recv);
      var t := MissingFrom(inseq, i + 1, count, recv);
      var h: seq<u16> := if HasSeq(recv, s) then [] else [s];
      var m := MissingFrom(inseq, i, count, recv);
      assert m == h + t;
      forall k | 0 <= k < |m|
        ensures i <= Offset(inseq, m[k]) < count
      {
        if k >= |h| {
          assert m[k] == t[k - |h|];
        }
      }
    }
  }

  /** A number is in the list exactly when its offset is from i to
      count - 1 and no packet carrying it has been received. */
  lemma {:induction false} MissingFromMembers(inseq: u16, i: nat, count: nat, recv: seq<Packet>)
    requires i <= count <= SEQMOD
    ensures forall x: u16 :: x in MissingFrom(inseq, i, count, recv) <==>
      i <= Offset(inseq, x) < count && !HasSeq(recv, x)
    decreases count - i
  {
    if i < count {
      var s := SeqAt(inseq, i);
      OffsetOf(inseq, i);
      MissingFromMembers(inseq, i + 1, count, recv);
      var t := MissingFrom(inseq, i + 1, count, recv);
      var h: seq<u16> := if HasSeq(recv, s) then [] else [s];
      var m := MissingFrom(inseq, i, count, recv);
      assert m == h + t;
      forall x: u16 ensures x in m <==> i <= Offset(inseq, x) < count && !HasSeq(recv, x) {
        if Offset(inseq, x) == i {
          OffsetBack(inseq, x);
          assert x == s;
        }
      }
    }
  }

  /** The list is in increasing order of offset. */
  lemma {:induction false} MissingFromIncreasing(inseq: u16, i: nat, count: nat, recv: seq<Packet>)
    requires i <= count <= SEQMOD
    ensures forall k, l :: 0 <= k < l < |MissingFrom(inseq, i, count, recv)| ==>
      Offset(inseq, MissingFrom(inseq, i, count, recv)[k]) < Offset(inseq, MissingFrom(inseq, i, count, recv)[l])
    decreases count - i
  {
    if i < count {
      var s := SeqAt(inseq, i);
      OffsetOf(inseq, i);
      MissingFromIncreasing(inseq, i + 1, count, recv);
      MissingFromBounds(inseq, i + 1, count, recv);
      var t := MissingFrom(inseq, i + 1, count, recv);
      var h: seq<u16> := if HasSeq(recv, s) then [] else [s];
      var m := MissingFrom(inseq, i, count, recv);
      assert m == h + t;
      forall k, l | 0 <= k < l < |m|
        ensures Offset(inseq, m[k]) < Offset(inseq, m[l])
      {
        assert m[l] == t[l - |h|];
        if k >= |h| {
          assert m[k] == t[k - |h|];
        }
      }
    }
  }

  /** The resend request lists, ascending from inseq, exactly the sequence
      numbers between inseq and sq (sq excluded, modulo 65536) that are
      absent from the received list; it is empty exactly when none is absent. */
  lemma MissingSpec(inseq: u16, sq: u16, recv: seq<Packet>)
    ensures forall x: u16 :: x in Missing(inseq, sq, recv) <==>
      Offset(inseq, x) < Offset(inseq, sq) && !HasSeq(recv, x)
    ensures forall k, l :: 0 <= k < l < |Missing(inseq, sq, recv)| ==>
      Offset(inseq, Missing(inseq, sq, recv)[k]) < Offset(inseq, Missing(inseq, sq, recv)[l])
    ensures Missing(inseq, sq, recv) == [] <==>
      forall x: u16 :: Offset(inseq, x) < Offset(inseq, sq) ==> HasSeq(recv, x)
  {
    MissingFromSpec(inseq, 0, Offset(inseq, sq), recv);
    var m := Missing(inseq, sq, recv);
    if m != [] {
      assert m[0] in m;
    }
  }

  // ---- Acknowledgements ----

  /** Filtering by sequence number keeps the order of what remains. */
  lemma {:induction false} WithoutConcat(a: seq<Packet>, b: seq<Packet>, s: u16)
    ensures Without(a + b, s) == Without(a, s) + Without(b, s)
    decreases |a|
  {
    if a != [] {
      assert (a + b)[1..] == a[1..] + b;
      WithoutConcat(a[1..], b, s);
    } else {
      assert a + b == b;
    }
  }

  /** Without on a prefix one packet longer. */
  lemma WithoutSnoc(ps: seq<Packet>, j: nat, s: u16)
    requires j < |ps|
    ensures Without(ps[..j + 1], s) ==
      Without(ps[..j], s) + (if ps[j].seqno == s then [] else [ps[j]])
  {
    assert ps[..j + 1] == ps[..j] + [ps[j]];
    WithoutConcat(ps[..j], [ps[j]], s);
  }

  /** A packet numbered s at the cursor i, where the j-th packet of orig
      sits, is cut out of ps; the cursor stays. */
  lemma DropHit(orig: seq<Packet>, j: nat, ps: seq<Packet>, i: nat, s: u16)
    requires j <= |orig| && i < |ps| && ps[..i] == Without(orig[..j], s) && ps[i..] == orig[j..]
    requires ps[i].seqno == s
    ensures j < |orig|
    ensures (ps[..i] + ps[i + 1..])[..i] == Without(orig[..j + 1], s)
    ensures (ps[..i] + ps[i + 1..])[i..] == orig[j + 1..]
  {
    assert ps[i..][0] == ps[i] && ps[i..][1..] == ps[i + 1..];
    WithoutSnoc(orig, j, s);
    assert (ps[..i] + ps[i + 1..])[..i] == ps[..i];
  }

  /** Any other packet at the cursor is stepped over. */
  lemma DropKeep(orig: seq<Packet>, j: nat, ps: seq<Packet>, i: nat, s: u16)
    requires j <= |orig| && i < |ps| && ps[..i] == Without(orig[..j], s) && ps[i..] == orig[j..]
    requires ps[i].seqno != s
    ensures j < |orig|
    ensures ps[..i + 1] == Without(orig[..j + 1], s) && ps[i + 1..] == orig[j + 1..]
  {
    assert ps[i..][0] == ps[i] && ps[i..][1..] == ps[i + 1..];
    WithoutSnoc(orig, j, s);
    assert ps[..i + 1] == ps[..i] + [ps[i]];
  }

  /** The removal loop ends with every packet of orig looked at. */
  lemma DropDone(orig: seq<Packet>, j: nat, ps: seq<Packet>, i: nat, s: u16)
    requires j <= |orig| && i <= |ps| && ps[..i] == Without(orig[..j], s) && ps[i..] == orig[j..]
    requires i >= |ps|
    ensures ps == Without(orig, s)
  {
    assert ps[..i] == ps;
    assert orig[j..] == [];
    assert orig[..j] == orig;
  }

  /** Taking apart w + t where t starts. */
  lemma SplitAt(w: seq<Packet>, t: seq<Packet>)
    requires t != []
    ensures (w + t)[|w|] == t[0] && (w + t)[..|w|] == w && (w + t)[|w| + 1..] == t[1..]
    ensures w + t == (w + [t[0]]) + t[1..]
  {
    assert t == [t[0]] + t[1..];
  }

  lemma AckedSeqOf(x: u16)
    ensures Pow256(2) == SEQMOD
    ensures |LE(x, 2)| == 2 && AckedSeq(LE(x, 2)) == x
  {
    Pow256Values();
    FromLEOfLE(x, 2);
  }

  /** An encoded ACK frame: with a 2-byte payload it drops every sent
      packet carrying the acknowledged number; with any other size it
      changes nothing but the buffer. */
  lemma AckFrame(c: Conn, sq: u16, payload: seq<byte>, tail: seq<byte>)
    requires |payload| < 0x1_0000_0000
    ensures FrameReady(Encode(Frame(TYPE_ACK, sq, payload)) + tail)
    ensures Consume(c.(buf := Encode(Frame(TYPE_ACK, sq, payload)) + tail)) ==
      c.(buf := tail, sent := if |payload| == 2 then Without(c.sent, AckedSeq(payload)) else c.sent)
  {
    ConsumeEncoded(c, Frame(TYPE_ACK, sq, payload), tail);
  }

  /** An encoded RESEND frame is consumed with no other effect. */
  lemma ResendFrame(c: Conn, sq: u16, payload: seq<byte>, tail: seq<byte>)
    requires |payload| < 0x1_0000_0000
    ensures FrameReady(Encode(Frame(TYPE_RESEND, sq, payload)) + tail)
    ensures Consume(c.(buf := Encode(Frame(TYPE_RESEND, sq, payload)) + tail)) == c.(buf := tail)
  {
    ConsumeEncoded(c, Frame(TYPE_RESEND, sq, payload), tail);
  }

  /** Any other encoded frame appends (sequence number, payload) to the
      received list and sends one ACK carrying its sequence number, followed
      by at most one RESEND request and nothing else. */
  lemma PayloadFrame(c: Conn, f: Frame, tail: seq<byte>)
    requires Sized(f) && f.kind != TYPE_ACK && f.kind != TYPE_RESEND
    ensures FrameReady(Encode(f) + tail)
    ensures var r := Consume(c.(buf := Encode(f) + tail));
      var extra := ResendRequest(c.inseq, f.seqno, r.recv);
      r.buf == tail && r.sent == c.sent && r.inseq == c.inseq && r.outseq == c.outseq &&
      r.recv == c.recv + [Packet(f.seqno, f.payload)] &&
      r.outbox == c.outbox + [Header(2, 0, TYPE_ACK), LE(f.seqno, 2)] + extra &&
      (extra == [] || (|extra| == 2 && extra[0][6] == TYPE_RESEND))
  {
    Pow256Values();
    ConsumeEncoded(c, f, tail);
  }

  /** Write then ACK: when the peer's ACK for a written packet comes back to
      a stream with an empty receive buffer, the packet leaves the list of
      unacknowledged packets and nothing else in that list changes. */
  lemma AckClearsWrite(c: Conn, data: seq<byte>)
    requires |data| < 0x1_0000_0000
    requires c.buf == []
    requires !HasSeq(c.sent, c.outseq)
    ensures var w := WriteConn(c, data);
      w.sent == c.sent + [Packet(c.outseq, data)] &&
      DeliverAll(w, Send(TYPE_ACK, 0, LE(c.outseq, 2))).sent == c.sent
  {
    var q := c.outseq;
    var w := WriteConn(c, data);
    AckedSeqOf(q);
    var ack := Frame(TYPE_ACK, 0, LE(q, 2));
    var ds := Send(TYPE_ACK, 0, LE(q, 2));
    assert Concat(ds) == Encode(ack) by {
      assert Concat(ds[2..]) == [];
    }
    DeliverAllConcat(w, ds);
    assert EncodeAll([ack]) == Encode(ack);
    assert w.buf + Concat(ds) == EncodeAll([ack]) + [];
    DrainFrames(w.(buf := w.buf + Concat(ds)), [ack], []);
    WithoutConcat(c.sent, [Packet(q, data)], q);
  }

  // ---- Reading in order ----

  /** The sequence number k places after inseq. */
  function SeqAt(inseq: u16, k: nat): u16
  {
    ((inseq + k) % SEQMOD) as u16
  }

  /** The payload of the first received packet numbered s. */
  function Payload(ps: seq<Packet>, s: u16): seq<byte>
    requires HasSeq(ps, s)
  {
    ps[FindSeq(ps, s).value].data
  }

  /** Removing a packet numbered otherwise than s leaves the first packet
      numbered s where it was. */
  lemma FindSeqRemove(ps: seq<Packet>, i: nat, s: u16)
    requires i < |ps| && ps[i].seqno != s
    ensures HasSeq(ps, s) <==> HasSeq(ps[..i] + ps[i + 1..], s)
    ensures HasSeq(ps, s) ==> Payload(ps[..i] + ps[i + 1..], s) == Payload(ps, s)
  {
    if HasSeq(ps, s) {
      FindSeqRemoveKeeps(ps, i, s);
    }
    if HasSeq(ps[..i] + ps[i + 1..], s) {
      FindSeqRemoveBack(ps, i, s);
    }
  }

  lemma FindSeqRemoveKeeps(ps: seq<Packet>, i: nat, s: u16)
    requires i < |ps| && ps[i].seqno != s && HasSeq(ps, s)
    ensures HasSeq(ps[..i] + ps[i + 1..], s)
    ensures Payload(ps[..i] + ps[i + 1..], s) == Payload(ps, s)
  {
    var qs := ps[..i] + ps[i + 1..];
    var j := FindSeq(ps, s).value;
    var j' := if j < i then j else j - 1;
    assert qs[j'] == ps[j];
    assert forall m :: 0 <= m < j' ==> qs[m] == ps[if m < i then m else m + 1];
  }

  lemma FindSeqRemoveBack(ps: seq<Packet>, i: nat, s: u16)
    requires i < |ps| && HasSeq(ps[..i] + ps[i + 1..], s)
    ensures HasSeq(ps, s)
  {
    var qs := ps[..i] + ps[i + 1..];
    var k :| 0 <= k < |qs| && qs[k].seqno == s;
    assert ps[if k < i then k else k + 1] == qs[k];
  }

  /** n successive reads with room for size bytes. */
  function ReadMany(c: Conn, size: nat, n: nat): (r: (Conn, seq<seq<byte>>))
    ensures |r.1| == n
    decreases n
  {
    if n == 0 then (c, [])
    else
      var first := ReadConn(c, size);
      var rest := ReadMany(first.conn, size, n - 1);
      (rest.0, [first.bytes] + rest.1)
  }

  /** A read with room for the whole next packet returns its payload,
      drops it and advances inseq. */
  lemma ReadWhole(c: Conn, size: nat)
    requires Ready(c) && |Payload(c.recv, c.inseq)| <= size
    ensures FindSeq(c.recv, c.inseq).Some?
    ensures var i := FindSeq(c.recv, c.inseq).value;
      var r := ReadConn(c, size);
      r.bytes == Payload(c.recv, SeqAt(c.inseq, 0)) && r.n == |r.bytes| &&
      r.conn == c.(recv := c.recv[..i] + c.recv[i + 1..], inseq := SeqAt(c.inseq, 1))
  {
  }

  /** After such a read, the packet k + 1 places after the old inseq is
      k places after the new one, with the same payload. */
  lemma ReadWholeKeeps(c: Conn, size: nat, k: nat)
    requires Ready(c) && |Payload(c.recv, c.inseq)| <= size
    requires k + 1 < SEQMOD && HasSeq(c.recv, SeqAt(c.inseq, k + 1))
    ensures var c1 := ReadConn(c, size).conn;
      HasSeq(c1.recv, SeqAt(c1.inseq, k)) &&
      Payload(c1.recv, SeqAt(c1.inseq, k)) == Payload(c.recv, SeqAt(c.inseq, k + 1))
  {
    ReadWhole(c, size);
    SeqAtShift(c.inseq, k);
    FindSeqRemove(c.recv, FindSeq(c.recv, c.inseq).value, SeqAt(c.inseq, k + 1));
  }

  lemma SeqAtShift(x: u16, k: nat)
    requires k + 1 < SEQMOD
    ensures SeqAt(SeqAt(x, 1), k) == SeqAt(x, k + 1) && SeqAt(x, k + 1) != x
  {
    OffsetOf(x, k + 1);
  }

  /** The n sequence numbers from inseq on are all in the received list. */
  predicate Present(c: Conn, n: nat)
  {
    forall k :: 0 <= k < n ==> HasSeq(c.recv, SeqAt(c.inseq, k))
  }

  /** r is what n reads in order return: inseq advanced by n, n packets
      gone, and the payloads numbered inseq, inseq + 1, ... in that order. */
  predicate InOrder(c: Conn, n: nat, r: (Conn, seq<seq<byte>>))
    requires Present(c, n)
  {
    r.0.inseq == (c.inseq + n) % SEQMOD &&
    |r.0.recv| == |c.recv| - n &&
    |r.1| == n &&
    forall k :: 0 <= k < n ==> r.1[k] == Payload(c.recv, SeqAt(c.inseq, k))
  }

  /** c1 holds the n numbers after c's inseq, one place earlier, with the
      same payloads. */
  predicate Shifted(c: Conn, c1: Conn, n: nat)
    requires Present(c, n + 1) && Present(c1, n)
  {
    forall k :: 0 <= k < n ==>
      Payload(c1.recv, SeqAt(c1.inseq, k)) == Payload(c.recv, SeqAt(c.inseq, k + 1))
  }

  /** Packets received in any order are read in sequence order, each
      exactly once: when the n numbers from inseq on are all present and
      every packet fits the read size, n reads return their payloads by
      increasing sequence number and advance inseq by n. */
  lemma {:induction false} InOrderDelivery(c: Conn, size: nat, n: nat)
    requires n <= SEQMOD && Present(c, n) && Fits(c.recv, size)
    ensures InOrder(c, n, ReadMany(c, size, n))
    decreases n
  {
    if n > 0 {
      var first := ReadConn(c, size);
      ReadFirst(c, size, n);
      InOrderDelivery(first.conn, size, n - 1);
      ReadManyFirst(c, size, n);
      InOrderCons(c, first.conn, n, first.bytes, ReadMany(first.conn, size, n - 1));
    }
  }

  /** The inductive step of InOrderDelivery: the payload numbered inseq,
      then what n - 1 in-order reads return from the stream c1 left by the
      first read. */
  lemma InOrderCons(c: Conn, c1: Conn, n: nat, b: seq<byte>, rest: (Conn, seq<seq<byte>>))
    requires 0 < n <= SEQMOD && Present(c, n) && Present(c1, n - 1) && Shifted(c, c1, n - 1)
    requires b == Payload(c.recv, SeqAt(c.inseq, 0))
    requires c1.inseq == (c.inseq + 1) % SEQMOD && |c1.recv| == |c.recv| - 1
    requires InOrder(c1, n - 1, rest)
    ensures InOrder(c, n, (rest.0, [b] + rest.1))
  {
    var out := [b] + rest.1;
    ModShift(c.inseq, n);
    forall k | 0 <= k < n
      ensures out[k] == Payload(c.recv, SeqAt(c.inseq, k))
    {
      if k > 0 {
        assert out[k] == rest.1[k - 1];
      }
    }
  }

  lemma ReadManyFirst(c: Conn, size: nat, n: nat)
    requires n > 0
    ensures ReadMany(c, size, n) ==
      (ReadMany(ReadConn(c, size).conn, size, n - 1).0,
       [ReadConn(c, size).bytes] + ReadMany(ReadConn(c, size).conn, size, n - 1).1)
  {
  }

  /** The first of those reads: it returns the payload numbered inseq, and
      what remains still holds the next n - 1 numbers, one place earlier. */
  lemma ReadFirst(c: Conn, size: nat, n: nat)
    requires 0 < n <= SEQMOD && Present(c, n) && Fits(c.recv, size)
    ensures var r := ReadConn(c, size);
      r.bytes == Payload(c.recv, SeqAt(c.inseq, 0)) &&
      r.conn.inseq == (c.inseq + 1) % SEQMOD && |r.conn.recv| == |c.recv| - 1 && Fits(r.conn.recv, size) &&
      Present(r.conn, n - 1) && Shifted(c, r.conn, n - 1)
  {
    assert HasSeq(c.recv, SeqAt(c.inseq, 0));
    assert SeqAt(c.inseq, 0) == c.inseq;
    ReadWhole(c, size);
    var c1 := ReadConn(c, size).conn;
    forall k | 0 <= k < n - 1
      ensures HasSeq(c1.recv, SeqAt(c1.inseq, k))
      ensures Payload(c1.recv, SeqAt(c1.inseq, k)) == Payload(c.recv, SeqAt(c.inseq, k + 1))
    {
      assert HasSeq(c.recv, SeqAt(c.inseq, k + 1));
      ReadWholeKeeps(c, size, k);
    }
    FitsRemove(c.recv, size, FindSeq(c.recv, c.inseq).value);
  }

  /** Every received packet fits in a read of size bytes. */
  predicate Fits(ps: seq<Packet>, size: nat)
  {
    forall i :: 0 <= i < |ps| ==> |ps[i].data| <= size
  }

  lemma FitsRemove(ps: seq<Packet>, size: nat, i: nat)
    requires Fits(ps, size) && i < |ps|
    ensures Fits(ps[..i] + ps[i + 1..], size)
  {
    var qs := ps[..i] + ps[i + 1..];
    forall m | 0 <= m < |qs|
      ensures |qs[m].data| <= size
    {
      if m < i {
        assert qs[m] == ps[m];
      } else {
        assert qs[m] == ps[m + 1];
      }
    }
  }

  lemma ModShift(x: u16, n: nat)
    requires n > 0
    ensures ((x + 1) % SEQMOD + (n - 1)) % SEQMOD == (x + n) % SEQMOD
  {
  }

  /** Shortening the first packet numbered s keeps it first. */
  lemma FindSeqUpdate(ps: seq<Packet>, s: u16, rest: seq<byte>)
    requires HasSeq(ps, s)
    ensures FindSeq(ps[FindSeq(ps, s).value := Packet(s, rest)], s) == FindSeq(ps, s)
  {
    var i := FindSeq(ps, s).value;
    var qs := ps[i := Packet(s, rest)];
    assert qs[i].seqno == s;
    assert forall m :: 0 <= m < i ==> qs[m] == ps[m];
  }

  /** A payload larger than the read size is delivered in pieces: the first
      read returns its first size bytes and leaves inseq alone, a second read
      with room for the remainder returns the rest and only then advances
      inseq and drops the packet. */
  lemma PartialRead(c: Conn, size: nat, size2: nat)
    requires Ready(c)
    requires |Payload(c.recv, c.inseq)| > size
    requires size2 >= |Payload(c.recv, c.inseq)| - size
    ensures var i := FindSeq(c.recv, c.inseq).value;
      var r1 := ReadConn(c, size);
      var r2 := ReadConn(r1.conn, size2);
      r1.n == size && r1.conn.inseq == c.inseq &&
      r1.bytes + r2.bytes == c.recv[i].data &&
      r2.n == |c.recv[i].data| - size &&
      r2.conn.inseq == (c.inseq + 1) % SEQMOD &&
      r2.conn.recv == c.recv[..i] + c.recv[i + 1..]
  {
    var p := c.recv[FindSeq(c.recv, c.inseq).value];
    ReadCut(c, size);
    ReadRest(c, p.data[size..], size2);
    assert p.data[..size] + p.data[size..] == p.data;
  }

  /** The first, partial read: the packet keeps its place and its number
      and loses its first size bytes. */
  lemma ReadCut(c: Conn, size: nat)
    requires Ready(c) && |Payload(c.recv, c.inseq)| > size
    ensures var i := FindSeq(c.recv, c.inseq).value;
      var p := c.recv[i];
      ReadConn(c, size) == ReadResult(c.(recv := c.recv[i := Packet(c.inseq, p.data[size..])]), size, p.data[..size])
  {
  }

  /** A read of what is left of the first packet numbered inseq, when it
      fits, returns it, drops the packet and advances inseq. */
  lemma ReadRest(c: Conn, rest: seq<byte>, size2: nat)
    requires Ready(c) && |rest| <= size2
    ensures var i := FindSeq(c.recv, c.inseq).value;
      ReadConn(c.(recv := c.recv[i := Packet(c.inseq, rest)]), size2) ==
      ReadResult(c.(recv := c.recv[..i] + c.recv[i + 1..], inseq := (c.inseq + 1) % SEQMOD), |rest|, rest)
  {
    var i := FindSeq(c.recv, c.inseq).value;
    var ps := c.recv[i := Packet(c.inseq, rest)];
    FindSeqUpdate(c.recv, c.inseq, rest);
    assert ps[..i] == c.recv[..i];
    assert ps[i + 1..] == c.recv[i + 1..];
  }
}
