/** The value-level side of peer.c: the four packets of a command, the
    per-peer receive machine that reassembles them, name-matched dispatch,
    the `peers` list codec, the choice of peers to connect to, and the
    bootstrap list format. The classes of module Peers are proved against
    these functions. */
module PeerProto {
  import opened Bytes
  import opened Wrappers
  import opened UdpFrames

  /** GOOD_NUMBER_OF_PEERS: getpeers stops connecting at this many peers. */
  const GOOD_NUMBER_OF_PEERS: nat := 20
  /** sizeof(struct sockaddr): the largest address getpeers accepts. */
  const SOCKADDR_SIZE: nat := 16
  /** sizeof(struct sockaddr_storage): the capacity peer_new passes to
      udpstream_getaddr. */
  const ADDRCAP: nat := 128

  /** The names peer_init registers, as bytes: "getpeers" and "peers". */
  const GETPEERS: seq<byte> := [103, 101, 116, 112, 101, 101, 114, 115]
  const PEERS: seq<byte> := [112, 101, 101, 114, 115]

  // ---- Command framing (peer_sendcmd) ----

  /** The four writes of peer_sendcmd: the name's length as a uint8_t, that
      many bytes of the name, the data length as the uint32_t parameter, and
      that many bytes of data (a longer buffer reaches it with its length
      already wrapped modulo 2^32). */
  function CmdPackets(cmd: seq<byte>, data: seq<byte>): (ps: seq<seq<byte>>)
    ensures |ps| == 4 && forall i :: 0 <= i < 4 ==> |ps[i]| < 0x1_0000_0000
    ensures |data| < 0x1_0000_0000 ==> ps[2] == LE(|data|, 4) && ps[3] == data
    ensures |cmd| < 256 ==> ps[0] == [|cmd|] && ps[1] == cmd
  {
    Pow256Values();
    var n := |cmd| % 256;
    var m := |data| % 0x1_0000_0000;
    [[n], cmd[..n], LE(m, 4), data[..m]]
  }

  /** Successive udpstream_write calls. */
  function WriteAll(c: Conn, ps: seq<seq<byte>>): (r: Conn)
    requires forall i :: 0 <= i < |ps| ==> |ps[i]| < 0x1_0000_0000
    ensures r.recv == c.recv && r.inseq == c.inseq && r.buf == c.buf
    decreases |ps|
  {
    if ps == [] then c else WriteAll(WriteConn(c, ps[0]), ps[1..])
  }

  // ---- The receive machine of peer_handlesocket ----

  /** The receive fields of struct peer: cmdlength, cmdname (None while it
      is null) and datalength. */
  datatype Rx = Rx(cmdlength: byte, cmdname: Option<seq<byte>>, datalength: i32)

  /** The state peer_new gives a peer, and the state after each dispatch. */
  const RxInit: Rx := Rx(0, None, -1)

  /** A completed command: the name as strcmp compares it, the bytes read
      into the data buffer and the data length the callbacks are given. */
  datatype Delivery = Delivery(name: seq<byte>, data: seq<byte>, datalength: i32)

  datatype RxOut = RxOut(rx: Rx, conn: Conn, delivered: Option<Delivery>)

  /** Which branch of the receive machine a state takes: 0 length byte,
      1 name, 2 data length, 3 data. */
  function Stage(rx: Rx): nat
  {
    if rx.cmdlength == 0 then 0
    else if rx.cmdname.None? then 1
    else if rx.datalength < 0 then 2
    else 3
  }

  /** One ready poll for a peer whose handshake is complete: one
      udpstream_read into the field the stage calls for. A read of fewer
      than four bytes of the data length overwrites only that many low bytes
      of the int32_t, which holds -1 until then. */
  function RxStep(rx: Rx, c: Conn): (r: RxOut)
    ensures r.delivered.Some? <==> Stage(rx) == 3
    ensures Stage(rx) == 3 ==> r.rx == RxInit && r.delivered.value.datalength == rx.datalength
                               && |r.delivered.value.data| <= rx.datalength as int
    ensures r.conn.sent == c.sent && r.conn.outseq == c.outseq && r.conn.outbox == c.outbox && r.conn.buf == c.buf
  {
    Pow256Values();
    if rx.cmdlength == 0 then
      var r := ReadConn(c, 1);
      RxOut(rx.(cmdlength := if |r.bytes| == 1 then r.bytes[0] else 0), r.conn, None)
    else if rx.cmdname.None? then
      var r := ReadConn(c, rx.cmdlength);
      RxOut(rx.(cmdname := Some(r.bytes)), r.conn, None)
    else if rx.datalength < 0 then
      var r := ReadConn(c, 4);
      var before := LE(FromInt32(rx.datalength), 4);
      var now := r.bytes + before[|r.bytes|..];
      RxOut(rx.(datalength := ToInt32(FromLE(now))), r.conn, None)
    else
      var r := ReadConn(c, rx.datalength);
      RxOut(RxInit, r.conn, Some(Delivery(CStr(rx.cmdname.value), r.bytes, rx.datalength)))
  }

  /** n ready polls: the final state and the commands completed on the way. */
  function RxRun(rx: Rx, c: Conn, n: nat): (r: (Rx, Conn, seq<Delivery>))
    decreases n
  {
    if n == 0 then (rx, c, [])
    else
      var o := RxStep(rx, c);
      var rest := RxRun(o.rx, o.conn, n - 1);
      (rest.0, rest.1, (if o.delivered.Some? then [o.delivered.value] else []) + rest.2)
  }

  /** The states the machine can be in: no name before a length, no data
      length before a name. */
  predicate WellFormed(rx: Rx)
  {
    (rx.cmdlength == 0 ==> rx.cmdname.None?) && (rx.cmdname.None? ==> rx.datalength == -1)
  }

  /** Each ready poll moves one stage on or stays (an empty packet in stage
      0, a negative length in stage 2); only stage 3 delivers, and it always
      returns to the initial state. */
  lemma RxStepStages(rx: Rx, c: Conn)
    requires WellFormed(rx) && Ready(c)
    ensures var o := RxStep(rx, c);
      WellFormed(o.rx) &&
      (o.delivered.Some? <==> Stage(rx) == 3) &&
      (Stage(rx) == 3 ==> o.rx == RxInit) &&
      (Stage(rx) < 3 ==> Stage(o.rx) == Stage(rx) || Stage(o.rx) == Stage(rx) + 1) &&
      (Stage(rx) == 1 ==> Stage(o.rx) == 2)
  {
    Pow256Values();
    if Stage(rx) == 2 {
      var r := ReadConn(c, 4);
      var before := LE(FromInt32(rx.datalength), 4);
      var now := r.bytes + before[|r.bytes|..];
      assert |now| == 4;
      assert FromLE(now) < 0x1_0000_0000;
    }
  }

  /** The total size of the received list: packets plus payload bytes. */
  function PacketLoad(ps: seq<Packet>): nat
  {
    if ps == [] then 0 else 1 + |ps[0].data| + PacketLoad(ps[1..])
  }

  lemma {:induction false} PacketLoadSplit(ps: seq<Packet>, i: nat)
    requires i < |ps|
    ensures PacketLoad(ps) == PacketLoad(ps[..i]) + 1 + |ps[i].data| + PacketLoad(ps[i + 1..])
    decreases i
  {
    if i > 0 {
      PacketLoadSplit(ps[1..], i - 1);
      assert ps[1..][..i - 1] == ps[1..i];
      assert ps[1..][i..] == ps[i + 1..];
      assert ps[..i][1..] == ps[1..i];
    } else {
      assert ps[..0] == [];
      assert ps[1..] == ps[i + 1..];
    }
  }

  /** A read of at least one byte from a ready stream takes something off
      the received list. */
  lemma ReadShrinks(c: Conn, size: nat)
    requires Ready(c) && size > 0
    ensures PacketLoad(ReadConn(c, size).conn.recv) < PacketLoad(c.recv)
  {
    var i := FindSeq(c.recv, c.inseq).value;
    var r := ReadConn(c, size);
    PacketLoadSplit(c.recv, i);
    if |c.recv[i].data| > size {
      PacketLoadSplit(r.conn.recv, i);
      assert r.conn.recv[..i] == c.recv[..i];
      assert r.conn.recv[i + 1..] == c.recv[i + 1..];
    } else {
      PacketLoadSplit(c.recv, i);
      PacketLoadConcat(c.recv[..i], c.recv[i + 1..]);
    }
  }

  lemma {:induction false} PacketLoadConcat(a: seq<Packet>, b: seq<Packet>)
    ensures PacketLoad(a + b) == PacketLoad(a) + PacketLoad(b)
    decreases |a|
  {
    if a == [] {
      assert a + b == b;
    } else {
      assert (a + b)[1..] == a[1..] + b;
      PacketLoadConcat(a[1..], b);
    }
  }

  /** Every ready poll makes progress: it takes something off the received
      list, or it is a stage-3 poll that read nothing and went back to the
      initial state. */
  lemma RxStepProgress(rx: Rx, c: Conn)
    requires Ready(c)
    ensures var o := RxStep(rx, c);
      PacketLoad(o.conn.recv) < PacketLoad(c.recv) ||
      (PacketLoad(o.conn.recv) == PacketLoad(c.recv) && Stage(rx) == 3 && o.rx == RxInit)
  {
    if Stage(rx) == 3 {
      if rx.datalength > 0 {
        ReadShrinks(c, rx.datalength);
      } else {
        var i := FindSeq(c.recv, c.inseq).value;
        if |c.recv[i].data| > 0 {
          assert c.recv[i := Packet(c.recv[i].seqno, c.recv[i].data[0..])] == c.recv;
        } else {
          ReadShrinks(c, 1);
        }
      }
    } else if Stage(rx) == 0 {
      ReadShrinks(c, 1);
    } else if Stage(rx) == 1 {
      ReadShrinks(c, rx.cmdlength);
    } else {
      ReadShrinks(c, 4);
    }
  }

  // ---- gnutls_handshake on a stream ----

  /** A buffer udpstream_write can send: its size fits the 32-bit size of a
      frame. */
  type Chunk = s: seq<byte> | |s| < 0x1_0000_0000

  /** One call GnuTLS makes through the transport functions peer_new
      installs: udpstream_read for size bytes (the pull function) or
      udpstream_write of data (the push function). */
  datatype TlsIo = Pull(size: nat) | Push(data: Chunk)

  /** What one gnutls_handshake call does, as far as the stream sees it: its
      pull and push calls, in order, and whether it returns 0. */
  datatype Attempt = Attempt(io: seq<TlsIo>, ok: bool)

  /** The stream after the calls io: a pull reads as udpstream_read does
      (nothing when no packet is ready), a push sends as udpstream_write
      does. */
  function RunIo(c: Conn, io: seq<TlsIo>): (r: Conn)
    ensures r.buf == c.buf
    decreases |io|
  {
    if io == [] then c
    else
      match io[0]
      case Pull(n) => RunIo(ReadConn(c, n).conn, io[1..])
      case Push(d) => RunIo(WriteConn(c, d), io[1..])
  }

  /** An attempt that pulls at least one byte somewhere. */
  predicate Reads(io: seq<TlsIo>)
  {
    exists k :: 0 <= k < |io| && io[k].Pull? && io[k].size > 0
  }

  /** A read of any size never adds to the received list; a read of zero
      bytes either changes nothing or removes an empty packet. */
  lemma ReadKeeps(c: Conn, size: nat)
    ensures PacketLoad(ReadConn(c, size).conn.recv) <= PacketLoad(c.recv)
    ensures PacketLoad(ReadConn(c, size).conn.recv) == PacketLoad(c.recv) ==>
      Ready(ReadConn(c, size).conn) == Ready(c)
  {
    if Ready(c) {
      var i := FindSeq(c.recv, c.inseq).value;
      if size > 0 {
        ReadShrinks(c, size);
      } else if |c.recv[i].data| > 0 {
        assert c.recv[i := Packet(c.recv[i].seqno, c.recv[i].data[0..])] == c.recv;
      } else {
        assert ReadConn(c, 0).conn == ReadConn(c, 1).conn;
        ReadShrinks(c, 1);
      }
    }
  }

  /** The calls of a handshake attempt never add to the received list. */
  lemma {:induction false} RunIoKeeps(c: Conn, io: seq<TlsIo>)
    ensures PacketLoad(RunIo(c, io).recv) <= PacketLoad(c.recv)
    decreases |io|
  {
    if io != [] {
      match io[0]
      case Pull(n) =>
        ReadKeeps(c, n);
        RunIoKeeps(ReadConn(c, n).conn, io[1..]);
      case Push(d) =>
        RunIoKeeps(WriteConn(c, d), io[1..]);
    }
  }

  /** An attempt that pulls a byte from a ready stream takes something off
      its received list. */
  lemma {:induction false} RunIoShrinks(c: Conn, io: seq<TlsIo>)
    requires Ready(c) && Reads(io)
    ensures PacketLoad(RunIo(c, io).recv) < PacketLoad(c.recv)
    decreases |io|
  {
    var k :| 0 <= k < |io| && io[k].Pull? && io[k].size > 0;
    match io[0]
    case Pull(n) =>
      var c1 := ReadConn(c, n).conn;
      ReadKeeps(c, n);
      RunIoKeeps(c1, io[1..]);
      if PacketLoad(c1.recv) == PacketLoad(c.recv) {
        if n > 0 {
          ReadShrinks(c, n);
        }
        assert io[1..][k - 1] == io[k];
        RunIoShrinks(c1, io[1..]);
      }
    case Push(d) =>
      assert io[1..][k - 1] == io[k];
      RunIoShrinks(WriteConn(c, d), io[1..]);
  }

  /** An attempt that only pushes leaves the received side of the stream as
      it was: a ready stream stays ready with the same packets. */
  lemma {:induction false} PushOnlyStalls(c: Conn, io: seq<TlsIo>)
    requires forall k :: 0 <= k < |io| ==> io[k].Push?
    ensures RunIo(c, io).recv == c.recv && RunIo(c, io).inseq == c.inseq
    ensures Ready(RunIo(c, io)) == Ready(c)
    decreases |io|
  {
    if io != [] {
      assert forall k :: 0 <= k < |io[1..]| ==> io[1..][k] == io[k + 1];
      PushOnlyStalls(WriteConn(c, io[0].data), io[1..]);
    }
  }

  // ---- A handshake branch that always makes progress ----

  /** The next in-order packet read whole and dropped; nothing when no
      packet is ready. */
  function Discard(c: Conn): (r: Conn)
    ensures r.sent == c.sent && r.outseq == c.outseq && r.outbox == c.outbox && r.buf == c.buf
  {
    match FindSeq(c.recv, c.inseq)
    case None => c
    case Some(i) => ReadConn(c, |c.recv[i].data|).conn
  }

  /** Discarding removes exactly the next in-order packet and moves inseq
      past it; on a stream that is not ready it changes nothing. */
  lemma DiscardSpec(c: Conn)
    ensures !Ready(c) ==> Discard(c) == c
    ensures Ready(c) ==> var i := FindSeq(c.recv, c.inseq).value;
      Discard(c).recv == c.recv[..i] + c.recv[i + 1..] && Discard(c).inseq == (c.inseq + 1) % SEQMOD
    ensures PacketLoad(Discard(c).recv) <= PacketLoad(c.recv)
    ensures Ready(c) ==> PacketLoad(Discard(c).recv) < PacketLoad(c.recv)
  {
    if Ready(c) {
      var i := FindSeq(c.recv, c.inseq).value;
      var n := |c.recv[i].data|;
      if n > 0 {
        ReadShrinks(c, n);
      } else {
        assert ReadConn(c, 0).conn == ReadConn(c, 1).conn;
        ReadShrinks(c, 1);
      }
    }
  }

  /** A handshake attempt as the loop of peer_handlesocket evidently
      intends it: when the attempt pulled nothing, the packet it was polled
      for is dropped, so that a failing handshake cannot stall the loop. */
  function AttemptIntended(c: Conn, io: seq<TlsIo>): (r: Conn)
  {
    if Reads(io) then RunIo(c, io) else Discard(RunIo(c, io))
  }

  /** When the calls of an attempt leave the received list as large as it
      was, the stream is ready after them iff it was ready before. */
  lemma {:induction false} RunIoReady(c: Conn, io: seq<TlsIo>)
    ensures PacketLoad(RunIo(c, io).recv) == PacketLoad(c.recv) ==> Ready(RunIo(c, io)) == Ready(c)
    decreases |io|
  {
    if io != [] {
      match io[0]
      case Pull(n) =>
        var c1 := ReadConn(c, n).conn;
        ReadKeeps(c, n);
        RunIoKeeps(c1, io[1..]);
        RunIoReady(c1, io[1..]);
      case Push(d) =>
        RunIoReady(WriteConn(c, d), io[1..]);
    }
  }

  /** Every intended attempt on a ready stream takes something off its
      received list, whatever the attempt's calls are. */
  lemma AttemptIntendedShrinks(c: Conn, io: seq<TlsIo>)
    requires Ready(c)
    ensures PacketLoad(AttemptIntended(c, io).recv) < PacketLoad(c.recv)
    ensures Reads(io) ==> AttemptIntended(c, io) == RunIo(c, io)
  {
    if Reads(io) {
      RunIoShrinks(c, io);
    } else {
      var d := RunIo(c, io);
      RunIoKeeps(c, io);
      RunIoReady(c, io);
      DiscardSpec(d);
    }
  }

  /** The packets ps are next in order on the stream, one per sequence
      number from inseq on. */
  predicate Queued(c: Conn, ps: seq<seq<byte>>)
  {
    |ps| <= SEQMOD &&
    forall k :: 0 <= k < |ps| ==>
      HasSeq(c.recv, SeqAt(c.inseq, k)) && Payload(c.recv, SeqAt(c.inseq, k)) == ps[k]
  }

  /** A read with room for the first queued packet returns it whole and
      leaves the others queued. */
  lemma ReadQueued(c: Conn, ps: seq<seq<byte>>, size: nat)
    requires Queued(c, ps) && |ps| > 0 && |ps[0]| <= size
    ensures var r := ReadConn(c, size);
      r.bytes == ps[0] && Queued(r.conn, ps[1..]) &&
      r.conn.inseq == SeqAt(c.inseq, 1) && |r.conn.recv| == |c.recv| - 1
  {
    assert SeqAt(c.inseq, 0) == c.inseq;
    ReadWhole(c, size);
    var c1 := ReadConn(c, size).conn;
    forall k | 0 <= k < |ps| - 1
      ensures HasSeq(c1.recv, SeqAt(c1.inseq, k)) && Payload(c1.recv, SeqAt(c1.inseq, k)) == ps[1..][k]
    {
      ReadWholeKeeps(c, size, k);
    }
  }

  lemma SeqAtStep(x: u16, k: nat)
    ensures SeqAt(SeqAt(x, k), 1) == SeqAt(x, k + 1)
  {
  }

  /** Poll in stage 0 on a queued one-byte packet: the length is read. */
  lemma PollLength(c: Conn, ps: seq<seq<byte>>, n: byte) returns (r: Conn)
    requires Queued(c, ps) && |ps| > 0 && ps[0] == [n]
    ensures RxStep(RxInit, c) == RxOut(Rx(n, None, -1), r, None) &&
      Queued(r, ps[1..]) && r.inseq == SeqAt(c.inseq, 1) && |r.recv| == |c.recv| - 1
  {
    r := ReadConn(c, 1).conn;
    ReadQueued(c, ps, 1);
  }

  /** Poll in stage 1 on a queued packet of cmdlength bytes: the name. */
  lemma PollName(c: Conn, ps: seq<seq<byte>>, n: byte) returns (r: Conn)
    requires Queued(c, ps) && |ps| > 0 && |ps[0]| == n && n > 0
    ensures RxStep(Rx(n, None, -1), c) == RxOut(Rx(n, Some(ps[0]), -1), r, None) &&
      Queued(r, ps[1..]) && r.inseq == SeqAt(c.inseq, 1) && |r.recv| == |c.recv| - 1
  {
    r := ReadConn(c, n).conn;
    ReadQueued(c, ps, n);
  }

  /** Poll in stage 2 on a queued 4-byte packet: the data length. */
  lemma PollDataLength(c: Conn, ps: seq<seq<byte>>, n: byte, name: seq<byte>, len: nat) returns (r: Conn)
    requires n > 0 && len < 0x8000_0000
    requires Queued(c, ps) && |ps| > 0 && ps[0] == LE(len, 4)
    ensures RxStep(Rx(n, Some(name), -1), c) == RxOut(Rx(n, Some(name), len), r, None) &&
      Queued(r, ps[1..]) && r.inseq == SeqAt(c.inseq, 1) && |r.recv| == |c.recv| - 1
  {
    r := ReadConn(c, 4).conn;
    Pow256Values();
    ReadQueued(c, ps, 4);
    FromLEOfLE(len, 4);
    var bytes := ReadConn(c, 4).bytes;
    assert bytes + LE(FromInt32(-1), 4)[4..] == LE(len, 4);
  }

  /** Poll in stage 3 on a queued packet of datalength bytes: dispatch. */
  lemma PollData(c: Conn, ps: seq<seq<byte>>, n: byte, name: seq<byte>, len: i32) returns (r: Conn)
    requires n > 0 && len >= 0
    requires Queued(c, ps) && |ps| > 0 && |ps[0]| == len
    ensures RxStep(Rx(n, Some(name), len), c) == RxOut(RxInit, r, Some(Delivery(CStr(name), ps[0], len))) &&
      r.inseq == SeqAt(c.inseq, 1) && |r.recv| == |c.recv| - 1
  {
    r := ReadConn(c, len).conn;
    ReadQueued(c, ps, len);
  }

  lemma RxRunStep(rx: Rx, c: Conn, n: nat, o: RxOut, tail: (Rx, Conn, seq<Delivery>))
    requires n > 0 && RxStep(rx, c) == o && RxRun(o.rx, o.conn, n - 1) == tail
    ensures RxRun(rx, c, n) ==
      (tail.0, tail.1, (if o.delivered.Some? then [o.delivered.value] else []) + tail.2)
  {
  }

  /** Four polls whose steps are known, the last one delivering. */
  lemma RxRunFour(c0: Conn, c1: Conn, c2: Conn, c3: Conn, c4: Conn, rx1: Rx, rx2: Rx, rx3: Rx, d: Delivery)
    requires RxStep(RxInit, c0) == RxOut(rx1, c1, None)
    requires RxStep(rx1, c1) == RxOut(rx2, c2, None)
    requires RxStep(rx2, c2) == RxOut(rx3, c3, None)
    requires RxStep(rx3, c3) == RxOut(RxInit, c4, Some(d))
    ensures RxRun(RxInit, c0, 4) == (RxInit, c4, [d])
  {
    var t := (RxInit, c4, [d]);
    assert RxRun(RxInit, c4, 0) == (RxInit, c4, []);
    assert [d] + [] == [d] && [] + [d] == [d];
    RxRunStep(rx3, c3, 1, RxStep(rx3, c3), (RxInit, c4, []));
    RxRunStep(rx2, c2, 2, RxStep(rx2, c2), t);
    RxRunStep(rx1, c1, 3, RxStep(rx1, c1), t);
    RxRunStep(RxInit, c0, 4, RxStep(RxInit, c0), t);
  }

  /** The framing round trip: when the four packets peer_sendcmd writes for
      a name of 1 to 255 bytes without NUL and data shorter than 2^31 bytes are
      next in order on the stream, four polls from the initial state
      deliver exactly that name, data and length, consume those four packets
      and end in the initial state. */
  lemma CommandRoundTrip(c: Conn, cmd: seq<byte>, data: seq<byte>)
    requires 1 <= |cmd| <= 255 && 0 !in cmd && |data| < 0x8000_0000
    requires Queued(c, CmdPackets(cmd, data))
    ensures var r := RxRun(RxInit, c, 4);
      r.0 == RxInit && r.2 == [Delivery(cmd, data, |data|)] &&
      r.1.inseq == SeqAt(c.inseq, 4) && |r.1.recv| == |c.recv| - 4
  {
    Pow256Values();
    var ps := CmdPackets(cmd, data);
    assert ps[0] == [|cmd|] && ps[1] == cmd && ps[2] == LE(|data|, 4) && ps[3] == data;
    var c1 := PollLength(c, ps, |cmd|);
    var c2 := PollName(c1, ps[1..], |cmd|);
    var c3 := PollDataLength(c2, ps[2..], |cmd|, cmd, |data|);
    var c4 := PollData(c3, ps[3..], |cmd|, cmd, |data|);
    assert CStr(cmd) == cmd;
    RxRunFour(c, c1, c2, c3, c4, Rx(|cmd|, None, -1), Rx(|cmd|, Some(cmd), -1),
      Rx(|cmd|, Some(cmd), |data|), Delivery(cmd, data, |data|));
    SeqAtStep(c.inseq, 1);
    SeqAtStep(c.inseq, 2);
    SeqAtStep(c.inseq, 3);
  }

  // ---- From the sender's writes to the receiver's queue ----

  /** The datagrams udpstream_write sends for the packets ps, numbered from
      q on: a header, then the payload, per packet. */
  function Datagrams(q: u16, ps: seq<seq<byte>>): seq<seq<byte>>
    requires forall i :: 0 <= i < |ps| ==> |ps[i]| < 0x1_0000_0000
    decreases |ps|
  {
    if ps == [] then [] else Send(TYPE_PAYLOAD, q, ps[0]) + Datagrams(SeqAt(q, 1), ps[1..])
  }

  /** The PAYLOAD frames those datagrams carry. */
  function PayloadFrames(q: u16, ps: seq<seq<byte>>): (fs: seq<Frame>)
    requires forall i :: 0 <= i < |ps| ==> |ps[i]| < 0x1_0000_0000
    ensures forall i :: 0 <= i < |fs| ==> Sized(fs[i])
    decreases |ps|
  {
    if ps == [] then [] else [Frame(TYPE_PAYLOAD, q, ps[0])] + PayloadFrames(SeqAt(q, 1), ps[1..])
  }

  /** The received-list entries those frames add. */
  function Packets(q: u16, ps: seq<seq<byte>>): seq<Packet>
    decreases |ps|
  {
    if ps == [] then [] else [Packet(q, ps[0])] + Packets(SeqAt(q, 1), ps[1..])
  }

  /** The writes of WriteAll send exactly Datagrams, numbered from outseq. */
  lemma {:induction false} WriteAllSends(c: Conn, ps: seq<seq<byte>>)
    requires forall i :: 0 <= i < |ps| ==> |ps[i]| < 0x1_0000_0000
    ensures WriteAll(c, ps).outbox == c.outbox + Datagrams(c.outseq, ps)
    decreases |ps|
  {
    if ps != [] {
      var c1 := WriteConn(c, ps[0]);
      assert c1.outseq == SeqAt(c.outseq, 1);
      WriteAllSends(c1, ps[1..]);
      assert c.outbox + Send(TYPE_PAYLOAD, c.outseq, ps[0]) + Datagrams(c1.outseq, ps[1..])
        == c.outbox + Datagrams(c.outseq, ps);
    }
  }

  lemma {:induction false} ConcatAppend(a: seq<seq<byte>>, b: seq<seq<byte>>)
    ensures Concat(a + b) == Concat(a) + Concat(b)
    decreases |a|
  {
    if a != [] {
      assert (a + b)[1..] == a[1..] + b;
      ConcatAppend(a[1..], b);
    } else {
      assert a + b == b;
    }
  }

  /** Laid end to end, the datagrams are the encoded frames. */
  lemma {:induction false} ConcatDatagrams(q: u16, ps: seq<seq<byte>>)
    requires forall i :: 0 <= i < |ps| ==> |ps[i]| < 0x1_0000_0000
    ensures Concat(Datagrams(q, ps)) == EncodeAll(PayloadFrames(q, ps))
    decreases |ps|
  {
    if ps != [] {
      var d := Send(TYPE_PAYLOAD, q, ps[0]);
      var f := Frame(TYPE_PAYLOAD, q, ps[0]);
      ConcatAppend(d, Datagrams(SeqAt(q, 1), ps[1..]));
      assert Concat(d) == d[0] + (d[1] + []);
      assert Concat(d) == Encode(f);
      ConcatDatagrams(SeqAt(q, 1), ps[1..]);
      assert PayloadFrames(q, ps)[0] == f && PayloadFrames(q, ps)[1..] == PayloadFrames(SeqAt(q, 1), ps[1..]);
    }
  }

  /** Acting on the frames appends their packets to the received list and
      keeps inseq and the buffer. */
  lemma {:induction false} OnPayloadFrames(c: Conn, q: u16, ps: seq<seq<byte>>)
    requires forall i :: 0 <= i < |ps| ==> |ps[i]| < 0x1_0000_0000
    ensures var r := OnFrames(c, PayloadFrames(q, ps));
      r.recv == c.recv + Packets(q, ps) && r.inseq == c.inseq && r.buf == c.buf
    decreases |ps|
  {
    if ps != [] {
      var f := Frame(TYPE_PAYLOAD, q, ps[0]);
      OnPayloadFramesCons(c, q, ps);
      OnPayloadFrames(OnFrame(c, f), SeqAt(q, 1), ps[1..]);
      PacketsCons(c.recv, q, ps);
    } else {
      assert c.recv + [] == c.recv;
    }
  }

  /** The first payload frame is handled first and appends its packet. */
  lemma OnPayloadFramesCons(c: Conn, q: u16, ps: seq<seq<byte>>)
    requires ps != [] && forall i :: 0 <= i < |ps| ==> |ps[i]| < 0x1_0000_0000
    ensures var f := Frame(TYPE_PAYLOAD, q, ps[0]);
      OnFrames(c, PayloadFrames(q, ps)) == OnFrames(OnFrame(c, f), PayloadFrames(SeqAt(q, 1), ps[1..]))
      && OnFrame(c, f).recv == c.recv + [Packet(q, ps[0])]
      && OnFrame(c, f).inseq == c.inseq && OnFrame(c, f).buf == c.buf
  {
    var fs := PayloadFrames(q, ps);
    assert fs[0] == Frame(TYPE_PAYLOAD, q, ps[0]) && fs[1..] == PayloadFrames(SeqAt(q, 1), ps[1..]);
  }

  lemma PacketsCons(base: seq<Packet>, q: u16, ps: seq<seq<byte>>)
    requires ps != []
    ensures base + [Packet(q, ps[0])] + Packets(SeqAt(q, 1), ps[1..]) == base + Packets(q, ps)
  {
  }

  /** Entry k of Packets carries sequence number k places after q. */
  lemma {:induction false} PacketsAt(q: u16, ps: seq<seq<byte>>, k: nat)
    requires k < |ps| <= SEQMOD
    ensures |Packets(q, ps)| == |ps| && Packets(q, ps)[k] == Packet(SeqAt(q, k), ps[k])
    decreases k
  {
    if k == 0 {
      PacketsLength(q, ps);
      assert SeqAt(q, 0) == q;
    } else {
      PacketsAt(SeqAt(q, 1), ps[1..], k - 1);
      SeqAtShift(q, k - 1);
    }
  }

  lemma {:induction false} PacketsLength(q: u16, ps: seq<seq<byte>>)
    ensures |Packets(q, ps)| == |ps|
    decreases |ps|
  {
    if ps != [] {
      PacketsLength(SeqAt(q, 1), ps[1..]);
    }
  }

  /** Packets appended, in order of their numbers from inseq, behind a list
      holding none of those numbers are queued. */
  lemma QueuedPackets(r: Conn, base: seq<Packet>, ps: seq<seq<byte>>)
    requires |ps| <= SEQMOD && r.recv == base + Packets(r.inseq, ps)
    requires forall k :: 0 <= k < |ps| ==> !HasSeq(base, SeqAt(r.inseq, k))
    ensures Queued(r, ps)
  {
    forall k | 0 <= k < |ps|
      ensures HasSeq(r.recv, SeqAt(r.inseq, k)) && Payload(r.recv, SeqAt(r.inseq, k)) == ps[k]
    {
      QueuedPacket(r.inseq, base, ps, k);
    }
  }

  /** The k-th appended packet is the first one numbered k places after
      inseq. */
  lemma QueuedPacket(inseq: u16, base: seq<Packet>, ps: seq<seq<byte>>, k: nat)
    requires k < |ps| <= SEQMOD && !HasSeq(base, SeqAt(inseq, k))
    ensures var rs := base + Packets(inseq, ps);
      HasSeq(rs, SeqAt(inseq, k)) && Payload(rs, SeqAt(inseq, k)) == ps[k]
  {
    var s := SeqAt(inseq, k);
    PacketsAt(inseq, ps, k);
    PacketsMiss(inseq, ps, k);
    FirstAfter(base, Packets(inseq, ps), k, s);
  }

  /** No packet before entry k of Packets shares its sequence number. */
  lemma PacketsMiss(inseq: u16, ps: seq<seq<byte>>, k: nat)
    requires k < |ps| <= SEQMOD
    ensures |Packets(inseq, ps)| == |ps|
    ensures forall j :: 0 <= j < k ==> Packets(inseq, ps)[j].seqno != SeqAt(inseq, k)
  {
    PacketsLength(inseq, ps);
    forall j | 0 <= j < k
      ensures Packets(inseq, ps)[j].seqno != SeqAt(inseq, k)
    {
      PacketsAt(inseq, ps, j);
      SeqAtDistinct(inseq, j, k);
    }
  }

  /** A packet numbered s after a prefix with none, and first so numbered
      in its own part, is what FindSeq finds. */
  lemma FirstAfter(base: seq<Packet>, qs: seq<Packet>, i: nat, s: u16)
    requires i < |qs| && qs[i].seqno == s && !HasSeq(base, s)
    requires forall j :: 0 <= j < i ==> qs[j].seqno != s
    ensures FindSeq(base + qs, s) == Some(|base| + i)
    ensures HasSeq(base + qs, s) && Payload(base + qs, s) == qs[i].data
  {
    var rs := base + qs;
    forall m | 0 <= m < |base| + i
      ensures rs[m].seqno != s
    {
      if m < |base| {
        assert rs[m] == base[m];
      } else {
        assert rs[m] == qs[m - |base|];
      }
    }
    FirstAt(rs, |base| + i, s);
  }

  /** Fewer than 65536 steps from the same start give distinct numbers. */
  lemma SeqAtDistinct(x: u16, j: nat, k: nat)
    requires j < k < SEQMOD
    ensures SeqAt(x, j) != SeqAt(x, k)
  {
    OffsetOf(x, j);
    OffsetOf(x, k);
  }

  /** A packet numbered s with no earlier one so numbered is what FindSeq
      finds. */
  lemma FirstAt(ps: seq<Packet>, i: nat, s: u16)
    requires i < |ps| && ps[i].seqno == s
    requires forall m :: 0 <= m < i ==> ps[m].seqno != s
    ensures FindSeq(ps, s) == Some(i)
  {
  }

  /** Whatever a sender writes reaches a receiver that expects it as
      packets queued in order: the datagrams of the writes, each at most
      1024 bytes and delivered in order to a stream with an empty buffer
      whose inseq is the sender's outseq, leave exactly those packets next
      in order. */
  lemma WireQueued(s: Conn, c: Conn, ps: seq<seq<byte>>)
    requires |ps| <= SEQMOD && forall i :: 0 <= i < |ps| ==> |ps[i]| <= RECVMAX
    requires c.buf == [] && c.inseq == s.outseq
    requires forall k :: 0 <= k < |ps| ==> !HasSeq(c.recv, SeqAt(c.inseq, k))
    ensures WriteAll(s, ps).outbox == s.outbox + Datagrams(s.outseq, ps)
    ensures var r := DeliverAll(c, Datagrams(s.outseq, ps));
      Queued(r, ps) && r.inseq == c.inseq && r.buf == []
  {
    Pow256Values();
    WriteAllSends(s, ps);
    var ds := Datagrams(s.outseq, ps);
    DatagramsFit(s.outseq, ps);
    DeliverAllConcat(c, ds);
    assert c.(buf := c.buf + Concat(ds)) == c.(buf := Concat(ds));
    ConcatDatagrams(s.outseq, ps);
    var fs := PayloadFrames(s.outseq, ps);
    assert Concat(ds) == EncodeAll(fs) + [];
    DrainFrames(c.(buf := Concat(ds)), fs, []);
    assert c.(buf := Concat(ds)).(buf := []) == c;
    OnPayloadFrames(c, s.outseq, ps);
    QueuedPackets(DeliverAll(c, ds), c.recv, ps);
  }

  lemma {:induction false} DatagramsFit(q: u16, ps: seq<seq<byte>>)
    requires forall i :: 0 <= i < |ps| ==> |ps[i]| <= RECVMAX
    ensures forall i :: 0 <= i < |Datagrams(q, ps)| ==> |Datagrams(q, ps)[i]| <= RECVMAX
    decreases |ps|
  {
    if ps != [] {
      DatagramsFit(SeqAt(q, 1), ps[1..]);
      var d := Send(TYPE_PAYLOAD, q, ps[0]);
      var rest := Datagrams(SeqAt(q, 1), ps[1..]);
      assert forall i :: 0 <= i < |d + rest| ==> (d + rest)[i] == if i < 2 then d[i] else rest[i - 2];
    }
  }

  /** peer_sendcmd end to end: the four writes of a command, sent to a
      receiver that expects them, are delivered by four polls as the same
      name, data and length, leaving the receive machine initial. */
  lemma CommandOverWire(s: Conn, c: Conn, cmd: seq<byte>, data: seq<byte>)
    requires 1 <= |cmd| <= 255 && 0 !in cmd && |data| <= RECVMAX
    requires c.buf == [] && c.inseq == s.outseq
    requires forall k :: 0 <= k < 4 ==> !HasSeq(c.recv, SeqAt(c.inseq, k))
    ensures WriteAll(s, CmdPackets(cmd, data)).outbox == s.outbox + Datagrams(s.outseq, CmdPackets(cmd, data))
    ensures var r := RxRun(RxInit, DeliverAll(c, Datagrams(s.outseq, CmdPackets(cmd, data))), 4);
      r.0 == RxInit && r.2 == [Delivery(cmd, data, |data|)]
  {
    Pow256Values();
    var ps := CmdPackets(cmd, data);
    assert ps[0] == [|cmd|] && ps[1] == cmd && ps[2] == LE(|data|, 4) && ps[3] == data;
    WireQueued(s, c, ps);
    CommandRoundTrip(DeliverAll(c, Datagrams(s.outseq, ps)), cmd, data);
  }

  // ---- Dispatch ----

  /** The callbacks peer_registercmd stores: the two built in by peer_init,
      and application callbacks, known here only by identity. */
  datatype Callback = SendPeersCb | GetPeersCb | AppCb(id: nat)

  /** struct command: the strdup'd name and the callback. */
  datatype Command = Command(name: seq<byte>, callback: Callback)

  /** The registry positions from i on whose name equals name. */
  function MatchingFrom(cmds: seq<Command>, name: seq<byte>, i: nat): seq<nat>
    decreases |cmds| - i
  {
    if i >= |cmds| then []
    else (if cmds[i].name == name then [i] else []) + MatchingFrom(cmds, name, i + 1)
  }

  lemma {:induction false} MatchingFromSpec(cmds: seq<Command>, name: seq<byte>, i: nat)
    ensures var r := MatchingFrom(cmds, name, i);
      (forall k :: k in r <==> i <= k < |cmds| && cmds[k].name == name) &&
      (forall a, b :: 0 <= a < b < |r| ==> r[a] < r[b])
    decreases |cmds| - i
  {
    if i < |cmds| {
      MatchingFromSpec(cmds, name, i + 1);
      var rest := MatchingFrom(cmds, name, i + 1);
      var head := if cmds[i].name == name then [i] else [];
      var r := head + rest;
      assert MatchingFrom(cmds, name, i) == r;
      forall k
        ensures k in r <==> i <= k < |cmds| && cmds[k].name == name
      {
        assert k in r <==> k in head || k in rest;
      }
      forall a, b | 0 <= a < b < |r|
        ensures r[a] < r[b]
      {
        if head != [] && a == 0 {
          assert r[b] == rest[b - 1] && rest[b - 1] in rest;
        } else {
          assert r[a] == rest[a - |head|] && r[b] == rest[b - |head|];
        }
      }
    }
  }

  /** The commands a completed frame invokes: every registered entry named
      like the received command, in registration order. */
  function Matching(cmds: seq<Command>, name: seq<byte>): (r: seq<nat>)
    ensures forall k :: k in r <==> 0 <= k < |cmds| && cmds[k].name == name
    ensures forall a, b :: 0 <= a < b < |r| ==> r[a] < r[b]
  {
    MatchingFromSpec(cmds, name, 0);
    MatchingFrom(cmds, name, 0)
  }

  /** An unknown name invokes nothing; registering a command puts it last
      among the matches of its name and leaves the others' matches alone. */
  lemma MatchingRegister(cmds: seq<Command>, c: Command, name: seq<byte>)
    ensures (forall k :: 0 <= k < |cmds| ==> cmds[k].name != name) ==> Matching(cmds, name) == []
    ensures Matching(cmds + [c], name) ==
      Matching(cmds, name) + (if c.name == name then [|cmds|] else [])
  {
    var m := Matching(cmds, name);
    if m != [] {
      assert m[0] in m;
    }
    MatchingFromSnoc(cmds, c, name, 0);
  }

  lemma {:induction false} MatchingFromSnoc(cmds: seq<Command>, c: Command, name: seq<byte>, i: nat)
    requires i <= |cmds|
    ensures MatchingFrom(cmds + [c], name, i) ==
      MatchingFrom(cmds, name, i) + (if c.name == name then [|cmds|] else [])
    decreases |cmds| - i
  {
    if i < |cmds| {
      assert (cmds + [c])[i] == cmds[i];
      MatchingFromSnoc(cmds, c, name, i + 1);
    } else {
      assert (cmds + [c])[i] == c;
      assert MatchingFrom(cmds + [c], name, i + 1) == [];
    }
  }

  // ---- The peers list (sendpeers / getpeers) ----

  /** struct peeritem: an address and its sender's peer count. */
  datatype PeerItem = PeerItem(addr: seq<byte>, peercount: u16)

  /** One entry as sendpeers writes it: uint16_t address length, the
      address, uint16_t peer count. */
  function EncodeItem(it: PeerItem): (r: seq<byte>)
    requires |it.addr| < 0x1_0000
    ensures |r| == 4 + |it.addr|
  {
    Pow256Values();
    LE(|it.addr|, 2) + it.addr + LE(it.peercount, 2)
  }

  predicate Encodable(items: seq<PeerItem>)
  {
    forall i :: 0 <= i < |items| ==> |items[i].addr| < 0x1_0000
  }

  function EncodePeers(items: seq<PeerItem>): (r: seq<byte>)
    requires Encodable(items)
    ensures |r| == EncodedSize(items)
  {
    if items == [] then [] else EncodeItem(items[0]) + EncodePeers(items[1..])
  }

  /** The sum of 4 + address length over the entries. */
  function EncodedSize(items: seq<PeerItem>): nat
  {
    if items == [] then 0 else 4 + |items[0].addr| + EncodedSize(items[1..])
  }

  lemma {:induction false} EncodedSizeConcat(a: seq<PeerItem>, b: seq<PeerItem>)
    ensures EncodedSize(a + b) == EncodedSize(a) + EncodedSize(b)
    decreases |a|
  {
    if a == [] {
      assert a + b == b;
    } else {
      assert (a + b)[1..] == a[1..] + b;
      EncodedSizeConcat(a[1..], b);
    }
  }

  /** sendpeers' first loop computes the length its second loop fills. */

  lemma {:induction false} EncodePeersSnoc(items: seq<PeerItem>, it: PeerItem)
    requires Encodable(items) && |it.addr| < 0x1_0000
    ensures Encodable(items + [it])
    ensures EncodePeers(items + [it]) == EncodePeers(items) + EncodeItem(it)
    decreases |items|
  {
    if items == [] {
      assert items + [it] == [it];
    } else {
      assert (items + [it])[1..] == items[1..] + [it];
      EncodePeersSnoc(items[1..], it);
    }
  }

  /** The parse loop of getpeers, with the truncation check corrected to the
      entry size sendpeers writes (2 + address length + 2). Entries whose
      address is longer than struct sockaddr are consumed and skipped. */
  function ParsePeers(data: seq<byte>): (r: seq<PeerItem>)
    ensures forall i :: 0 <= i < |r| ==> |r[i].addr| <= SOCKADDR_SIZE
    decreases |data|
  {
    Pow256Values();
    if |data| <= 2 then []
    else
      var n := FromLE(data[..2]);
      if |data| < 2 + n + 2 then []
      else
        var rest := ParsePeers(data[2 + n + 2..]);
        if n <= SOCKADDR_SIZE then [PeerItem(data[2..2 + n], FromLE(data[2 + n..2 + n + 2]))] + rest
        else rest
  }

  /** One round of the parse loop of getpeers where a whole entry remains
      and its address fits: that entry, then the entries after it. */
  lemma ParsePeersTake(d: seq<byte>, n: nat)
    requires |d| > 2 && n == FromLE(d[..2]) && |d| >= 2 + n + 2 && n <= SOCKADDR_SIZE
    ensures FromLE(d[2 + n..2 + n + 2]) < 0x1_0000
    ensures ParsePeers(d) == [PeerItem(d[2..2 + n], FromLE(d[2 + n..2 + n + 2]))] + ParsePeers(d[2 + n + 2..])
  {
    Pow256Values();
  }

  /** The loop of getpeers stops at a truncated entry. */
  lemma ParsePeersShort(d: seq<byte>, n: nat)
    requires |d| > 2 && n == FromLE(d[..2]) && |d| < 2 + n + 2
    ensures ParsePeers(d) == []
  {
  }

  /** The same round for an address too long: the entry is skipped. */
  lemma ParsePeersSkip(d: seq<byte>, n: nat)
    requires |d| > 2 && n == FromLE(d[..2]) && |d| >= 2 + n + 2 && n > SOCKADDR_SIZE
    ensures ParsePeers(d) == ParsePeers(d[2 + n + 2..])
  {
  }

  /** The parse loop of getpeers as written: an entry is accepted only when
      2 + address length + sizeof(pcount) bytes remain, and pcount is an
      unsigned int, so 4 bytes, not the 2 the entry holds. */
  function ParsePeersAsWritten(data: seq<byte>): (r: seq<PeerItem>)
    ensures forall i :: 0 <= i < |r| ==> |r[i].addr| <= SOCKADDR_SIZE
    decreases |data|
  {
    Pow256Values();
    if |data| <= 2 then []
    else
      var n := FromLE(data[..2]);
      if |data| < 2 + n + 4 then []
      else
        var rest := ParsePeersAsWritten(data[2 + n + 2..]);
        if n <= SOCKADDR_SIZE then [PeerItem(data[2..2 + n], FromLE(data[2 + n..2 + n + 2]))] + rest
        else rest
  }

  /** One round of the loop of getpeers as written, where the check passes
      and the address fits: that entry, then the entries after it. */
  lemma AsWrittenTake(d: seq<byte>, n: nat)
    requires |d| > 2 && n == FromLE(d[..2]) && |d| >= 2 + n + 4 && n <= SOCKADDR_SIZE
    ensures FromLE(d[2 + n..2 + n + 2]) < 0x1_0000
    ensures ParsePeersAsWritten(d) == [PeerItem(d[2..2 + n], FromLE(d[2 + n..2 + n + 2]))] + ParsePeersAsWritten(d[2 + n + 2..])
  {
    Pow256Values();
  }

  /** As written, the loop stops when fewer than 2 + address length + 4
      bytes remain. */
  lemma AsWrittenShort(d: seq<byte>, n: nat)
    requires |d| > 2 && n == FromLE(d[..2]) && |d| < 2 + n + 4
    ensures ParsePeersAsWritten(d) == []
  {
  }

  /** As written, an address too long is skipped by the entry size. */
  lemma AsWrittenSkip(d: seq<byte>, n: nat)
    requires |d| > 2 && n == FromLE(d[..2]) && |d| >= 2 + n + 4 && n > SOCKADDR_SIZE
    ensures ParsePeersAsWritten(d) == ParsePeersAsWritten(d[2 + n + 2..])
  {
  }

  lemma ItemFields(it: PeerItem, tail: seq<byte>)
    requires |it.addr| < 0x1_0000
    ensures var d := EncodeItem(it) + tail; var n := |it.addr|;
      |d| >= 4 + n && FromLE(d[..2]) == n && d[2..2 + n] == it.addr &&
      FromLE(d[2 + n..2 + n + 2]) == it.peercount && d[2 + n + 2..] == tail
  {
    Pow256Values();
    var d := EncodeItem(it) + tail;
    var n := |it.addr|;
    assert d[..2] == LE(n, 2);
    FromLEOfLE(n, 2);
    assert d[2..2 + n] == it.addr;
    assert d[2 + n..2 + n + 2] == LE(it.peercount, 2);
    FromLEOfLE(it.peercount, 2);
    assert d[2 + n + 2..] == tail;
  }

  /** The corrected parser reads back every entry sendpeers writes whose
      address fits a struct sockaddr, in order. */
  lemma {:induction false} ParseEncodePeers(items: seq<PeerItem>)
    requires forall i :: 0 <= i < |items| ==> |items[i].addr| <= SOCKADDR_SIZE
    ensures ParsePeers(EncodePeers(items)) == items
    decreases |items|
  {
    if items != [] {
      ItemFields(items[0], EncodePeers(items[1..]));
      ParseEncodePeers(items[1..]);
    }
  }

  /** As written, the last entry of every list is lost: the parser reads
      back all entries but the last. */
  lemma {:induction false} AsWrittenDropsLast(items: seq<PeerItem>)
    requires |items| > 0
    requires forall i :: 0 <= i < |items| ==> |items[i].addr| <= SOCKADDR_SIZE
    ensures ParsePeersAsWritten(EncodePeers(items)) == items[..|items| - 1]
    decreases |items|
  {
    ItemFields(items[0], EncodePeers(items[1..]));
    if |items| > 1 {
      AsWrittenDropsLast(items[1..]);
      assert items[1..][..|items| - 2] == items[1..|items| - 1];
      assert [items[0]] + items[1..|items| - 1] == items[..|items| - 1];
    } else {
      assert EncodePeers(items[1..]) == [];
    }
  }

  /** The smallest list that shows it: one entry, and nothing is read back. */
  lemma AsWrittenLosesSingleEntry()
    ensures ParsePeersAsWritten(EncodePeers([PeerItem([1, 2, 3, 4], 7)])) == []
    ensures ParsePeers(EncodePeers([PeerItem([1, 2, 3, 4], 7)])) == [PeerItem([1, 2, 3, 4], 7)]
  {
    AsWrittenDropsLast([PeerItem([1, 2, 3, 4], 7)]);
    ParseEncodePeers([PeerItem([1, 2, 3, 4], 7)]);
  }

  // ---- Choosing peers to connect to (getpeers) ----

  /** The entry getpeers tries next: the first one with the lowest peer count. */
  function Lowest(items: seq<PeerItem>): (k: nat)
    requires |items| > 0
    ensures k < |items|
    decreases |items|
  {
    if |items| == 1 then 0
    else
      var k := Lowest(items[..|items| - 1]);
      if items[|items| - 1].peercount < items[k].peercount then |items| - 1 else k
  }

  /** Lowest finds a minimum, and the first one. */
  lemma {:induction false} LowestSpec(items: seq<PeerItem>)
    requires |items| > 0
    ensures var k := Lowest(items);
      (forall j :: 0 <= j < |items| ==> items[k].peercount <= items[j].peercount) &&
      (forall j :: 0 <= j < k ==> items[j].peercount > items[k].peercount)
    decreases |items|
  {
    if |items| > 1 {
      var init := items[..|items| - 1];
      LowestSpec(init);
      assert forall j :: 0 <= j < |items| - 1 ==> init[j] == items[j];
    }
  }

  /** Taking entry k out of the list keeps the others. */
  lemma RemoveKeeps(items: seq<PeerItem>, k: nat)
    requires k < |items|
    ensures forall x :: x in items[..k] + items[k + 1..] ==> x in items
  {
    var rest := items[..k] + items[k + 1..];
    forall i | 0 <= i < |rest|
      ensures rest[i] in items
    {
      if i < k {
        assert rest[i] == items[i];
      } else {
        assert rest[i] == items[i + 1];
      }
    }
  }

  /** The entries getpeers connects to, in the order it does so, starting
      with peers at the addresses in have: while fewer than 20 peers are
      held, the first entry with the lowest peer count is taken out, and
      connected to unless its address is already held. */
  function Connects(have: seq<seq<byte>>, items: seq<PeerItem>): seq<PeerItem>
    decreases |items|
  {
    if |items| == 0 || |have| >= GOOD_NUMBER_OF_PEERS then []
    else
      var k := Lowest(items);
      var rest := items[..k] + items[k + 1..];
      if items[k].addr in have then Connects(have, rest)
      else [items[k]] + Connects(have + [items[k].addr], rest)
  }

  /** A choice r of entries to connect to, given the held addresses have:
      only listed entries, in non-decreasing peer count, never an address
      already held or one address twice, and never more than 20 peers in
      all. */
  predicate Chosen(have: seq<seq<byte>>, items: seq<PeerItem>, r: seq<PeerItem>)
  {
    (forall i :: 0 <= i < |r| ==> r[i] in items) &&
    (forall i, j :: 0 <= i < j < |r| ==> r[i].peercount <= r[j].peercount) &&
    (forall i :: 0 <= i < |r| ==> r[i].addr !in have) &&
    (forall i, j :: 0 <= i < j < |r| ==> r[i].addr != r[j].addr) &&
    (|have| >= GOOD_NUMBER_OF_PEERS ==> r == []) &&
    (|have| < GOOD_NUMBER_OF_PEERS ==> |have| + |r| <= GOOD_NUMBER_OF_PEERS)
  }

  /** What getpeers promises of its choice: only listed entries, in
      non-decreasing peer count, never an address already held or one
      address twice, and never more than 20 peers in all. */
  lemma ConnectsSpec(have: seq<seq<byte>>, items: seq<PeerItem>)
    ensures Chosen(have, items, Connects(have, items))
  {
    var r := Connects(have, items);
    ConnectsFrom(have, items);
    ConnectsSorted(have, items);
    ConnectsDistinct(have, items);
    ConnectsBound(have, items);
    assert forall i :: 0 <= i < |r| ==> r[i] in r;
  }

  /** Only listed entries, none at an address already held. */
  lemma {:induction false} ConnectsFrom(have: seq<seq<byte>>, items: seq<PeerItem>)
    ensures forall x :: x in Connects(have, items) ==> x in items && x.addr !in have
    decreases |items|
  {
    if |items| > 0 && |have| < GOOD_NUMBER_OF_PEERS {
      var k := Lowest(items);
      var rest := items[..k] + items[k + 1..];
      RemoveKeeps(items, k);
      if items[k].addr in have {
        ConnectsFrom(have, rest);
      } else {
        var h := have + [items[k].addr];
        ConnectsFrom(h, rest);
        assert Connects(have, items) == [items[k]] + Connects(h, rest);
        assert forall a :: a in have ==> a in h;
      }
    }
  }

  /** In non-decreasing peer count. */
  lemma {:induction false} ConnectsSorted(have: seq<seq<byte>>, items: seq<PeerItem>)
    ensures forall i, j :: 0 <= i < j < |Connects(have, items)| ==>
      Connects(have, items)[i].peercount <= Connects(have, items)[j].peercount
    decreases |items|
  {
    if |items| > 0 && |have| < GOOD_NUMBER_OF_PEERS {
      var k := Lowest(items);
      var rest := items[..k] + items[k + 1..];
      if items[k].addr in have {
        ConnectsSorted(have, rest);
      } else {
        var h := have + [items[k].addr];
        ConnectsSorted(h, rest);
        ConnectsFrom(h, rest);
        RemoveKeeps(items, k);
        LowestSpec(items);
        var tail := Connects(h, rest);
        var r := [items[k]] + tail;
        assert Connects(have, items) == r;
        forall i, j | 0 <= i < j < |r|
          ensures r[i].peercount <= r[j].peercount
        {
          assert r[j] == tail[j - 1] && tail[j - 1] in tail;
          if i > 0 {
            assert r[i] == tail[i - 1];
          } else {
            assert r[j] in items;
          }
        }
      }
    }
  }

  /** No address twice. */
  lemma {:induction false} ConnectsDistinct(have: seq<seq<byte>>, items: seq<PeerItem>)
    ensures forall i, j :: 0 <= i < j < |Connects(have, items)| ==>
      Connects(have, items)[i].addr != Connects(have, items)[j].addr
    decreases |items|
  {
    if |items| > 0 && |have| < GOOD_NUMBER_OF_PEERS {
      var k := Lowest(items);
      var rest := items[..k] + items[k + 1..];
      if items[k].addr in have {
        ConnectsDistinct(have, rest);
      } else {
        var h := have + [items[k].addr];
        assert h[|have|] == items[k].addr;
        ConnectsDistinct(h, rest);
        ConnectsFrom(h, rest);
        var tail := Connects(h, rest);
        var r := [items[k]] + tail;
        assert Connects(have, items) == r;
        forall i, j | 0 <= i < j < |r|
          ensures r[i].addr != r[j].addr
        {
          assert r[j] == tail[j - 1] && tail[j - 1] in tail;
          if i > 0 {
            assert r[i] == tail[i - 1];
          } else {
            assert r[j].addr !in h;
          }
        }
      }
    }
  }

  /** Never more than 20 peers held. */
  lemma {:induction false} ConnectsBound(have: seq<seq<byte>>, items: seq<PeerItem>)
    ensures |have| >= GOOD_NUMBER_OF_PEERS ==> Connects(have, items) == []
    ensures |have| < GOOD_NUMBER_OF_PEERS ==> |have| + |Connects(have, items)| <= GOOD_NUMBER_OF_PEERS
    decreases |items|
  {
    if |items| > 0 && |have| < GOOD_NUMBER_OF_PEERS {
      var k := Lowest(items);
      var rest := items[..k] + items[k + 1..];
      if items[k].addr in have {
        ConnectsBound(have, rest);
      } else {
        ConnectsBound(have + [items[k].addr], rest);
      }
    }
  }

  /** One step of Connects. */
  lemma ConnectsStep(have: seq<seq<byte>>, items: seq<PeerItem>, k: nat)
    requires |items| > 0 && |have| < GOOD_NUMBER_OF_PEERS && k == Lowest(items)
    ensures items[k].addr in have ==> Connects(have, items) == Connects(have, items[..k] + items[k + 1..])
    ensures items[k].addr !in have ==>
      Connects(have, items) == [items[k]] + Connects(have + [items[k].addr], items[..k] + items[k + 1..])
  {
  }

  /** The addresses held once getpeers is done with items, starting from
      the addresses in have. */
  function Plan(have: seq<seq<byte>>, items: seq<PeerItem>): seq<seq<byte>>
  {
    have + ItemAddrs(Connects(have, items))
  }

  /** The plan keeps the held addresses first, adds only addresses not
      held, nothing at all once 20 peers are held, and never goes past 20. */
  lemma PlanGrows(have: seq<seq<byte>>, items: seq<PeerItem>)
    ensures |have| <= |Plan(have, items)| && Plan(have, items)[..|have|] == have
    ensures forall i :: |have| <= i < |Plan(have, items)| ==> Plan(have, items)[i] !in have
    ensures |have| >= GOOD_NUMBER_OF_PEERS ==> Plan(have, items) == have
    ensures |have| < GOOD_NUMBER_OF_PEERS ==> |Plan(have, items)| <= GOOD_NUMBER_OF_PEERS
  {
    var c := Connects(have, items);
    ConnectsFrom(have, items);
    ConnectsBound(have, items);
    assert forall j :: 0 <= j < |c| ==> c[j] in c;
    assert have + [] == have;
  }

  /** The addresses held after peer_new_unique on a: unless a is held
      already, one more, a cut to sockaddr_storage. */
  function Take(have: seq<seq<byte>>, a: seq<byte>): (r: seq<seq<byte>>)
    ensures have <= r && |r| <= |have| + 1
    ensures a in r || AddrUpTo(a, ADDRCAP) in r
  {
    if a in have then have else have + [AddrUpTo(a, ADDRCAP)]
  }

  /** One round of the selection loop keeps the plan: what is held after
      taking the lowest entry, followed by what the rest brings, is what the
      whole list brings. */
  lemma PlanNext(have: seq<seq<byte>>, items: seq<PeerItem>, k: nat)
    requires |items| > 0 && |have| < GOOD_NUMBER_OF_PEERS && k == Lowest(items)
    requires |items[k].addr| <= ADDRCAP
    ensures Plan(Take(have, items[k].addr), items[..k] + items[k + 1..]) == Plan(have, items)
  {
    var a := items[k].addr;
    ConnectsStep(have, items, k);
    if a !in have {
      assert AddrUpTo(a, ADDRCAP) == a;
      ItemAddrsCons(have, items[k], Connects(have + [a], items[..k] + items[k + 1..]));
    }
  }

  /** The selection loop stops with nothing left or 20 peers held. */
  lemma PlanDone(have: seq<seq<byte>>, items: seq<PeerItem>)
    requires |items| == 0 || |have| >= GOOD_NUMBER_OF_PEERS
    ensures Plan(have, items) == have
  {
    assert Connects(have, items) == [];
  }

  lemma ItemAddrsCons(have: seq<seq<byte>>, x: PeerItem, tail: seq<PeerItem>)
    ensures have + ItemAddrs([x] + tail) == (have + [x.addr]) + ItemAddrs(tail)
  {
    assert ItemAddrs([x] + tail) == [x.addr] + ItemAddrs(tail);
  }

  function ItemAddrs(items: seq<PeerItem>): (r: seq<seq<byte>>)
    ensures |r| == |items| && forall i :: 0 <= i < |items| ==> r[i] == items[i].addr
  {
    seq(|items|, i requires 0 <= i < |items| => items[i].addr)
  }

  /** When there is room for all of them and none is already held, every
      entry with a distinct address gets connected. */
  lemma {:induction false} ConnectsAll(have: seq<seq<byte>>, items: seq<PeerItem>)
    requires |have| + |items| <= GOOD_NUMBER_OF_PEERS
    requires forall i :: 0 <= i < |items| ==> items[i].addr !in have
    requires forall i, j :: 0 <= i < j < |items| ==> items[i].addr != items[j].addr
    ensures |Connects(have, items)| == |items|
    decreases |items|
  {
    if |items| > 0 {
      var k := Lowest(items);
      var rest := items[..k] + items[k + 1..];
      var have' := have + [items[k].addr];
      forall i | 0 <= i < |rest|
        ensures rest[i].addr !in have'
      {
        var i' := if i < k then i else i + 1;
        assert rest[i] == items[i'];
      }
      forall i, j | 0 <= i < j < |rest|
        ensures rest[i].addr != rest[j].addr
      {
        var i' := if i < k then i else i + 1;
        var j' := if j < k then j else j + 1;
        assert rest[i] == items[i'] && rest[j] == items[j'];
      }
      ConnectsAll(have', rest);
    }
  }

  // ---- Connecting once per address (peer_new_unique) ----

  /** The peer addresses that successive peer_new_unique calls on addrs
      add to the held addresses have: an address equal to one held is
      skipped, and a new peer holds its address cut to sockaddr_storage. */
  function Uniques(have: seq<seq<byte>>, addrs: seq<seq<byte>>): (r: seq<seq<byte>>)
    ensures |r| <= |addrs|
    ensures forall i :: 0 <= i < |r| ==> |r[i]| <= ADDRCAP
    decreases |addrs|
  {
    if addrs == [] then []
    else if addrs[0] in have then Uniques(have, addrs[1..])
    else
      var a := AddrUpTo(addrs[0], ADDRCAP);
      [a] + Uniques(have + [a], addrs[1..])
  }

  /** The addresses getaddrinfo gives for the entries, in order. */
  function Resolved(hs: seq<HostPort>, resolve: HostPort -> seq<byte>): (r: seq<seq<byte>>)
    ensures |r| == |hs| && forall i :: 0 <= i < |hs| ==> r[i] == resolve(hs[i])
  {
    seq(|hs|, i requires 0 <= i < |hs| => resolve(hs[i]))
  }

  /** The addresses held after successive peer_new_unique calls on addrs. */
  function Joined(have: seq<seq<byte>>, addrs: seq<seq<byte>>): seq<seq<byte>>
  {
    have + Uniques(have, addrs)
  }

  /** One peer_new_unique call keeps the outcome of the rest. */
  lemma JoinedNext(have: seq<seq<byte>>, addrs: seq<seq<byte>>)
    requires addrs != []
    ensures Joined(Take(have, addrs[0]), addrs[1..]) == Joined(have, addrs)
  {
    if addrs[0] !in have {
      var a := AddrUpTo(addrs[0], ADDRCAP);
      var tail := Uniques(have + [a], addrs[1..]);
      assert Uniques(have, addrs) == [a] + tail;
      assert have + ([a] + tail) == (have + [a]) + tail;
    }
  }

  /** One round of peer_bootstrap keeps the outcome: an entry is connected
      to, a line without one changes nothing. */
  lemma JoinedStep(have: seq<seq<byte>>, todo: seq<HostPort>, e: Option<HostPort>, left: seq<HostPort>,
                   resolve: HostPort -> seq<byte>)
    requires todo == Keep(e) + left
    ensures e.Some? ==> Joined(Take(have, resolve(e.value)), Resolved(left, resolve)) == Joined(have, Resolved(todo, resolve))
    ensures e.None? ==> Resolved(todo, resolve) == Resolved(left, resolve)
  {
    if e.Some? {
      JoinedNext(have, Resolved(todo, resolve));
      assert Resolved(todo, resolve)[1..] == Resolved(left, resolve);
    }
  }

  /** For addresses that fit: each one added was not held, none is added
      twice, and every address is held afterwards. */
  lemma UniquesSpec(have: seq<seq<byte>>, addrs: seq<seq<byte>>)
    requires forall i :: 0 <= i < |addrs| ==> |addrs[i]| <= ADDRCAP
    ensures var r := Uniques(have, addrs);
      (forall i :: 0 <= i < |r| ==> r[i] !in have && r[i] in addrs) &&
      (forall i, j :: 0 <= i < j < |r| ==> r[i] != r[j]) &&
      (forall a :: a in addrs ==> a in have || a in r)
  {
    UniquesNew(have, addrs);
    UniquesDistinct(have, addrs);
    UniquesCover(have, addrs);
  }

  /** Each address added was not held, and is one of addrs. */
  lemma {:induction false} UniquesNew(have: seq<seq<byte>>, addrs: seq<seq<byte>>)
    requires forall i :: 0 <= i < |addrs| ==> |addrs[i]| <= ADDRCAP
    ensures forall x :: x in Uniques(have, addrs) ==> x !in have && x in addrs
    decreases |addrs|
  {
    if addrs != [] {
      var a := addrs[0];
      var tail := addrs[1..];
      assert forall x :: x in tail ==> x in addrs;
      if a in have {
        UniquesNew(have, tail);
      } else {
        UniquesNew(have + [a], tail);
        assert AddrUpTo(a, ADDRCAP) == a;
        assert Uniques(have, addrs) == [a] + Uniques(have + [a], tail);
      }
    }
  }

  /** No address is added twice. */
  lemma {:induction false} UniquesDistinct(have: seq<seq<byte>>, addrs: seq<seq<byte>>)
    requires forall i :: 0 <= i < |addrs| ==> |addrs[i]| <= ADDRCAP
    ensures forall i, j :: 0 <= i < j < |Uniques(have, addrs)| ==> Uniques(have, addrs)[i] != Uniques(have, addrs)[j]
    decreases |addrs|
  {
    if addrs != [] {
      var a := addrs[0];
      var tail := addrs[1..];
      if a in have {
        UniquesDistinct(have, tail);
        assert Uniques(have, addrs) == Uniques(have, tail);
      } else {
        var h := have + [a];
        assert h[|have|] == a;
        UniquesDistinct(h, tail);
        UniquesNew(h, tail);
        var rest := Uniques(h, tail);
        var r := [a] + rest;
        assert AddrUpTo(a, ADDRCAP) == a;
        assert Uniques(have, addrs) == r;
        forall i, j | 0 <= i < j < |r|
          ensures r[i] != r[j]
        {
          assert r[j] == rest[j - 1] && r[j] in rest;
          if i > 0 {
            assert r[i] == rest[i - 1];
            assert rest[i - 1] != rest[j - 1];
          } else {
            assert r[i] == a && r[j] !in h;
          }
        }
      }
    }
  }

  /** Every address of addrs is held afterwards. */
  lemma {:induction false} UniquesCover(have: seq<seq<byte>>, addrs: seq<seq<byte>>)
    requires forall i :: 0 <= i < |addrs| ==> |addrs[i]| <= ADDRCAP
    ensures forall x :: x in addrs ==> x in have || x in Uniques(have, addrs)
    decreases |addrs|
  {
    if addrs != [] {
      var a := addrs[0];
      var tail := addrs[1..];
      if a in have {
        UniquesCover(have, tail);
        forall x | x in addrs
          ensures x in have || x in Uniques(have, addrs)
        {
          if x != a {
            assert x in tail;
          }
        }
      } else {
        var h := have + [a];
        UniquesCover(h, tail);
        var rest := Uniques(h, tail);
        assert AddrUpTo(a, ADDRCAP) == a;
        assert Uniques(have, addrs) == [a] + rest;
        forall x | x in addrs
          ensures x in have || x in [a] + rest
        {
          if x != a {
            assert x in tail;
            assert x in h || x in rest;
          }
        }
      }
    }
  }

  // ---- The bootstrap list (peer_bootstrap) ----

  datatype HostPort = HostPort(host: string, port: string)

  /** The characters peer_bootstrap skips before an entry. */
  predicate Delim(c: char)
  {
    c == '\r' || c == '\n' || c == ' '
  }

  /** The first position of c in s (strchr). */
  function IndexOf(s: string, c: char): (r: Option<nat>)
    ensures r.None? <==> c !in s
    ensures r.Some? ==> r.value < |s| && s[r.value] == c && c !in s[..r.value]
  {
    if s == [] then None
    else if s[0] == c then Some(0)
    else
      match IndexOf(s[1..], c)
      case None => None
      case Some(k) =>
        assert s[..k + 1] == [s[0]] + s[1..][..k];
        Some(k + 1)
  }

  /** What one line of the list contributes: nothing without a ':' once
      cut at the first carriage return, otherwise host and port split at
      the first ':'. */
  function Entry(line: string): (r: Option<HostPort>)
    ensures r.Some? ==> ':' !in r.value.host && r.value.host + [':'] + r.value.port <= line
  {
    SplitAtColon(CutAtCR(line))
  }

  /** The text before the first carriage return. */
  function CutAtCR(t: string): (u: string)
    ensures '\r' !in u && u <= t
  {
    match IndexOf(t, '\r')
    case None => t
    case Some(i) => t[..i]
  }

  /** Host and port, split at the first ':'; None without one. */
  function SplitAtColon(u: string): (r: Option<HostPort>)
    ensures r.None? <==> ':' !in u
    ensures r.Some? ==> ':' !in r.value.host && u == r.value.host + [':'] + r.value.port
  {
    match IndexOf(u, ':')
    case None => None
    case Some(i) =>
      assert u == u[..i] + [':'] + u[i + 1..];
      Some(HostPort(u[..i], u[i + 1..]))
  }

  function Keep(e: Option<HostPort>): seq<HostPort>
  {
    if e.Some? then [e.value] else []
  }

  function Prepend(xs: seq<HostPort>, o: Option<seq<HostPort>>): Option<seq<HostPort>>
  {
    match o
    case None => None
    case Some(ys) => Some(xs + ys)
  }

  /** The entries peer_bootstrap connects to, as its loop walks the list:
      carriage returns, newlines and spaces are skipped, then the line up to
      the next newline (or the end of the list) is one entry, and the walk
      goes on after that newline. None where the skipping reaches the end of
      the list (an empty list, or one ending in delimiters after its last
      newline): there strchr matches the string's terminating NUL and the
      loop reads past the end. */
  function BootstrapList(s: string): (r: Option<seq<HostPort>>)
    ensures r.Some? ==> |r.value| <= |s|
    decreases |s|
  {
    if s == [] then None
    else if Delim(s[0]) then BootstrapList(s[1..])
    else
      match IndexOf(s, '\n')
      case None => Some(Keep(Entry(s)))
      case Some(i) => Prepend(Keep(Entry(s[..i])), BootstrapList(s[i + 1..]))
  }

  /** A list ending in a newline, or in a newline and then only spaces and
      carriage returns, is read past its end. */
  lemma BootstrapTrailingRefused()
    ensures BootstrapList("a:1\n").None? && BootstrapList("a:1\n \r").None?
  {
    var s, u := "a:1\n", "a:1\n \r";
    assert !Delim(s[0]) && !Delim(u[0]);
    assert s[3] == '\n' && '\n' !in s[..3] && IndexOf(s, '\n') == Some(3);
    assert u[3] == '\n' && '\n' !in u[..3] && IndexOf(u, '\n') == Some(3);
    assert s[4..] == [] && u[4..] == " \r" && " \r"[1..] == "\r" && "\r"[1..] == [];
    assert BootstrapList(" \r") == BootstrapList("\r") == BootstrapList([]);
  }

  /** A last line with no newline after it runs to the terminating NUL and
      ends the walk, whatever it ends in; a line without ':' adds nothing. */
  lemma BootstrapOpenLast()
    ensures BootstrapList("a:1 ").Some? && BootstrapList("a:1\r").Some?
    ensures BootstrapList("foo") == Some([])
  {
    var s, u, v := "a:1 ", "a:1\r", "foo";
    assert !Delim(s[0]) && !Delim(u[0]) && !Delim(v[0]);
    assert '\n' !in s && '\n' !in u && '\n' !in v;
    assert '\r' !in v && ':' !in v && Entry(v).None?;
  }

  /** An entry as peer_bootstrap passes it to getaddrinfo: no ':' in the
      host, and no carriage return or newline in host or port. */
  predicate Plain(e: HostPort)
  {
    ':' !in e.host && '\r' !in e.host && '\r' !in e.port && '\n' !in e.host && '\n' !in e.port
  }

  /** What a line of the list contributes is plain. */
  lemma EntryPlain(line: string)
    requires '\n' !in line && Entry(line).Some?
    ensures Plain(Entry(line).value)
  {
    var u := CutAtCR(line);
    var e := Entry(line).value;
    assert u == e.host + [':'] + e.port;
    assert forall k :: 0 <= k < |e.host| ==> e.host[k] == u[k];
    assert forall k :: 0 <= k < |e.port| ==> e.port[k] == u[|e.host| + 1 + k];
    assert forall k :: 0 <= k < |u| ==> u[k] == line[k];
  }

  /** Every entry peer_bootstrap connects to is plain. */
  lemma {:induction false} BootstrapPlain(s: string)
    requires BootstrapList(s).Some?
    ensures forall i :: 0 <= i < |BootstrapList(s).value| ==> Plain(BootstrapList(s).value[i])
    decreases |s|
  {
    if Delim(s[0]) {
      BootstrapPlain(s[1..]);
    } else if IndexOf(s, '\n').None? {
      LastLine(s);
      if Entry(s).Some? {
        EntryPlain(s);
      }
    } else {
      var i := IndexOf(s, '\n').value;
      NextLineAt(s, i);
      BootstrapPlain(s[i + 1..]);
      if Entry(s[..i]).Some? {
        EntryPlain(s[..i]);
      }
    }
  }

  /** A list of entries written one per line as host:port. */
  function Render(hs: seq<HostPort>): string
    requires |hs| > 0
    decreases |hs|
  {
    var line := hs[0].host + [':'] + hs[0].port;
    if |hs| == 1 then line else line + ['\n'] + Render(hs[1..])
  }

  /** An entry that a list can hold: plain, with a host that does not start
      with a delimiter. */
  predicate Listable(e: HostPort)
  {
    Plain(e) && e.host != [] && !Delim(e.host[0])
  }

  /** A listable entry written as host:port reads back as itself. */
  lemma RenderLine(e: HostPort)
    requires Listable(e)
    ensures var line := e.host + [':'] + e.port;
      '\n' !in line && line[0] == e.host[0] && Entry(line) == Some(e)
  {
    var line := e.host + [':'] + e.port;
    assert forall k :: 0 <= k < |line| ==> line[k] == (if k < |e.host| then e.host[k] else if k == |e.host| then ':' else e.port[k - |e.host| - 1]);
    assert IndexOf(line, '\r') == None;
    assert line[..|e.host|] == e.host;
    IndexOfFirst(line, ':', |e.host|);
    assert line[|e.host| + 1..] == e.port;
  }

  /** Listing entries one per line and bootstrapping from that list gives
      back the entries, in order. */
  lemma {:induction false} RenderParses(hs: seq<HostPort>)
    requires |hs| > 0 && forall i :: 0 <= i < |hs| ==> Listable(hs[i])
    ensures BootstrapList(Render(hs)) == Some(hs)
    decreases |hs|
  {
    var e := hs[0];
    var line := e.host + [':'] + e.port;
    RenderLine(e);
    if |hs| == 1 {
      assert IndexOf(line, '\n').None?;
      LastLine(line);
      assert Render(hs) == line && hs == [e];
    } else {
      FirstLine(line, Render(hs[1..]));
      RenderParses(hs[1..]);
      assert [e] + hs[1..] == hs;
    }
  }

  /** A list that is one line, starting at an entry. */
  lemma LastLine(line: string)
    requires line != [] && !Delim(line[0]) && IndexOf(line, '\n').None?
    ensures '\n' !in line && BootstrapList(line) == Some(Keep(Entry(line)))
  {
  }

  /** A list whose first line, from an entry, ends in the newline at i. */
  lemma NextLineAt(s: string, i: nat)
    requires s != [] && !Delim(s[0]) && IndexOf(s, '\n') == Some(i)
    ensures '\n' !in s[..i] && BootstrapList(s) == Prepend(Keep(Entry(s[..i])), BootstrapList(s[i + 1..]))
  {
  }

  /** A list whose first line starts at an entry. */
  lemma FirstLine(line: string, rest: string)
    requires line != [] && !Delim(line[0]) && '\n' !in line
    ensures BootstrapList(line + ['\n'] + rest) == Prepend(Keep(Entry(line)), BootstrapList(rest))
  {
    var s := line + ['\n'] + rest;
    assert s[..|line|] == line;
    IndexOfFirst(s, '\n', |line|);
    assert s[|line| + 1..] == rest;
  }

  /** The first occurrence is where IndexOf finds it. */
  lemma IndexOfFirst(s: string, c: char, i: nat)
    requires i < |s| && s[i] == c && c !in s[..i]
    ensures IndexOf(s, c) == Some(i)
  {
    var r := IndexOf(s, c);
    assert s[..r.value + 1][r.value] == c;
    assert r.value >= i ==> s[..r.value + 1][i] == c;
  }
}
