/** The state peer.c keeps and changes: struct peer, the static peers and
    commands arrays, and the operations on them. Each method is proved
    against the functions of module PeerProto and the stream methods of
    module UdpStream. TLS is represented by a script of successive
    handshake attempts. */
module Peers {
  import opened Bytes
  import opened Wrappers
  import opened UdpFrames
  import opened UdpStream
  import opened PeerProto

  /** struct peer, without the TLS session and the certificate fields. */
  class Peer {
    const stream: Stream
    /** Whether peer_new was asked for the server side of the session. */
    const server: bool
    var peercount: nat
    var handshake: bool
    var cmdlength: byte
    var cmdname: Option<seq<byte>>
    var datalength: i32

    /** peer->addr as udpstream_getaddr fills it: the stream's address cut
        to sizeof(struct sockaddr_storage). */
    function Addr(): (a: seq<byte>)
      ensures |a| <= ADDRCAP
    {
      AddrUpTo(stream.addr, ADDRCAP)
    }

    /** The receive fields, as the machine of PeerProto sees them. */
    function RxState(): Rx
      reads this
    {
      Rx(cmdlength, cmdname, datalength)
    }

    /** The initialisation in peer_new, with the outcome of its handshake. */
    constructor (stream: Stream, server: bool, handshake: bool)
      ensures this.stream == stream && this.server == server && this.handshake == handshake
      ensures peercount == 0 && RxState() == RxInit
    {
      this.stream := stream;
      this.server := server;
      this.handshake := handshake;
      peercount := 0;
      cmdlength := 0;
      cmdname := None;
      datalength := -1;
    }
  }

  /** The gnutls_handshake calls of the process, numbered in the order they
      happen: script(k) is what call k does on its stream and returns. */
  class Tls {
    const script: nat -> Attempt
    var count: nat

    constructor (script: nat -> Attempt)
      ensures this.script == script && count == 0
    {
      this.script := script;
      count := 0;
    }

    /** One gnutls_handshake call. */
    method Call() returns (a: Attempt)
      modifies this
      ensures a == script(old(count)) && count == old(count) + 1
    {
      a := script(count);
      count := count + 1;
    }

    /** Every call pulls at least one byte. The source does not promise it
        (a call that meets a fatal error may pull nothing); the loop of
        peer_handlesocket terminates only when it holds. */
    ghost predicate Reading()
    {
      forall k: nat :: Reads(script(k).io)
    }
  }

  /** One invocation of a registered callback: the registry position, the
      callback, the peer, the data buffer and the length argument. */
  datatype Invocation = Invocation(index: nat, callback: Callback, peer: Peer, data: seq<byte>, datalength: i32)

  /** The invocations the dispatch loop of peer_handlesocket makes from
      registry position i on, for a command name, peer, data buffer and
      length. */
  function Dispatched(cmds: seq<Command>, name: seq<byte>, i: nat, p: Peer, data: seq<byte>, len: i32): seq<Invocation>
    decreases |cmds| - i
  {
    if i >= |cmds| then []
    else
      (if cmds[i].name == name then [Invocation(i, cmds[i].callback, p, data, len)] else []) +
      Dispatched(cmds, name, i + 1, p, data, len)
  }

  /** One invocation per matching registry entry, in registry order, each
      with that entry's callback. */
  lemma {:induction false} DispatchedSpec(cmds: seq<Command>, name: seq<byte>, i: nat, p: Peer, data: seq<byte>, len: i32)
    ensures var r := Dispatched(cmds, name, i, p, data, len);
      var m := MatchingFrom(cmds, name, i);
      |r| == |m| && forall k :: 0 <= k < |r| ==> m[k] < |cmds| && r[k] == Invocation(m[k], cmds[m[k]].callback, p, data, len)
    decreases |cmds| - i
  {
    if i < |cmds| {
      DispatchedSpec(cmds, name, i + 1, p, data, len);
      var m := MatchingFrom(cmds, name, i + 1);
      var r := Dispatched(cmds, name, i + 1, p, data, len);
      if cmds[i].name == name {
        assert MatchingFrom(cmds, name, i) == [i] + m;
        assert Dispatched(cmds, name, i, p, data, len) == [Invocation(i, cmds[i].callback, p, data, len)] + r;
      } else {
        assert MatchingFrom(cmds, name, i) == m;
        assert Dispatched(cmds, name, i, p, data, len) == r;
      }
    }
  }

  /** The addresses of the peers, in order. */
  function Addrs(ps: seq<Peer>): (r: seq<seq<byte>>)
    ensures |r| == |ps| && forall i :: 0 <= i < |ps| ==> r[i] == ps[i].Addr()
  {
    seq(|ps|, i requires 0 <= i < |ps| => ps[i].Addr())
  }

  /** Peers in the state peer_new leaves them in. */
  ghost predicate Initial(ps: seq<Peer>)
    reads set p | p in ps
  {
    forall i :: 0 <= i < |ps| ==> ps[i].RxState() == RxInit
  }

  /** Streams as udpstream_new leaves them. */
  ghost predicate Unused(ss: seq<Stream>)
    reads ss
  {
    forall i :: 0 <= i < |ss| ==> ss[i].View() == Fresh
  }

  lemma InitialConcat(a: seq<Peer>, b: seq<Peer>)
    requires Initial(a) && Initial(b)
    ensures Initial(a + b)
  {
    assert forall i :: 0 <= i < |a + b| ==> (a + b)[i] == if i < |a| then a[i] else b[i - |a|];
  }

  lemma UnusedConcat(a: seq<Stream>, b: seq<Stream>)
    requires Unused(a) && Unused(b)
    ensures Unused(a + b)
  {
    assert forall i :: 0 <= i < |a + b| ==> (a + b)[i] == if i < |a| then a[i] else b[i - |a|];
  }

  lemma AddrsSnoc(ps: seq<Peer>, p: Peer)
    ensures Addrs(ps + [p]) == Addrs(ps) + [p.Addr()]
  {
    assert (ps + [p])[..|ps|] == ps;
  }

  /** The first peer, in creation order, on stream s. */
  function Owner(ps: seq<Peer>, s: Stream): (r: Option<nat>)
    ensures r.None? <==> forall i :: 0 <= i < |ps| ==> ps[i].stream != s
    ensures r.Some? ==> (r.value < |ps| && ps[r.value].stream == s &&
                         forall j :: 0 <= j < r.value ==> ps[j].stream != s)
    decreases |ps|
  {
    if ps == [] then None
    else if ps[0].stream == s then Some(0)
    else
      match Owner(ps[1..], s)
      case None => None
      case Some(k) => Some(k + 1)
  }

  /** The entry sendpeers writes for a peer: none before its handshake has
      completed, else its address and its peer count as a uint16_t. */
  function SharedItem(p: Peer): (r: seq<PeerItem>)
    reads p
    ensures |r| <= 1 && forall i :: 0 <= i < |r| ==> |r[i].addr| <= ADDRCAP
  {
    if p.handshake then [PeerItem(p.Addr(), (p.peercount % 0x1_0000) as u16)] else []
  }

  /** The entries sendpeers writes, in peer order. */
  function Shared(ps: seq<Peer>): (r: seq<PeerItem>)
    reads set p | p in ps
    ensures forall i :: 0 <= i < |r| ==> |r[i].addr| <= ADDRCAP
    decreases |ps|
  {
    if ps == [] then [] else Shared(ps[..|ps| - 1]) + SharedItem(ps[|ps| - 1])
  }

  lemma SharedStep(ps: seq<Peer>, i: nat)
    requires i < |ps|
    ensures Shared(ps[..i + 1]) == Shared(ps[..i]) + SharedItem(ps[i])
  {
    assert ps[..i + 1][..i] == ps[..i];
  }

  /** The four udpstream_write calls of peer_sendcmd for one peer. */
  method SendCmdTo(p: Peer, cmd: seq<byte>, data: seq<byte>)
    requires 0 !in cmd
    modifies p.stream
    ensures p.stream.View() == WriteAll(old(p.stream.View()), CmdPackets(cmd, data))
  {
    Pow256Values();
    ghost var c0 := p.stream.View();
    var cmdlen := |cmd| % 256;
    var n := p.stream.Write([cmdlen]);
    ghost var c1 := p.stream.View();
    n := p.stream.Write(cmd[..cmdlen]);
    ghost var c2 := p.stream.View();
    var len := |data| % 0x1_0000_0000;
    n := p.stream.Write(LE(len, 4));
    ghost var c3 := p.stream.View();
    n := p.stream.Write(data[..len]);
    ghost var ps: seq<seq<byte>> := CmdPackets(cmd, data);
    assert ps[1..][1..][1..][1..] == [];
    assert WriteAll(c3, ps[1..][1..][1..]) == p.stream.View();
    assert WriteAll(c2, ps[1..][1..]) == p.stream.View();
    assert WriteAll(c1, ps[1..]) == p.stream.View();
  }

  /** The static state of peer.c, together with the stream registry of
      udpstream.c that it drives. */
  class Node {
    const net: Registry
    const tls: Tls
    var peers: seq<Peer>
    var commands: seq<Command>
    /** Every callback invocation so far, in order. */
    var calls: seq<Invocation>

    /** Every peer's stream is a registered stream, and no two peers share
        one. */
    ghost predicate Valid()
      reads this, net
    {
      net.Valid() &&
      (forall i :: 0 <= i < |peers| ==> peers[i].stream in net.streams) &&
      (forall i, j :: 0 <= i < j < |peers| ==> peers[i].stream != peers[j].stream)
    }

    constructor (script: nat -> Attempt)
      ensures Valid() && fresh(net) && fresh(tls)
      ensures net.streams == [] && tls.script == script && tls.count == 0
      ensures peers == [] && commands == [] && calls == []
    {
      net := new Registry();
      tls := new Tls(script);
      peers := [];
      commands := [];
      calls := [];
    }

    /** peer_registercmd: the command is appended to the registry. */
    method RegisterCmd(name: seq<byte>, callback: Callback)
      requires 0 !in name
      modifies this
      ensures commands == old(commands) + [Command(name, callback)]
      ensures peers == old(peers) && calls == old(calls)
    {
      commands := commands + [Command(name, callback)];
    }

    /** peer_init: registers getpeers (answered by sendpeers) and peers
        (handled by getpeers). */
    method Init()
      modifies this
      ensures commands == old(commands) + [Command(GETPEERS, SendPeersCb), Command(PEERS, GetPeersCb)]
      ensures peers == old(peers) && calls == old(calls)
    {
      RegisterCmd(GETPEERS, SendPeersCb);
      RegisterCmd(PEERS, GetPeersCb);
    }

    /** peer_new: a peer for a stream no peer has, in the initial receive
        state, with the outcome of its first handshake attempt, appended to
        the peers. */
    method PeerNew(stream: Stream, server: bool) returns (p: Peer)
      requires Valid() && stream in net.streams
      requires forall i :: 0 <= i < |peers| ==> peers[i].stream != stream
      modifies this, tls
      ensures Valid()
      ensures fresh(p) && p.stream == stream && p.server == server
      ensures p.peercount == 0 && p.RxState() == RxInit
      ensures p.handshake == tls.script(old(tls.count)).ok && tls.count == old(tls.count) + 1
      ensures peers == old(peers) + [p] && commands == old(commands) && calls == old(calls)
    {
      var a := tls.Call();
      p := new Peer(stream, server, a.ok);
      peers := peers + [p];
    }

    /** peer_get: the first peer on the stream, or a new server-side peer
        when there is none. */
    method PeerGet(stream: Stream) returns (p: Peer)
      requires Valid() && stream in net.streams
      modifies this, tls
      ensures Valid() && p.stream == stream && p in peers
      ensures commands == old(commands) && calls == old(calls)
      ensures old(Owner(peers, stream)).Some? ==>
        p == old(peers)[old(Owner(peers, stream)).value] && peers == old(peers) && tls.count == old(tls.count)
      ensures old(Owner(peers, stream)).None? ==>
        fresh(p) && p.server && p.peercount == 0 && p.RxState() == RxInit &&
        p.handshake == tls.script(old(tls.count)).ok && tls.count == old(tls.count) + 1 &&
        peers == old(peers) + [p]
    {
      var i := 0;
      while i < |peers|
        invariant 0 <= i <= |peers|
        invariant forall j :: 0 <= j < i ==> peers[j].stream != stream
      {
        if peers[i].stream == stream {
          return peers[i];
        }
        i := i + 1;
      }
      p := PeerNew(stream, true);
    }

    /** peer_new_unique: nothing when a peer already has the address;
        otherwise a new stream and a new client-side peer on it. */
    method PeerNewUnique(sock: int, addr: seq<byte>) returns (p: Peer?)
      requires Valid()
      modifies this, tls, net
      ensures Valid() && commands == old(commands) && calls == old(calls)
      ensures Addrs(peers) == Take(Addrs(old(peers)), addr)
      ensures addr in Addrs(old(peers)) ==>
        p == null && peers == old(peers) && net.streams == old(net.streams) && tls.count == old(tls.count)
      ensures addr !in Addrs(old(peers)) ==>
        p != null && fresh(p) && fresh(p.stream) && peers == old(peers) + [p] &&
        net.streams == old(net.streams) + [p.stream] &&
        p.stream.sock == sock && p.stream.addr == addr && p.stream.View() == Fresh &&
        !p.server && p.peercount == 0 && p.RxState() == RxInit &&
        p.handshake == tls.script(old(tls.count)).ok && tls.count == old(tls.count) + 1
    {
      var i := 0;
      while i < |peers|
        invariant 0 <= i <= |peers|
        invariant forall j :: 0 <= j < i ==> peers[j].Addr() != addr
      {
        if peers[i].Addr() == addr {
          return null;
        }
        i := i + 1;
      }
      var s := net.NewStream(sock, addr);
      p := PeerNew(s, false);
      AddrsSnoc(old(peers), p);
    }

    /** peer_bootstrap: for each entry of the list, in order, the address
        getaddrinfo gives for it (resolve) is passed to peer_new_unique. */
    method Bootstrap(sock: int, list: string, resolve: HostPort -> seq<byte>)
      requires Valid() && BootstrapList(list).Some?
      modifies this, tls, net
      ensures Valid() && commands == old(commands) && calls == old(calls)
      ensures Addrs(peers) == Joined(Addrs(old(peers)), Resolved(BootstrapList(list).value, resolve))
    {
      ghost var all := Resolved(BootstrapList(list).value, resolve);
      ghost var todo := BootstrapList(list).value;
      var entry := list;
      var more := true;
      while more
        invariant Valid() && commands == old(commands) && calls == old(calls)
        invariant more ==> BootstrapList(entry) == Some(todo)
        invariant !more ==> todo == []
        invariant Joined(Addrs(peers), Resolved(todo, resolve)) == Joined(Addrs(old(peers)), all)
        decreases if more then |entry| + 1 else 0
      {
        var line;
        ghost var left;
        entry, more, line, left := NextLine(entry, todo);
        var e := SplitAtColon(CutAtCR(line));
        JoinedStep(Addrs(peers), todo, e, left, resolve);
        if e.Some? {
          var p := PeerNewUnique(sock, resolve(e.value));
        }
        todo := left;
      }
      assert Uniques(Addrs(peers), []) == [];
    }

    /** peer_sendcmd: to one peer, the four command packets; to null, the
        same to every peer whose handshake has completed, and nothing to the
        others. */
    method SendCmd(peer: Peer?, cmd: seq<byte>, data: seq<byte>)
      requires Valid() && 0 !in cmd
      modifies if peer != null then {peer.stream} else set i | 0 <= i < |peers| :: peers[i].stream
      ensures peer != null ==> peer.stream.View() == WriteAll(old(peer.stream.View()), CmdPackets(cmd, data))
      ensures peer == null ==> forall i :: 0 <= i < |peers| ==>
        peers[i].stream.View() ==
          if peers[i].handshake then WriteAll(old(peers[i].stream.View()), CmdPackets(cmd, data))
          else old(peers[i].stream.View())
    {
      if peer != null {
        SendCmdTo(peer, cmd, data);
        return;
      }
      var i := 0;
      while i < |peers|
        invariant 0 <= i <= |peers|
        invariant forall j :: 0 <= j < i ==>
          peers[j].stream.View() ==
            if peers[j].handshake then WriteAll(old(peers[j].stream.View()), CmdPackets(cmd, data))
            else old(peers[j].stream.View())
        invariant forall j :: i <= j < |peers| ==> peers[j].stream.View() == old(peers[j].stream.View())
      {
        if peers[i].handshake {
          SendCmdTo(peers[i], cmd, data);
        }
        i := i + 1;
      }
    }

    /** sendpeers: the first loop sizes the list, the second fills it, and
        the list goes to the asking peer as a peers command. */
    method SendPeers(peer: Peer)
      modifies peer.stream
      ensures peer.stream.View() == WriteAll(old(peer.stream.View()), CmdPackets(PEERS, EncodePeers(Shared(peers))))
    {
      var len := SizePeers();
      var data := BuildPeers();
      assert |data| == len;
      ghost var items := Shared(peers);
      SendCmdTo(peer, PEERS, data);
      assert Shared(peers) == items;
    }

    /** The first loop of sendpeers. */
    method SizePeers() returns (len: nat)
      ensures len == EncodedSize(Shared(peers))
    {
      len := 0;
      var i := 0;
      while i < |peers|
        invariant 0 <= i <= |peers|
        invariant len == EncodedSize(Shared(peers[..i]))
      {
        SharedStep(peers, i);
        EncodedSizeConcat(Shared(peers[..i]), SharedItem(peers[i]));
        if peers[i].handshake {
          len := len + 2 + |peers[i].Addr()| + 2;
        }
        i := i + 1;
      }
      assert peers[..|peers|] == peers;
    }

    /** The second loop of sendpeers. */
    method BuildPeers() returns (data: seq<byte>)
      ensures data == EncodePeers(Shared(peers))
    {
      data := [];
      var i := 0;
      while i < |peers|
        invariant 0 <= i <= |peers|
        invariant data == EncodePeers(Shared(peers[..i]))
      {
        SharedStep(peers, i);
        if peers[i].handshake {
          var item := PeerItem(peers[i].Addr(), (peers[i].peercount % 0x1_0000) as u16);
          EncodePeersSnoc(Shared(peers[..i]), item);
          data := data + EncodeItem(item);
        } else {
          assert Shared(peers[..i + 1]) == Shared(peers[..i]);
        }
        i := i + 1;
      }
      assert peers[..|peers|] == peers;
    }

    /** getpeers: the list is parsed (with the truncation check as written),
        its length becomes the sender's peer count, and the entries are
        connected to as Connects chooses, each on a new stream. The new
        peers and streams are returned as ghost values. */
    method GetPeers(peer: Peer, data: seq<byte>) returns (ghost added: seq<Peer>, ghost made: seq<Stream>)
      requires Valid() && peer in peers
      modifies this, tls, net, peer
      ensures Valid() && commands == old(commands) && calls == old(calls)
      ensures peer.peercount == |ParsePeersAsWritten(data)|
      ensures peer.RxState() == old(peer.RxState()) && peer.handshake == old(peer.handshake)
      ensures Addrs(peers) == Plan(Addrs(old(peers)), ParsePeersAsWritten(data))
      ensures peers == old(peers) + added && net.streams == old(net.streams) + made
      ensures Initial(added) && Unused(made)
      ensures forall i :: 0 <= i < |added| ==> fresh(added[i])
      ensures forall i :: 0 <= i < |made| ==> fresh(made[i])
    {
      var items := ParsePeerList(data);
      peer.peercount := |items|;
      added, made := ConnectLowest(peer.stream.sock, items);
    }

    /** The selection loop of getpeers: while there are entries left and
        fewer than 20 peers, the first entry with the lowest peer count is
        taken out and passed to peer_new_unique. */
    method ConnectLowest(sock: int, items: seq<PeerItem>) returns (ghost added: seq<Peer>, ghost made: seq<Stream>)
      requires Valid() && forall i :: 0 <= i < |items| ==> |items[i].addr| <= SOCKADDR_SIZE
      modifies this, tls, net
      ensures Valid() && commands == old(commands) && calls == old(calls)
      ensures Addrs(peers) == Plan(Addrs(old(peers)), items)
      ensures peers == old(peers) + added && net.streams == old(net.streams) + made
      ensures Initial(added) && Unused(made)
      ensures forall i :: 0 <= i < |added| ==> fresh(added[i])
      ensures forall i :: 0 <= i < |made| ==> fresh(made[i])
    {
      var left := items;
      added, made := [], [];
      while |left| > 0 && |peers| < GOOD_NUMBER_OF_PEERS
        invariant Valid() && commands == old(commands) && calls == old(calls)
        invariant forall i :: 0 <= i < |left| ==> |left[i].addr| <= SOCKADDR_SIZE
        invariant Plan(Addrs(peers), left) == Plan(Addrs(old(peers)), items)
        invariant peers == old(peers) + added && net.streams == old(net.streams) + made
        invariant Initial(added) && Unused(made)
        invariant forall i :: 0 <= i < |added| ==> fresh(added[i])
        invariant forall i :: 0 <= i < |made| ==> fresh(made[i])
        decreases |left|
      {
        var p;
        left, p := ConnectRound(sock, left);
        if p != null {
          InitialConcat(added, [p]);
          UnusedConcat(made, [p.stream]);
          assert (old(peers) + added) + [p] == old(peers) + (added + [p]);
          assert (old(net.streams) + made) + [p.stream] == old(net.streams) + (made + [p.stream]);
          added, made := added + [p], made + [p.stream];
        }
      }
      PlanDone(Addrs(peers), left);
    }

    /** One round of the selection loop of getpeers. */
    method ConnectRound(sock: int, left: seq<PeerItem>) returns (rest: seq<PeerItem>, p: Peer?)
      requires Valid() && |left| > 0 && |peers| < GOOD_NUMBER_OF_PEERS
      requires forall i :: 0 <= i < |left| ==> |left[i].addr| <= SOCKADDR_SIZE
      modifies this, tls, net
      ensures Valid() && commands == old(commands) && calls == old(calls)
      ensures |rest| < |left| && forall i :: 0 <= i < |rest| ==> |rest[i].addr| <= SOCKADDR_SIZE
      ensures Plan(Addrs(peers), rest) == Plan(Addrs(old(peers)), left)
      ensures p == null ==> peers == old(peers) && net.streams == old(net.streams)
      ensures p != null ==> peers == old(peers) + [p] && net.streams == old(net.streams) + [p.stream] &&
                            fresh(p) && fresh(p.stream) && p.stream.View() == Fresh && p.RxState() == RxInit
    {
      var k := LowestIndex(left);
      PlanNext(Addrs(peers), left, k);
      p := PeerNewUnique(sock, left[k].addr);
      rest := left[..k] + left[k + 1..];
    }

    /** The handshake branch of peer_handlesocket: one gnutls_handshake
        call, which pulls from and pushes to the stream as its attempt
        says; when it returns 0, getpeers is sent to the peer (peer_sendcmd
        with a peer and no data). */
    method Handshake(p: Peer)
      modifies p, p.stream, tls
      ensures tls.count == old(tls.count) + 1
      ensures p.handshake == tls.script(old(tls.count)).ok
      ensures p.stream.View() ==
        if p.handshake then WriteAll(RunIo(old(p.stream.View()), tls.script(old(tls.count)).io), CmdPackets(GETPEERS, []))
        else RunIo(old(p.stream.View()), tls.script(old(tls.count)).io)
      ensures p.RxState() == old(p.RxState()) && p.peercount == old(p.peercount)
    {
      var a := tls.Call();
      Transport(p.stream, a.io);
      p.handshake := a.ok;
      if a.ok {
        SendCmdTo(p, GETPEERS, []);
      }
    }

    /** The handshake branch as evidently intended: as Handshake, except
        that an attempt which pulled nothing has the packet it was polled
        for dropped from the stream. */
    method HandshakeIntended(p: Peer)
      modifies p, p.stream, tls
      ensures tls.count == old(tls.count) + 1
      ensures p.handshake == tls.script(old(tls.count)).ok
      ensures p.stream.View() ==
        if p.handshake then WriteAll(AttemptIntended(old(p.stream.View()), tls.script(old(tls.count)).io), CmdPackets(GETPEERS, []))
        else AttemptIntended(old(p.stream.View()), tls.script(old(tls.count)).io)
      ensures p.RxState() == old(p.RxState()) && p.peercount == old(p.peercount)
    {
      var a := tls.Call();
      Transport(p.stream, a.io);
      if !Reads(a.io) {
        Drop(p.stream);
      }
      p.handshake := a.ok;
      if a.ok {
        SendCmdTo(p, GETPEERS, []);
      }
    }

    /** Stage 3 of the receive machine: the data is read, every registered
        command whose name equals the received name is invoked in registry
        order (sendpeers and getpeers run; application callbacks are only
        logged), and the receive fields return to their initial values. The
        peers and streams getpeers creates are returned as ghost values. */
    method Dispatch(p: Peer) returns (ghost added: seq<Peer>, ghost made: seq<Stream>)
      requires Valid() && p in peers && Stage(p.RxState()) == 3
      modifies this, tls, net, p, p.stream
      ensures Valid() && commands == old(commands)
      ensures calls == old(calls) +
        Dispatched(commands, CStr(old(p.cmdname).value), 0, p,
                   ReadConn(old(p.stream.View()), old(p.datalength)).bytes, old(p.datalength))
      ensures p.RxState() == RxInit && p.handshake == old(p.handshake)
      ensures p.stream.recv == RxStep(old(p.RxState()), old(p.stream.View())).conn.recv
      ensures peers == old(peers) + added && net.streams == old(net.streams) + made
      ensures Initial(added) && Unused(made)
      ensures forall i :: 0 <= i < |added| ==> fresh(added[i])
      ensures forall i :: 0 <= i < |made| ==> fresh(made[i])
    {
      var len := p.datalength;
      var name := CStr(p.cmdname.value);
      var n, data := p.stream.Read(len);
      ghost var recv := p.stream.recv;
      ghost var c0 := old(p.stream.View());
      assert ReadConn(c0, len).conn.recv == recv && RxStep(old(p.RxState()), c0).conn.recv == recv;
      added, made := InvokeAll(p, name, data, len);
      p.cmdname := None;
      p.cmdlength := 0;
      p.datalength := -1;
    }

    /** The dispatch loop of peer_handlesocket: every registered command
        named name is invoked, in registry order, with data and len. */
    method InvokeAll(p: Peer, name: seq<byte>, data: seq<byte>, len: i32) returns (ghost added: seq<Peer>, ghost made: seq<Stream>)
      requires Valid() && p in peers
      modifies this, tls, net, p, p.stream
      ensures Valid() && commands == old(commands)
      ensures calls == old(calls) + Dispatched(commands, name, 0, p, data, len)
      ensures p.stream.recv == old(p.stream.recv)
      ensures p.RxState() == old(p.RxState()) && p.handshake == old(p.handshake)
      ensures peers == old(peers) + added && net.streams == old(net.streams) + made
      ensures Initial(added) && Unused(made)
      ensures forall i :: 0 <= i < |added| ==> fresh(added[i])
      ensures forall i :: 0 <= i < |made| ==> fresh(made[i])
    {
      ghost var recv := p.stream.recv;
      ghost var log := Dispatched(commands, name, 0, p, data, len);
      added, made := [], [];
      var i := 0;
      while i < |commands|
        invariant 0 <= i <= |commands|
        invariant Valid() && commands == old(commands) && p in peers
        invariant old(calls) + log == calls + Dispatched(commands, name, i, p, data, len)
        invariant p.stream.recv == recv
        invariant p.RxState() == old(p.RxState()) && p.handshake == old(p.handshake)
        invariant peers == old(peers) + added && net.streams == old(net.streams) + made
        invariant Initial(added) && Unused(made)
        invariant forall j :: 0 <= j < |added| ==> fresh(added[j])
        invariant forall j :: 0 <= j < |made| ==> fresh(made[j])
      {
        ghost var a, m := InvokeAt(p, i, name, data, len);
        InitialConcat(added, a);
        UnusedConcat(made, m);
        assert (old(peers) + added) + a == old(peers) + (added + a);
        assert (old(net.streams) + made) + m == old(net.streams) + (made + m);
        added, made := added + a, made + m;
        i := i + 1;
      }
      assert calls + [] == calls;
    }

    /** Position i of the dispatch loop: the command is invoked, and the
        invocation logged, when its name is name. */
    method InvokeAt(p: Peer, i: nat, name: seq<byte>, data: seq<byte>, len: i32) returns (ghost added: seq<Peer>, ghost made: seq<Stream>)
      requires Valid() && p in peers && i < |commands|
      modifies this, tls, net, p, p.stream
      ensures Valid() && commands == old(commands)
      ensures calls + Dispatched(commands, name, i + 1, p, data, len) == old(calls) + Dispatched(commands, name, i, p, data, len)
      ensures p.stream.recv == old(p.stream.recv)
      ensures p.RxState() == old(p.RxState()) && p.handshake == old(p.handshake)
      ensures peers == old(peers) + added && net.streams == old(net.streams) + made
      ensures Initial(added) && Unused(made)
      ensures forall j :: 0 <= j < |added| ==> fresh(added[j])
      ensures forall j :: 0 <= j < |made| ==> fresh(made[j])
    {
      DispatchedNext(commands, name, i, p, data, len);
      added, made := [], [];
      if commands[i].name == name {
        calls := calls + [Invocation(i, commands[i].callback, p, data, len)];
        added, made := Invoke(p, commands[i].callback, data);
      }
    }

    /** One invocation of the dispatch loop: sendpeers answers the peer,
        getpeers takes its data as a peers list, and an application callback
        changes nothing here. */
    method Invoke(p: Peer, cb: Callback, data: seq<byte>) returns (ghost added: seq<Peer>, ghost made: seq<Stream>)
      requires Valid() && p in peers
      modifies this, tls, net, p, p.stream
      ensures Valid() && commands == old(commands) && calls == old(calls)
      ensures p.stream.recv == old(p.stream.recv)
      ensures p.RxState() == old(p.RxState()) && p.handshake == old(p.handshake)
      ensures peers == old(peers) + added && net.streams == old(net.streams) + made
      ensures Initial(added) && Unused(made)
      ensures forall i :: 0 <= i < |added| ==> fresh(added[i])
      ensures forall i :: 0 <= i < |made| ==> fresh(made[i])
      ensures cb == SendPeersCb ==> (added == [] && made == [] &&
        p.stream.View() == WriteAll(old(p.stream.View()), CmdPackets(PEERS, EncodePeers(Shared(old(peers))))))
      ensures cb == GetPeersCb ==> (p.peercount == |ParsePeersAsWritten(data)| &&
        Addrs(peers) == Plan(Addrs(old(peers)), ParsePeersAsWritten(data)))
      ensures cb.AppCb? ==> added == [] && made == [] && p.stream.View() == old(p.stream.View())
    {
      added, made := [], [];
      match cb
      case SendPeersCb =>
        SendPeers(p);
      case GetPeersCb =>
        added, made := GetPeers(p, data);
      case AppCb(_) =>
    }

    /** The termination measure of the loop of peer_handlesocket: the bytes
        and packets queued on the streams, then the peers waiting in
        stage 3. */
    ghost function Load(): nat
      reads net, net.streams
    {
      Sum(Loads(net.streams))
    }

    ghost function Waiting(): nat
      reads this, peers
    {
      Sum(Pending(peers))
    }

    /** One iteration of the loop of peer_handlesocket, for the peer p of
        the stream udpstream_poll returned: the handshake branch or one stage
        of the receive machine. Either the bytes queued on the streams
        shrink, or they stay and one peer fewer waits in stage 3. */
    method Step(p: Peer, intended: bool)
      requires Valid() && p in peers && Ready(p.stream.View()) && (intended || tls.Reading())
      modifies this, tls, net, p, p.stream
      ensures Valid() && commands == old(commands) && old(calls) <= calls
      ensures Load() < old(Load()) || (Load() == old(Load()) && Waiting() < old(Waiting()))
      ensures forall s :: s in net.streams ==> s in old(net.streams) || fresh(s)
      ensures forall q :: q in peers ==> q in old(peers) || fresh(q)
    {
      ghost var k :| 0 <= k < |net.streams| && net.streams[k] == p.stream;
      if !p.handshake && intended {
        StepHandshakeIntended(p, k);
      } else if !p.handshake {
        StepHandshake(p, k);
      } else if Stage(p.RxState()) < 3 {
        StepReceive(p, k);
      } else {
        ghost var j :| 0 <= j < |peers| && peers[j] == p;
        StepDispatch(p, k, j);
      }
    }

    /** The commands are the same, the call log extends the earlier one,
        and every stream and peer is one that was there before or a new
        one. */
    twostate predicate Grew()
      reads this, net
    {
      commands == old(commands) && old(calls) <= calls &&
      (forall s :: s in net.streams ==> s in old(net.streams) || fresh(s)) &&
      (forall q :: q in peers ==> q in old(peers) || fresh(q))
    }

    /** What udpstream_poll returned: a ready registered stream, or null
        when no stream is ready. */
    ghost predicate Polled(r: Stream?)
      reads net, net.streams, r
    {
      if r == null then forall i :: 0 <= i < |net.streams| ==> !Ready(net.streams[i].View())
      else r in net.streams && Ready(r.View())
    }

    /** The peer the loop handles next: the peer of a ready registered
        stream, or null when no stream is ready. */
    ghost predicate Upcoming(q: Peer?)
      reads this, net, net.streams, q, if q == null then {} else {q.stream}
    {
      if q == null then Polled(null) else q in peers && Polled(q.stream)
    }

    /** Step, then udpstream_poll for the next ready stream and peer_get for
        its peer. */
    method Advance(p: Peer, intended: bool) returns (q: Peer?)
      requires Valid() && p in peers && Ready(p.stream.View()) && (intended || tls.Reading())
      modifies this, tls, net, p, p.stream
      ensures Valid() && Grew() && Upcoming(q) && (q == null || q in old(peers) || fresh(q))
      ensures Load() < old(Load()) || (Load() == old(Load()) && Waiting() < old(Waiting()))
    {
      Step(p, intended);
      var r := net.Poll();
      q := null;
      if r != null {
        q := PeerFor(r);
      }
    }

    /** peer_get as the loop uses it: the peer it returns is registered,
        and a new one does not wait in stage 3. */
    method PeerFor(r: Stream) returns (p: Peer)
      requires Valid() && Polled(r)
      modifies this, tls
      ensures Valid() && Grew() && Upcoming(p) && p.stream == r && (p in old(peers) || fresh(p))
      ensures Waiting() == old(Waiting()) && Load() == old(Load())
    {
      ghost var waiting := Pending(peers);
      p := PeerGet(r);
      SumExtend(waiting, Pending(peers));
    }

    /** Dispatch as the loop uses it: the peer leaves stage 3, and its
        stream keeps what the receive machine leaves on it. */
    method DispatchStep(p: Peer) returns (ghost added: seq<Peer>, ghost made: seq<Stream>)
      requires Valid() && p in peers && Stage(p.RxState()) == 3 && Ready(p.stream.View())
      modifies this, tls, net, p, p.stream
      ensures Valid() && commands == old(commands) && old(calls) <= calls
      ensures p.RxState() == RxInit
      ensures PacketLoad(p.stream.recv) <= old(PacketLoad(p.stream.recv))
      ensures peers == old(peers) + added && net.streams == old(net.streams) + made
      ensures Initial(added) && Unused(made)
      ensures forall i :: 0 <= i < |added| ==> fresh(added[i])
      ensures forall i :: 0 <= i < |made| ==> fresh(made[i])
    {
      RxStepProgress(p.RxState(), p.stream.View());
      added, made := Dispatch(p);
    }

    /** The handshake branch: when every call reads, the attempt takes
        something off the ready stream. */
    method StepHandshake(p: Peer, ghost k: nat)
      requires Valid() && k < |net.streams| && net.streams[k] == p.stream && Ready(p.stream.View())
      requires tls.Reading()
      modifies p, p.stream, tls
      ensures Valid() && Load() < old(Load())
    {
      ghost var ss, loads := net.streams, Loads(net.streams);
      ghost var c := p.stream.View();
      ghost var io := tls.script(tls.count).io;
      RunIoShrinks(c, io);
      Handshake(p);
      LoadFrame(ss, [], k, loads);
      assert ss + [] == ss;
    }

    /** The intended handshake branch takes something off the ready
        stream, whatever the attempt's calls are. */
    method StepHandshakeIntended(p: Peer, ghost k: nat)
      requires Valid() && k < |net.streams| && net.streams[k] == p.stream && Ready(p.stream.View())
      modifies p, p.stream, tls
      ensures Valid() && Load() < old(Load())
    {
      ghost var ss, loads := net.streams, Loads(net.streams);
      ghost var c := p.stream.View();
      ghost var io := tls.script(tls.count).io;
      AttemptIntendedShrinks(c, io);
      HandshakeIntended(p);
      LoadFrame(ss, [], k, loads);
      assert ss + [] == ss;
    }

    /** Stages 0 to 2: the read takes something off the stream. */
    method StepReceive(p: Peer, ghost k: nat)
      requires Valid() && k < |net.streams| && net.streams[k] == p.stream && Ready(p.stream.View())
      requires Stage(p.RxState()) < 3
      modifies p, p.stream
      ensures Valid() && Load() < old(Load())
    {
      ghost var ss, loads := net.streams, Loads(net.streams);
      RxStepProgress(p.RxState(), p.stream.View());
      ReceiveStage(p);
      LoadFrame(ss, [], k, loads);
      assert ss + [] == ss;
    }

    /** Stage 3: the data read may take nothing off the stream (a length of
        zero or less), but then the peer leaves stage 3, and the peers and
        streams getpeers creates hold nothing. */
    method StepDispatch(p: Peer, ghost k: nat, ghost j: nat)
      requires Valid() && k < |net.streams| && net.streams[k] == p.stream && Ready(p.stream.View())
      requires j < |peers| && peers[j] == p && Stage(p.RxState()) == 3
      modifies this, tls, net, p, p.stream
      ensures Valid() && commands == old(commands) && old(calls) <= calls
      ensures Load() <= old(Load()) && Waiting() < old(Waiting())
      ensures forall s :: s in net.streams ==> s in old(net.streams) || fresh(s)
      ensures forall q :: q in peers ==> q in old(peers) || fresh(q)
    {
      ghost var ss, loads := net.streams, Loads(net.streams);
      ghost var ps, waiting := peers, Pending(peers);
      PeerIndex(peers, j);
      ghost var a, m := DispatchStep(p);
      LoadFrame(ss, m, k, loads);
      WaitFrame(ps, a, j, waiting);
    }

    /** peer_handlesocket for one datagram dgram from address from:
        udpstream_readsocket, then one Step for each stream udpstream_poll
        returns, with the peer peer_get gives for it. It returns only when
        no stream holds its next in-order packet. */
    method HandleSocket(sock: int, from: seq<byte>, dgram: seq<byte>)
      requires Valid() && tls.Reading()
      modifies this, tls, net, net.streams, peers
      ensures Valid() && commands == old(commands) && old(calls) <= calls
      ensures forall i :: 0 <= i < |net.streams| ==> !Ready(net.streams[i].View())
    {
      var next := Receive(sock, from, dgram);
      while next != null
        invariant Valid() && Grew() && Upcoming(next) && (next == null || next in old(peers) || fresh(next))
        decreases Load(), Waiting()
      {
        next := Advance(next, false);
      }
    }

    /** peer_handlesocket with the handshake branch as evidently intended
        (HandshakeIntended): it returns, with no stream ready, whatever the
        handshake attempts do. */
    method HandleSocketIntended(sock: int, from: seq<byte>, dgram: seq<byte>)
      requires Valid()
      modifies this, tls, net, net.streams, peers
      ensures Valid() && commands == old(commands) && old(calls) <= calls
      ensures forall i :: 0 <= i < |net.streams| ==> !Ready(net.streams[i].View())
    {
      var next := Receive(sock, from, dgram);
      while next != null
        invariant Valid() && Grew() && Upcoming(next) && (next == null || next in old(peers) || fresh(next))
        decreases Load(), Waiting()
      {
        next := Advance(next, true);
      }
    }

    /** udpstream_readsocket, the first udpstream_poll of the loop, and
        peer_get for the stream it returns. */
    method Receive(sock: int, from: seq<byte>, dgram: seq<byte>) returns (p: Peer?)
      requires Valid()
      modifies this, tls, net, net.streams
      ensures Valid() && Grew() && Upcoming(p) && (p == null || p in old(peers) || fresh(p))
    {
      var s := net.ReadSocket(sock, from, dgram);
      p := FirstPeer();
    }

    /** The first udpstream_poll of the loop, and peer_get for the stream it
        returns. */
    method FirstPeer() returns (p: Peer?)
      requires Valid()
      modifies this, tls
      ensures Valid() && Grew() && Upcoming(p) && (p == null || p in old(peers) || fresh(p))
    {
      var r := net.Poll();
      p := null;
      if r != null {
        p := PeerFor(r);
      }
    }

  }

  /** udpstream_read of the whole next in-order packet, whose bytes are
      dropped. */
  method Drop(s: Stream)
    modifies s
    ensures s.View() == Discard(old(s.View()))
  {
    var found := s.FindNext();
    if found.Some? {
      var n, b := s.Read(|s.recv[found.value].data|);
    }
  }

  /** The pull and push calls of one gnutls_handshake call, made on the
      stream through udpstream_read and udpstream_write. */
  method Transport(s: Stream, io: seq<TlsIo>)
    modifies s
    ensures s.View() == RunIo(old(s.View()), io)
  {
    var i := 0;
    while i < |io|
      invariant 0 <= i <= |io|
      invariant RunIo(s.View(), io[i..]) == RunIo(old(s.View()), io)
    {
      assert io[i..][0] == io[i] && io[i..][1..] == io[i + 1..];
      match io[i] {
        case Pull(size) =>
          var n, b := s.Read(size);
        case Push(data) =>
          var n := s.Write(data);
      }
      i := i + 1;
    }
  }

  /** Stages 0 to 2 of the receive machine of peer_handlesocket: one
      udpstream_read into cmdlength, into a new name buffer of cmdlength
      bytes, or over the bytes of datalength. */
  method ReceiveStage(p: Peer)
    requires Stage(p.RxState()) < 3
    modifies p, p.stream
    ensures RxOut(p.RxState(), p.stream.View(), None) == RxStep(old(p.RxState()), old(p.stream.View()))
    ensures p.handshake == old(p.handshake) && p.peercount == old(p.peercount)
  {
    Pow256Values();
    if p.cmdlength == 0 {
      var n, b := p.stream.Read(1);
      if |b| == 1 {
        p.cmdlength := b[0];
      }
    } else if p.cmdname.None? {
      var n, b := p.stream.Read(p.cmdlength);
      p.cmdname := Some(b);
    } else {
      var n, b := p.stream.Read(4);
      var before := LE(FromInt32(p.datalength), 4);
      p.datalength := ToInt32(FromLE(b + before[|b|..]));
    }
  }

  /** A dispatch loop round: the invocation for position i, if its name
      matches, then those after it. */
  lemma DispatchedNext(cmds: seq<Command>, name: seq<byte>, i: nat, p: Peer, data: seq<byte>, len: i32)
    requires i < |cmds|
    ensures cmds[i].name == name ==>
      Dispatched(cmds, name, i, p, data, len) == [Invocation(i, cmds[i].callback, p, data, len)] + Dispatched(cmds, name, i + 1, p, data, len)
    ensures cmds[i].name != name ==> Dispatched(cmds, name, i, p, data, len) == Dispatched(cmds, name, i + 1, p, data, len)
  {
  }

  /** The sum of a sequence of naturals. */
  function Sum(xs: seq<nat>): nat
  {
    if xs == [] then 0 else xs[0] + Sum(xs[1..])
  }

  lemma {:induction false} SumConcat(a: seq<nat>, b: seq<nat>)
    ensures Sum(a + b) == Sum(a) + Sum(b)
    decreases |a|
  {
    if a == [] {
      assert a + b == b;
    } else {
      assert (a + b)[1..] == a[1..] + b;
      SumConcat(a[1..], b);
    }
  }

  lemma {:induction false} SumZero(a: seq<nat>)
    requires forall i :: 0 <= i < |a| ==> a[i] == 0
    ensures Sum(a) == 0
    decreases |a|
  {
    if a != [] {
      SumZero(a[1..]);
    }
  }

  lemma {:induction false} SumUpdate(a: seq<nat>, k: nat, x: nat)
    requires k < |a|
    ensures Sum(a[k := x]) + a[k] == Sum(a) + x
    decreases k
  {
    if k == 0 {
      assert a[k := x][1..] == a[1..];
    } else {
      assert a[k := x][1..] == a[1..][k - 1 := x];
      SumUpdate(a[1..], k - 1, x);
    }
  }

  /** b is a with position k changed and zeros appended: the sum changes by
      exactly the change at k. */
  lemma SumFrame(a: seq<nat>, b: seq<nat>, k: nat)
    requires k < |a| <= |b|
    requires forall i :: 0 <= i < |a| && i != k ==> b[i] == a[i]
    requires forall i :: |a| <= i < |b| ==> b[i] == 0
    ensures Sum(b) + a[k] == Sum(a) + b[k]
  {
    var t := b[|a|..];
    SumZero(t);
    assert b == a[k := b[k]] + t;
    SumConcat(a[k := b[k]], t);
    SumUpdate(a, k, b[k]);
  }

  /** Zeros appended leave the sum alone. */
  lemma SumExtend(a: seq<nat>, b: seq<nat>)
    requires |a| <= |b|
    requires forall i :: 0 <= i < |a| ==> b[i] == a[i]
    requires forall i :: |a| <= i < |b| ==> b[i] == 0
    ensures Sum(b) == Sum(a)
  {
    var t := b[|a|..];
    SumZero(t);
    assert b == a + t;
    SumConcat(a, t);
  }

  /** No two peers share a stream, so no two positions hold the same peer. */
  lemma PeerIndex(ps: seq<Peer>, j: nat)
    requires j < |ps|
    requires forall i, k :: 0 <= i < k < |ps| ==> ps[i].stream != ps[k].stream
    ensures forall i :: 0 <= i < |ps| && i != j ==> ps[i] != ps[j]
  {
    forall i | 0 <= i < |ps| && i != j
      ensures ps[i] != ps[j]
    {
      if i < j {
        assert ps[i].stream != ps[j].stream;
      } else {
        assert ps[j].stream != ps[i].stream;
      }
    }
  }

  /** A step that changes only the stream at k and registers empty streams
      changes the total load by exactly the change at k. */
  lemma LoadFrame(ss: seq<Stream>, made: seq<Stream>, k: nat, before: seq<nat>)
    requires k < |ss| == |before|
    requires forall i :: 0 <= i < |ss| && i != k ==> PacketLoad(ss[i].recv) == before[i]
    requires forall i :: 0 <= i < |made| ==> made[i].recv == []
    ensures Sum(Loads(ss + made)) + before[k] == Sum(before) + PacketLoad(ss[k].recv)
  {
    var after := Loads(ss + made);
    forall i | 0 <= i < |ss| && i != k
      ensures after[i] == before[i]
    {
      assert (ss + made)[i] == ss[i];
    }
    forall i | |ss| <= i < |after|
      ensures after[i] == 0
    {
      assert (ss + made)[i] == made[i - |ss|];
    }
    assert (ss + made)[k] == ss[k];
    SumFrame(before, after, k);
  }

  /** A step that changes only the peer at j and registers peers in the
      initial state changes the number of waiting peers by exactly the
      change at j. */
  lemma WaitFrame(ps: seq<Peer>, added: seq<Peer>, j: nat, before: seq<nat>)
    requires j < |ps| == |before|
    requires forall i :: 0 <= i < |ps| && i != j ==> Waits(ps[i]) == before[i]
    requires Initial(added)
    ensures Sum(Pending(ps + added)) + before[j] == Sum(before) + Waits(ps[j])
  {
    var after := Pending(ps + added);
    forall i | 0 <= i < |ps| && i != j
      ensures after[i] == before[i]
    {
      assert (ps + added)[i] == ps[i];
    }
    forall i | |ps| <= i < |after|
      ensures after[i] == 0
    {
      assert (ps + added)[i] == added[i - |ps|];
    }
    assert (ps + added)[j] == ps[j];
    SumFrame(before, after, j);
  }

  /** 1 when the peer's next poll dispatches, 0 otherwise. */
  ghost function Waits(q: Peer): nat
    reads q
  {
    if Stage(q.RxState()) == 3 then 1 else 0
  }

  /** The bytes and packets queued for reading on each stream. */
  ghost function Loads(ss: seq<Stream>): (r: seq<nat>)
    reads ss
    ensures |r| == |ss| && forall i :: 0 <= i < |ss| ==> r[i] == PacketLoad(ss[i].recv)
  {
    if ss == [] then [] else [PacketLoad(ss[0].recv)] + Loads(ss[1..])
  }

  /** 1 for each peer whose next poll dispatches, 0 for the others. */
  ghost function Pending(ps: seq<Peer>): (r: seq<nat>)
    reads ps
    ensures |r| == |ps| && forall i :: 0 <= i < |ps| ==> r[i] == Waits(ps[i])
  {
    if ps == [] then [] else [Waits(ps[0])] + Pending(ps[1..])
  }


  /** The walk of one round of peer_bootstrap from entry: the delimiters
      are skipped and the line up to the next newline, or the end, is taken;
      the next round starts after the newline, and there is none after the
      last line. */
  method NextLine(entry: string, ghost todo: seq<HostPort>)
    returns (rest: string, more: bool, line: string, ghost left: seq<HostPort>)
    requires BootstrapList(entry) == Some(todo)
    ensures '\n' !in line && todo == Keep(Entry(line)) + left
    ensures more ==> |rest| < |entry| && BootstrapList(rest) == Some(left)
    ensures !more ==> left == []
  {
    rest := SkipDelims(entry, todo);
    var nl := IndexOf(rest, '\n');
    if nl.None? {
      LastLine(rest);
      line, more, left := rest, false, [];
    } else {
      var i := nl.value;
      NextLineAt(rest, i);
      line := rest[..i];
      rest := rest[i + 1..];
      more := true;
      left := BootstrapList(rest).value;
    }
  }

  /** The skipping loop of peer_bootstrap: past carriage returns, newlines
      and spaces to the next entry, which a list with entries left has. */
  method SkipDelims(entry: string, ghost todo: seq<HostPort>) returns (rest: string)
    requires BootstrapList(entry) == Some(todo)
    ensures rest != [] && !Delim(rest[0]) && |rest| <= |entry| && BootstrapList(rest) == Some(todo)
  {
    rest := entry;
    while Delim(rest[0])
      invariant rest != [] && |rest| <= |entry| && BootstrapList(rest) == Some(todo)
      decreases |rest|
    {
      rest := rest[1..];
    }
  }

  /** The parse loop of getpeers, with its truncation check as written:
      2 + address length + sizeof(pcount) bytes, pcount being a 4-byte
      unsigned int, while the cursor advances by the 2 + address length + 2
      bytes an entry takes. */
  method ParsePeerList(data: seq<byte>) returns (items: seq<PeerItem>)
    ensures items == ParsePeersAsWritten(data)
  {
    items := [];
    var rest := data;
    while |rest| > 2
      invariant items + ParsePeersAsWritten(rest) == ParsePeersAsWritten(data)
      decreases |rest|
    {
      var addrlen := FromLE(rest[..2]);
      if |rest| < 2 + addrlen + 4 {
        AsWrittenShort(rest, addrlen);
        assert items + [] == items;
        return;
      }
      var next := rest[2 + addrlen + 2..];
      if addrlen <= SOCKADDR_SIZE {
        AsWrittenTake(rest, addrlen);
        var item := PeerItem(rest[2..2 + addrlen], FromLE(rest[2 + addrlen..2 + addrlen + 2]));
        ItemsSnoc(items, item, ParsePeersAsWritten(next));
        items := items + [item];
      } else {
        AsWrittenSkip(rest, addrlen);
      }
      rest := next;
    }
    assert items + [] == items;
  }

  lemma ItemsSnoc(items: seq<PeerItem>, x: PeerItem, tail: seq<PeerItem>)
    ensures items + ([x] + tail) == (items + [x]) + tail
  {
  }

  /** The lowest-count search of getpeers. */
  method LowestIndex(items: seq<PeerItem>) returns (lowest: nat)
    requires |items| > 0
    ensures lowest == Lowest(items)
  {
    lowest := 0;
    var i := 1;
    while i < |items|
      invariant 1 <= i <= |items|
      invariant lowest == Lowest(items[..i])
    {
      assert items[..i + 1][..i] == items[..i];
      if items[i].peercount < items[lowest].peercount {
        lowest := i;
      }
      i := i + 1;
    }
    assert items[..|items|] == items;
  }
}
