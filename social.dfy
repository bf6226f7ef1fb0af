/** The social layer of social.c over the update records of update.c: the
    users known to this node, the records stored for each, what
    social_update_parse does to them, and the updateinfo / getupdates
    exchange between peers. */
module Social {
  import opened Bytes
  import opened Wrappers
  import opened Buffers
  import opened Updates
  import Peers

  /** The command names "updateinfo" and "getupdates". */
  const UPDATEINFO: seq<byte> := [117, 112, 100, 97, 116, 101, 105, 110, 102, 111]
  const GETUPDATES: seq<byte> := [103, 101, 116, 117, 112, 100, 97, 116, 101, 115]

  /** A public key; its contents are only ever handed to the verifier. */
  type Key = seq<byte>

  /** One call of peer_sendcmd made by the social layer. */
  datatype Message = Message(to: Peers.Peer, cmd: seq<byte>, data: seq<byte>)

  /** The larger of two sequence numbers. */
  function Max(a: u64, b: u64): (m: u64)
    ensures m >= a && m >= b && (m == a || m == b)
  {
    if a < b then b else a
  }

  /** ++seq on a uint64_t. */
  function Next(s: u64): (n: u64)
    ensures s < 0xFFFF_FFFF_FFFF_FFFF ==> n == s + 1
    ensures s == 0xFFFF_FFFF_FFFF_FFFF ==> n == 0
  {
    (s + 1) % 0x1_0000_0000_0000_0000
  }

  // ---- Records of one user (update.c) ----

  /** Some record in us has sequence number s. */
  predicate Seen(us: seq<Update>, s: u64)
  {
    exists i :: 0 <= i < |us| && us[i].seqno == s
  }

  /** The first FIELD record named name, as social_update_getfield finds it. */
  function FieldIndex(us: seq<Update>, name: seq<byte>): (r: Option<nat>)
    ensures r.Some? ==> (r.value < |us| && us[r.value].body.Field? && us[r.value].body.name == name)
    ensures r.Some? ==> forall j :: 0 <= j < r.value ==> !(us[j].body.Field? && us[j].body.name == name)
    ensures r.None? ==> forall j :: 0 <= j < |us| ==> !(us[j].body.Field? && us[j].body.name == name)
  {
    if |us| == 0 then None
    else if us[0].body.Field? && us[0].body.name == name then Some(0)
    else match FieldIndex(us[1..], name)
      case None => None
      case Some(k) => Some(k + 1)
  }

  /** The first FRIENDS record for circle and id, as
      social_update_getfriend finds it. */
  function FriendIndex(us: seq<Update>, circle: u32, id: Id): (r: Option<nat>)
    ensures r.Some? ==> (r.value < |us| && IsFriend(us[r.value], circle, id))
    ensures r.Some? ==> forall j :: 0 <= j < r.value ==> !IsFriend(us[j], circle, id)
    ensures r.None? ==> forall j :: 0 <= j < |us| ==> !IsFriend(us[j], circle, id)
  {
    if |us| == 0 then None
    else if IsFriend(us[0], circle, id) then Some(0)
    else match FriendIndex(us[1..], circle, id)
      case None => None
      case Some(k) => Some(k + 1)
  }

  predicate IsFriend(u: Update, circle: u32, id: Id)
  {
    u.body.Friends? && u.body.circle == circle && u.body.id == id
  }

  /** The stored record a new one of the same kind takes the place of: the
      field of that name, the friend entry for that circle and id, none for
      a post. */
  function Slot(us: seq<Update>, b: Body): Option<nat>
  {
    match b
    case Field(name, _) => FieldIndex(us, name)
    case Friends(circle, _, id) => FriendIndex(us, circle, id)
    case _ => None
  }

  /** What social_update_parse does to a user's records once the header has
      passed the signature and duplicate checks: the new list and the index
      of the record it returns. A body that does not decode, or a MEDIA,
      CIRCLE or unknown type, stores nothing; a field or friend entry a
      record with a larger sequence number already holds stays as it is;
      otherwise the record takes its slot, or is appended. */
  function Store(us: seq<Update>, h: Header): (r: (seq<Update>, Option<nat>))
    ensures |r.0| == |us| || (|r.0| == |us| + 1 && r.1 == Some(|us|))
    ensures r.1.Some? ==> (r.1.value < |r.0| && Recovered(h).Some? && r.0[r.1.value] == Recovered(h).value)
    ensures forall j :: 0 <= j < |us| && r.1 != Some(j) ==> r.0[j] == us[j]
  {
    match Recovered(h)
    case None => (us, None)
    case Some(u) =>
      match Slot(us, u.body)
      case None => (us + [u], Some(|us|))
      case Some(i) => if us[i].seqno > u.seqno then (us, None) else (us[i := u], Some(i))
  }

  /** Store when the slot is taken as getfield and getfriend take it: us1
      and i are the list and index they leave, a new entry with sequence
      number 0 appended when there was none. */
  lemma StoreAt(us: seq<Update>, us1: seq<Update>, i: nat, h: Header, u: Update)
    requires Recovered(h) == Some(u)
    requires Slot(us, u.body).Some? ==> i == Slot(us, u.body).value && us1 == us
    requires Slot(us, u.body).None? ==> i == |us| && |us1| == |us| + 1 && us1[..|us|] == us && us1[i].seqno == 0
    ensures i < |us1|
    ensures us1[i].seqno > h.seqno ==> (us1 == us && Store(us, h) == (us, None))
    ensures us1[i].seqno <= h.seqno ==> Store(us, h) == (us1[i := u], Some(i))
  {
    if Slot(us, u.body).None? {
      assert us1[i := u] == us + [u];
    }
  }

  /** The FIELD case of Store, step by step as parse takes it: us1 and i
      are the list and index social_update_getfield leaves. A newer stored
      field refuses the record (getfield found it, so nothing was added);
      otherwise the record takes index i with the received value. */
  lemma FieldSlot(us: seq<Update>, us1: seq<Update>, i: nat, h: Header)
    requires h.kind == FIELD && DecodeField(h.rest).Some?
    requires FieldIndex(us, AsText(DecodeField(h.rest).value.0)).Some? ==>
      i == FieldIndex(us, AsText(DecodeField(h.rest).value.0)).value && us1 == us
    requires FieldIndex(us, AsText(DecodeField(h.rest).value.0)).None? ==>
      i == |us| && us1 == us + [Update([], 0, 0, Privacy(0, []), Field(AsText(DecodeField(h.rest).value.0), []))]
    ensures i < |us1| && us1[i].body.Field?
    ensures us1[i].seqno > h.seqno ==> us1 == us && Store(us, h) == (us, None)
    ensures us1[i].seqno <= h.seqno ==> (Store(us, h) ==
      (us1[i := Update(h.signature, h.seqno, h.timestamp, h.privacy, us1[i].body.(value := AsText(DecodeField(h.rest).value.1)))], Some(i)))
  {
    var f := DecodeField(h.rest).value;
    var u := Update(h.signature, h.seqno, h.timestamp, h.privacy, Field(AsText(f.0), AsText(f.1)));
    assert Recovered(h) == Some(u);
    assert Slot(us, u.body) == FieldIndex(us, AsText(f.0));
    if FieldIndex(us, AsText(f.0)).None? {
      assert us1[..|us|] == us;
    }
    StoreAt(us, us1, i, h, u);
    assert us1[i].body.(value := AsText(f.1)) == u.body;
  }

  /** The FRIENDS case of Store, as FieldSlot with social_update_getfriend. */
  lemma FriendSlot(us: seq<Update>, us1: seq<Update>, i: nat, h: Header)
    requires h.kind == FRIENDS && DecodeFriends(h.rest).Some?
    requires FriendIndex(us, DecodeFriends(h.rest).value.0, DecodeFriends(h.rest).value.2).Some? ==>
      i == FriendIndex(us, DecodeFriends(h.rest).value.0, DecodeFriends(h.rest).value.2).value && us1 == us
    requires FriendIndex(us, DecodeFriends(h.rest).value.0, DecodeFriends(h.rest).value.2).None? ==>
      i == |us| && us1 == us + [Update([], 0, 0, Privacy(0, []),
        Friends(DecodeFriends(h.rest).value.0, 0, DecodeFriends(h.rest).value.2))]
    ensures i < |us1| && us1[i].body.Friends?
    ensures us1[i].seqno > h.seqno ==> us1 == us && Store(us, h) == (us, None)
    ensures us1[i].seqno <= h.seqno ==> (Store(us, h) ==
      (us1[i := Update(h.signature, h.seqno, h.timestamp, h.privacy, us1[i].body.(add := DecodeFriends(h.rest).value.1))], Some(i)))
  {
    var d := DecodeFriends(h.rest).value;
    var u := Update(h.signature, h.seqno, h.timestamp, h.privacy, Friends(d.0, d.1, d.2));
    assert Recovered(h) == Some(u);
    assert Slot(us, u.body) == FriendIndex(us, d.0, d.2);
    if FriendIndex(us, d.0, d.2).None? {
      assert us1[..|us|] == us;
    }
    StoreAt(us, us1, i, h, u);
    assert us1[i].body.(add := d.1) == u.body;
  }

  /** parse refuses a record exactly when its body does not decode, its type
      is not stored, or the slot it would take holds a newer record. */
  lemma StoreRefused(us: seq<Update>, h: Header)
    ensures Store(us, h).1.None? <==>
      (Recovered(h).None? ||
       (Slot(us, Recovered(h).value.body).Some? && us[Slot(us, Recovered(h).value.body).value].seqno > h.seqno))
  {
  }

  /** A post is always appended as one new record. */
  lemma StorePost(us: seq<Update>, h: Header)
    requires h.kind == POST && DecodePost(h.rest).Some?
    ensures Store(us, h).0 == us + [Recovered(h).value] && Store(us, h).1 == Some(|us|)
  {
  }

  /** MEDIA, CIRCLE and unknown types are never stored. */
  lemma StoreOtherKinds(us: seq<Update>, h: Header)
    requires h.kind != FIELD && h.kind != POST && h.kind != FRIENDS
    ensures Store(us, h) == (us, None)
  {
  }

  /** Every field name occurs at most once. */
  predicate FieldsUnique(us: seq<Update>)
  {
    forall i, j :: 0 <= i < j < |us| && us[i].body.Field? && us[j].body.Field? ==> us[i].body.name != us[j].body.name
  }

  /** Records received through parse never give a field name a second
      record. */
  lemma StoreKeepsFieldsUnique(us: seq<Update>, h: Header)
    requires FieldsUnique(us)
    ensures FieldsUnique(Store(us, h).0)
  {
    var r := Store(us, h);
    if r.1.Some? && r.0 != us {
      var u := Recovered(h).value;
      var k := r.1.value;
      forall i, j | 0 <= i < j < |r.0| && r.0[i].body.Field? && r.0[j].body.Field?
        ensures r.0[i].body.name != r.0[j].body.name
      {
        if i != k && j != k {
          assert r.0[i] == us[i] && r.0[j] == us[j];
        } else if u.body.Field? {
          var o := if i == k then j else i;
          assert r.0[o] == us[o];
          if k == |us| {
            assert FieldIndex(us, u.body.name).None?;
          } else {
            assert FieldIndex(us, u.body.name) == Some(k);
            assert us[k].body.name == u.body.name;
          }
        }
      }
    }
  }

  /** The sequence numbers of the records are distinct. */
  predicate SeqsDistinct(us: seq<Update>)
  {
    forall i, j :: 0 <= i < j < |us| ==> us[i].seqno != us[j].seqno
  }

  /** parse only stores a record whose sequence number is new, so the stored
      sequence numbers stay distinct. */
  lemma StoreKeepsSeqsDistinct(us: seq<Update>, h: Header)
    requires SeqsDistinct(us) && !Seen(us, h.seqno)
    ensures SeqsDistinct(Store(us, h).0)
  {
    var r := Store(us, h);
    if r.1.Some? {
      var k := r.1.value;
      forall i, j | 0 <= i < j < |r.0|
        ensures r.0[i].seqno != r.0[j].seqno
      {
        if i != k && j != k {
          assert r.0[i] == us[i] && r.0[j] == us[j];
        } else {
          var o := if i == k then j else i;
          assert r.0[o] == us[o];
        }
      }
    }
  }

  /** No stored record is ahead of the user's sequence number. */
  predicate SeqsBounded(us: seq<Update>, s: u64)
  {
    forall i :: 0 <= i < |us| ==> us[i].seqno <= s
  }

  /** parse raises the user's sequence number to the record's before it
      stores it, so the bound is kept. */
  lemma StoreKeepsBound(us: seq<Update>, s: u64, h: Header)
    requires SeqsBounded(us, s)
    ensures SeqsBounded(Store(us, h).0, Max(s, h.seqno))
  {
    var r := Store(us, h);
    BoundKept(us, r.0, r.1, s, h.seqno);
  }

  /** A list that keeps every record but the one at index r1, which has
      sequence number t, stays below the larger bound. */
  lemma BoundKept(us: seq<Update>, r0: seq<Update>, r1: Option<nat>, s: u64, t: u64)
    requires |r0| == |us| || (|r0| == |us| + 1 && r1 == Some(|us|))
    requires r1.Some? ==> r1.value < |r0| && r0[r1.value].seqno == t
    requires forall j :: 0 <= j < |us| && r1 != Some(j) ==> r0[j] == us[j]
    requires SeqsBounded(us, s)
    ensures SeqsBounded(r0, Max(s, t))
  {
    forall i | 0 <= i < |r0|
      ensures r0[i].seqno <= Max(s, t)
    {
      if r1 != Some(i) {
        assert r0[i] == us[i];
      }
    }
  }

  /** A field keeps the record with the larger sequence number. */
  lemma FieldNewestWins(us: seq<Update>, h: Header, i: nat)
    requires h.kind == FIELD && DecodeField(h.rest).Some?
    requires FieldIndex(us, AsText(DecodeField(h.rest).value.0)) == Some(i)
    requires us[i].seqno != h.seqno
    ensures Store(us, h).0[i].seqno == Max(us[i].seqno, h.seqno)
    ensures |Store(us, h).0| == |us|
  {
  }

  /** The records getupdates answers with for sequence number s: those
      after it, in stored order. */
  function Newer(us: seq<Update>, s: u64): (r: seq<Update>)
    ensures |r| <= |us|
  {
    if |us| == 0 then []
    else (if us[0].seqno > s then [us[0]] else []) + Newer(us[1..], s)
  }

  /** Newer holds exactly the records after s. */
  lemma {:induction false} NewerExactly(us: seq<Update>, s: u64, u: Update)
    ensures u in Newer(us, s) <==> (u in us && u.seqno > s)
  {
    if |us| > 0 {
      NewerExactly(us[1..], s, u);
      var head := if us[0].seqno > s then [us[0]] else [];
      assert Newer(us, s) == head + Newer(us[1..], s);
      assert u in us <==> u == us[0] || u in us[1..] by {
        assert us == [us[0]] + us[1..];
      }
    }
  }

  // ---- The social layer (social.c) ----

  /** struct user. The id and the peer do not change once the user is
      created; the public key, circles, sequence number and records do. */
  class User {
    const id: Id
    const peer: Peers.Peer?
    var pubkey: Option<Key>
    var circles: seq<seq<User>>
    var seqno: u64
    var updates: seq<Update>

    /** The fields user_new sets. */
    constructor (id: Id, peer: Peers.Peer?)
      ensures this.id == id && this.peer == peer
      ensures pubkey == None && circles == [] && seqno == 0 && updates == []
    {
      this.id := id;
      this.peer := peer;
      pubkey := None;
      circles := [];
      seqno := 0;
      updates := [];
    }

    /** social_update_new: appends a record with empty privacy. The fields
        it leaves unset are the caller's to fill; here they start as the
        given body with no signature, sequence number 0 and timestamp 0. */
    method NewUpdate(body: Body) returns (i: nat)
      modifies this
      ensures updates == old(updates) + [Update([], 0, 0, Privacy(0, []), body)]
      ensures i == |old(updates)|
      ensures pubkey == old(pubkey) && circles == old(circles) && seqno == old(seqno)
    {
      updates := updates + [Update([], 0, 0, Privacy(0, []), body)];
      i := |updates| - 1;
    }

    /** The duplicate check of social_update_parse. */
    method Holds(s: u64) returns (b: bool)
      ensures b <==> Seen(updates, s)
    {
      var i := 0;
      while i < |updates|
        invariant i <= |updates|
        invariant forall j :: 0 <= j < i ==> updates[j].seqno != s
      {
        if updates[i].seqno == s {
          return true;
        }
        i := i + 1;
      }
      return false;
    }

    /** social_update_getfield: the first field record with that name, or a
        new one with sequence number 0 and no value. */
    method GetField(name: Text) returns (i: nat)
      modifies this
      ensures i < |updates|
      ensures FieldIndex(old(updates), name).Some? ==> (i == FieldIndex(old(updates), name).value && updates == old(updates))
      ensures FieldIndex(old(updates), name).None? ==>
        (i == |old(updates)| && updates == old(updates) + [Update([], 0, 0, Privacy(0, []), Field(name, []))])
      ensures pubkey == old(pubkey) && circles == old(circles) && seqno == old(seqno)
    {
      i := 0;
      while i < |updates|
        invariant i <= |updates|
        invariant forall j :: 0 <= j < i ==> !(updates[j].body.Field? && updates[j].body.name == name)
      {
        if updates[i].body.Field? && updates[i].body.name == name {
          return;
        }
        i := i + 1;
      }
      i := NewUpdate(Field(name, []));
    }

    /** social_update_getfriend: the first friend record for circle and id,
        or a new one with sequence number 0. */
    method GetFriend(circle: u32, id: Id) returns (i: nat)
      modifies this
      ensures i < |updates|
      ensures FriendIndex(old(updates), circle, id).Some? ==> (i == FriendIndex(old(updates), circle, id).value && updates == old(updates))
      ensures FriendIndex(old(updates), circle, id).None? ==>
        (i == |old(updates)| && updates == old(updates) + [Update([], 0, 0, Privacy(0, []), Friends(circle, 0, id))])
      ensures pubkey == old(pubkey) && circles == old(circles) && seqno == old(seqno)
    {
      i := 0;
      while i < |updates|
        invariant i <= |updates|
        invariant forall j :: 0 <= j < i ==> !IsFriend(updates[j], circle, id)
      {
        if IsFriend(updates[i], circle, id) {
          return;
        }
        i := i + 1;
      }
      i := NewUpdate(Friends(circle, 0, id));
    }

    /** getupdates' selection: the records after s, in order. */
    method NewerThan(s: u64) returns (r: seq<Update>)
      ensures r == Newer(updates, s)
    {
      r := [];
      var i := |updates|;
      while i > 0
        invariant 0 <= i <= |updates|
        invariant r == Newer(updates[i..], s)
      {
        i := i - 1;
        assert updates[i..][1..] == updates[i + 1..];
        if updates[i].seqno > s {
          r := [updates[i]] + r;
        }
      }
      assert updates[0..] == updates;
    }
  }

  /** The first user with that id, as social_finduser finds it. */
  function Lookup(us: seq<User>, id: seq<byte>): (r: Option<nat>)
    ensures r.Some? ==> (r.value < |us| && us[r.value].id == id)
    ensures r.Some? ==> forall j :: 0 <= j < r.value ==> us[j].id != id
    ensures r.None? ==> forall j :: 0 <= j < |us| ==> us[j].id != id
  {
    if |us| == 0 then None
    else if us[0].id == id then Some(0)
    else match Lookup(us[1..], id)
      case None => None
      case Some(k) => Some(k + 1)
  }

  /** No two users share an id. */
  predicate IdsDistinct(us: seq<User>)
  {
    forall i, j :: 0 <= i < j < |us| ==> us[i].id != us[j].id
  }

  /** The circle list after the loop of social_user_addtocircle: grown with
      empty circles until circle is an index. */
  function Widen(cs: seq<seq<User>>, circle: nat): (r: seq<seq<User>>)
    ensures |r| == if circle < |cs| then |cs| else circle + 1
    ensures r[..|cs|] == cs
    ensures forall k :: |cs| <= k < |r| ==> r[k] == []
  {
    if circle < |cs| then cs else cs + seq(circle + 1 - |cs|, k => [])
  }

  /** social_user_addtocircle's effect on a circle list: f joins circle,
      everything else stays. */
  predicate Joined(before: seq<seq<User>>, after: seq<seq<User>>, circle: nat, f: User)
  {
    var w := Widen(before, circle);
    after == w[circle := w[circle] + [f]]
  }

  /** After the change, f is the last member of circle and every other
      circle holds what it held. */
  lemma JoinedMeans(before: seq<seq<User>>, after: seq<seq<User>>, circle: nat, f: User)
    requires Joined(before, after, circle, f)
    ensures circle < |after| && |after| == Max2(|before|, circle + 1)
    ensures |after[circle]| > 0 && after[circle][|after[circle]| - 1] == f
    ensures circle < |before| ==> after[circle][..|before[circle]|] == before[circle]
    ensures forall k :: 0 <= k < |before| && k != circle ==> after[k] == before[k]
  {
    var w := Widen(before, circle);
    forall k | 0 <= k < |before| && k != circle
      ensures after[k] == before[k]
    {
      assert w[..|before|][k] == w[k];
    }
    if circle < |before| {
      assert w == before;
    }
  }

  function Max2(a: nat, b: nat): nat
  {
    if a < b then b else a
  }

  /** The peers of the members of one circle that are connected. */
  function Connected(c: seq<User>): (r: seq<Peers.Peer>)
    ensures |r| <= |c|
  {
    if |c| == 0 then []
    else (if c[0].peer != null then [c[0].peer] else []) + Connected(c[1..])
  }

  /** The peers social_shareupdate sends to: circle by circle, member by
      member, every member that has a peer (once per membership). */
  function Audience(cs: seq<seq<User>>): seq<Peers.Peer>
  {
    if |cs| == 0 then [] else Audience(cs[..|cs| - 1]) + Connected(cs[|cs| - 1])
  }

  lemma {:induction false} ConnectedExactly(c: seq<User>, p: Peers.Peer)
    ensures p in Connected(c) <==> exists j :: 0 <= j < |c| && c[j].peer == p
  {
    if |c| > 0 {
      ConnectedExactly(c[1..], p);
      if c[0].peer == p {
        assert c[0].peer == p;
      }
      forall j | 1 <= j < |c| && c[j].peer == p
        ensures c[1..][j - 1].peer == p
      {
      }
    }
  }

  /** A peer is sent the update exactly when it is the peer of some member
      of some circle. */
  lemma {:induction false} AudienceExactly(cs: seq<seq<User>>, p: Peers.Peer)
    ensures p in Audience(cs) <==> exists i, j :: 0 <= i < |cs| && 0 <= j < |cs[i]| && cs[i][j].peer == p
  {
    if |cs| > 0 {
      var n := |cs| - 1;
      AudienceExactly(cs[..n], p);
      ConnectedExactly(cs[n], p);
      if p in Audience(cs) {
        if p in Audience(cs[..n]) {
          var i, j :| 0 <= i < n && 0 <= j < |cs[..n][i]| && cs[..n][i][j].peer == p;
          assert cs[i][j].peer == p;
        } else {
          var j :| 0 <= j < |cs[n]| && cs[n][j].peer == p;
          assert cs[n][j].peer == p;
        }
      } else {
        forall i, j | 0 <= i < |cs| && 0 <= j < |cs[i]|
          ensures cs[i][j].peer != p
        {
          if i < n {
            assert cs[..n][i] == cs[i];
          }
        }
      }
    }
  }

  /** The updateinfo data sendupdate builds: the id, then the signed record. */
  function Payload(id: Id, u: Update): seq<byte>
  {
    id + Signed(u)
  }

  /** What updateinfo takes apart again: the id, then the signature and the
      written record it covers. */
  lemma PayloadSplits(id: Id, u: Update)
    ensures |Payload(id, u)| >= 20 && Payload(id, u)[..20] == id
    ensures SplitSig(Payload(id, u)[20..]) == Some((u.signature, Encode(u)))
  {
    SplitSigned(u);
    assert Payload(id, u)[20..] == Signed(u);
  }

  /** One updateinfo message per peer. */
  function Deliveries(to: seq<Peers.Peer>, data: seq<byte>): seq<Message>
  {
    seq(|to|, k requires 0 <= k < |to| => Message(to[k], UPDATEINFO, data))
  }

  /** One updateinfo message per record, all to one peer. */
  function Replies(to: Peers.Peer, id: Id, us: seq<Update>): (r: seq<Message>)
    ensures |r| == |us|
    decreases |us|
  {
    if us == [] then []
    else Replies(to, id, us[..|us| - 1]) + [Message(to, UPDATEINFO, Payload(id, us[|us| - 1]))]
  }

  /** The checks of social_update_parse before it looks at the records: the
      signature size and signature, a known public key, the signature
      verifying over the rest of the data, and the header. */
  function Screen(key: Option<Key>, data: seq<byte>, verify: (Key, seq<byte>, seq<byte>) -> bool): (r: Option<Header>)
    ensures r.Some? ==> key.Some? && SplitSig(data).Some?
    ensures r.Some? ==> verify(key.value, SplitSig(data).value.1, r.value.signature)
  {
    match SplitSig(data)
    case None => None
    case Some(sp) =>
      if key.None? || !verify(key.value, sp.1, sp.0) then None
      else DecodeHeader(sp.0, sp.1)
  }

  /** What sendupdate sends, social_update_parse accepts from a user whose
      key verifies the signature: the header of the record itself. */
  lemma ScreenPayload(key: Key, id: Id, u: Update, verify: (Key, seq<byte>, seq<byte>) -> bool)
    requires verify(key, Encode(u), u.signature)
    ensures Payload(id, u)[..20] == id
    ensures Screen(Some(key), Payload(id, u)[20..], verify) == DecodeHeader(u.signature, Encode(u))
    ensures Screen(Some(key), Payload(id, u)[20..], verify).Some?
  {
    assert Payload(id, u)[20..] == Signed(u);
    SplitSigned(u);
    EncodeHeader(u);
  }

  /** The record a FRIENDS header adds to a circle, if it does. */
  predicate Befriends(h: Header)
  {
    h.kind == FRIENDS && DecodeFriends(h.rest).Some? && DecodeFriends(h.rest).value.1 != 0
  }

  /** social_users, social_self and the calls the social layer makes on
      GnuTLS, on peer_findbyid and on peer_sendcmd. */
  class Registry {
    var users: seq<User>
    const self: User
    /** peer_findbyid, which user_new asks for the user's peer. */
    const findPeer: Id -> Peers.Peer?
    /** The public key in a peer's certificate. */
    const certKey: Peers.Peer -> Key
    /** gnutls_pubkey_verify_data2: key, signed data, signature. */
    const verify: (Key, seq<byte>, seq<byte>) -> bool
    /** gnutls_privkey_sign_data with this node's key. */
    const sign: seq<byte> -> Bytes32
    /** The peer_sendcmd calls made so far. */
    var sent: seq<Message>

    ghost predicate Valid()
      reads this
    {
      self in users && IdsDistinct(users)
    }

    /** The part of social_init that creates social_self with its key. */
    constructor (selfId: Id, key: Key, findPeer: Id -> Peers.Peer?, certKey: Peers.Peer -> Key,
                 verify: (Key, seq<byte>, seq<byte>) -> bool, sign: seq<byte> -> Bytes32)
      ensures Valid() && fresh(self)
      ensures users == [self] && sent == []
      ensures self.id == selfId && self.peer == findPeer(selfId) && self.pubkey == Some(key)
      ensures self.circles == [] && self.seqno == 0 && self.updates == []
      ensures this.findPeer == findPeer && this.certKey == certKey && this.verify == verify && this.sign == sign
    {
      var me := new User(selfId, findPeer(selfId));
      me.pubkey := Some(key);
      self := me;
      users := [me];
      this.findPeer := findPeer;
      this.certKey := certKey;
      this.verify := verify;
      this.sign := sign;
      sent := [];
    }

    /** social_finduser. */
    method FindUser(id: Id) returns (u: User?)
      ensures Lookup(users, id).Some? ==> u == users[Lookup(users, id).value]
      ensures Lookup(users, id).None? ==> u == null
    {
      var i := 0;
      while i < |users|
        invariant i <= |users|
        invariant forall j :: 0 <= j < i ==> users[j].id != id
      {
        if users[i].id == id {
          LookupFirst(users, id, i);
          return users[i];
        }
        i := i + 1;
      }
      return null;
    }

    /** user_new: a user with no key, circles or records and the peer
        peer_findbyid reports, appended to the registry. It is only called
        once social_finduser has found no user with that id. */
    method UserNew(id: Id) returns (u: User)
      requires Valid() && Lookup(users, id).None?
      modifies this
      ensures Valid() && fresh(u) && users == old(users) + [u] && sent == old(sent)
      ensures u.id == id && u.peer == findPeer(id)
      ensures u.pubkey == None && u.circles == [] && u.seqno == 0 && u.updates == []
    {
      u := new User(id, findPeer(id));
      users := users + [u];
      forall i, j | 0 <= i < j < |users|
        ensures users[i].id != users[j].id
      {
        if j == |users| - 1 {
          assert users[i] == old(users)[i];
        } else {
          assert users[i] == old(users)[i] && users[j] == old(users)[j];
        }
      }
    }

    /** social_finduser, or user_new when it finds nothing. */
    method FindOrNew(id: Id) returns (u: User)
      requires Valid()
      modifies this
      ensures Valid() && u.id == id && sent == old(sent)
      ensures u in old(users) ==> users == old(users)
      ensures u !in old(users) ==> (fresh(u) && users == old(users) + [u])
      ensures u !in old(users) ==> u.pubkey == None && u.circles == [] && u.seqno == 0 && u.updates == []
      ensures Lookup(old(users), id).Some? ==> u in old(users)
      ensures Lookup(users, id).Some? && users[Lookup(users, id).value] == u
    {
      var found := FindUser(id);
      if found == null {
        u := UserNew(id);
        assert users[|old(users)|] == u;
        LookupAppend(old(users), id, u);
      } else {
        u := found;
        assert u in old(users);
      }
    }

    /** social_user_addtocircle: circle is made an index of user's circles,
        then the user with id, found or created, is appended to it. */
    method AddToCircle(user: User, circle: u32, id: Id) returns (f: User)
      requires Valid()
      modifies this, user
      ensures Valid() && sent == old(sent)
      ensures Lookup(users, id).Some? && f == users[Lookup(users, id).value] && f.id == id
      ensures Joined(old(user.circles), user.circles, circle, f)
      ensures users == old(users) || (fresh(f) && users == old(users) + [f])
      ensures Lookup(old(users), id).Some? ==> users == old(users)
      ensures user.pubkey == old(user.pubkey) && user.seqno == old(user.seqno) && user.updates == old(user.updates)
    {
      ghost var cs := user.circles;
      while |user.circles| <= circle
        invariant Valid() && users == old(users) && sent == old(sent)
        invariant |cs| <= |user.circles| <= Max2(|cs|, circle + 1)
        invariant user.circles == cs + seq(|user.circles| - |cs|, k => [])
        invariant user.pubkey == old(user.pubkey) && user.seqno == old(user.seqno) && user.updates == old(user.updates)
        decreases circle - |user.circles|
      {
        user.circles := user.circles + [[]];
      }
      assert user.circles == Widen(cs, circle);
      f := FindOrNew(id);
      user.circles := user.circles[circle := user.circles[circle] + [f]];
    }

    /** The FIELD case of social_update_parse, after the header. */
    method StoreField(user: User, h: Header) returns (r: Option<nat>)
      requires h.kind == FIELD
      modifies user
      ensures (user.updates, r) == Store(old(user.updates), h)
      ensures user.pubkey == old(user.pubkey) && user.circles == old(user.circles) && user.seqno == old(user.seqno)
    {
      var f := DecodeField(h.rest);
      if f.None? {
        return None;
      }
      var name, value := AsText(f.value.0), AsText(f.value.1);
      var i := user.GetField(name);
      FieldSlot(old(user.updates), user.updates, i, h);
      if user.updates[i].seqno > h.seqno {
        return None;
      }
      var body := user.updates[i].body.(value := value);
      user.updates := user.updates[i := Update(h.signature, h.seqno, h.timestamp, h.privacy, body)];
      r := Some(i);
    }

    /** The POST case of social_update_parse, after the header. */
    method StorePost(user: User, h: Header) returns (r: Option<nat>)
      requires h.kind == POST
      modifies user
      ensures (user.updates, r) == Store(old(user.updates), h)
      ensures user.pubkey == old(user.pubkey) && user.circles == old(user.circles) && user.seqno == old(user.seqno)
    {
      var m := DecodePost(h.rest);
      if m.None? {
        return None;
      }
      var i := user.NewUpdate(Post(AsText(m.value)));
      user.updates := user.updates[i := Update(h.signature, h.seqno, h.timestamp, h.privacy, user.updates[i].body)];
      r := Some(i);
      assert Recovered(h) == Some(user.updates[i]);
      assert user.updates == old(user.updates) + [user.updates[i]];
    }

    /** The FRIENDS case of social_update_parse, after the header: a
        nonzero add puts the friend in the circle first, whatever happens to
        the record after that. */
    method StoreFriends(user: User, h: Header) returns (r: Option<nat>)
      requires Valid() && h.kind == FRIENDS
      modifies this, user
      ensures Valid() && sent == old(sent)
      ensures (user.updates, r) == Store(old(user.updates), h)
      ensures user.pubkey == old(user.pubkey) && user.seqno == old(user.seqno)
      ensures Befriends(h) ==> Added(user, DecodeFriends(h.rest).value.0, DecodeFriends(h.rest).value.2)
      ensures !Befriends(h) ==> user.circles == old(user.circles) && users == old(users)
    {
      var d := DecodeFriends(h.rest);
      if d.None? {
        return None;
      }
      var (circle, add, id) := d.value;
      if add != 0 {
        var f := AddToCircle(user, circle, id);
      }
      ghost var us := user.updates;
      var i := user.GetFriend(circle, id);
      FriendSlot(us, user.updates, i, h);
      if user.updates[i].seqno > h.seqno {
        return None;
      }
      var body := user.updates[i].body.(add := add);
      user.updates := user.updates[i := Update(h.signature, h.seqno, h.timestamp, h.privacy, body)];
      r := Some(i);
    }

    /** social_user_addtocircle has put the user with id into circle. */
    twostate predicate Added(user: User, circle: u32, id: Id)
      reads this, user
    {
      Lookup(users, id).Some? && Joined(old(user.circles), user.circles, circle, users[Lookup(users, id).value]) &&
      old(users) <= users && |users| <= |old(users)| + 1
    }

    /** The effect of social_update_parse on user, given the data. */
    twostate predicate Parsed(user: User, data: seq<byte>, new r: Option<nat>)
      reads this, user
    {
      var h := Screen(old(user.pubkey), data, verify);
      user.pubkey == old(user.pubkey) && sent == old(sent) &&
      if h.None? || Seen(old(user.updates), h.value.seqno) then
        r.None? && user.updates == old(user.updates) && user.seqno == old(user.seqno) &&
        user.circles == old(user.circles) && users == old(users)
      else
        user.seqno == Max(old(user.seqno), h.value.seqno) &&
        (user.updates, r) == Store(old(user.updates), h.value) &&
        (if Befriends(h.value) then Added(user, DecodeFriends(h.value.rest).value.0, DecodeFriends(h.value.rest).value.2)
         else user.circles == old(user.circles) && users == old(users))
    }

    /** social_update_parse: the record is refused (None) on a short read,
        a missing public key, a signature that does not verify, a sequence
        number the user already has, or as Store says; otherwise the index
        of the stored record. The user's sequence number is raised to the
        record's as soon as the duplicate check passes. */
    method Parse(user: User, data: seq<byte>) returns (r: Option<nat>)
      requires Valid()
      modifies this, user
      ensures Valid() && Parsed(user, data, r)
    {
      var sp := SplitSig(data);
      if sp.None? {
        return None;
      }
      var (sig, signed) := sp.value;
      if user.pubkey.None? {
        return None;
      }
      if !verify(user.pubkey.value, signed, sig) {
        return None;
      }
      var hd := DecodeHeader(sig, signed);
      if hd.None? {
        return None;
      }
      var h := hd.value;
      var dup := user.Holds(h.seqno);
      if dup {
        return None;
      }
      if user.seqno < h.seqno {
        user.seqno := h.seqno;
      }
      if h.kind == FIELD {
        r := StoreField(user, h);
      } else if h.kind == POST {
        r := StorePost(user, h);
      } else if h.kind == FRIENDS {
        r := StoreFriends(user, h);
      } else {
        r := None;
      }
    }

    /** updateinfo: data shorter than an id, an unknown id or a user without
        a key is ignored; otherwise the rest is parsed for that user. */
    method UpdateInfo(data: seq<byte>) returns (ghost target: User?, ghost r: Option<nat>)
      requires Valid()
      modifies this, users
      ensures Valid()
      ensures target == null ==> (users == old(users) && sent == old(sent))
      ensures target == null && |data| >= 20 && Lookup(old(users), data[..20]).Some? ==>
        old(users[Lookup(users, data[..20]).value].pubkey).None?
      ensures target != null ==> (|data| >= 20 && Lookup(old(users), data[..20]).Some? &&
        target == old(users[Lookup(users, data[..20]).value]) && old(target.pubkey).Some? && Parsed(target, data[20..], r))
    {
      target, r := null, None;
      if |data| < 20 {
        return;
      }
      var user := FindUser(data[..20]);
      if user == null || user.pubkey.None? {
        return;
      }
      target := user;
      r := Parse(user, data[20..]);
    }

    /** sendupdate: the id, the signature size, the signature and the
        written record go out as one updateinfo command. */
    method SendUpdate(peer: Peers.Peer, id: Id, u: Update)
      modifies this
      ensures sent == old(sent) + [Message(peer, UPDATEINFO, Payload(id, u))]
      ensures users == old(users)
    {
      var buf := new Buffer.Init();
      Put(buf, id);
      WriteSigned(buf, u);
      assert buf.Contents() == id + Signed(u);
      sent := sent + [Message(peer, UPDATEINFO, buf.Contents())];
    }

    /** sendupdates, the getupdates handler: data shorter than an id and a
        sequence number, or an unknown id, is ignored; otherwise every record
        of that user after the sequence number is sent back, in order. */
    method SendUpdates(peer: Peers.Peer, data: seq<byte>)
      modifies this
      ensures users == old(users)
      ensures |data| < 28 || Lookup(users, data[..20]).None? ==> sent == old(sent)
      ensures |data| >= 28 && Lookup(users, data[..20]).Some? ==>
        sent == old(sent) + Replies(peer, data[..20], Newer(users[Lookup(users, data[..20]).value].updates, Since(data)))
    {
      if |data| < 28 {
        return;
      }
      var s := Since(data);
      var user := FindUser(data[..20]);
      if user == null {
        return;
      }
      var picked := user.NewerThan(s);
      SendAll(peer, user.id, picked);
    }

    /** The sending loop of sendupdates. */
    method SendAll(peer: Peers.Peer, id: Id, us: seq<Update>)
      modifies this
      ensures users == old(users)
      ensures sent == old(sent) + Replies(peer, id, us)
    {
      var i := 0;
      while i < |us|
        invariant i <= |us| && users == old(users)
        invariant sent == old(sent) + Replies(peer, id, us[..i])
      {
        SendUpdate(peer, id, us[i]);
        assert us[..i + 1][..i] == us[..i];
        i := i + 1;
      }
      assert us[..|us|] == us;
    }

    /** social_shareupdate: the update goes to the peer of every member of
        every circle of social_self that has one. */
    method ShareUpdate(u: Update)
      modifies this
      ensures users == old(users)
      ensures sent == old(sent) + Deliveries(Audience(self.circles), Payload(self.id, u))
    {
      var cs := self.circles;
      ghost var data := Payload(self.id, u);
      var i := 0;
      while i < |cs|
        invariant i <= |cs| && users == old(users)
        invariant sent == old(sent) + Deliveries(Audience(cs[..i]), data)
      {
        ShareCircle(cs[i], u);
        assert cs[..i + 1][..i] == cs[..i];
        DeliveriesConcat(Audience(cs[..i]), Connected(cs[i]), data);
        assert old(sent) + Deliveries(Audience(cs[..i]), data) + Deliveries(Connected(cs[i]), data) == old(sent) + (Deliveries(Audience(cs[..i]), data) + Deliveries(Connected(cs[i]), data));
        i := i + 1;
      }
      assert cs[..|cs|] == cs;
    }

    /** The inner loop of social_shareupdate, over one circle. */
    method ShareCircle(c: seq<User>, u: Update)
      modifies this
      ensures users == old(users)
      ensures sent == old(sent) + Deliveries(Connected(c), Payload(self.id, u))
    {
      ghost var data := Payload(self.id, u);
      var j := 0;
      while j < |c|
        invariant j <= |c| && users == old(users)
        invariant sent == old(sent) + Deliveries(Connected(c[..j]), data)
      {
        ConnectedSnoc(c[..j + 1]);
        assert c[..j + 1][..j] == c[..j];
        if c[j].peer != null {
          SendUpdate(c[j].peer, self.id, u);
          DeliveriesConcat(Connected(c[..j]), [c[j].peer], data);
          assert old(sent) + Deliveries(Connected(c[..j]), data) + Deliveries([c[j].peer], data) == old(sent) + (Deliveries(Connected(c[..j]), data) + Deliveries([c[j].peer], data));
        }
        j := j + 1;
      }
      assert c[..|c|] == c;
    }

    /** The common tail of social_addfriend, social_createpost and
        social_updatefield: a new record of social_self with the next
        sequence number, the time, no privacy and the body, signed over its
        written form, then shared. */
    method Publish(body: Body, now: u64) returns (u: Update)
      requires Valid()
      modifies this, self
      ensures Valid() && users == old(users)
      ensures u == Authored(old(self.seqno), now, body)
      ensures self.seqno == u.seqno == Next(old(self.seqno))
      ensures self.updates == old(self.updates) + [u]
      ensures self.pubkey == old(self.pubkey) && self.circles == old(self.circles)
      ensures sent == old(sent) + Deliveries(Audience(self.circles), Payload(self.id, u))
    {
      var i := self.NewUpdate(body);
      self.seqno := Next(self.seqno);
      var unsigned := Update([], self.seqno, now, Privacy(0, []), body);
      u := unsigned.(signature := sign(Encode(unsigned)));
      self.updates := self.updates[i := u];
      ShareUpdate(u);
    }

    /** The record Publish creates. */
    function Authored(s: u64, now: u64, body: Body): (u: Update)
      ensures u.seqno == Next(s) && u.body == body && u.timestamp == now && u.privacy == Privacy(0, [])
      ensures u.signature == sign(Encode(u))
    {
      var unsigned := Update([], Next(s), now, Privacy(0, []), body);
      unsigned.(signature := sign(Encode(unsigned)))
    }

    /** social_createpost. */
    method CreatePost(msg: Text, now: u64) returns (ghost u: Update)
      requires Valid()
      modifies this, self
      ensures Valid() && users == old(users)
      ensures u == Authored(old(self.seqno), now, Post(msg))
      ensures self.seqno == Next(old(self.seqno)) && self.updates == old(self.updates) + [u]
      ensures sent == old(sent) + Deliveries(Audience(self.circles), Payload(self.id, u))
    {
      u := Publish(Post(msg), now);
    }

    /** social_updatefield: a new field record, whatever field records
        social_self already has. */
    method UpdateField(name: Text, value: Text, now: u64) returns (ghost u: Update)
      requires Valid()
      modifies this, self
      ensures Valid() && users == old(users)
      ensures u == Authored(old(self.seqno), now, Field(name, value))
      ensures self.seqno == Next(old(self.seqno)) && self.updates == old(self.updates) + [u]
      ensures sent == old(sent) + Deliveries(Audience(self.circles), Payload(self.id, u))
    {
      u := Publish(Field(name, value), now);
    }

    /** social_addfriend: the friend is found or created; if it has a peer,
        its key is taken from the peer's certificate when missing and its
        records after the sequence number we have are asked for; then it
        joins circle of social_self and a FRIENDS record with add 1 is
        published. */
    method AddFriend(id: Id, circle: u32, now: u64) returns (ghost friend: User, ghost key0: Option<Key>, ghost seq0: u64, ghost u: Update)
      requires Valid()
      modifies this, users
      ensures Valid() && friend.id == id
      ensures friend in old(users) ==> key0 == old(friend.pubkey) && seq0 == old(friend.seqno)
      ensures friend !in old(users) ==> fresh(friend) && key0 == None && seq0 == 0
      ensures friend.peer != null ==> friend.pubkey == if key0.Some? then key0 else Some(certKey(friend.peer))
      ensures self.seqno == Next(old(self.seqno)) && u == Authored(old(self.seqno), now, Friends(circle, 1, id))
      ensures self.updates == old(self.updates) + [u]
      ensures Lookup(users, id).Some? && users[Lookup(users, id).value] == friend
      ensures sent == old(sent) + Greeting(friend, seq0) + Deliveries(Audience(self.circles), Payload(self.id, u))
    {
      friend, key0, seq0 := Introduce(id);
      ghost var s1 := sent;
      var f := AddToCircle(self, circle, id);
      u := Publish(Friends(circle, 1, id), now);
      assert sent == s1 + Deliveries(Audience(self.circles), Payload(self.id, u));
    }

    /** The first half of social_addfriend: the friend, found or created,
        and the key and getupdates request when it has a peer. */
    method Introduce(id: Id) returns (friend: User, ghost key0: Option<Key>, ghost seq0: u64)
      requires Valid()
      modifies this, users
      ensures Valid() && friend.id == id
      ensures friend in old(users) ==> key0 == old(friend.pubkey) && seq0 == old(friend.seqno)
      ensures friend !in old(users) ==> fresh(friend) && key0 == None && seq0 == 0
      ensures friend.peer != null ==> friend.pubkey == if key0.Some? then key0 else Some(certKey(friend.peer))
      ensures friend.peer == null ==> friend.pubkey == key0
      ensures self.seqno == old(self.seqno) && self.updates == old(self.updates)
      ensures self.circles == old(self.circles)
      ensures Lookup(users, id).Some? && users[Lookup(users, id).value] == friend
      ensures users == old(users) || users == old(users) + [friend]
      ensures sent == old(sent) + Greeting(friend, seq0)
    {
      friend := FindOrNew(id);
      key0, seq0 := friend.pubkey, friend.seqno;
      if friend.peer != null {
        if friend.pubkey.None? {
          friend.pubkey := Some(certKey(friend.peer));
        }
        Pow256Values();
        sent := sent + [Message(friend.peer, GETUPDATES, friend.id + LE(friend.seqno, 8))];
      }
    }

    /** The getupdates request social_addfriend sends to a friend with a
        peer: its id and the sequence number we have for it. */
    function Greeting(friend: User, s: u64): (r: seq<Message>)
      ensures |r| <= 1 && (r == [] <==> friend.peer == null)
      ensures r != [] ==> r[0].to == friend.peer && r[0].cmd == GETUPDATES && |r[0].data| == 28
                          && r[0].data[..20] == friend.id && Since(r[0].data) == s
    {
      Pow256Values();
      FromLEOfLE(s, 8);
      assert (friend.id + LE(s, 8))[20..28] == LE(s, 8);
      if friend.peer == null then [] else [Message(friend.peer, GETUPDATES, friend.id + LE(s, 8))]
    }
  }

  /** The sequence number of a getupdates request, after the id. */
  function Since(data: seq<byte>): u64
    requires |data| >= 28
  {
    Pow256Values();
    FromLE(data[20..28])
  }

  /** Lookup finds the first match. */
  lemma LookupFirst(us: seq<User>, id: seq<byte>, i: nat)
    requires i < |us| && us[i].id == id
    requires forall j :: 0 <= j < i ==> us[j].id != id
    ensures Lookup(us, id) == Some(i)
  {
  }

  lemma LookupAppend(us: seq<User>, id: seq<byte>, u: User)
    requires Lookup(us, id).None? && u.id == id
    ensures Lookup(us + [u], id) == Some(|us|)
  {
    LookupFirst(us + [u], id, |us|);
  }

  /** The k-th reply carries the k-th record. */
  lemma {:induction false} RepliesAt(to: Peers.Peer, id: Id, us: seq<Update>, k: nat)
    requires k < |us|
    ensures Replies(to, id, us)[k] == Message(to, UPDATEINFO, Payload(id, us[k]))
    decreases |us|
  {
    var n := |us| - 1;
    var c := Replies(to, id, us[..n]);
    var m := Message(to, UPDATEINFO, Payload(id, us[n]));
    assert Replies(to, id, us) == c + [m];
    if k < n {
      RepliesAt(to, id, us[..n], k);
      assert us[..n][k] == us[k];
      assert (c + [m])[k] == c[k];
    }
  }

  lemma DeliveriesConcat(a: seq<Peers.Peer>, b: seq<Peers.Peer>, data: seq<byte>)
    ensures Deliveries(a + b, data) == Deliveries(a, data) + Deliveries(b, data)
  {
  }

  lemma {:induction false} ConnectedSnoc(c: seq<User>)
    requires |c| > 0
    ensures Connected(c) == Connected(c[..|c| - 1]) + (if c[|c| - 1].peer != null then [c[|c| - 1].peer] else [])
  {
    if |c| > 1 {
      ConnectedSnoc(c[1..]);
      assert c[1..][..|c| - 2] == c[..|c| - 1][1..];
    }
  }
}
