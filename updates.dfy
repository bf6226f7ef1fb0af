/** The signed update records of update.c: the record itself, its wire
    layout written by social_update_write, and the readbin steps of
    social_update_parse that take a received record apart. What parse does
    to a user's stored records is in module Social, next to the user
    registry it also touches. */
module Updates {
  import opened Bytes
  import opened Wrappers
  import opened Buffers

  /** enum updatetype. */
  const FIELD: byte := 0
  const POST: byte := 1
  const MEDIA: byte := 2
  const FRIENDS: byte := 3
  const CIRCLE: byte := 4

  /** A buffer whose length fits the 32-bit size field written before it. */
  type Bytes32 = s: seq<byte> | |s| < 0x1_0000_0000

  /** The content of a C string that buffer_writestr can write: no NUL, and
      a strlen that fits its 32-bit length. */
  type Text = s: seq<byte> | 0 !in s && |s| < 0x1_0000_0000

  /** A 20-byte user id. */
  type Id = s: seq<byte> | |s| == 20 witness seq(20, i => 0)

  /** A circle list whose length fits the uint32_t circlecount. */
  type Circles = s: seq<u32> | |s| < 0x1_0000_0000

  /** struct privacy: the flags and the circle indexes. */
  datatype Privacy = Privacy(flags: byte, circles: Circles)

  /** The union of struct update, one variant per update type. */
  datatype Body =
    | Field(name: Text, value: Text)
    | Post(message: Text)
    | Media(name: Text, size: u64)
    | Friends(circle: u32, add: byte, id: Id)
    | CircleName(circle: u32, name: Text)

  /** struct update. Its type field is the variant of its body. */
  datatype Update = Update(signature: Bytes32, seqno: u64, timestamp: u64, privacy: Privacy, body: Body)

  /** The type byte of a body. */
  function Kind(b: Body): (k: byte)
    ensures k <= CIRCLE
  {
    match b
    case Field(_, _) => FIELD
    case Post(_) => POST
    case Media(_, _) => MEDIA
    case Friends(_, _, _) => FRIENDS
    case CircleName(_, _) => CIRCLE
  }

  /** buffer_writestr: the 4-byte strlen, then the bytes. */
  function Str(s: Text): seq<byte>
  {
    Pow256Values();
    LE(|s|, 4) + s
  }

  /** The type-specific part written by social_update_write. */
  function BodyBytes(b: Body): seq<byte>
  {
    Pow256Values();
    match b
    case Field(name, value) => Str(name) + Str(value)
    case Post(message) => Str(message)
    case Media(name, size) => Str(name) + LE(size, 8)
    case Friends(circle, add, id) => LE(circle, 4) + ([add] + id)
    case CircleName(circle, name) => LE(circle, 4) + Str(name)
  }

  /** The uint32_t array of circle indexes as memcpy lays it out: 4 bytes
      per circle. */
  function CirclesBytes(cs: seq<u32>): (r: seq<byte>)
    ensures |r| == 4 * |cs|
  {
    Pow256Values();
    if cs == [] then [] else LE(cs[0], 4) + CirclesBytes(cs[1..])
  }

  /** The circle indexes in bytes laid out as CirclesBytes lays them out. */
  function DecodeCircles(s: seq<byte>): (r: seq<u32>)
    ensures |r| == |s| / 4
  {
    Pow256Values();
    if |s| < 4 then [] else [FromLE(s[..4])] + DecodeCircles(s[4..])
  }

  /** social_update_write: seq (8), type (1), timestamp (8), flags (1),
      circlecount (4), the first circlecount bytes of the circle array (see
      CirclesAsWritten), 4 zero bytes, then the body. The signature is not
      part of it. */
  function Encode(u: Update): seq<byte>
  {
    Pow256Values();
    LE(u.seqno, 8) + ([Kind(u.body)] + (LE(u.timestamp, 8) + ([u.privacy.flags] +
      (LE(|u.privacy.circles|, 4) + (CirclesAsWritten(u.privacy.circles) + (LE(0, 4) + BodyBytes(u.body)))))))
  }

  /** The fields social_update_parse reads before it looks at the user's
      records, and the bytes after them. */
  datatype Header = Header(signature: Bytes32, seqno: u64, kind: byte, timestamp: u64, privacy: Privacy, rest: seq<byte>)

  /** readbin: the next n bytes and what follows them, or None when fewer
      than n bytes are left. */
  function ReadBin(s: seq<byte>, n: nat): (r: Option<(seq<byte>, seq<byte>)>)
    ensures r.Some? <==> n <= |s|
    ensures r.Some? ==> |r.value.0| == n && r.value.0 + r.value.1 == s
  {
    if |s| < n then None else Some((s[..n], s[n..]))
  }

  /** readbin into a w-byte integer. */
  function ReadNum(s: seq<byte>, w: nat): (r: Option<(nat, seq<byte>)>)
    ensures r.Some? <==> w <= |s|
    ensures r.Some? ==> r.value.0 < Pow256(w) && |r.value.1| == |s| - w
  {
    match ReadBin(s, w)
    case None => None
    case Some(p) => Some((FromLE(p.0), p.1))
  }

  lemma ReadBinOf(p: seq<byte>, t: seq<byte>)
    ensures ReadBin(p + t, |p|) == Some((p, t))
  {
    assert (p + t)[..|p|] == p;
    assert (p + t)[|p|..] == t;
  }

  lemma ReadNumOf(n: nat, w: nat, t: seq<byte>)
    requires n < Pow256(w)
    ensures ReadNum(LE(n, w) + t, w) == Some((n, t))
  {
    ReadBinOf(LE(n, w), t);
    FromLEOfLE(n, w);
  }

  /** The first two readbin steps: the 4-byte signature size and the
      signature, or None on a short read. The bytes after the signature are
      what the signature covers. */
  function SplitSig(data: seq<byte>): (r: Option<(Bytes32, seq<byte>)>)
    ensures r.Some? ==> |r.value.0| + |r.value.1| + 4 == |data|
  {
    Pow256Values();
    match ReadNum(data, 4)
    case None => None
    case Some(n) =>
      match ReadBin(n.1, n.0)
      case None => None
      case Some(sg) => Some((sg.0, sg.1))
  }

  /** The readbin steps from seq to the privacy placeholder, or None on a
      short read. The circle array is read with circlecount as its byte
      count, as social_update_write wrote it. */
  function DecodeHeader(sig: Bytes32, s: seq<byte>): (r: Option<Header>)
    ensures r.Some? ==> r.value.signature == sig && |r.value.rest| < |s|
  {
    Pow256Values();
    var sq := ReadNum(s, 8);
    if sq.None? then None else
    var ty := ReadBin(sq.value.1, 1);
    if ty.None? then None else
    var ts := ReadNum(ty.value.1, 8);
    if ts.None? then None else
    var fl := ReadBin(ts.value.1, 1);
    if fl.None? then None else
    var count := ReadNum(fl.value.1, 4);
    if count.None? then None else
    var circles := ReadBin(count.value.1, count.value.0);
    if circles.None? then None else
    var placeholder := ReadBin(circles.value.1, 4);
    if placeholder.None? then None else
    Some(Header(sig, sq.value.0, ty.value.0[0], ts.value.0,
      Privacy(fl.value.0[0], CirclesRead(circles.value.0)), placeholder.value.1))
  }

  /** The FIELD body: namelen, the check that namelen bytes and valuelen
      follow, the name, valuelen, the check that valuelen bytes follow, the
      value. None when a check fails. */
  function DecodeField(rest: seq<byte>): (r: Option<(Bytes32, Bytes32)>)
    ensures r.Some? ==> 8 + |r.value.0| + |r.value.1| <= |rest| && r.value.0 == rest[4..4 + |r.value.0|]
  {
    Pow256Values();
    var namelen := ReadNum(rest, 4);
    if namelen.None? then None
    else if |namelen.value.1| < namelen.value.0 + 4 then None
    else
      var name := ReadBin(namelen.value.1, namelen.value.0);
      var valuelen := ReadNum(name.value.1, 4);
      if |valuelen.value.1| < valuelen.value.0 then None
      else
        var value := ReadBin(valuelen.value.1, valuelen.value.0);
        Some((name.value.0, value.value.0))
  }

  /** The POST body: msglen, the check that msglen bytes follow, the
      message. */
  function DecodePost(rest: seq<byte>): (r: Option<Bytes32>)
    ensures r.Some? ==> 4 + |r.value| <= |rest| && r.value == rest[4..4 + |r.value|]
  {
    Pow256Values();
    var msglen := ReadNum(rest, 4);
    if msglen.None? then None
    else if |msglen.value.1| < msglen.value.0 then None
    else Some(ReadBin(msglen.value.1, msglen.value.0).value.0)
  }

  /** The FRIENDS body: circle (4), add (1), id (20). */
  function DecodeFriends(rest: seq<byte>): (r: Option<(u32, byte, Id)>)
    ensures r.Some? <==> |rest| >= 25
    ensures r.Some? ==> r.value.1 == rest[4] && r.value.2 == rest[5..25]
  {
    Pow256Values();
    var circle := ReadNum(rest, 4);
    if circle.None? then None else
    var add := ReadBin(circle.value.1, 1);
    if add.None? then None else
    var id := ReadBin(add.value.1, 20);
    if id.None? then None else
    Some((circle.value.0, add.value.0[0], id.value.0))
  }

  /** A C string read from the wire, as strcmp, strdup and strlen see it. */
  function AsText(s: Bytes32): (t: Text)
    ensures 0 !in s ==> t == s
  {
    CStr(s)
  }

  /** The record social_update_parse stores for a header, once the records
      it already has allow it: the parsed seq, timestamp, signature and
      privacy with the decoded body. None when the body is short or its type
      is MEDIA, CIRCLE or unknown. */
  function Recovered(h: Header): (r: Option<Update>)
    ensures r.Some? ==> (r.value.signature == h.signature && r.value.seqno == h.seqno &&
      r.value.timestamp == h.timestamp && r.value.privacy == h.privacy && Kind(r.value.body) == h.kind)
  {
    if h.kind == FIELD then
      match DecodeField(h.rest)
      case None => None
      case Some(f) => Some(Update(h.signature, h.seqno, h.timestamp, h.privacy, Field(AsText(f.0), AsText(f.1))))
    else if h.kind == POST then
      match DecodePost(h.rest)
      case None => None
      case Some(m) => Some(Update(h.signature, h.seqno, h.timestamp, h.privacy, Post(AsText(m))))
    else if h.kind == FRIENDS then
      match DecodeFriends(h.rest)
      case None => None
      case Some(f) => Some(Update(h.signature, h.seqno, h.timestamp, h.privacy, Friends(f.0, f.1, f.2)))
    else None
  }

  /** The signed form sendupdate puts after the user id: the signature size,
      the signature, then the written record. */
  function Signed(u: Update): seq<byte>
  {
    Pow256Values();
    LE(|u.signature|, 4) + (u.signature + Encode(u))
  }

  /** Parsing the signed form of a record finds its signature, and the
      signature covers exactly the written record. */
  lemma SplitSigned(u: Update)
    ensures SplitSig(Signed(u)) == Some((u.signature, Encode(u)))
  {
    Pow256Values();
    ReadNumOf(|u.signature|, 4, u.signature + Encode(u));
    ReadBinOf(u.signature, Encode(u));
  }

  /** Parsing a written record gives back its header fields, the privacy
      Reread makes of its circles, and its body bytes. */
  lemma {:induction false} EncodeHeader(u: Update)
    ensures DecodeHeader(u.signature, Encode(u)) ==
      Some(Header(u.signature, u.seqno, Kind(u.body), u.timestamp, Reread(u.privacy), BodyBytes(u.body)))
  {
    Pow256Values();
    var c := u.privacy.circles;
    var s6 := LE(0, 4) + BodyBytes(u.body);
    var s5 := CirclesAsWritten(c) + s6;
    var s4 := LE(|c|, 4) + s5;
    var s3 := [u.privacy.flags] + s4;
    var s2 := LE(u.timestamp, 8) + s3;
    var s1 := [Kind(u.body)] + s2;
    ReadNumOf(u.seqno, 8, s1);
    ReadBinOf([Kind(u.body)], s2);
    ReadNumOf(u.timestamp, 8, s3);
    ReadBinOf([u.privacy.flags], s4);
    ReadNumOf(|c|, 4, s5);
    ReadBinOf(CirclesAsWritten(c), s6);
    ReadBinOf(LE(0, 4), BodyBytes(u.body));
  }

  /** The circle array reads back as the circles written. */
  lemma {:induction false} DecodeCirclesOf(cs: seq<u32>)
    ensures DecodeCircles(CirclesBytes(cs)) == cs
  {
    Pow256Values();
    if cs != [] {
      var b := CirclesBytes(cs);
      assert b == LE(cs[0], 4) + CirclesBytes(cs[1..]);
      FromLEPrefix(cs[0], 4, CirclesBytes(cs[1..]));
      assert b[4..] == CirclesBytes(cs[1..]);
      DecodeCirclesOf(cs[1..]);
    }
  }

  /** The circle bytes social_update_write writes: buffer_write is given
      circlecount as the byte count of a uint32_t array, so only the first
      circlecount of its 4 * circlecount bytes go out. */
  function CirclesAsWritten(cs: seq<u32>): (r: seq<byte>)
    ensures |r| == |cs|
  {
    CirclesBytes(cs)[..|cs|]
  }

  /** The circle array social_update_parse fills from the circlecount bytes
      it reads: circlecount uint32_t entries whose first circlecount bytes
      are the bytes read, so writing it again gives the same bytes. The rest
      of that stack array is never written; the model takes it as zero. */
  function CirclesRead(b: seq<byte>): (r: seq<u32>)
    ensures |r| == |b|
    ensures CirclesAsWritten(r) == b
  {
    var pad: seq<byte> := seq(3 * |b|, _ => 0);
    CirclesBytesOf(b + pad);
    assert (b + pad)[..|b|] == b;
    DecodeCircles(b + pad)
  }

  /** Bytes in whole 4-byte groups are the layout of the circles they
      decode to. */
  lemma {:induction false} CirclesBytesOf(x: seq<byte>)
    requires |x| % 4 == 0
    ensures CirclesBytes(DecodeCircles(x)) == x
  {
    Pow256Values();
    if |x| >= 4 {
      var d := DecodeCircles(x);
      assert d[0] == FromLE(x[..4]) && d[1..] == DecodeCircles(x[4..]);
      CirclesBytesOf(x[4..]);
      LEOfFromLE(x[..4]);
      assert x == x[..4] + x[4..];
    }
  }

  /** The privacy parse stores for a record written with privacy p: the
      same flags and circle count, and circles that write out as the same
      bytes; a record without circles keeps its privacy exactly. */
  function Reread(p: Privacy): (r: Privacy)
    ensures r.flags == p.flags && |r.circles| == |p.circles|
    ensures CirclesAsWritten(r.circles) == CirclesAsWritten(p.circles)
    ensures p.circles == [] ==> r == p
  {
    Privacy(p.flags, CirclesRead(CirclesAsWritten(p.circles)))
  }

  /** Parsing a relayed record again stores the same privacy. */
  lemma RereadTwice(p: Privacy)
    ensures Reread(Reread(p)) == Reread(p)
  {
  }

  /** The relay property of the as-written layout: the record parse stores
      writes out as the bytes it was parsed from, so sendupdates passes it
      on unchanged and its signature still covers it. */
  lemma RereadSigned(u: Update)
    ensures Encode(u.(privacy := Reread(u.privacy))) == Encode(u)
    ensures Signed(u.(privacy := Reread(u.privacy))) == Signed(u)
  {
  }

  /** As written, different circle lists go out as the same bytes: circle
      256 and circle 0 are both written as the single byte 0, so no reader
      can tell which circle a record's privacy names. */
  lemma CirclesAsWrittenCollide()
    ensures CirclesAsWritten([256]) == CirclesAsWritten([0]) == [0]
  {
    Pow256Values();
    assert LE(256, 4) == [0, 1, 0, 0];
    assert LE(0, 4) == [0, 0, 0, 0];
    assert CirclesBytes([256]) == LE(256, 4) + CirclesBytes([]);
    assert CirclesBytes([0]) == LE(0, 4) + CirclesBytes([]);
  }

  /** As written, every nonempty circle list loses three quarters of its
      bytes: the array holds 4 bytes per circle, one byte per circle is sent. */
  lemma CirclesAsWrittenShort(cs: seq<u32>)
    requires cs != []
    ensures |CirclesAsWritten(cs)| < |CirclesBytes(cs)|
    ensures CirclesAsWritten(cs) < CirclesBytes(cs)
  {
  }

  lemma DecodeFieldOf(name: Text, value: Text)
    ensures DecodeField(Str(name) + Str(value)) == Some((name, value))
  {
    Pow256Values();
    var t := name + Str(value);
    assert Str(name) + Str(value) == LE(|name|, 4) + t;
    ReadNumOf(|name|, 4, t);
    ReadBinOf(name, Str(value));
    ReadNumOf(|value|, 4, value);
    ReadBinOf(value, []);
    assert value + [] == value;
  }

  lemma DecodePostOf(message: Text)
    ensures DecodePost(Str(message)) == Some(message)
  {
    Pow256Values();
    ReadNumOf(|message|, 4, message);
    ReadBinOf(message, []);
    assert message + [] == message;
  }

  lemma DecodeFriendsOf(circle: u32, add: byte, id: Id)
    ensures DecodeFriends(LE(circle, 4) + ([add] + id)) == Some((circle, add, id))
  {
    Pow256Values();
    ReadNumOf(circle, 4, [add] + id);
    ReadBinOf([add], id);
    ReadBinOf(id, []);
    assert id + [] == id;
  }

  /** The round trip of sendupdate and social_update_parse: parsing the
      signed form of a FIELD, POST or FRIENDS record gives back its
      signature and a header from which parse stores that record with its
      privacy reread; a record without circles, as every record
      social_update_new starts, comes back exactly. */
  lemma RecoverSigned(u: Update)
    requires u.body.Field? || u.body.Post? || u.body.Friends?
    ensures SplitSig(Signed(u)) == Some((u.signature, Encode(u)))
    ensures DecodeHeader(u.signature, Encode(u)).Some?
    ensures Recovered(DecodeHeader(u.signature, Encode(u)).value) == Some(u.(privacy := Reread(u.privacy)))
    ensures u.privacy.circles == [] ==> Recovered(DecodeHeader(u.signature, Encode(u)).value) == Some(u)
  {
    SplitSigned(u);
    EncodeHeader(u);
    RecoveredBody(u.(privacy := Reread(u.privacy)));
  }

  /** parse stores a FIELD, POST or FRIENDS record from nothing but its
      header fields and its written body. */
  lemma RecoveredBody(u: Update)
    requires u.body.Field? || u.body.Post? || u.body.Friends?
    ensures Recovered(Header(u.signature, u.seqno, Kind(u.body), u.timestamp, u.privacy, BodyBytes(u.body))) == Some(u)
  {
    match u.body
    case Field(name, value) =>
      DecodeFieldOf(name, value);
    case Post(message) =>
      DecodePostOf(message);
    case Friends(circle, add, id) =>
      DecodeFriendsOf(circle, add, id);
  }

  /** MEDIA and CIRCLE records are written but never stored by parse. */
  lemma MediaCircleDropped(u: Update)
    requires u.body.Media? || u.body.CircleName?
    ensures DecodeHeader(u.signature, Encode(u)).Some?
    ensures Recovered(DecodeHeader(u.signature, Encode(u)).value) == None
  {
    EncodeHeader(u);
  }

  /** A record cut anywhere inside its written form is refused: parse reads
      nothing from a truncated signature size or signature (the first two
      steps). */
  lemma ShortSignatureRefused(u: Update, k: nat)
    requires k < 4 + |u.signature|
    ensures SplitSig(Signed(u)[..k]) == None
  {
    Pow256Values();
    var d := Signed(u)[..k];
    if k >= 4 {
      assert d[..4] == LE(|u.signature|, 4);
      FromLEOfLE(|u.signature|, 4);
    }
  }

  // ---- social_update_write as buffer appends ----

  /** A uint32_t and a uint64_t as buffer_write copies them. */
  function U32(n: u32): (r: seq<byte>)
    ensures |r| == 4 && FromLE(r) == n
  {
    Pow256Values();
    FromLEOfLE(n, 4);
    LE(n, 4)
  }

  function U64(n: u64): (r: seq<byte>)
    ensures |r| == 8 && FromLE(r) == n
  {
    Pow256Values();
    FromLEOfLE(n, 8);
    LE(n, 8)
  }

  /** buffer_write, with only what the writers of this module need. */
  method Put(buf: Buffer, data: seq<byte>)
    requires buf.Valid()
    modifies buf, buf.buf
    ensures buf.Valid() && buf.Contents() == old(buf.Contents()) + data
    ensures buf.buf == old(buf.buf) || fresh(buf.buf)
  {
    buf.Write(data);
  }

  /** buffer_writestr applied to a record's string. */
  method WriteStrTo(buf: Buffer, s: Text)
    requires buf.Valid()
    modifies buf, buf.buf
    ensures buf.Valid() && buf.Contents() == old(buf.Contents()) + Str(s)
    ensures buf.buf == old(buf.buf) || fresh(buf.buf)
  {
    ghost var c0 := buf.Contents();
    buf.WriteStr(s);
    Assoc(c0, U32(|s|), s);
  }

  /** The type-specific appends of social_update_write. */
  method WriteBody(buf: Buffer, b: Body)
    requires buf.Valid()
    modifies buf, buf.buf
    ensures buf.Valid() && buf.Contents() == old(buf.Contents()) + BodyBytes(b)
    ensures buf.buf == old(buf.buf) || fresh(buf.buf)
  {
    ghost var c0 := buf.Contents();
    match b
    case Field(name, value) =>
      WriteStrTo(buf, name);
      WriteStrTo(buf, value);
      Assoc(c0, Str(name), Str(value));
    case Post(message) =>
      WriteStrTo(buf, message);
    case Media(name, size) =>
      WriteStrTo(buf, name);
      Put(buf, U64(size));
      Assoc(c0, Str(name), U64(size));
    case Friends(circle, add, id) =>
      WriteFriends(buf, circle, add, id);
    case CircleName(circle, name) =>
      Put(buf, U32(circle));
      WriteStrTo(buf, name);
      Assoc(c0, U32(circle), Str(name));
  }

  method WriteFriends(buf: Buffer, circle: u32, add: byte, id: Id)
    requires buf.Valid()
    modifies buf, buf.buf
    ensures buf.Valid() && buf.Contents() == old(buf.Contents()) + BodyBytes(Friends(circle, add, id))
    ensures buf.buf == old(buf.buf) || fresh(buf.buf)
  {
    ghost var c0 := buf.Contents();
    Put(buf, U32(circle));
    Put(buf, [add]);
    Put(buf, id);
    Assoc(c0 + U32(circle), [add], id);
    Assoc(c0, U32(circle), [add] + id);
  }

  /** social_update_write: seq, type, timestamp, flags, the circles with
      their count, the placeholder, then the body. */
  method WriteTo(buf: Buffer, u: Update)
    requires buf.Valid()
    modifies buf, buf.buf
    ensures buf.Valid() && buf.Contents() == old(buf.Contents()) + Encode(u)
    ensures buf.buf == old(buf.buf) || fresh(buf.buf)
  {
    ghost var c0 := buf.Contents();
    WriteHead(buf, u);
    ghost var c1 := buf.Contents();
    WriteCircles(buf, u.privacy.circles);
    ghost var c2 := buf.Contents();
    WriteBody(buf, u.body);
    EncodeLayout(u, c0, c1, c2, buf.Contents());
  }

  method WriteHead(buf: Buffer, u: Update)
    requires buf.Valid()
    modifies buf, buf.buf
    ensures buf.buf == old(buf.buf) || fresh(buf.buf)
    ensures buf.Valid() && buf.Contents() ==
      old(buf.Contents()) + U64(u.seqno) + [Kind(u.body)] + U64(u.timestamp) + [u.privacy.flags]
  {
    Put(buf, U64(u.seqno));
    Put(buf, [Kind(u.body)]);
    Put(buf, U64(u.timestamp));
    Put(buf, [u.privacy.flags]);
  }

  /** circlecount, the first circlecount bytes of the circle array and the
      privacy placeholder. */
  method WriteCircles(buf: Buffer, c: Circles)
    requires buf.Valid()
    modifies buf, buf.buf
    ensures buf.buf == old(buf.buf) || fresh(buf.buf)
    ensures buf.Valid() && buf.Contents() == old(buf.Contents()) + U32(|c|) + CirclesAsWritten(c) + U32(0)
  {
    Put(buf, U32(|c|));
    Put(buf, CirclesAsWritten(c));
    Put(buf, U32(0));
  }

  /** The three appends of sendupdate after the id: the signature size,
      the signature and the written record. */
  method WriteSigned(buf: Buffer, u: Update)
    requires buf.Valid()
    modifies buf, buf.buf
    ensures buf.Valid() && buf.Contents() == old(buf.Contents()) + Signed(u)
    ensures buf.buf == old(buf.buf) || fresh(buf.buf)
  {
    ghost var c0 := buf.Contents();
    Put(buf, U32(|u.signature|));
    Put(buf, u.signature);
    ghost var c1 := buf.Contents();
    WriteTo(buf, u);
    Assoc(c0, U32(|u.signature|), u.signature);
    Assoc(c0, U32(|u.signature|) + u.signature, Encode(u));
    Assoc(U32(|u.signature|), u.signature, Encode(u));
  }

  /** Regrouping the appends of a buffer. */
  lemma Assoc(a: seq<byte>, b: seq<byte>, c: seq<byte>)
    ensures a + b + c == a + (b + c)
  {
  }

  /** The appends of social_update_write, in order, make up Encode. */
  lemma EncodeLayout(u: Update, c0: seq<byte>, c1: seq<byte>, c2: seq<byte>, c3: seq<byte>)
    requires c1 == c0 + U64(u.seqno) + [Kind(u.body)] + U64(u.timestamp) + [u.privacy.flags]
    requires c2 == c1 + U32(|u.privacy.circles|) + CirclesAsWritten(u.privacy.circles) + U32(0)
    requires c3 == c2 + BodyBytes(u.body)
    ensures c3 == c0 + Encode(u)
  {
    var n := |u.privacy.circles|;
    var c := CirclesAsWritten(u.privacy.circles);
    var r7 := U32(0) + BodyBytes(u.body);
    var r6 := c + r7;
    var r5 := U32(n) + r6;
    var r4 := [u.privacy.flags] + r5;
    var r3 := U64(u.timestamp) + r4;
    var r2 := [Kind(u.body)] + r3;
    var r1 := U64(u.seqno) + r2;
    assert r1 == Encode(u);
    Assoc(c1 + U32(n) + c, U32(0), BodyBytes(u.body));
    Assoc(c1 + U32(n), c, r7);
    Assoc(c1, U32(n), r6);
    assert c3 == c1 + r5;
    Assoc(c0 + U64(u.seqno) + [Kind(u.body)] + U64(u.timestamp), [u.privacy.flags], r5);
    Assoc(c0 + U64(u.seqno) + [Kind(u.body)], U64(u.timestamp), r4);
    Assoc(c0 + U64(u.seqno), [Kind(u.body)], r3);
    Assoc(c0, U64(u.seqno), r2);
  }
}
