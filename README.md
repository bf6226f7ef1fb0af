# socialnetwork core, modelled in Dafny

This project models the networking and record-keeping core of a small
peer-to-peer social network written in C. It has three layers:

- **Reliable-UDP streams** (`udpstream.c`). There is one stream per remote
  address. Every datagram carries a 7-byte header: a 4-byte payload size, a
  2-byte sequence number and a 1-byte type, which is PAYLOAD, ACK or RESEND.
  Sent packets are kept until they are ACKed. Received packets are kept in a
  reorder list and delivered in sequence order. The receiver ACKs every
  payload and asks for the sequence numbers it is missing.
- **Peer command layer** (`peer.c`). A registry of named commands and a
  per-peer receive state machine. The machine goes length byte, name, 4-byte
  data length, payload, then calls every handler registered under that name.
  `peer_sendcmd` frames a command as four stream writes and can broadcast to
  every peer whose handshake is done. The built-in `getpeers`/`peers`
  exchange encodes the peer list. It connects to the candidates with the
  lowest peer counts first, up to 20 peers, and never twice to one address.
  `peer_bootstrap` reads a host:port list, one entry per line.
- **Signed update records** (`update.c`, `buffer.h`, `social.c`). A growable
  byte buffer with length-prefixed strings and the record writer. The record
  parser checks the signature, refuses a duplicate sequence number, raises
  the user's sequence number, lets a field keep its newest value, appends
  posts and befriends. On top sit the user registry, the circles of friends
  and the three social commands: `updateinfo`, `getupdates` (`sendupdates`)
  and the update sharing of the authoring functions.

Layout, one module per file:

- `wrappers.dfy`: Option.
- `bytes.dfy`: byte and fixed-width integer types, the little-endian integer
  codec, int32 reinterpretation and C-string truncation.
- `buffer.dfy`: `struct buffer` as a class over an array.
- `udpframes.dfy`: the stream state, the wire frames and the effect of every
  frame, read and write, as functions on values.
- `udpstream.dfy`: the `Stream` and `Registry` classes, whose methods are
  proved against `udpframes.dfy`.
- `peerproto.dfy`: command framing and the receive machine, the peers-list
  codec and the selection, and the bootstrap list, as functions.
- `peer.dfy`: the imperative peer layer. It holds the `Peer` and `Node`
  classes, the TLS handshake oracle and the parse and selection loops.
- `updates.dfy`: the record datatypes, the record writer over a `Buffer`, the
  parser's decoders and their round trips.
- `social.dfy`: the user records, `social_update_parse` as a method, the
  registry and the social command handlers.

The TLS handshake is a script: a function from the attempt number to what
that `gnutls_handshake` call does on the stream (its pull and push calls, in
order, run as `udpstream_read` and `udpstream_write`) and whether it
succeeds. `peer_new` records the first outcome; each later attempt in
`peer_handlesocket` runs its calls on the stream.
Signing and signature checking, certificate keys and `peer_findbyid` are
function parameters of the social registry. `getaddrinfo` is a resolver
function passed to `Bootstrap`. Outbound datagrams are kept per stream in
`outbox`. Messages the social layer sends are kept in `Registry.sent`.
Handler calls are logged in `Node.calls`. Multi-byte integers are
little-endian throughout.

## Model

| member | source | states |
|---|---|---|
| Bytes.FromLEOfLE | udpstream.c:143-147 | an integer copied into w bytes of native (little-endian) order reads back as the same integer |
| Bytes.LEOfFromLE | udpstream.c:143-147 | reading w bytes as an integer and writing it back gives the same bytes |
| Bytes.ToInt32 | peer.c:317-319 | the 4 bytes read into `datalength` reinterpreted as a signed 32-bit int: in range, negative iff the top bit is set, congruent mod 2^32 |
| Bytes.FromInt32 | peer.c:317-319 | the bytes an int32 `datalength` holds, as a uint32, reinterpret back to the same int32 (a short read keeps the old bytes) |
| Bytes.CStr | peer.c:313-315 | the string strcmp/strdup see: the longest NUL-free prefix, ending where the first NUL was |
| Buffers.Buffer.Init | buffer.h:19-22 | no allocation, size 0, memsize 0, contents empty |
| Buffers.Buffer.Write | buffer.h:23-30 | contents become old contents followed by data; size grows by the data length; memsize becomes size+len+128 exactly when spare room is short, else unchanged; memsize >= size is kept |
| Buffers.Buffer.WriteStr | buffer.h:31-36 | appends the 4-byte strlen followed by the string bytes |
| UdpFrames.Header | udpstream.c:93-96 | the header is exactly 7 bytes |
| UdpFrames.Encode | udpstream.c:97-98 | a frame on the wire is 7 bytes plus its payload |
| UdpFrames.Send | udpstream.c:90-99 | stream_send emits two datagrams, header then payload |
| UdpFrames.NextFrame | udpstream.c:143-147 | the frame read from a buffer has the payload size its header names |
| UdpFrames.NextFrameOfEncode | udpstream.c:143-147 | the header stream_send writes decodes to the same size, sequence number and type, and the bytes after the frame are left |
| UdpFrames.Consume | udpstream.c:168-189 | consuming a ready frame shortens the buffer |
| UdpFrames.Drain | udpstream.c:137-191 | the frame loop stops only when no complete frame is buffered |
| UdpFrames.PartialFrameWaits | udpstream.c:137-144 | a buffer holding less than 7+payloadsize bytes is not consumed at all |
| UdpFrames.ConsumeEncoded | udpstream.c:168-189 | consuming a frame removes exactly its 7+payloadsize bytes from the front and applies that frame |
| UdpFrames.DrainFrames | udpstream.c:137-191 | a buffer of whole frames followed by an incomplete tail applies every frame in order and keeps the tail |
| UdpFrames.DrainAppend | udpstream.c:134-137 | draining after each datagram is the same as draining once after both |
| UdpFrames.DeliverAllConcat | udpstream.c:126-192 | delivering several datagrams is the same as draining their concatenation |
| UdpFrames.Deliver | udpstream.c:126-192 | after a datagram is handled no complete frame is left buffered, the buffer grew by at most the datagram, and inseq and outseq are unchanged |
| UdpFrames.Received | udpstream.c:128-131 | recvfrom keeps at most the first 1024 bytes of a datagram, and all of a shorter one |
| UdpFrames.Without | udpstream.c:154-164 | ACK removal keeps exactly the packets with another sequence number, in order; nothing changes when the number is absent |
| UdpFrames.WithoutConcat | udpstream.c:155-164 | removal distributes over concatenation |
| UdpFrames.DropHit | udpstream.c:157-163 | removing a matching packet at the cursor keeps the loop invariant (the kept prefix is the acked-free prefix of the original, the rest is the unscanned original), with the cursor left in place (the `--i` before `++i`) |
| UdpFrames.DropKeep | udpstream.c:155-157 | passing a packet with another number advances the cursor and keeps the loop invariant |
| UdpFrames.DropDone | udpstream.c:155 | when the cursor reaches the end, the list is the original without the acked number |
| UdpFrames.AckFrame | udpstream.c:148-171 | an ACK frame removes the acked packets when its payload is 2 bytes, leaves the sent list when it is not, and is consumed either way |
| UdpFrames.AckedSeqOf | udpstream.c:151-153 | the 2-byte ACK payload reads back as the sequence number written |
| UdpFrames.ResendFrame | udpstream.c:172-178 | a RESEND frame is consumed with no other effect |
| UdpFrames.PayloadFrame | udpstream.c:179-190 | any other frame queues one ACK carrying its sequence number, appends (seq, payload) to the received list and then at most one RESEND; nothing else changes |
| UdpFrames.AckClearsWrite | udpstream.c:148-164 | writing a packet and getting its ACK back leaves the sent list as it was |
| UdpFrames.Offset | udpstream.c:103 | the distance from inseq mod 65536 is below 65536 |
| UdpFrames.OffsetOf | udpstream.c:110 | the j-th number after inseq is at distance j |
| UdpFrames.OffsetBack | udpstream.c:103-110 | inseq plus the distance of x is x mod 65536 |
| UdpFrames.MissingStep | udpstream.c:108-121 | one round of the resend scan appends the current number exactly when it is not received |
| UdpFrames.MissingSpec | udpstream.c:101-124 | the resend list holds exactly the numbers between inseq and seq mod 65536 absent from the received list, in ascending distance; it is empty iff all are present |
| UdpFrames.MissingFromSpec | udpstream.c:108-121 | from round i on, the scan lists exactly the absent numbers of the rest of the range, in increasing distance |
| UdpFrames.MissingFromMembers | udpstream.c:108-121 | a number is listed iff it lies in the scanned range and is not received |
| UdpFrames.MissingFromIncreasing | udpstream.c:108-121 | listed numbers are in strictly increasing distance from inseq |
| UdpFrames.MissingFromBounds | udpstream.c:108-121 | every listed number lies in the scanned range |
| UdpFrames.Missing | udpstream.c:101-121 | fewer than 65536 numbers are listed, each between inseq and seq mod 65536 and absent from the received list |
| UdpFrames.SeqList | udpstream.c:123 | the RESEND payload is 2 bytes per missed number |
| UdpFrames.ResendRequest | udpstream.c:101-124 | no RESEND is sent iff every number between inseq and seq is received; otherwise a header and a payload of the missing numbers, 2 bytes each |
| UdpFrames.OnFrame | udpstream.c:148-190 | handling a frame leaves the unparsed buffer alone |
| UdpFrames.FindSeq | udpstream.c:213-215 | the first received packet carrying the number, or none iff no packet does |
| UdpFrames.FindSeqRemoveKeeps | udpstream.c:226-228 | removing another packet keeps the payload found for a number |
| UdpFrames.FindSeqRemove | udpstream.c:226-228 | removing a packet with another number keeps which numbers are present and their payloads |
| UdpFrames.ReadConn | udpstream.c:209-237 | a read returns at most size bytes and touches only the received list and inseq |
| UdpFrames.ReadWhole | udpstream.c:224-230 | a ready payload that fits is returned whole, its packet removed and inseq advanced mod 65536 |
| UdpFrames.PartialRead | udpstream.c:218-230 | a payload larger than size comes out as the first size bytes with inseq kept, then the rest on the next read, which advances inseq |
| UdpFrames.ReadCut | udpstream.c:218-223 | a short read keeps the rest of the payload in the same packet |
| UdpFrames.ReadRest | udpstream.c:224-230 | reading the kept rest removes the packet and advances inseq |
| UdpFrames.InOrderDelivery | udpstream.c:209-233 | with n consecutive numbers received in any order, n reads return their payloads in sequence order |
| UdpFrames.ReadFirst | udpstream.c:213-230 | the first of those reads returns the payload for inseq and leaves the other n-1 ready |
| UdpFrames.ReadWholeKeeps | udpstream.c:224-230 | a whole read keeps every later packet available under the next numbers |
| UdpFrames.WriteConn | udpstream.c:239-251 | udpstream_write keeps the old sent packets and adds one under outseq, sends two datagrams, advances outseq mod 65536 and leaves the received side and the buffer alone |
| UdpFrames.Memmove | udpstream.c:161 | memmove of k elements from src to dst within an array of |a| elements: undefined (None) iff either range runs past the end; otherwise the k elements are copied and every other element kept |
| UdpFrames.RemoveAsWrittenOverruns | udpstream.c:161 | the ACK removal as written, moving count-1 elements from i+1 after the count was decremented, runs past the array for every position but the first |
| UdpFrames.RemoveSecondOfTwo | udpstream.c:161 | as written, removing the second of two sent packets reads and writes past the end of the array |
| UdpFrames.RemoveIntendedLive | udpstream.c:161 | moving count-1-i elements stays inside the array and leaves the live part as the old one without position i |
| UdpFrames.ReadConnRemoves | udpstream.c:226-228 | the received list after a whole read is the live part of the corrected removal of the packet read |
| UdpFrames.AddrUpTo | udpstream.c:253-257 | getaddr copies the address cut to the caller's room |
| UdpStream.Stream.constructor | udpstream.c:57-70 | a new stream has the socket and address and the fresh state: both counters 0, all lists empty |
| UdpStream.Stream.SendFrame | udpstream.c:90-99 | the header and payload datagrams are appended to the stream's outbox and nothing else changes |
| UdpStream.Stream.MissedSeqs | udpstream.c:103-121 | the scan loops compute exactly the missing list |
| UdpStream.Stream.Carries | udpstream.c:112-116 | the inner loop finds a received packet with the number iff one exists |
| UdpStream.Stream.RequestResend | udpstream.c:101-124 | the outbox grows by the resend request for the missing list, and by nothing when it is empty |
| UdpStream.Stream.RemoveAcked | udpstream.c:154-164 | the removal loop leaves the sent list without the acked number and nothing else changes |
| UdpStream.Stream.ParseFrames | udpstream.c:137-191 | the frame loop leaves the stream in the drained state of its old state |
| UdpStream.Stream.FindNext | udpstream.c:213-215 | the loop finds the first packet carrying inseq |
| UdpStream.Stream.Read | udpstream.c:209-237 | the stream state, the count and the bytes are those ReadConn gives; -1 and no change when nothing is ready |
| UdpStream.Stream.Write | udpstream.c:239-251 | the packet is recorded under outseq, a PAYLOAD is sent, outseq advances mod 65536 and the size is returned |
| UdpStream.DropAcked | udpstream.c:155-164 | the loop over the sent list ends with the list without the acked number, in order |
| UdpStream.DropRound | udpstream.c:156-163 | one round removes the packet at the cursor or steps past it, keeps the loop invariant and shortens what is left to scan by one |
| UdpStream.Lookup | udpstream.c:77-88 | stream_find returns the first stream with the address, none iff there is none |
| UdpStream.Registry.constructor | udpstream.c:54-55 | the registry starts empty |
| UdpStream.Registry.NewStream | udpstream.c:57-75 | a fresh stream in the fresh state, holding the address given, is appended to the registry; faithful for addresses of at most 16 bytes (see Left out) |
| UdpStream.Registry.Find | udpstream.c:77-88 | stream_find: the first stream with the address, or null iff none |
| UdpStream.Registry.ReadSocket | udpstream.c:126-192 | the datagram goes to the stream for its address, a new stream is appended for an unknown one, and every frame is handled; other streams keep their state |
| UdpStream.Registry.Poll | udpstream.c:194-207 | the first stream, in registry order, whose next in-order packet is present; null iff there is none |
| PeerProto.CmdPackets | peer.c:354-358 | the four parts peer_sendcmd writes: the length byte (mod 256), the name, the 4-byte data length, the data |
| PeerProto.WriteAll | peer.c:354-358 | the four writes change only the outbound side of the stream |
| PeerProto.RxStep | peer.c:307-338 | one ready poll: only the data stage delivers, with the data length read and at most that many bytes, and returns to the initial state; the outbound side and the datagram buffer of the stream are untouched |
| PeerProto.RunIo | peer.c:230-234 | the pull and push calls of a handshake attempt, run as udpstream_read and udpstream_write, leave the unparsed datagram buffer alone |
| PeerProto.ReadKeeps | udpstream.c:209-237 | a read of any size never adds to the received list; one that removes nothing leaves readiness as it was |
| PeerProto.RunIoKeeps | peer.c:230-234 | the calls of an attempt never add to the received list |
| PeerProto.RunIoShrinks | peer.c:298 | an attempt that pulls at least one byte from a ready stream takes something off its received list |
| PeerProto.PushOnlyStalls | peer.c:298-304 | an attempt that only pushes leaves the received list and inseq as they were, so the stream stays ready |
| PeerProto.Discard | udpstream.c:209-237 | a udpstream_read of the whole next in-order packet changes only the received side of the stream |
| PeerProto.DiscardSpec | udpstream.c:209-237 | that read removes exactly the next in-order packet and moves inseq on by one (mod 65536); on a stream that is not ready it changes nothing |
| PeerProto.RunIoReady | peer.c:230-234 | calls of an attempt that leave the received list as large as it was leave readiness as it was |
| PeerProto.AttemptIntendedShrinks | peer.c:298-304 | the corrected attempt (AttemptIntended: drop the polled packet when the attempt pulled nothing) takes something off every ready stream, whatever its calls, and is the attempt as written when it pulls |
| PeerProto.RxStepStages | peer.c:307-338 | each ready poll advances the receive machine by at most one stage; the name stage always advances; only the last stage dispatches, and it returns to the initial state |
| PeerProto.RxStepProgress | peer.c:307-338 | each step consumes part of the received data, or it is a dispatch of an empty payload |
| PeerProto.ReadShrinks | peer.c:309-324 | a read of at least one byte consumes received data |
| PeerProto.PollLength | peer.c:307-310 | the first stage reads the one-byte name length |
| PeerProto.PollName | peer.c:311-316 | the second stage reads that many name bytes |
| PeerProto.PollDataLength | peer.c:317-319 | the third stage reads the 4-byte data length |
| PeerProto.PollData | peer.c:320-337 | the last stage reads the data, delivers the name and data and resets the machine |
| PeerProto.RxRunFour | peer.c:307-338 | four polls that deliver once are one full run of the machine |
| PeerProto.CommandRoundTrip | peer.c:307-358 | the four packets of peer_sendcmd, for a name of 1 to 255 non-NUL bytes, drive the receiver to deliver that name and that data, back in the initial state |
| PeerProto.WriteAllSends | peer.c:354-358 | the four writes send exactly one header datagram and one payload datagram per part, numbered on from outseq |
| PeerProto.PayloadFrames | udpstream.c:239-251 | the PAYLOAD frames of those datagrams each fit the 32-bit size field |
| PeerProto.ConcatDatagrams | udpstream.c:239-251 | the datagrams laid end to end are the encoded frames |
| PeerProto.DatagramsFit | udpstream.c:126-131 | for parts of at most 1024 bytes every datagram fits the receive buffer |
| PeerProto.OnPayloadFrames | udpstream.c:179-190 | handling those frames appends one received packet per part, in order and numbered on from q, and keeps inseq and the buffer |
| PeerProto.QueuedPackets | udpstream.c:209-237 | packets appended in order of their numbers behind a list holding none of those numbers are queued for udpstream_read in that order |
| PeerProto.QueuedPacket | udpstream.c:209-237 | the k-th appended packet is the one udpstream_read finds for the number k places after inseq |
| PeerProto.WireQueued | udpstream.c:126-192 | the sender's writes, delivered in order to a receiver whose inseq is the sender's outseq, leave exactly those parts queued next in order |
| PeerProto.CommandOverWire | peer.c:342-358 | peer_sendcmd end to end: the four writes, received and polled four times, deliver the same name, data and length and leave the receive machine initial |
| PeerProto.ReadQueued | peer.c:309-324 | a read returns the first queued packet whole and leaves the rest queued |
| PeerProto.Matching | peer.c:326-333 | the handlers called are exactly the registered entries with the received name, in registration order |
| PeerProto.MatchingFromSpec | peer.c:326-333 | the scan from i finds exactly the matching entries from i on, in increasing order |
| PeerProto.MatchingRegister | peer.c:42-48 | registering appends at the end: an unknown name matches none, and the new entry is the last match for its name |
| PeerProto.MatchingFromSnoc | peer.c:42-48 | an appended entry adds itself, last, to the matches of its own name only |
| PeerProto.EncodeItem | peer.c:66-73 | one sendpeers entry is 4 bytes plus the address |
| PeerProto.EncodePeers | peer.c:56-74 | the encoded list is as long as the length loop of sendpeers computes |
| PeerProto.EncodePeersSnoc | peer.c:63-74 | encoding one more peer appends its entry |
| PeerProto.ItemFields | peer.c:66-73 | an encoded entry reads back as address length, address, peer count |
| PeerProto.ParsePeers | peer.c:91-105 | with the truncation check corrected to a 2-byte peer count, every accepted entry fits a sockaddr |
| PeerProto.ParsePeersTake | peer.c:93-103 | corrected bound: a complete entry whose address fits is accepted, then parsing goes on after it |
| PeerProto.ParsePeersSkip | peer.c:95-104 | corrected bound: a complete entry whose address is too long is consumed and skipped |
| PeerProto.ParsePeersShort | peer.c:91-94 | corrected bound: a truncated entry stops the parse |
| PeerProto.ParsePeersAsWritten | peer.c:91-105 | the parse of getpeers as written, which demands 4 bytes after the address: every accepted entry fits a sockaddr |
| PeerProto.AsWrittenTake | peer.c:93-103 | as written, an entry with 4 bytes after its fitting address is accepted with the 2-byte count read, and parsing goes on 2 bytes after the address |
| PeerProto.AsWrittenShort | peer.c:91-94 | as written, fewer than 2+addrlen+4 bytes stop the parse |
| PeerProto.AsWrittenSkip | peer.c:95-104 | as written, a complete entry with an address too long is skipped |
| PeerProto.ParseEncodePeers | peer.c:50-105 | the list sendpeers encodes parses back to the same entries (corrected bound) |
| PeerProto.AsWrittenDropsLast | peer.c:94 | with the bound as written, the last entry of every encoded list is lost |
| PeerProto.AsWrittenLosesSingleEntry | peer.c:94 | a one-entry list parses to nothing as written and to itself when corrected |
| PeerProto.Lowest | peer.c:111-116 | the selected index is in range |
| PeerProto.LowestSpec | peer.c:111-116 | the selected entry has the lowest peer count, the earliest on ties |
| PeerProto.RemoveKeeps | peer.c:118-119 | the memmove removal keeps only entries of the list |
| PeerProto.ConnectsSpec | peer.c:108-120 | the entries Connects picks come from the list, in increasing peer count, none already held, no address twice, none once 20 peers are held, never beyond 20 |
| PeerProto.ConnectsFrom | peer.c:108-120 | every entry connected to is in the list and not held before |
| PeerProto.ConnectsSorted | peer.c:108-120 | connections go in non-decreasing peer count |
| PeerProto.ConnectsDistinct | peer.c:108-120 | no address is connected to twice |
| PeerProto.ConnectsBound | peer.c:108-120 | the loop stops at 20 peers |
| PeerProto.ConnectsAll | peer.c:108-120 | with room for all, every new distinct address is connected to |
| PeerProto.ConnectsStep | peer.c:108-119 | one round takes the lowest entry, connects unless it is held, and removes it |
| PeerProto.PlanGrows | peer.c:108-120 | the peers held after the selection (Plan) are the held ones followed only by addresses not held before; nothing is added once 20 are held, and the total is never pushed past 20 |
| PeerProto.Take | peer.c:253-263 | peer_new_unique as an address list: a held address adds nothing, a new one is appended cut to a sockaddr, and the old list is kept as a prefix |
| PeerProto.PlanNext | peer.c:108-119 | a round of the loop keeps the planned outcome |
| PeerProto.PlanDone | peer.c:108 | the loop ends with nothing more added when the list is empty or 20 peers are held |
| PeerProto.ItemAddrs | peer.c:117 | the addresses of the entries, in order |
| PeerProto.Uniques | peer.c:253-263 | the addresses bootstrap adds, each cut to a sockaddr |
| PeerProto.UniquesSpec | peer.c:253-283 | bootstrap adds exactly the listed addresses not held before, each once |
| PeerProto.UniquesNew | peer.c:257-260 | an added address was not held and is in the list |
| PeerProto.UniquesDistinct | peer.c:257-260 | no address is added twice |
| PeerProto.UniquesCover | peer.c:257-262 | every listed address ends up held |
| PeerProto.Resolved | peer.c:281-283 | getaddrinfo applied to each entry, in order |
| PeerProto.JoinedNext | peer.c:283 | one peer_new_unique keeps the outcome of the rest |
| PeerProto.JoinedStep | peer.c:279-283 | a bogus entry adds nothing; a good one is resolved and taken |
| PeerProto.IndexOf | peer.c:271 | strchr: the first position of the character, none iff absent |
| PeerProto.CutAtCR | peer.c:278 | the entry is cut before its first carriage return |
| PeerProto.Entry | peer.c:278-280 | a parsed entry's host has no colon and `host:port` is a prefix of the line |
| PeerProto.SplitAtColon | peer.c:279-280 | host and port split at the first colon; none iff there is no colon |
| PeerProto.EntryPlain | peer.c:270-280 | a parsed entry's host has no colon, CR or LF and its port no CR or LF |
| PeerProto.BootstrapPlain | peer.c:265-286 | every entry of a parsed list is plain |
| PeerProto.BootstrapList | peer.c:265-286 | a parsed list has no more entries than the text has characters |
| PeerProto.BootstrapTrailingRefused | peer.c:270-276 | a list whose last newline is followed by nothing, or only by spaces and CRs, makes the skip loop reach the terminating NUL: refused |
| PeerProto.BootstrapOpenLast | peer.c:271-279 | a last line without a newline runs to the NUL and ends the walk even when it ends in a space or CR; a line without ':' adds no entry |
| PeerProto.RenderParses | peer.c:265-286 | a list of plain host:port lines joined by newlines parses back to those entries |
| PeerProto.RenderLine | peer.c:271-280 | one such line parses to its entry |
| PeerProto.FirstLine | peer.c:270-276 | a list is its first line's entry followed by the rest |
| PeerProto.NextLineAt | peer.c:271-276 | the entry ends at the first newline and the rest starts after it |
| PeerProto.LastLine | peer.c:271-272 | with no newline, the entry runs to the end of the list |
| Peers.Peer.Addr | peer.c:217-218 | peer->addr is the stream's address cut to the 128 bytes of a sockaddr_storage; it equals that address only for addresses the stream's 16-byte field holds (see Left out) |
| Peers.Peer.constructor | peer.c:210-216 | a new peer has peer count 0 and the receive machine in its initial state |
| Peers.Tls.Call | peer.c:234 | each gnutls_handshake call does what the next script entry says, and the call count advances by one |
| Peers.Transport | peer.c:230-233 | the pull and push functions peer_new installs run an attempt's calls on the stream as RunIo says |
| Peers.DispatchedSpec | peer.c:326-333 | the handler calls are, in order, one per matching entry, with that entry's callback, the peer, the data and the datalength |
| Peers.DispatchedNext | peer.c:327-333 | one round of the handler loop calls the entry iff its name matches |
| Peers.Addrs | peer.c:257-259 | the addresses of the peers, in order |
| Peers.Owner | peer.c:243-249 | the first peer owning the stream, none iff none does |
| Peers.SharedItem | peer.c:58-73 | a peer whose handshake is incomplete is not shared |
| Peers.Shared | peer.c:56-74 | every shared address fits a sockaddr |
| Peers.SharedStep | peer.c:63-74 | one round of the fill loop adds that peer's entry |
| Peers.SendCmdTo | peer.c:354-358 | the stream gets the four writes of the command |
| Peers.Node.constructor | peer.c:37-40 | no peers, streams, commands or calls |
| Peers.Node.RegisterCmd | peer.c:42-48 | (name, callback) is appended to the commands and nothing else changes |
| Peers.Node.Init | peer.c:125-130 | getpeers and peers are registered, in that order |
| Peers.Node.PeerNew | peer.c:208-241 | a fresh peer with the initial state and the handshake outcome is appended |
| Peers.Node.PeerGet | peer.c:243-251 | the peer owning the stream, or a new server peer appended |
| Peers.Node.PeerNewUnique | peer.c:253-263 | a known address gives null and no change; otherwise a new stream and client peer are appended; faithful for addresses of at most 16 bytes (see Left out) |
| Peers.Node.Bootstrap | peer.c:265-286 | the peers held afterwards are the old ones followed by every new resolved address of the list, each once; faithful when every resolved address is at most 16 bytes (see Left out) |
| Peers.Node.SendCmd | peer.c:342-358 | a peer gets the four writes; with null, every handshake-complete peer gets them and every other peer's stream is unchanged |
| Peers.Node.SendPeers | peer.c:50-76 | the peers command carries the encoding of every handshake-complete peer in registry order |
| Peers.Node.SizePeers | peer.c:52-60 | the length loop sums 4+addrlen over those peers |
| Peers.Node.BuildPeers | peer.c:61-74 | the fill loop produces the encoded list |
| Peers.ParsePeerList | peer.c:91-105 | the parse loop of getpeers, as written, yields ParsePeersAsWritten |
| Peers.LowestIndex | peer.c:111-116 | the loop finds the lowest entry |
| Peers.Node.GetPeers | peer.c:84-123 | the sender's peer count becomes the number of entries the as-written parse accepts, and the peers held follow the selection plan for them |
| Peers.Node.ConnectLowest | peer.c:108-120 | the selection loop adds the planned peers and only fresh ones |
| Peers.Node.ConnectRound | peer.c:111-119 | one round shrinks the candidates and keeps the plan |
| Peers.Node.Handshake | peer.c:295-305 | the attempt's pulls and pushes are run on the stream and its outcome recorded; on success the four writes of getpeers follow |
| Peers.Node.HandshakeIntended | peer.c:295-305 | as Handshake, but the stream ends as AttemptIntended leaves it: the polled packet is dropped when the attempt pulled nothing |
| Peers.Drop | udpstream.c:209-237 | a udpstream_read of the whole next packet leaves the stream as Discard states |
| Peers.Node.Dispatch | peer.c:320-338 | the data is read, every matching handler is called in order with it, and the machine resets |
| Peers.Node.DispatchStep | peer.c:320-338 | a dispatch poll resets the machine and consumes no more than the data |
| Peers.Node.InvokeAll | peer.c:326-333 | the handler loop logs exactly the matching calls |
| Peers.Node.InvokeAt | peer.c:327-333 | one round logs a call iff that entry matches |
| Peers.Node.Invoke | peer.c:331 | sendpeers and getpeers have their effects; an application handler is only logged |
| Peers.ReceiveStage | peer.c:307-319 | a non-final stage is one step of the receive machine |
| Peers.Node.Step | peer.c:294-338 | one poll of handlesocket, with the handshake branch as written or (flag intended) as corrected, consumes received data or a pending dispatch |
| Peers.Node.StepHandshake | peer.c:295-305 | a handshake poll, whose attempt pulls a byte, consumes received data |
| Peers.Node.StepHandshakeIntended | peer.c:295-305 | a corrected handshake poll consumes received data whatever the attempt does |
| Peers.Node.StepReceive | peer.c:307-319 | a receive poll consumes data |
| Peers.Node.StepDispatch | peer.c:320-338 | a dispatch poll clears a pending dispatch |
| Peers.Node.PeerFor | peer.c:294 | peer_get for the polled stream |
| Peers.Node.Advance | peer.c:292-339 | one round of the poll loop, as written or (flag intended) with the corrected handshake branch, with the next polled peer |
| Peers.Node.Receive | peer.c:290-294 | readsocket followed by the first poll |
| Peers.Node.FirstPeer | peer.c:292-294 | the first poll and its peer |
| Peers.Node.HandleSocket | peer.c:288-340 | when every handshake attempt pulls a byte, the poll loop ends with no stream ready and only adds to the call log |
| Peers.Node.HandleSocketIntended | peer.c:288-340 | with the corrected handshake branch the poll loop ends, with no stream ready, whatever the handshake attempts do |
| Peers.NextLine | peer.c:271-276 | one newline-delimited entry is split off the list |
| Peers.SkipDelims | peer.c:270 | leading CR, LF and spaces are skipped |
| Updates.Kind | update.h:20-28 | the type byte of a body |
| Updates.CirclesBytes | update.c:49-50 | the uint32_t circle array in memory, 4 bytes per circle |
| Updates.DecodeCircles | update.c:185-188 | one circle per 4 bytes of the array |
| Updates.DecodeCirclesOf | update.c:185-188 | circles written 4 bytes each read back as the same list |
| Updates.CirclesAsWritten | update.c:50 | as written, only the first circlecount bytes of the array are written |
| Updates.CirclesRead | update.c:185-188 | the circles parse fills from circlecount bytes: circlecount entries whose first circlecount bytes are the bytes read, so they write out as those bytes again |
| Updates.Reread | update.c:185-188 | the privacy parse stores for a written one: same flags and count, circles writing out as the same bytes, and unchanged when there are no circles |
| Updates.RereadTwice | update.c:185-188 | parsing a relayed record again stores the same privacy |
| Updates.RereadSigned | social.c:95-97 | the record parse stores writes, and signs, as the bytes it came from, so relaying it keeps the signature valid |
| Updates.CirclesAsWrittenCollide | update.c:50 | as written, circle lists [256] and [0] are written as the same single byte |
| Updates.CirclesAsWrittenShort | update.c:50 | as written, a non-empty list loses bytes |
| Updates.ReadBin | update.c:159-163 | readbin fails iff fewer bytes remain than asked, and otherwise splits them |
| Updates.ReadNum | update.c:159-163 | a numeric readbin gives a value of that width and advances by it |
| Updates.ReadBinOf | update.c:159-163 | reading back what was written returns it and the rest |
| Updates.ReadNumOf | update.c:159-163 | reading back a written integer returns it and the rest |
| Updates.SplitSig | update.c:171-173 | the signature size and signature are split off |
| Updates.DecodeHeader | update.c:179-191 | the header fields are read, the circle array with circlecount as its byte count; the signature is the one given and the rest is shorter |
| Updates.DecodeField | update.c:205-218 | a decoded FIELD body lies within the bytes: the name is the namelen bytes after the length, with room for valuelen and value |
| Updates.DecodePost | update.c:227-234 | a decoded POST message is the msglen bytes after its length |
| Updates.DecodeFriends | update.c:242-249 | a FRIENDS body decodes iff 25 bytes remain; add and id are bytes 4 and 5-24 |
| Updates.AsText | update.c:211-213 | a NUL-free string is kept as it is |
| Updates.Recovered | update.c:205-259 | a recovered record carries the header's signature, seq, timestamp, privacy and type |
| Updates.SplitSigned | social.c:95-96 | the signed form (Signed) splits back into the signature and the written record |
| Updates.EncodeHeader | update.c:42-52 | the header social_update_write emits (Encode) decodes to the same seq, type, timestamp and flags, the privacy Reread makes of its circles, and the body bytes |
| Updates.DecodeFieldOf | update.c:205-218 | a written field body reads back as its name and value |
| Updates.DecodePostOf | update.c:227-234 | a written post body reads back as its message |
| Updates.DecodeFriendsOf | update.c:242-249 | a written friends body reads back as circle, add and id |
| Updates.RecoveredBody | update.c:205-257 | the written body of a field, post or friends record is recovered whole |
| Updates.RecoverSigned | update.c:164-268 | parsing sizes, signature and written record recovers a FIELD, POST or FRIENDS record with its privacy reread, exactly when it has no circles |
| Updates.MediaCircleDropped | update.c:239-259 | MEDIA and CIRCLE records are never stored |
| Updates.ShortSignatureRefused | update.c:171-173 | data cut inside the signature is refused |
| Updates.WriteTo | update.c:42-78 | social_update_write appends exactly the record's encoding |
| Updates.WriteHead | update.c:45-48 | seq, type, timestamp and flags are appended |
| Updates.WriteCircles | update.c:49-52 | circlecount, the first circlecount bytes of the circle array and the zero placeholder are appended |
| Updates.WriteBody | update.c:53-77 | the type-specific body is appended |
| Updates.WriteFriends | update.c:68-72 | circle, add and the 20-byte id are appended |
| Updates.WriteStrTo | buffer.h:31-36 | a length-prefixed string is appended |
| Updates.WriteSigned | social.c:95-97 | sigsize, signature and the written record are appended |
| Updates.EncodeLayout | update.c:42-78 | the three writing stages together append the record's encoding |
| Social.Next | social.c:250 | ++seq on a uint64 wraps at 2^64 |
| Social.Max | update.c:200 | the larger of the two sequence numbers |
| Social.FieldIndex | update.c:129-133 | the first FIELD record with the name, none iff there is none |
| Social.FriendIndex | update.c:145-150 | the first FRIENDS record for the circle and id, none iff there is none |
| Social.Store | update.c:202-260 | what parse does to the records: at most one slot changes, to the recovered record, or one is appended |
| Social.StoreAt | update.c:220-224 | a newer stored record refuses the update; otherwise it takes the slot |
| Social.FieldSlot | update.c:220-224 | the FIELD case as getfield leaves the slot |
| Social.FriendSlot | update.c:254-256 | the FRIENDS case as getfriend leaves the slot |
| Social.StoreRefused | update.c:205-260 | nothing is stored iff the body does not decode or a newer record holds the slot |
| Social.StorePost | update.c:227-237 | a post is always appended |
| Social.StoreOtherKinds | update.c:239-259 | MEDIA, CIRCLE and unknown types store nothing |
| Social.StoreKeepsFieldsUnique | update.c:205-225 | no field name gets a second record |
| Social.StoreKeepsSeqsDistinct | update.c:194-198 | with the duplicate check passed, stored sequence numbers stay distinct |
| Social.StoreKeepsBound | update.c:200 | with seq raised first, no stored record is ahead of the user's seq |
| Social.FieldNewestWins | update.c:220-224 | a field keeps the record with the larger sequence number |
| Social.Newer | social.c:113-119 | the selection is no longer than the records |
| Social.NewerExactly | social.c:113-119 | a record is sent iff it is stored and its seq exceeds the request's |
| Social.User.constructor | social.c:157-168 | a new user has no key, circles, seq or records |
| Social.User.NewUpdate | update.c:80-88 | a zero record with the body is appended and its index returned |
| Social.User.Holds | update.c:194-198 | the loop finds a stored record with the seq iff one exists |
| Social.User.GetField | update.c:126-140 | the field's index, or a new seq-0 field appended |
| Social.User.GetFriend | update.c:142-157 | the friend entry's index, or a new seq-0 entry appended |
| Social.User.NewerThan | social.c:113-119 | the loop selects the newer records |
| Social.Lookup | social.c:290-298 | the first user with the id, none iff there is none |
| Social.Widen | social.c:209-218 | the circles grow to circle+1 with empty new ones; the old are kept |
| Social.JoinedMeans | social.c:207-225 | the circles after social_user_addtocircle (Joined): the friend is last in the circle, the count is max(old, circle+1), and every other circle is kept |
| Social.Connected | social.c:308-314 | the peers of a circle's online members |
| Social.ConnectedExactly | social.c:308-314 | a peer is sent to iff some member of the circle has it |
| Social.AudienceExactly | social.c:300-317 | a peer is in the Audience of a record iff some member of some circle has it |
| Social.Screen | update.c:171-191 | a header is produced only with a key, a split signature and a passing check, and its circles are read as circlecount bytes |
| Social.ScreenPayload | social.c:35-43 | an update payload starts with the id, and its rest passes the parser's checks to the header DecodeHeader reads from the written record |
| Social.PayloadSplits | social.c:90-97 | the updateinfo payload (Payload) is the id followed by a signed form that splits into the record's signature and written record |
| Social.Replies | social.c:113-119 | one message per record |
| Social.RepliesAt | social.c:113-119 | the k-th message goes to the requester, is updateinfo and carries the payload of the k-th record |
| Social.Registry.constructor | social.c:176-189 | social_self is the only user, with its key and nothing else |
| Social.Registry.FindUser | social.c:290-298 | the first user with the id, or null iff none |
| Social.Registry.UserNew | social.c:157-174 | a fresh user with its peer is appended |
| Social.Registry.FindOrNew | social.c:219-220 | the user with the id, created if missing |
| Social.Registry.AddToCircle | social.c:207-225 | the friend, created if unknown, is appended to the grown circle and the other circles are kept |
| Social.Registry.StoreField | update.c:205-225 | the FIELD case stores as Store says |
| Social.Registry.StorePost | update.c:227-238 | the POST case stores as Store says |
| Social.Registry.StoreFriends | update.c:242-257 | the FRIENDS case stores as Store says, after adding the friend to the circle when add is set |
| Social.Registry.Parse | update.c:164-270 | refused on a short read, no key, a bad signature or a duplicate seq, with nothing changed; otherwise seq is raised to the maximum and the records change as Store says, with the circles read as circlecount bytes |
| Social.Registry.UpdateInfo | social.c:35-43 | short data, an unknown id or a keyless user is ignored; otherwise the rest is parsed for that user |
| Social.Registry.SendUpdate | social.c:90-100 | one updateinfo message carrying id, sigsize, signature and the written record, circles as written |
| Social.Registry.SendUpdates | social.c:102-120 | short data or an unknown id sends nothing; otherwise one message per newer record, in stored order |
| Social.Registry.SendAll | social.c:112-119 | one message per record, in order |
| Social.Registry.ShareUpdate | social.c:300-317 | one message per circle membership with a peer, circle by circle |
| Social.Registry.ShareCircle | social.c:306-315 | one message per member of the circle with a peer |
| Social.Registry.Publish | social.c:265-273 | a new record with seq incremented and the body is appended, signed and shared |
| Social.Registry.Authored | social.c:265-271 | the authored record carries the next seq, the time, no privacy and its own signature |
| Social.Registry.CreatePost | social.c:262-274 | a post with the next seq is appended and shared |
| Social.Registry.UpdateField | social.c:276-288 | a field with the next seq is appended and shared |
| Social.Registry.AddFriend | social.c:227-260 | the friend is found or created, greeted when online, added to the circle, and a FRIENDS record with the next seq is appended and shared |
| Social.Registry.Introduce | social.c:229-246 | the friend is found or created; an online friend gets a key if it had none and a getupdates request |
| Social.Registry.Greeting | social.c:240-245 | an online friend gets one getupdates message of 28 bytes, its id and then the 8-byte seq known for it; an offline friend gets none |
| Social.LookupFirst | social.c:293-296 | the match the loop stops at is the result |
| Social.LookupAppend | social.c:169-171 | a user appended with a new id is found at the end |
| Social.DeliveriesConcat | social.c:304-316 | the messages to two audiences are those to each, in order |
| Social.ConnectedSnoc | social.c:308-314 | one more member adds its peer at the end, if any |

## Left out

- Socket I/O: `sendto` is an append to the stream's outbox and `recvfrom` a given datagram and source address; the `recvfrom` error return is not modelled.
- `getaddrinfo` is a resolver function; its failure (a null result used at peer.c:283) is not modelled.
- GnuTLS: what each handshake attempt does is a script given to `Peers.Tls`; `checkcert`, `generatecert`, key loading and generation, and the encryption of the stream are not modelled. Commands go straight over the stream writes.
- PeerProto.RunIo and Peers.Node.Handshake: the calls GnuTLS makes through the pull and push functions are taken from the script rather than from the TLS state machine, so which bytes a handshake reads and writes is an input of the model.
- Peers.Node.PeerNew: the first handshake's pushes and pulls (peer.c:230-234) are not run on the stream; only its outcome is recorded. For a server peer made by peer_get the packets that attempt would read stay in the received list and are read by the next attempt in peer_handlesocket instead; the attempt's pushes are not added to the outbox.
- Peers.Node.HandleSocket, Peers.Node.Step and Peers.Node.Advance: the loop as written (Step and Advance with intended false) requires `Tls.Reading`, that every handshake attempt pulls at least one byte; without it the loop need not end (see Findings). Peers.Node.HandleSocketIntended, with the corrected handshake branch, needs no such condition.
- PeerProto.RxStep, Peers.ReceiveStage and Peers.Node.Dispatch: a read shorter than asked keeps only the bytes read as the name or the data; the C code reads into a `cmdlength`-byte or `datalength`-byte buffer (peer.c:313-315, peer.c:322-331) whose unread tail is uninitialised, and strdup or the handlers see that tail. The data-length stage keeps the old bytes of the int32 as the C code does.
- Updates.CirclesRead and Updates.DecodeHeader: the bytes of the parse's `uint32_t` circle array past the circlecount read (update.c:185-188) are uninitialised stack memory; the model takes them as zero.
- Buffers.Buffer.Write: the uint32 arithmetic of `memsize-size` and `size+datasize+128` (buffer.h:24-26) is taken as unbounded; its wrap-around, which needs a buffer near 2^32 bytes, is not modelled.
- Signing and verification are function parameters (`sign`, `verify`); the public key a peer's certificate carries is `certKey`.
- File persistence (`user_save`, `user_load`, `social_update_save`, `mkdirp`): disk I/O. `user_new` only appends to the registry.
- `peer_findpeer`, `peer_findbyid`, `social_findfriends`, `greetpeer`: flood search and the greeting handler are outside this core; `peer_findbyid` is the `findPeer` parameter.
- The social handlers are not registered with `Peers.Node`; their messages are logged in `Registry.sent` rather than sent through `Peers.SendCmdTo`.
- Privacy flags and circles on records are carried but never enforced, as in the source.
- Stack exhaustion from the variable-length arrays (`uint16_t missed[count]`, `char data[len]`, `uint32_t privcircles[circlecount]`) is not modelled.
- Social.Registry.AddToCircle: requires nothing of circle; the 32-bit wrap of `circle+1` at social.c:211 for circle 0xFFFFFFFF is not modelled (the circles grow to circle+1 as an unbounded integer).
- Updates.WriteStrTo: strings of 2^32 bytes or more, whose `strlen` does not fit the uint32 length, are outside Text.
- Peers.Node.SizePeers: the sum is unbounded; the wrap of the 32-bit `len` of sendpeers at peer.c:59, which needs more than 2^32 bytes of shared addresses, is not modelled.
- Social.User.GetField and Social.User.GetFriend: the C code leaves the new record's type, value and add fields unset; the model gives them the field or friends body with empty value and add 0, which parse overwrites in every path that keeps them.
- Social.User.NewUpdate: social_update_new leaves the new record's signature, seq, type and timestamp unset; the model sets them to empty and zero, and every caller overwrites them. It sets circlecount to 0 (update.c:84-86), so every record the user authors has no circles and comes back from parse exactly (Updates.RecoverSigned); only records carrying circles have them reread.
- Peers.Node.Bootstrap: requires `BootstrapList(list).Some?`. That excludes only two kinds of list: an empty list, and a list whose text after its last newline is empty or only CR, LF and spaces. On those the skip loop of peer.c:270 reaches the terminating NUL, which `strchr` matches, and reads past the string. Every other list is accepted, including one without any entry (`"foo"`) and one whose last line ends in CR or a space without a newline (`"a:1 "`, `"a:1\r"`), where that line runs to the NUL and the walk stops.
- Peers.Node.HandleSocket: states only that the loop ends with every stream drained and that the call log only grows; the calls made are stated per step by Step, Dispatch and InvokeAll.
- UdpStream.Stream.RemoveAcked and UdpFrames.ReadConn: remove the packet as the corrected memmove does (see Findings); the bytes the C code reads and writes past the end of the array are not modelled.
- Peers.Node.Step: states the consumption that makes the loop terminate, not the full new state; that is stated by StepHandshake, StepReceive, Dispatch and Handshake.
- `printf` and `fprintf` logging.
- Integers are little-endian; native byte order is fixed to that.
- `udpstream_getaddr` is modelled as the function AddrUpTo that `peer_new` uses for `peer->addr`: the stored address cut to the caller's room.
- UdpStream.Registry.NewStream, Peers.Peer.Addr, Peers.Node.PeerNewUnique and Peers.Node.Bootstrap: addresses longer than 16 bytes are not modelled. The stream keeps its address in a 16-byte `struct sockaddr` (udpstream.c:41), and `udpstream_new` copies `addrlen` bytes into it (udpstream.c:61). A longer address, such as the 28-byte IPv6 address `getaddrinfo` can return to `peer_bootstrap` (peer.c:282-283), runs into `addrlen`, `inseq` and `outseq`, and lines 62-64 then overwrite its tail. The model keeps the whole address in the stream instead. So for such an address the model's `peer->addr` is the address itself, where in C it is its first 16 bytes followed by those field values. The duplicate check of peer.c:259 then fails in C, so the same address can be added again, against the "each once" of Bootstrap.

## Findings

| source | as written | input that shows it | evidently intended | confidence | as-written member | corrected member |
|---|---|---|---|---|---|---|
| peer.c:94 | the truncation check uses `sizeof(pcount)`, and `pcount` is the 4-byte entry counter, while each entry ends in a 2-byte peer count | a `peers` list of one entry, address [1,2,3,4], peer count 7, is 8 bytes and fails the check for 10 | `sizeof(uint16_t)`, as the copy at peer.c:101 and the advance at peer.c:103 use; the peer layer (Peers.ParsePeerList, Peers.Node.GetPeers) keeps the check as written | not executed | PeerProto.AsWrittenLosesSingleEntry | PeerProto.ParseEncodePeers |
| update.c:50 | `buffer_write(..., update->privacy.circles, update->privacy.circlecount)` writes circlecount bytes of a `uint32_t` array, and update.c:188 reads back as many bytes | circle lists [256] and [0] are both written as the single byte 0 | `circlecount*sizeof(uint32_t)` bytes, as privcpy copies at social.h:33-34; the writer and parser (Updates.Encode, Updates.DecodeHeader) keep the layout as written, which is harmless for the records social_update_new starts without circles | not executed | Updates.CirclesAsWrittenCollide | Updates.DecodeCirclesOf |
| udpstream.c:161 | after `--sentpacketcount`, the ACK removal moves `sentpacketcount` packets from `i+1`, i more than lie after position i; the arrays grow by exactly one entry per append, so this runs past the end whenever i > 0; udpstream.c:228 does the same for the received list | the ACK for the second of two sent packets: position 1, count 1 after the decrement, reads element 2 of a 2-element array | move `sentpacketcount-i` packets | not executed | UdpFrames.RemoveSecondOfTwo | UdpFrames.RemoveIntendedLive |
| peer.c:298-299 | a failed handshake attempt is retried on the next poll of the same stream, and gnutls_handshake fatal errors are not handled (the TODO) | a handshake attempt on a ready stream that returns an error after pushing only (for instance an alert) leaves the packet unread, the stream stays ready and `udpstream_poll` returns it forever | make progress on the polled stream even when the attempt pulls nothing; the corrected half drops the packet the attempt was polled for (AttemptIntended) | not executed; depends on GnuTLS returning without a pull | PeerProto.PushOnlyStalls | Peers.Node.HandleSocketIntended |
