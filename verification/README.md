# SplendidLinker: the tunnel, its messages and its framing, in Dafny

SplendidLinker carries IP packets between an iOS client and a server. Every message is a
`TunnelMessage` in the Protocol Buffers wire format, sent as a four-byte length and a payload over
one byte stream. This project models that path from the varint to the packets the server's tunnel
interface receives, and proves what it promises.

Each object the program updates in place is a class (`Stream`, `Output`, `Objects`, `Endpoints`, and
`SLServer` in `Gate`), and each of its methods is proved against a function on values (`Message`,
`Framing`, `Device`, `Tunnel`). The laws are lemmas about those functions.

| file | contents |
|---|---|
| `Wire.dfy` | bytes, varints, length-delimited records, tags, skipping of fields and groups |
| `Utf8.dfy` | validity of strings by the grammar of section 4 of RFC 3629 |
| `Message.dfy` | the message as a value: merging, serializing, parsing |
| `Codec.dfy` | round trip, concatenation is merge, merge algebra |
| `Fields.dfy` | field boundaries, unknown fields, field order |
| `Canonical.dfy` | what the parser can produce, and the size of re-encoding it |
| `Format.dfy` | the wire format in numbers: varints, tags, lengths, wire types, groups |
| `Schema.dfy` | which bytes carry which field, parsed and serialized |
| `Stream.dfy`, `Output.dfy`, `Objects.dfy` | input stream, writers, and the message objects with cached sizes |
| `Framing.dfy` | frames, the two readers, two concurrent writers |
| `Device.dfy` | the tunnel interface, its device, and the writing loop |
| `Tunnel.dfy` | server, client, every run of the two, the uplink, the handshake, the relay's message |
| `Downlink.dfy` | what the client receives in a run |
| `Journey.dfy` | runs from a fresh start to a packet on the device, and to packets at the client |
| `Endpoints.dfy` | buffers, the interface, the server's connection and the client as objects |
| `Gate.dfy` | the listener's connection count |

## How the source is read

- The protobuf runtime is not part of the repository. Its primitives follow the Protocol Buffers
  encoding specification ("Base 128 Varints", "Message Structure", "Length-Delimited Records",
  "Last One Wins"): a varint has at most ten bytes and is taken modulo 2^64, a tag or an enum modulo
  2^32; a length that exceeds INT_MAX or the bytes left fails; field number zero and wire types 6
  and 7 cannot be skipped. A tag that cannot be read counts as zero and ends the loop without a
  legitimate end of message.
- The generated code makes room before it reads (`add_dns()`, `mutable_packet()`), so a failed read
  leaves an empty entry or packet; a string that is not UTF-8 is stored before it is refused. Both
  ends ignore the result of `ParseFromArray`, so the model keeps the message a failed parse leaves.
- The byte-order swap is commented out in the source; the four-byte length is little-endian.
- The server takes one frame per callback, so the claims speak of frames delivered and frames pending.
- In the runs of `Tunnel`, chunks can be any size, callbacks can come at any time, the interface can
  fail to open, and the device takes a packet in any number of short writes. Each of these and each
  append to a buffer is a step of its own. The relay thread is at work as soon as there is an
  interface, before the reply is written and between its two appends, and appends whatever its buffer
  holds, which the code never fills. Nothing is assumed about the credentials, UTF-8 or not.
- One append is atomic, although the source makes the buffer event of a server connection, to which two
  threads append, without its thread-safe option (SLServer.cpp:34).
- A client that hung up sends nothing more. The source goes on to write to the buffer event it freed
  (PacketTunnelProvider.mm:166-184).
- The size of a message passes through an int in the source. A parse of more than INT_MAX bytes fails
  in the model, and the messages of a run have sizes that fit.
- The connection counter has no initializer in the source; it is taken to start at zero.

## What is false of the code, and what holds instead

- A message survives serializing and parsing exactly when its strings are valid UTF-8 and its size
  fits an int (`Canonical.RoundTripExactly`); serializing does not refuse others.
- The client's reader drains before it looks. It is the frame decoder exactly on the runs in which
  each of its callbacks finds a whole frame, and delivers more payloads than a decoder would on all others
  (`Framing.ClientReaderRefines`). A callback in the middle of a frame delivers zeros for what is
  missing and reads the rest as a header (`Framing.EarlyCallback`).
- Two threads write frames in two appends. Without cuts the stream is a shuffle of both
  (`Framing.ExclusiveWritersShuffle`), which the client reads as long as its callbacks find whole
  frames (`Framing.ExclusiveWritersDecode`). For two frames and any schedule the stream is the two in
  some order exactly when nothing is cut or the cut does not show (`Framing.TwoWriters`), and only then
  does the client read the two (`Framing.TwoWritersDecode`); after the schedule of
  `Framing.TornFramesLose` the client's first payload is neither frame, whenever its callbacks come.
- The relay sends a buffer it never filled. Were it filled, the packet would arrive
  (`Tunnel.RelayedArrives`), and all packets would, in order (`Downlink.DownlinkInOrder`). As it is,
  if the buffer holds zeros, the client hangs up (`Tunnel.UnfilledRelayCloses`).
- The reply is not the first thing a client reads: the relay's thread is started before it is written,
  and a packet can come first (`Downlink.PacketFirst`). The client's first callback reads the reply
  exactly if none did (`Downlink.DownlinkInOrder`).
- The loop that writes to the interface adds an error's -1 to its offset. It leaves the packet on the
  device exactly if there was no error; each error adds a byte, and none from outside the packet
  exactly if there were never more errors than bytes taken (`Device.WrittenOnce`).

## Model

| member | source | states |
|---|---|---|
| Canonical.RoundTripExactly | SplendidTunnel/SplendidTunnel/TunnelMessage.pb.cc:663-861 | parsing a message's serialization gives that message back, all bytes consumed, if and only if its strings are valid UTF-8 and the serialization's size fits an int; any enum values, any presence of the packet |
| Codec.RoundTrip | SplendidTunnel/SplendidTunnel/TunnelMessage.pb.cc:962-1066 | the direction a sender relies on: a message whose fields can be carried is merged back from its serialization up to the end of input, and parsed back if its size fits an int |
| Codec.ParseEncoded | SplendidTunnel/SplendidTunnel/TunnelMessage.pb.cc:663-861 | parsing a serialized message into another one, with anything after it, is merging it and parsing on |
| Codec.ConcatenationMerges | SplendidTunnel/SplendidTunnel/TunnelMessage.pb.cc:1168-1211 | merging from the concatenation of two serializations gives MergeFrom of the two, appended dns and merged packet included; so does parsing it when its size fits an int |
| Codec.MergeAssociative | SplendidTunnel/SplendidTunnel/TunnelMessage.pb.cc:1168-1211 | merging is associative |
| Codec.MergeIdentity | SplendidTunnel/SplendidTunnel/TunnelMessage.pb.cc:647-661 | a cleared message is the identity of merging on both sides |
| Codec.ParseDns | SplendidTunnel/SplendidTunnel/TunnelMessage.pb.cc:753-768 | serialized name servers are appended in order |
| Codec.ParsePacketField | SplendidTunnel/SplendidTunnel/TunnelMessage.pb.cc:830-840 | the serialized nested packet is merged into the one there, present but empty included |
| Fields.ParseAppend | SplendidTunnel/SplendidTunnel/TunnelMessage.pb.cc:668-853 | parsing x then y from a field boundary is parsing x ++ y, failures and what they leave included |
| Fields.ParsePacketAppend | SplendidTunnel/SplendidTunnel/TunnelMessage.pb.cc:330-358 | the same for the nested parse loop |
| Fields.CompleteIsBoundary | SplendidTunnel/SplendidTunnel/TunnelMessage.pb.cc:668-853 | an input accepted to its end is a sequence of complete fields |
| Fields.OneField | SplendidTunnel/SplendidTunnel/TunnelMessage.pb.cc:668-687 | a single field is an input of exactly one complete field, and every input that starts with one starts with such bytes |
| Fields.UnknownFieldTransparent | SplendidTunnel/SplendidTunnel/TunnelMessage.pb.cc:842-851 | a field whose tag has no case, other numbers and other wire types alike, can be inserted at any boundary without any effect |
| Fields.HandledFieldShows | SplendidTunnel/SplendidTunnel/TunnelMessage.pb.cc:672-840 | every field with a case has an effect on some message |
| Fields.UnknownPacketFieldTransparent | SplendidTunnel/SplendidTunnel/TunnelMessage.pb.cc:331-357 | the same inside the packet, under the longer length prefix |
| Fields.SwapFields | SplendidTunnel/SplendidTunnel/TunnelMessage.pb.cc:668-853 | in an accepted input two adjacent fields of different numbers can be swapped |
| Fields.ReorderFields | SplendidTunnel/SplendidTunnel/TunnelMessage.pb.cc:668-853 | any reordering of an accepted input that keeps the order within each field number parses the same |
| Canonical.ReencodingIsCanonical | SplendidTunnel/SplendidTunnel/TunnelMessage.pb.cc:663-1066 | what any accepted input parses to can be carried and re-encodes to at most 20 bytes more than the input; these parse back to it if and only if their number fits an int |
| Canonical.TwentyBytesReached | SplendidTunnel/SplendidTunnel/TunnelMessage.pb.cc:929-951 | an input for which they are exactly 20 bytes longer |
| Canonical.ParsedPacketFits | SplendidTunnel/SplendidTunnel/TunnelMessage.pb.cc:831-838 | even after a failed parse the packet left in the message fits an int |
| Canonical.EncodeSize | SplendidTunnel/SplendidTunnel/TunnelMessage.pb.cc:1068-1151 | the number of bytes serialized is the sum the sizer computes |
| Wire.TokenOwnBytes | SplendidTunnel/SplendidTunnel/TunnelMessage.pb.cc:325-366 | a field, nested groups included, is decided by the bytes it consumes: none past its end is read |
| Wire.TokenExtend | SplendidTunnel/SplendidTunnel/TunnelMessage.pb.cc:669-687 | a complete field is read the same whatever follows |
| Wire.Varint64RoundTrip | SplendidTunnel/SplendidTunnel/TunnelMessage.pb.cc:772-778 | a 64-bit varint is read back and leaves what follows |
| Wire.Varint64Minimal | SplendidTunnel/SplendidTunnel/TunnelMessage.pb.cc:1122-1144 | no varint that reads as a value is shorter than the size counted for the value |
| Wire.DelimitedRoundTrip | SplendidTunnel/SplendidTunnel/TunnelMessage.pb.cc:677-678 | length-delimited bytes are read back and leave what follows |
| Format.VarintMeaning | SplendidTunnel/SplendidTunnel/TunnelMessage.pb.cc:772-778 | a varint is the sum of seven bits a byte, least significant first, up to the first byte below 128, which is one of the first ten, modulo 2^64 |
| Format.TagMeaning | SplendidTunnel/SplendidTunnel/TunnelMessage.pb.cc:669-671 | a tag is a varint modulo 2^32, and zero is none |
| Format.LengthMeaning | SplendidTunnel/SplendidTunnel/TunnelMessage.pb.cc:834-835 | a length is accepted if and only if it is at most 2^31 - 1 and its bytes are there |
| Format.WireTypes | SplendidTunnel/SplendidTunnel/TunnelMessage.pb.cc:842-851 | a value is by wire type a varint, eight bytes, a length and its bytes, or four bytes; types 4, 6, 7 and field number zero are refused |
| Format.GroupMeaning | SplendidTunnel/SplendidTunnel/TunnelMessage.pb.cc:842-851 | a group is skipped from its start tag through any complete fields to the end tag of its own number; any other end tag, or none, refuses it |
| Schema.StringsOnWire | SplendidTunnel/SplendidTunnel/TunnelMessage.pb.cc:672-768 | tags 10, 18, 34, 42, 50 and 58 set username, password, ip, submask and gateway and append a name server, and refuse what is not UTF-8 after storing it |
| Schema.EnumsOnWire | SplendidTunnel/SplendidTunnel/TunnelMessage.pb.cc:770-828 | tags 64, 72, 80 and 88 set type, code and the two encryption types to the signed 32-bit number with the varint's low bits |
| Schema.PacketOnWire | SplendidTunnel/SplendidTunnel/TunnelMessage.pb.cc:830-840 | tag 106 parses into the packet there or an empty one; unless its bytes end properly the message fails, with what was read |
| Schema.DataOnWire | SplendidTunnel/SplendidTunnel/TunnelMessage.pb.cc:331-357 | tag 98 in a packet replaces its data, and no other field of a packet is stored |
| Schema.ParseEnds | SplendidTunnel/SplendidTunnel/TunnelMessage.pb.cc:668-671 | at the end of input a parse is complete; a tag of zero or an end tag stops it; a field that cannot be read fails it, leaving an empty name server or a packet behind for tags 58 and 106 and nothing else changed |
| Schema.ParseStarts | SplendidTunnel/SplendidTunnel/SLConnection.cpp:66-67 | a parse starts from all defaults and refuses more bytes than an int can count |
| Schema.SerializedParts | SplendidTunnel/SplendidTunnel/TunnelMessage.pb.cc:863-960 | a message that fits is serialized as exactly these fields in the order of their numbers: tags 10, 18, 34, 42, 50, 58 for each name server, 64, 72, 80, 88 with enums as 64-bit numbers, 106 with the packet's 98; defaults are left out |
| Codec.EnumRoundTrip | SplendidTunnel/SplendidTunnel/TunnelMessage.pb.cc:929-933 | an enum sign-extended to 64 bits and cut to 32 is itself, negative and unknown values included |
| Utf8.ValidIffEncoded | SplendidTunnel/SplendidTunnel/TunnelMessage.pb.cc:679-682 | the validity grammar accepts exactly the encodings of sequences of scalar values |
| Utf8.ScalarMeaning | SplendidTunnel/SplendidTunnel/TunnelMessage.pb.cc:679-682 | a scalar value is a number below 0x110000 that is no surrogate, and its one to four bytes hold its bits |
| Stream.CodedInputStream.ReadVarint64 | SplendidTunnel/SplendidTunnel/TunnelMessage.pb.cc:775-777 | the shifting loop reads a varint within the limit |
| Stream.CodedInputStream.ReadTag | SplendidTunnel/SplendidTunnel/TunnelMessage.pb.cc:669-671 | reads a tag, zero if none; only at the limit is the end legitimate |
| Stream.CodedInputStream.ReadBytes | SplendidTunnel/SplendidTunnel/TunnelMessage.pb.cc:339-340 | reads length-delimited bytes within the limit or fails |
| Stream.CodedInputStream.SkipField | SplendidTunnel/SplendidTunnel/TunnelMessage.pb.cc:850 | skips a field by wire type within the limit, terminates on every input |
| Stream.CodedInputStream.SkipGroup | SplendidTunnel/SplendidTunnel/TunnelMessage.pb.cc:354 | skips fields up to the matching end-group tag |
| Stream.CodedInputStream.PushLimit | SplendidTunnel/SplendidTunnel/TunnelMessage.pb.cc:834-835 | only the declared bytes remain readable |
| Stream.CodedInputStream.PopLimit | SplendidTunnel/SplendidTunnel/TunnelMessage.pb.cc:834-835 | the bytes after the nested message become readable again |
| Objects.TunnelPacket.constructor | SplendidTunnel/SplendidTunnel/TunnelMessage.pb.cc:263-286 | a new packet is empty |
| Objects.TunnelPacket.Copy | SplendidTunnel/SplendidTunnel/TunnelMessage.pb.cc:271-281 | a copied packet has the source's data and no cached size |
| Objects.TunnelPacket.MergeFrom | SplendidTunnel/SplendidTunnel/TunnelMessage.pb.cc:433-444 | data that is not empty replaces |
| Objects.TunnelPacket.MergePartialFromCodedStream | SplendidTunnel/SplendidTunnel/TunnelMessage.pb.cc:325-366 | the nested loop computes the nested parse, within the limit, on every input |
| Objects.TunnelPacket.ByteSizeLong | SplendidTunnel/SplendidTunnel/TunnelMessage.pb.cc:400-416 | returns and caches the true size |
| Objects.TunnelPacket.SerializeWithCachedSizes | SplendidTunnel/SplendidTunnel/TunnelMessage.pb.cc:368-381 | appends the packet's encoding |
| Objects.TunnelPacket.SerializeWithCachedSizesToArray | SplendidTunnel/SplendidTunnel/TunnelMessage.pb.cc:383-398 | writes the packet's encoding in place and nothing else |
| Objects.TunnelMessage.constructor | SplendidTunnel/SplendidTunnel/TunnelMessage.pb.cc:552-559 | a new message is empty |
| Objects.TunnelMessage.Copy | SplendidTunnel/SplendidTunnel/TunnelMessage.pb.cc:560-595 | a copy equals its source and has a packet of its own |
| Objects.TunnelMessage.Clear | SplendidTunnel/SplendidTunnel/TunnelMessage.pb.cc:647-661 | all fields at their defaults, the cached size kept |
| Objects.TunnelMessage.MutablePacket | SplendidTunnel/SplendidTunnel/TunnelMessage.pb.cc:1661-1668 | makes the packet present, empty if it was not there |
| Objects.TunnelMessage.MergeFrom | SplendidTunnel/SplendidTunnel/TunnelMessage.pb.cc:1168-1211 | computes the merge, leaves the source as it was and never shares its packet |
| Objects.TunnelMessage.CopyFrom | SplendidTunnel/SplendidTunnel/TunnelMessage.pb.cc:1220-1225 | clear then merge gives the message the copy constructor gives, the source copied onto itself included, without sharing the packet |
| Objects.TunnelMessage.ReadStringField | SplendidTunnel/SplendidTunnel/TunnelMessage.pb.cc:673-768 | stores a string, then refuses it if it is not UTF-8 |
| Objects.TunnelMessage.ReadEnumField | SplendidTunnel/SplendidTunnel/TunnelMessage.pb.cc:770-828 | stores an enum cut to 32 bits |
| Objects.TunnelMessage.ReadPacketField | SplendidTunnel/SplendidTunnel/TunnelMessage.pb.cc:830-840 | the nested parse runs under its declared length, the outer limit is restored, and a nested message that stops early fails |
| Objects.TunnelMessage.ReadField | SplendidTunnel/SplendidTunnel/TunnelMessage.pb.cc:672-851 | the cases of the loop store one field or skip it |
| Objects.TunnelMessage.MergePartialFromCodedStream | SplendidTunnel/SplendidTunnel/TunnelMessage.pb.cc:663-861 | the loop computes the parse on every byte string: its result, the message left, whether the end was legitimate, and no byte left when it was; it terminates because each turn exits or consumes |
| Objects.TunnelMessage.ParseFromArray | SplendidTunnel/SplendidTunnel/SLConnection.cpp:66-67 | clears, parses and accepts only a whole message |
| Objects.TunnelMessage.ByteSizeLong | SplendidTunnel/SplendidTunnel/TunnelMessage.pb.cc:1068-1151 | returns the number of bytes of the encoding, caches it, and caches the packet's |
| Objects.TunnelMessage.SerializeWithCachedSizes | SplendidTunnel/SplendidTunnel/TunnelMessage.pb.cc:863-960 | appends the encoding with the nested length found cached |
| Objects.TunnelMessage.SerializeWithCachedSizesToArray | SplendidTunnel/SplendidTunnel/TunnelMessage.pb.cc:962-1066 | writes those same bytes in place, no byte beyond them |
| Objects.TunnelMessage.Serialize | SplendidTunnel/SplendidTunnel/SLConnection.cpp:83-85 | an array of the computed size is exactly filled with the encoding |
| Objects.StaleCacheShows | SplendidTunnel/SplendidTunnel/TunnelMessage.pb.cc:1057-1062 | the bytes written are the encoding if and only if the cached nested size is the true one |
| Objects.CachedSizeExact | SplendidTunnel/SplendidTunnel/TunnelMessage.pb.cc:411-415 | a size kept in an int is written back unchanged if and only if it fits 32 bits |
| Framing.HeaderRoundTrip | SplendidTunnel/SplendidTunnel/SLConnection.cpp:185-187 | the four length bytes are read back |
| Framing.LittleEndian | SplendidTunnel/SplendidTunnel/SLConnection.cpp:46-49 | the length is the four bytes with the least significant first, written and read |
| Framing.FrameCutToLength | SplendidTunnel/SplendidTunnel/SLConnection.cpp:185-189 | a payload of any size is written as its length modulo 2^32 and that many of its bytes |
| Framing.FrameReads | SplendidTunnel/SplendidTunnel/SLConnection.cpp:46-65 | a written frame is found whole and taken, what follows is left |
| Framing.FirstFrame | SplendidTunnel/SplendidTunnel/SLConnection.cpp:46-65 | the frame taken from what has arrived of a framed stream is the first one sent |
| Framing.PeekRunConserves | SplendidTunnel/SplendidTunnel/SLConnection.cpp:46-65 | frames delivered ++ bytes kept are the bytes received, for every interleaving of arrivals and callbacks |
| Framing.ChunkingIndependent | SplendidTunnel/SplendidTunnel/SLConnection.cpp:46-65 | however the stream is cut, the frames delivered are a prefix of those sent and the bytes kept start the next ones; at rest with everything arrived, all are delivered and nothing is kept |
| Framing.ClientReaderRefines | SplendidTunnel/SplendidTunnel/SLClient.cpp:80-88 | a run of the client's reader equals the run of the peeking reader if and only if every callback finds a whole frame, and delivers more payloads if and only if one does not |
| Framing.EarlyCallback | SplendidTunnel/SplendidTunnel/SLClient.cpp:83-88 | for every frame and every place in it where the callback comes early: what the client delivers, what it keeps, and that the payload is the one sent if and only if all that was missing is zeros |
| Framing.EarlyContents | SplendidTunnel/SplendidTunnel/SLClient.cpp:83-88 | byte by byte, what that callback delivers: before the length is there, as many zeros as its bytes so far say; after, the payload with zeros for the rest |
| Framing.ExclusiveWritersShuffle | SplendidTunnel/SplendidTunnel/SLConnection.cpp:99-116 | two writers that do not cut into each other's frames produce frames that keep each writer's order and lose none |
| Framing.WholeTurnsExclusive | SplendidTunnel/SplendidTunnel/SLConnection.cpp:185-189 | writers that take turns by whole frames, in any order, never cut into each other's frames |
| Framing.IdleTurnsExclusive | SplendidTunnel/SplendidTunnel/SLConnection.cpp:185-189 | turns of a writer with nothing to write change neither that nor the stream |
| Framing.ExclusiveWritersDecode | SplendidTunnel/SplendidTunnel/SLConnection.cpp:99-116 | while each of its callbacks finds a whole frame, the client, whatever the chunks, reads that shuffle in its order, and at rest between frames has read all of it |
| Framing.TwoWriters | SplendidTunnel/SplendidTunnel/SLConnection.cpp:185-189 | for any two frames and every schedule that writes both: the stream is the two frames in some order if and only if neither is cut, or what lands in the cut payload commutes with it, or a whole frame lands in it and, the lengths being equal, the header commutes with that frame's payload |
| Framing.TwoWritersDecode | SplendidTunnel/SplendidTunnel/SLClient.cpp:80-88 | the same of the client: once it has read all of that stream in whole frames, it has delivered the two frames in some order if and only if that holds |
| Framing.TornFramesLose | SplendidTunnel/SplendidTunnel/SLConnection.cpp:185-189 | after a schedule of two frames cut into each other, for all chunks and callbacks the first payload the client delivers is neither of them |
| Tunnel.EstablishBeforeData | SplendidTunnel/SplendidTunnel/SLConnection.cpp:75-134 | in every run data is never handled without an interface and never waits first in the input of a server without one, a sending client has one behind it, and the packets given to it are a prefix of those sent |
| Tunnel.MessagesInFull | SplendidTunnel/SplendidTunnel/SLConnection.cpp:77-108 | every field of the hello, the data request, the reply and the relay's message, the addresses in bytes |
| Tunnel.ServerReacts | SplendidTunnel/SplendidTunnel/SLConnection.cpp:46-139 | for every connection state, field by field: without a whole frame nothing happens; it fails if and only if type 0, code 3 comes without an interface; type 0, code 1 makes the interface and the two appends of the reply, unless the interface cannot be made; data is given to the interface; all else changes nothing |
| Tunnel.ClientReacts | SplendidTunnel/SplendidTunnel/SLClient.cpp:80-125 | for every client state, field by field: it hangs up if and only if the type is not 1, takes over addresses and starts to send if and only if the code is 1, receives if and only if it is 3, and no other code changes anything |
| Tunnel.StepInv | PacketTunnel/PacketTunnelProvider.mm:166-207 | every step keeps the inductive invariant behind it |
| Tunnel.ServerReadsInv | SplendidTunnel/SplendidTunnel/SLConnection.cpp:41-139 | a server callback keeps it: the frame it takes is the next one sent, and data finds the interface |
| Tunnel.ClientReadsInv | SplendidTunnel/SplendidTunnel/SLClient.cpp:80-125 | a client callback keeps it, on partial frames too: with nothing received the client never starts to send |
| Tunnel.HelloParses | SplendidTunnel/SplendidTunnel/SLClient.cpp:47-66 | the hello reads as username, password, type 0, code 1 and nothing else when its credentials are UTF-8, and otherwise as type 0, code 0 |
| Tunnel.InterfaceStays | SplendidTunnel/SplendidTunnel/SLConnection.cpp:98 | no step of a run clears the interface, takes back a packet given to it or a byte its device took, or begins a second reply |
| Tunnel.UplinkInOrder | SplendidTunnel/SplendidTunnel/SLUTNInterface.cpp:133-141 | in every run, between the short writes of a packet too, the bytes the device has taken are a prefix of the bytes of the packets sent |
| Tunnel.UplinkDelivered | SplendidTunnel/SplendidTunnel/SLConnection.cpp:120-123 | in every run: once there is an interface and the bytes sent have arrived, any further steps without a new packet, with a callback for each pending frame and the last one over, have given the device every packet sent, in order and byte for byte, however short its writes |
| Tunnel.UplinkCanFinish | SplendidTunnel/SplendidTunnel/SLConnection.cpp:120-123 | from every such state a run gets there: the two never get stuck |
| Tunnel.OwnWritesSettle | SplendidTunnel/SplendidTunnel/SLUTNInterface.cpp:133-141 | a callback's own writes, one step each and the device's however short, come to the same as the callback run at once |
| Tunnel.UpComposes | SplendidTunnel/SplendidTunnel/SLConnection.cpp:46-65 | the bytes on their way up can be cut anywhere: two chunks are one |
| Tunnel.DownComposes | SplendidTunnel/SplendidTunnel/SLClient.cpp:80-88 | the same for the bytes on their way down |
| Tunnel.WritesCompose | SplendidTunnel/SplendidTunnel/SLUTNInterface.cpp:137-139 | a device write can be cut anywhere: two short writes are one |
| Tunnel.RelaysCompose | SplendidTunnel/SplendidTunnel/SLConnection.cpp:100-113 | the relay can append at any time once there is an interface, and two appends are one |
| Device.WrittenOnce | SplendidTunnel/SplendidTunnel/SLUTNInterface.cpp:133-141 | for every memory around the packet and all answers of the device with which the loop ends: the device has the packet if and only if no answer was an error, each error adds one byte, and all bytes are the packet's if and only if at no time errors exceeded bytes taken |
| Tunnel.HandshakeAgrees | SplendidTunnel/SplendidTunnel/SLClient.cpp:100-109 | after one exchange through codec and framing the client has ip and gateway 10.1.21.2 and submask 255.255.255.0, in bytes, and its dns is its old list, the request's entries and 8.8.8.8 |
| Tunnel.RelayedArrives | SplendidTunnel/SplendidTunnel/SLConnection.cpp:100-113 | the relay's message, if serialized, delivers the packet to the client |
| Tunnel.UnfilledRelayCloses | SplendidTunnel/SplendidTunnel/SLConnection.cpp:110-112 | an array of zeros makes the client hang up |
| Downlink.DownlinkInOrder | SplendidTunnel/SplendidTunnel/SLConnection.cpp:98-116 | in every run whose relay writes whole serialized packets, not between the two appends of the reply, and whose client callbacks find whole frames: the packets received are the first ones relayed; the client sends, with the server's addresses and name server, if and only if it has read more payloads than were relayed before the reply; once all was read it has every packet |
| Downlink.PacketFirst | SplendidTunnel/SplendidTunnel/SLConnection.cpp:98-116 | for all credentials in UTF-8 and every packet there is such a run in which the client reads the packet and has no reply |
| Journey.PacketArrives | SplendidTunnel/SplendidTunnel/SLConnection.cpp:120-123 | for all credentials in UTF-8 and every packet there is a run from a fresh start at whose end the client has its addresses and the device exactly the packet |
| Journey.AnyDownlink | SplendidTunnel/SplendidTunnel/SLConnection.cpp:98-116 | for every list of packets and every place in it there is such a run with the reply at that place, at whose end the client is sending and has all packets in order |
| Downlink.ServerReadsDown | SplendidTunnel/SplendidTunnel/SLConnection.cpp:75-116 | a server callback keeps the invariant behind it: a hello in UTF-8 makes the interface and one reply due, and nothing else does |
| Downlink.ReadsNext | SplendidTunnel/SplendidTunnel/SLClient.cpp:83-116 | the client's callback reads the next message written, packet or reply, however the output was carried |
| Endpoints.BufferEvent.CopyOut | libevent/include/event2/buffer.h:331-342 | copies as much as there is and leaves the buffer unchanged |
| Endpoints.BufferEvent.Read | libevent/include/event2/bufferevent.h:353-363 | copies as much as there is and drains it |
| Endpoints.BufferEvent.WriteFrame | SplendidTunnel/SplendidTunnel/SLClient.cpp:154-159 | two appends put one frame on the output |
| Endpoints.Utun.WritePacket | SplendidTunnel/SplendidTunnel/SLUTNInterface.cpp:133-141 | the loop ends as the device's answers make it end, short writes and errors alike: which bytes were sent, and how many errors; a device without errors takes exactly the packet, once, after what it took before |
| Endpoints.SLConnection.constructor | SplendidTunnel/SplendidTunnel/SLConnection.cpp:145-153 | a new connection has no interface |
| Endpoints.SLConnection.TakeFrame | SplendidTunnel/SplendidTunnel/SLConnection.cpp:46-65 | takes the first frame if it is whole, otherwise leaves the buffer untouched |
| Endpoints.SLConnection.AnswerEstablish | SplendidTunnel/SplendidTunnel/SLConnection.cpp:75-117 | turns the request into the framed reply once the interface is there; if it cannot be made, sends nothing |
| Endpoints.SLConnection.HandleMessage | SplendidTunnel/SplendidTunnel/SLConnection.cpp:70-138 | the dispatch by type and code computes the server's, with the writes that follow it |
| Endpoints.SLConnection.OnReadable | SplendidTunnel/SplendidTunnel/SLConnection.cpp:41-139 | the callback computes the server step of the system with its own writes run to the end |
| Endpoints.SLClient.DrainFrame | SplendidTunnel/SplendidTunnel/SLClient.cpp:83-88 | drains a length and a payload into zeroed buffers, whole or not |
| Endpoints.SLClient.OnConnected | SplendidTunnel/SplendidTunnel/SLClient.cpp:47-68 | puts the framed hello on the output: username, password, type 0, code 1, the rest default |
| Endpoints.SLClient.HandlePackets | PacketTunnel/PacketTunnelProvider.mm:166-179 | puts one framed data request per packet on the output, in order |
| Endpoints.SLClient.OnReadable | SplendidTunnel/SplendidTunnel/SLClient.cpp:80-125 | the callback computes the client step of the system |
| Endpoints.SLClient.PushDns | SplendidTunnel/SplendidTunnel/SLClient.cpp:105-107 | appends the message's name servers in order |
| Gate.GateHolds | SplendidTunnel/SplendidTunnel/SLServer.cpp:25-52 | for every interleaving of load, increment and decrement with k accept callbacks at once, the counter and the number of live tasks are the increments made less the decrements, within 0 and 1000 + k: 1001 with the one listening thread; no callback counts without a test of its own |
| Gate.TestAdmits | SplendidTunnel/SplendidTunnel/SLServer.cpp:28-32 | in every run a test admits its callback if and only if increments less decrements are at most 1000, and changes no count |
| Gate.GateReopens | SplendidTunnel/SplendidTunnel/SLServer.cpp:46-48 | from every state of a run the callbacks can give up and the tasks end, and the counter is back at zero |
| Gate.BoundReached | SplendidTunnel/SplendidTunnel/SLServer.cpp:28-42 | a run that reaches 1000 + k |
| Gate.SLServer.LoadAndTest | SplendidTunnel/SplendidTunnel/SLServer.cpp:28-32 | the load and test of the runs above: admits exactly when the count is at most 1000 |
| Gate.SLServer.StartTask | SplendidTunnel/SplendidTunnel/SLServer.cpp:42-43 | the increment of the runs above: the count is one more and at most 1001 |
| Gate.SLServer.FinishTask | SplendidTunnel/SplendidTunnel/SLServer.cpp:46-48 | the decrement of the runs above: the count is one less and between 0 and 1000 |

## Left out

- The runtime's limit on the depth of nested groups and messages is not modelled; depth is unbounded.
- Payloads of 2 GiB and more: the length handed to the parser becomes a negative int in the source; the model refuses them.
- Objects.TunnelMessage.ReadStringField: what the field holds after its own bytes could not be read is left as it was, because the runtime that reads them is not part of the repository.
- Endpoints.SLConnection.HandleMessage: takes an interface whose device reports no error; so do the runs of `Tunnel`. What errors do to a packet is `Device.WrittenOnce`.
- The read event of the interface fires once per interface in the source; the runs allow the relay any number of times.
- Object deletion, event loops, threads' lifetimes, `event_base` and socket handling, kernel set-up of the interface, DNS resolution.
- `Swap`, reflection, descriptors, arenas, metadata and default-instance set-up of the generated code; single-field accessors.
- `pushPacket` and `popPacket`, which nothing uses, and `SLServer::writePacketToIp`, a copy of the framing.
- Error callbacks of the client, which change no state that the model follows, and the network settings applied on the device.
