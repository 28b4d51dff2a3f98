# Verified model of the SED Manager's host-to-device stack

SED Manager drives self-encrypting drives through the remote procedure calls of the TCG Storage Architecture Core
Specification (version 2.01: tokens in section 3.2.2.3, ComPackets, Packets and Subpackets in section 3.2.3, session
methods in section 5.2.3, Base template methods in section 5.3.3). This project models that stack in Dafny as one
connected piece, from bytes to tables, and proves what it keeps.

| layer | files |
|---|---|
| bytes and integers | `FlatBinary`, `Archives` |
| values, tokens, token bytes | `Values`, `Tokens`, `TokenStreams`, `WireSizes` |
| every byte of a message, sent or received | `WireLayout` (a reference encoder), `Reception` (any bytes) |
| SubPacket, Packet, ComPacket | `ComPackets`, `Archives` |
| method calls, parameters, message pipeline | `Methods`, `Rpc` |
| receive loop and back-off | `Exchange` |
| the mock device | `State`, `SessionMethods`, `MockDevice` (as a state machine), `Handler` (as objects updated in place), `DeviceRequests` (any request) |
| the host | `HostSession`, `HostSessions`, `Template`, `EncryptedDevice`, `HostReplies` (any reply) |
| host and device together | `RemoteCalls`, `RemoteTable`, `HostTables`, `Credentials`, `HostCredentials`, `HostKeys`, `RemoteRuns`, `HostRequests` |
| typed text, names, modules | `UidText`, `Spelling`, `TwoWay`, `TypedJson`, `JsonMeaning`, `JsonErrors`, `ExactJson`, `Names`, `ModuleCollection` |

Exceptions are the error tags of `Common.Result`. An archive is its remaining bytes. Code that updates objects or runs
loops is a class or a method, proved equal to a function; what is promised is proved about that function. Hash-map
iteration is an arbitrary fixed sequence without repetition (`State.Table.rows`); `std::ranges::sort` is any function
that returns a sorted permutation.

Parameters of the model, because they come from outside: the random characters of GenKey, the property list of a
Properties reply, the answers of an arbitrary storage device, the sorting functions, the names of UIDs.

Where an obvious statement is false of the code, the code was kept; a lemma gives an input that shows it, and another
the exact condition:

- `load(SubPacket)` never reads the padding that `save` writes, so framing is not a round trip
  (`ComPackets.TwoBytesApart`); it is one exactly for the frames of `ComPackets.PacketsLoadable`
  (`ComPackets.ComPacketRoundTripIff`).
- Unsigned tiny atoms lose bit 5 and long atoms bit 2 of their header when printed again (`TokenStreams.LossyHeaders`);
  bytes come out unchanged exactly without such headers (`TokenStreams.ReprintStream`).
- A frame that reports two or more bytes outstanding neither waits nor makes progress, so an exchange may not end
  (`Exchange.StuckDeviceNeverStops`, `Exchange.NeverStopsIff`).
- An integer is printed in full and read back as the integers of its JSON type (`ExactJson.IntegersThatChange`): the
  number comes back exactly if it lies in their range, and the value exactly if it is of their kind
  (`ExactJson.IntegerComesBackIff`).
- `Activate` in a session on another provider than the Admin SP sets the life cycle to 9 and then fails
  (`Credentials.ActivateElsewhere`, `Credentials.ActivateReports`). No provider that comes with the mock device leads to
  it: only the Admin SP has a table of providers.
- The host's `Get` compares a column's place with the number of columns using `>`, so a column just past the end would
  be written out of bounds (`HostSession.PastTheEnd`); the model raises `OutOfRange` there, and does so exactly if the
  first column of a reply that does not fit is that one (`HostSession.WrittenPastIff`). No reply of the mock device
  leads to it.

## Model

| member | source | states |
|---|---|---|
| `Template.Execute` | src/lib/TrustedPeripheral/Session.cpp:63-239 | main theorem, of the program: any run of hosts that start and end sessions and call Get, Set, Next, Authenticate, GenKey, Activate and Revert in any of them, each call through its own receive loop on a storage device that is the mock device, returns the answers of a plain server with a map of cells and a table of sessions, leaves the device with exactly what that server holds, and has told the device exactly these operations: its messages decode to them one by one, to the last argument |
| `RemoteRuns.RunRefinesPlainServer` | src/lib/TrustedPeripheral/Session.cpp:63-239 | the same refinement over all runs, where every message may meet different random characters: one step of the wire is one step of the plain server, unknown sessions, refused starts and failing calls included, and the device is always ready for the next |
| `RemoteRuns.EveryDeviceHasItsServer` | src/lib/MockDevice/State.cpp:16-50 | every device without a ComID extension whose objects are filed and whose pending frame, if any, is its own has its plain server, so that the theorem applies to it |
| `Template.NewBench` | src/lib/MockDevice/MockDevice.cpp:262-343 | the storage device of the theorem can be made: it sends to and receives from the mock device, each message in an environment of its own |
| `RemoteRuns.ClosedProviderIsUntouched` | src/lib/MockDevice/MockDevice.cpp:384-408 | over any run in which no session is or becomes open on a provider, none of its cells changes, except that an Activate elsewhere may write the Locking SP's Admin1 PIN |
| `RemoteCalls.RemoteCallIsDirect` | src/lib/TrustedPeripheral/MethodUtils.cpp:69-91 | a remote call equals the direct call on the device's tables with arguments and results in wire form, with the exact conditions for its four failures: an argument that cannot be sent, a result that cannot be sent, a frame of 1,048,576 bytes or more, a status that raises |
| `Rpc.CallTransparency` | src/lib/MockDevice/MockDevice.cpp:262-296 | every sendable method call is decoded by the device to the same identifiers, status and session numbers, with its arguments in wire form |
| `TypedJson.RoundTrip` | src/EncryptedDevice/ValueToJSON.cpp:201-505 | for every type tree and every value that prints under it, reading the text back gives the value's normal form, given safe names for the UIDs that the value prints |
| `ExactJson.ComesBackIff` | src/EncryptedDevice/ValueToJSON.cpp:201-505 | under the same names the value itself comes back if and only if it is exact for its type: integers of the kind the type reads, keys and enumeration values of 16 bits, references of eight bytes, type tags of four, mandatory fields first |
| `Exchange.NeverStopsIff` | src/lib/TrustedPeripheral/TrustedPeripheral.cpp:172-221 | against any device whatever, the receive loop runs for ever if and only if from some receive on every receive makes no progress, which `Exchange.SpinsIff` characterises frame by frame |
| `MockDevice.SessionInvariant` | src/lib/MockDevice/MockDevice.cpp:461-542 | over every run of arbitrary bytes with fewer than 2^32 - 5000 starts: one session per provider at most, distinct session numbers in [5000, next), never more sessions than providers, and unchanged tables, objects and column counts |
| `Credentials.AuthenticateAfterRun` | src/lib/MockDevice/MockDevice.cpp:647-664 | after any run over any bytes, and as long as nothing writes the authority's credential cell, a proof is accepted exactly when it is the last PIN that Set, GenKey or Activate has written |
| `ComPackets.ComPacketRoundTripIff` | src/lib/Messaging/ComPacket.hpp:71-145 | whatever bytes follow, a ComPacket is read back from its saved bytes if and only if only all-zero sub-packets and packets follow the first payload whose length is no multiple of four |
| `TokenStreams.ReprintStream` | src/lib/Messaging/TokenStream.cpp:63-196 | re-printing every byte string the token parser accepts gives the same number of bytes, and the same bytes if and only if no header on the way is an unsigned tiny atom with bit 5 set or a long atom with bit 2 set |
| `FlatBinary.ReadAfterWrite` | src/lib/Archive/FlatBinaryArchive.hpp:56-84 | writing any number and reading it back keeps exactly the low-order bytes of the width |
| `FlatBinary.WriteAfterRead` | src/lib/Archive/FlatBinaryArchive.hpp:56-84 | reading any bytes and writing the number back reproduces them |
| `FlatBinary.ToFlatBinary` | src/lib/Archive/FlatBinaryArchive.hpp:56-69 | the array filled backwards under shifting is the big-endian form, most significant byte first |
| `FlatBinary.FromFlatBinary` | src/lib/Archive/FlatBinaryArchive.hpp:72-84 | the loop accumulates the number that the bytes spell |
| `Archives.InputArchive.Extract` | src/lib/Archive/FlatBinaryArchive.hpp:24-31 | takes exactly that many bytes off the stream, or raises with the stream used up |
| `Archives.InputArchive.LoadInteger` | src/lib/Archive/FlatBinaryArchive.hpp:106-111 | an integer is the big-endian value of its bytes, which leave the stream |
| `Archives.OutputArchive.SaveInteger` | src/lib/Archive/FlatBinaryArchive.hpp:99-103 | appends the big-endian bytes and nothing else |
| `Values.PatternRoundTrip` | src/lib/Messaging/Value.hpp:271-311 | the two's complement pattern of every integer but bool gives the integer back |
| `Values.Cast` | src/lib/Messaging/Value.hpp:215-227 | conversion to an integer kind always lands in its range, and is the identity on numbers that are in it |
| `Values.NormalIsStable` | src/lib/Messaging/Value.hpp:271-322 | the wire form (bool as uint8, char as int8, all else unchanged) is its own wire form and changes neither range nor sendability |
| `Tokens.PrintsExactlySendable` | src/lib/Messaging/Value.cpp:203-211 | a value is tokenized if and only if no part is empty and no byte string exceeds 16,777,215 bytes |
| `Tokens.ValueRoundTrip` | src/lib/Messaging/Value.cpp:113-261 | for every sendable value and any tokens behind it, parsing its tokens returns its normal form and exactly those tokens |
| `Tokens.PrefixFree` | src/lib/Messaging/Value.cpp:113-261 | two encodings followed by anything are equal if and only if the normal forms and the followers are: prefix-free, and injective exactly up to the normal form |
| `Tokens.NormalPrintsAlike` | src/lib/Messaging/Value.cpp:203-211 | a value and its normal form have the same tokens |
| `Tokens.ParsedIsCanonical` | src/lib/Messaging/Value.cpp:214-261 | every accepted value is well typed, sendable and in normal form, and at least one token is consumed |
| `Tokens.ParserProgressAndIdempotence` | src/lib/Messaging/Value.cpp:125-261 | on any non-empty tokens whose data fits a long atom DeTokenize either fails or consumes a non-empty prefix, and its value prints and parses to itself even if the tokens differ |
| `Tokens.TokenizeInteger` | src/lib/Messaging/Value.hpp:271-284 | the loop of shifts and the reversal produce the big-endian atom of the kind's width |
| `Tokens.DeTokenizeInteger` | src/lib/Messaging/Value.hpp:287-311 | succeeds exactly for an atom of integer data, the right signedness and at most the kind's width; narrower signed atoms are not sign-extended |
| `Tokens.Tokenize` | src/lib/Messaging/Value.cpp:113-211 | the loops over list items and named parts push exactly the tokens of the grammar |
| `Tokens.DeTokenize` | src/lib/Messaging/Value.cpp:214-261 | the dispatch by leading token computes the grammar parser, errors included |
| `Tokens.DeTokenizeList` | src/lib/Messaging/Value.cpp:125-149 | the loop reads values up to the end-list token, and fails if it is missing |
| `Tokens.DeTokenizeNamed` | src/lib/Messaging/Value.cpp:167-200 | reads name, value and end-name token, and fails at whichever is missing |
| `Reception.FrameReadIff` | src/lib/Messaging/ComPacket.hpp:71-130 | any bytes are read as a frame if and only if they hold it: the numbers of the headers where they belong, and packets and sub-packets, each whole, one behind the other without padding, until the declared lengths are counted off |
| `Reception.ValueReadIff` | src/lib/Messaging/Value.cpp:125-261 | the grammar, for any tokens: a value is read from their front if and only if tokens that stand for it are there, by tags, brackets and atom sizes, and then exactly those are taken; anything else is an invalid argument |
| `Reception.OneByteTokenRead` | src/lib/Messaging/TokenStream.cpp:117-136 | what any header byte below 0x80 or from 0xE8 on is read as, signs of tiny atoms included |
| `Reception.ShortTokenRead` | src/lib/Messaging/TokenStream.cpp:137-145 | what any short atom is read as, bit by bit of its header, and when it fails |
| `Reception.MediumTokenRead` | src/lib/Messaging/TokenStream.cpp:146-157 | the same for medium atoms |
| `Reception.LongTokenRead` | src/lib/Messaging/TokenStream.cpp:158-168 | the same for long atoms, whose bit 2 says nothing |
| `WireLayout.NumberByte` | src/lib/Archive/FlatBinaryArchive.hpp:56-69 | byte i of a big-endian number is its digit in base 256, counted from the most significant one |
| `WireLayout.EncodedAs` | src/lib/Messaging/Value.cpp:113-211 | the bytes of a value, by a reference encoder without tokens: the header of each kind of integer, the three headers of byte strings, the brackets and the commands |
| `WireLayout.CallBytes` | src/lib/Messaging/Method.cpp:9-29 | the bytes of a method call, part by part: command, two UIDs, arguments, end of data, status |
| `WireLayout.ResultBytes` | src/lib/Messaging/Method.cpp:65-72 | the bytes of a method result, part by part |
| `WireLayout.MessageLayout` | src/lib/TrustedPeripheral/MethodUtils.cpp:13-26 | where everything stands in a message: 20 bytes of ComPacket header, 24 of Packet header, 12 of SubPacket header, the payload and zeros up to a multiple of four |
| `WireLayout.ComPacketWords` | src/lib/Messaging/ComPacket.hpp:133-145 | where the numbers of any ComPacket stand in its bytes |
| `WireLayout.PacketWords` | src/lib/Messaging/ComPacket.hpp:148-161 | where the numbers of any Packet stand in its bytes |
| `WireLayout.TinyIntegerReads` | src/lib/Messaging/Value.cpp:214-261 | every tiny atom is read as the number of its six bits, in two's complement if bit 6 is set |
| `WireLayout.NarrowIntegerReads` | src/lib/Messaging/Value.hpp:287-311 | a short atom of one to eight bytes is read at the smallest kind that holds them, zero-extended, also if it is signed |
| `TokenStreams.HeaderClassesAreRanges` | src/lib/Messaging/TokenStream.cpp:27-43 | classifying a header byte by the masks, in the order they are tried, is the same as by disjoint ranges |
| `TokenStreams.TokenRoundTripIff` | src/lib/Messaging/TokenStream.cpp:63-174 | a token is read back from its bytes, whatever follows, if and only if it is well formed: its size fits the tag, tiny data is sign-consistent or below 32, control tokens carry no data |
| `TokenStreams.TokenParsesIff` | src/lib/Messaging/TokenStream.cpp:117-174 | a token is accepted exactly if all the bytes its header announces are there, and exactly those are taken |
| `TokenStreams.StreamRoundTripIff` | src/lib/Messaging/TokenStream.cpp:177-196 | unique decoding: a token sequence is read back from its bytes if and only if all of its tokens are well formed |
| `TokenStreams.ReprintToken` | src/lib/Messaging/TokenStream.cpp:63-174 | for one token: same length, and same bytes exactly when its header is not lossy |
| `TokenStreams.ReprintedStreamParsesAlike` | src/lib/Messaging/TokenStream.cpp:63-196 | re-printed bytes parse to the same tokens if and only if no header is an unsigned tiny atom with bit 5 set; a lossy long atom changes bytes only |
| `TokenStreams.LossyHeaders` | src/lib/Messaging/TokenStream.cpp:63-196 | two byte strings that come out different: 0x25 and an empty long atom with bit 2 set |
| `TokenStreams.ParsedBytesProgress` | src/lib/Messaging/TokenStream.cpp:117-196 | the same on whatever non-empty bytes the token parser accepts |
| `TokenStreams.PrintStreamConcat` | src/lib/Messaging/TokenStream.cpp:177-184 | printing a concatenation is concatenating the prints, or failing where either fails |
| `TokenStreams.Serialize` | src/lib/Messaging/TokenStream.cpp:177-184 | the loop appends the bytes of each token, or raises at the first that has none |
| `TokenStreams.DeSerialize` | src/lib/Messaging/TokenStream.cpp:187-196 | the loop over the shrinking span parses the whole stream or fails |
| `TokenStreams.UnSurroundSurround` | src/lib/Messaging/TokenStream.cpp:8-24 | taking the list brackets off again undoes putting them on |
| `ComPackets.SubPacketsExact` | src/lib/Messaging/ComPacket.hpp:39-46 | the length a Packet declares is the number of bytes that follow its header |
| `ComPackets.PacketsExact` | src/lib/Messaging/ComPacket.hpp:59-65 | the length a ComPacket declares is the number of bytes that follow its header |
| `ComPackets.ComPacketSize` | src/lib/Messaging/ComPacket.hpp:133-145 | the serialised size is exactly 20 plus the payload length |
| `ComPackets.ShiftedSubPacket` | src/lib/Messaging/ComPacket.hpp:116-130 | read one to three bytes early, as happens behind unread padding, a sub-packet comes back as itself if and only if it is all zero |
| `ComPackets.SubPacketsRoundTripIff` | src/lib/Messaging/ComPacket.hpp:93-130 | sub-packets of a packet are read back if and only if only all-zero ones follow unread padding, and exactly the padding stays unread |
| `ComPackets.PacketRoundTripIff` | src/lib/Messaging/ComPacket.hpp:93-113 | a packet is read back if and only if its sub-packets are |
| `ComPackets.TwoBytesApart` | src/lib/Messaging/ComPacket.hpp:93-130 | a frame that does not come back, whatever follows: two sub-packets of one byte each |
| `ComPackets.SingleSubPacketLoads` | src/lib/Messaging/ComPacket.hpp:71-145 | one packet with one sub-packet, the only shape the program sends, is always read back, whatever bytes follow, and takes 56 bytes plus the padded payload |
| `Archives.LoadSubPacketFrom` | src/lib/Messaging/ComPacket.hpp:116-130 | the archive ends up behind the payload, not behind its padding |
| `Archives.LoadPacketFrom` | src/lib/Messaging/ComPacket.hpp:93-113 | the offset loop over sub-packets computes the specified packet and rest, or fails with it |
| `Archives.DeSerializeComPacket` | src/lib/Messaging/ComPacket.hpp:71-90 | the offset loop over packets computes the specified ComPacket, errors included |
| `Archives.SaveSubPacketTo` | src/lib/Messaging/ComPacket.hpp:164-176 | the payload and padding loops append the specified bytes |
| `Archives.SerializeComPacket` | src/lib/Messaging/ComPacket.hpp:133-145 | the loops append the specified bytes |
| `Archives.PacketPayloadLength` | src/lib/Messaging/ComPacket.hpp:40-46 | the summing loop computes the declared length in 32-bit arithmetic |
| `Archives.ComPacketPayloadLength` | src/lib/Messaging/ComPacket.hpp:59-65 | the summing loop computes the declared length in 32-bit arithmetic |
| `Methods.UidRoundTrip` | src/lib/Messaging/Native.hpp:76-82 | a UID is read back from its eight bytes |
| `Methods.CallValueRoundTrip` | src/lib/Messaging/Method.cpp:9-62 | a method call is read back from its value in wire form |
| `Methods.ResultValueRoundTrip` | src/lib/Messaging/Method.cpp:65-119 | a method result is read back from its value in wire form |
| `Methods.CallInPlaceOfResult` | src/lib/Messaging/Method.cpp:74-109 | a CloseSession call in place of a result is a failed method, any other call is no result |
| `Methods.UnpackUndoesPack` | src/lib/Messaging/Method.hpp:66-117 | for any numbers of required and optional parameters, every required value, present slot and absent slot is restored |
| `Methods.UnpackTakesLast` | src/lib/Messaging/Method.hpp:78-102 | an unpacked slot is absent exactly when no item has its key, and holds the value of the last item that has |
| `Methods.UnpackIgnoresOrder` | src/lib/Messaging/Method.hpp:78-102 | reordering optional parameters with distinct keys changes nothing |
| `Methods.PresentSucceedsIff` | src/lib/Messaging/Method.hpp:86-97 | unpacking accepts exactly the lists whose further items are named by integers |
| `Methods.UnpackAcrossWire` | src/lib/Messaging/Method.hpp:66-117 | parameters packed on one side arrive in their slots on the other, in wire form |
| `Methods.Unpack` | src/lib/Messaging/Method.hpp:78-102 | the loop into the map of present optionals computes the specified slots |
| `Rpc.PayloadRoundTrip` | src/lib/TrustedPeripheral/MethodUtils.cpp:45-66 | a sendable value survives tokens and bytes up to its normal form, with or without its outer brackets |
| `Rpc.ReceivedValueComesBack` | src/lib/TrustedPeripheral/MethodUtils.cpp:45-66 | whatever bytes a receiver accepts, their value can be sent, and the bytes it is then sent as, which may be others, are received as the very same value; only no bytes at all give the empty value, which cannot be sent |
| `Rpc.CallEncodesIff` | src/lib/TrustedPeripheral/MethodUtils.cpp:45-60 | a call can be sent if and only if all of its arguments can |
| `Rpc.ResultTransparency` | src/lib/TrustedPeripheral/MethodUtils.cpp:58-91 | a result reaches the host with its status and with its values in wire form, whatever stale bytes follow it in the buffer |
| `Rpc.CallReplyTransparency` | src/lib/TrustedPeripheral/MethodUtils.cpp:94-116 | a reply that is a call (SyncSession, Properties) reaches the host likewise |
| `Rpc.EndOfSessionTransparency` | src/lib/MockDevice/MockDevice.cpp:285-289 | an end-of-session request reaches the device as such, under the session's numbers |
| `Rpc.CallIsNeverEndOfSession` | src/lib/MockDevice/MockDevice.cpp:285-293 | a method call and an end-of-session request never have the same bytes |
| `Rpc.FrameRoundTrip` | src/lib/TrustedPeripheral/MethodUtils.cpp:13-42 | the frame around a payload is read back, and its size is known |
| `Rpc.BuildPayload` | src/lib/TrustedPeripheral/MethodUtils.cpp:54-58 | the reassigned token streams give the specified payload or failure |
| `Rpc.ReadReply` | src/lib/TrustedPeripheral/MethodUtils.cpp:61-66 | the steps from the received frame to the value give the specified reply or failure |
| `WireSizes.WireSizeIsExact` | src/lib/Messaging/TokenStream.cpp:63-184 | the encoding of a sendable value has exactly the computed number of bytes |
| `WireSizes.FrameSizeIsExact` | src/lib/TrustedPeripheral/MethodUtils.cpp:13-58 | a message's frame has 56 bytes plus the payload rounded up to a multiple of four |
| `WireSizes.NormalHasSameSize` | src/lib/Messaging/Value.cpp:203-211 | the wire form of a value takes the same room |
| `Exchange.WaitAllowedIff` | src/lib/TrustedPeripheral/TrustedPeripheral.cpp:160-169 | a wait is allowed exactly when fewer than 21 have happened; then 2,097,151 microseconds have passed |
| `Exchange.TotalDelayBound` | src/lib/TrustedPeripheral/TrustedPeripheral.cpp:160-169 | for any limit and first delay, the waits add up to at most twice the limit plus the first delay |
| `Exchange.ExponentialDelay.Delay` | src/lib/TrustedPeripheral/TrustedPeripheral.cpp:160-169 | doubles the delay and adds it up, or raises and changes nothing once the total exceeds the limit |
| `Exchange.PassProgress` | src/lib/TrustedPeripheral/TrustedPeripheral.cpp:183-212 | a pass that goes on either grows the buffer below the limit, or uses up a wait, or changes neither |
| `Exchange.RunningMeansSpinning` | src/lib/TrustedPeripheral/TrustedPeripheral.cpp:183-212 | whatever the device does, an exchange still running after n receives has made no progress in all but 1,046,548 of them |
| `Exchange.StopsWithoutSpinning` | src/lib/TrustedPeripheral/TrustedPeripheral.cpp:183-212 | a device that always makes progress is done with within 1,046,549 receives |
| `Exchange.SpinsIff` | src/lib/TrustedPeripheral/TrustedPeripheral.cpp:205-212 | no progress is made exactly on a frame that fits the buffer and reports two or more bytes outstanding |
| `Exchange.StuckDeviceNeverStops` | src/lib/TrustedPeripheral/TrustedPeripheral.cpp:205-212 | a concrete device that reports two bytes outstanding keeps the loop running for ever |
| `Exchange.ReceiveLoop` | src/lib/TrustedPeripheral/TrustedPeripheral.cpp:180-220 | the loop, with its growing buffer and its delay object, ends by a lexicographic measure against every device that makes progress, where the run of its steps ends; `Exchange.LoopIsDecided` says what that is, frame by frame |
| `Exchange.ExchangePacket` | src/lib/TrustedPeripheral/TrustedPeripheral.cpp:172-221 | one send, and then, against any device, the result and the device state that the frames leave: while frames ask for more room, below a mebibyte, or report bytes outstanding, the host receives again; a busy device is waited for 21 times, and the 22nd busy frame is no response; of the frames up to the first with nothing outstanding the only one with a payload is the result, wherever it came, none is no response, and two are a breach of the protocol |
| `Exchange.EndReached` | src/lib/TrustedPeripheral/TrustedPeripheral.cpp:180-220 | the same of the run of receives, for every sequence of frames that ends an exchange: it has stopped after exactly these frames, with that result |
| `Exchange.LoopIsDecided` | src/lib/TrustedPeripheral/TrustedPeripheral.cpp:180-220 | wherever the loop stops, its result and the device state are those that the decoded frames leave, or the error of the receive or of the frame that raises |
| `Exchange.ExchangeStructure` | src/lib/TrustedPeripheral/TrustedPeripheral.hpp:73-98 | ends against any device after at most 22 receives; a send, a receive or a reply that raises ends it at once, and otherwise it returns the first reply with data unless one without a request code comes first or the waits run out |
| `State.NewTable` | src/lib/MockDevice/State.cpp:38-50 | a table is made if and only if all objects have the same size; a repeated UID keeps the last object |
| `State.WriteCell` | src/lib/MockDevice/State.cpp:21-24 | writing one cell in place is one update of the plain map and changes no shape |
| `SessionMethods.LastWriteWins` | src/lib/MockDevice/MockDevice.cpp:616-619 | of the writes to a column the last one counts, and other columns keep their value |
| `SessionMethods.SetIsAllOrNothing` | src/lib/MockDevice/MockDevice.cpp:578-623 | Set changes nothing at all, or performs all of its writes and touches no other object |
| `SessionMethods.WriteAllRefines` | src/lib/MockDevice/MockDevice.cpp:616-619 | writing a row's items in place is updating the plain map item by item |
| `MockDevice.EventChanges` | src/lib/MockDevice/MockDevice.cpp:262-343 | whatever bytes arrive, an event leaves the session table alone, opens one session or closes one, and changes no shape |
| `MockDevice.SessionNumbersAreConsecutive` | src/lib/MockDevice/MockDevice.cpp:536-541 | session numbers are issued consecutively over every run, so none is issued twice |
| `MockDevice.StartSucceedsIff` | src/lib/MockDevice/MockDevice.cpp:519-541 | a start succeeds exactly when the provider is registered and has no open session, and otherwise changes nothing |
| `MockDevice.CallKeepsShape` | src/lib/MockDevice/MockDevice.cpp:384-408 | no method called in a session adds, removes or resizes anything |
| `MockDevice.PropertiesAcceptedIff` | src/lib/Messaging/Native.hpp:184-191 | a host's property list is accepted if and only if it names integers by byte strings |
| `RemoteCalls.Handshake` | src/lib/MockDevice/MockDevice.cpp:299-343 | a pending response below 1,048,576 bytes arrives intact within two receives and is then cleared; a larger one is refused by the host and stays pending; one receive suffices exactly when it fits 2,048 bytes or is refused |
| `RemoteCalls.HandshakeHappensOnce` | src/lib/MockDevice/MockDevice.cpp:311-326 | after the hand-over the next receive yields an empty frame and the host finds no response |
| `RemoteCalls.ReceiveTooSmall` | src/lib/MockDevice/MockDevice.cpp:328-340 | a receive too small for the response leaves it pending and makes the host grow its buffer to fit, or give up |
| `RemoteCalls.MockNeverSpins` | src/lib/TrustedPeripheral/TrustedPeripheral.cpp:183-212 | the mock device's responses never make the receive loop run without progress |
| `RemoteCalls.RefusedCall` | src/lib/MockDevice/MockDevice.cpp:361-388 | calls on the session manager that are none of its methods, and calls in a session that is not open, are refused and change nothing |
| `RemoteCalls.ExtensionRefusesAll` | src/lib/MockDevice/MockDevice.cpp:267-269 | a device with a non-zero ComID extension refuses every request stamped with it |
| `HostSession.LabelValues` | src/lib/TrustedPeripheral/Session.cpp:170-178 | the loop pairs columns and values up to the shorter of the two |
| `HostSession.StoreColumns` | src/lib/TrustedPeripheral/Session.cpp:149-156 | the loop stores each value under its index, or raises at the first that does not fit |
| `HostSession.StoredIff` | src/lib/TrustedPeripheral/Session.cpp:149-156 | a reply is stored exactly if each of its items is labeled with a column that was asked for |
| `HostSession.PastTheEnd` | src/lib/TrustedPeripheral/Session.cpp:149-156 | for every range, a reply with the one column just past it gets by the check and would be written out of bounds |
| `HostSession.WrittenPastIff` | src/lib/TrustedPeripheral/Session.cpp:149-156 | a reply would be written out of bounds if and only if its first item that does not fit is labeled with the column just past the end |
| `RemoteTable.SetRefines` | src/lib/TrustedPeripheral/Session.cpp:170-178 | a host Set over the wire is a Set of the plain map, result included |
| `RemoteTable.GetRefines` | src/lib/TrustedPeripheral/Session.cpp:143-158 | a host Get over the wire reads the plain map, fails if some cell of the range cannot be sent, and changes nothing but the pending response |
| `RemoteTable.VoidCall` | src/lib/TrustedPeripheral/MethodUtils.cpp:69-91 | a method without results over the wire does what the device does and reports its status or error |
| `RemoteTable.BlockFieldsParse` | src/lib/Messaging/Native.hpp:86-129 | the device reads back the cell block that the host wrote |
| `RemoteTable.FillRebuilds` | src/lib/TrustedPeripheral/Session.cpp:149-156 | storing the labeled columns of a reply rebuilds the row, unlabeled ones being the empty cells |
| `RemoteTable.RowColumns` | src/lib/MockDevice/State.cpp:16-30 | a row of the device shows exactly the columns of its object in the map |
| `RemoteRuns.LastPairWins` | src/lib/TrustedPeripheral/Session.cpp:170-178 | of the pairs that write a cell the last counts, every other cell keeps its value and none comes or goes |
| `RemoteRuns.ReadYourWrites` | src/lib/TrustedPeripheral/Session.cpp:143-178 | a read after a write shows in each column the last value written to it in wire form, or the old one |
| `Credentials.CallWrites` | src/lib/MockDevice/MockDevice.cpp:578-748 | the frame of every method: exactly the cells that Set names last, that GenKey fills, and that Activate switches and copies are written, and every other cell keeps its value |
| `Credentials.CellAfterRun` | src/lib/MockDevice/MockDevice.cpp:578-748 | after any run over any bytes a cell holds the last value written to it, or what it held before |
| `Credentials.AuthenticateIff` | src/lib/MockDevice/MockDevice.cpp:647-664 | a proof is accepted exactly when it is the PIN in the credential's cell now |
| `Credentials.ActivateFromInactive` | src/lib/MockDevice/MockDevice.cpp:725-748 | from life cycle 8 in the Admin SP: the cell becomes 9, the Locking SP's Admin1 PIN becomes the SID PIN, and no other cell changes |
| `Credentials.ActivateAgain` | src/lib/MockDevice/MockDevice.cpp:735-748 | once the life cycle is anything but 8, Activate reports success and changes nothing |
| `Credentials.ActivateReports` | src/lib/MockDevice/MockDevice.cpp:736-747 | an inactive provider is activated without an exception exactly when the session is on the Admin SP and both PIN objects exist |
| `Credentials.RevertIff` | src/lib/MockDevice/MockDevice.cpp:711-722 | Revert reports success exactly if the object is in the SP table, and changes nothing |
| `Credentials.GenKeyStores` | src/lib/MockDevice/MockDevice.cpp:667-708 | over an object of the AES or PIN tables GenKey succeeds and leaves in column 3, and nowhere else, a key tagged with the protocol of its table and of twice its AES size, or a PIN of the length asked for, or of 32 |
| `Credentials.ActivateElsewhere` | src/lib/MockDevice/MockDevice.cpp:735-748 | a provider object in a session on another provider: the life cycle becomes 9 and the call fails |
| `Credentials.ActivationOverRuns` | src/lib/MockDevice/MockDevice.cpp:725-748 | after an activation and whatever follows, later Activates change nothing, and Admin1's PIN is the SID PIN of that time, as long as nothing else writes those cells |
| `HostTables.PagesConcatenate` | src/lib/MockDevice/MockDevice.cpp:626-644 | whatever the page sizes, the pages of Next put together are the rows in table order, as far as the sizes reach |
| `HostTables.NextRefines` | src/lib/TrustedPeripheral/Session.cpp:186-193 | a host Next over the wire yields the device's page if it fits a frame of the host, reports a missing table as an invalid parameter, and changes nothing |
| `EncryptedDevice.SimpleSession.GetTableRows` | src/EncryptedDevice/EncryptedDevice.cpp:61-78 | the program, over the storage device and with its receive loops: without a description, a session or a table it fails; a single-row table has its row; otherwise the loop stops and yields every row once, in table order, leaving out only UID 0, whatever other hosts do in between that do not end its session; the device ends up with what they have left |
| `EncryptedDevice.SimpleSession.GetObjectColumns` | src/EncryptedDevice/EncryptedDevice.cpp:81-92 | the program likewise: each column is what the plain server holds when its turn comes, whatever other hosts do in between, up to the first that cannot be read, whose error is raised; all columns of the description if there is none |
| `EncryptedDevice.ColumnsOneByOne` | src/EncryptedDevice/EncryptedDevice.cpp:81-92 | if the other hosts leave the object alone, the columns read one by one are those of the map, in wire form |
| `EncryptedDevice.BystandersRun` | src/lib/TrustedPeripheral/Session.cpp:63-104 | over any run of other hosts that have other numbers and do not end it, a session stays open on its provider and no list of rows changes |
| `HostTables.ShownRows` | src/EncryptedDevice/EncryptedDevice.cpp:71-77 | what is shown has no repetition and is exactly the rows other than 0 |
| `HostCredentials.HostAuthenticateIsCheck` | src/lib/TrustedPeripheral/Session.cpp:205-217 | authentication over the wire is the device's check, errors and statuses included, and changes nothing |
| `HostCredentials.AuthenticateRefines` | src/lib/TrustedPeripheral/Session.cpp:205-217 | what it says is decided by the plain map: the authority's cell in column 10 and the PIN cell it names |
| `HostCredentials.HostAuthenticateIff` | src/lib/TrustedPeripheral/Session.cpp:205-217 | a host is let in exactly with the PIN in the credential's cell; a proof too long to be sent is refused before |
| `HostCredentials.HostAuthenticateAfterRun` | src/lib/TrustedPeripheral/Session.cpp:205-217 | the same after any run over any bytes, with the last PIN written |
| `HostKeys.GenKeyRefines` | src/lib/TrustedPeripheral/Session.cpp:219-221 | a host GenKey over the wire is one write of the plain map, or fails as the map says |
| `HostKeys.ActivateRefines` | src/lib/TrustedPeripheral/Session.cpp:233-235 | a host Activate over the wire writes at most the two cells of the plain map, and fails as the map says |
| `HostKeys.RevertRefines` | src/lib/TrustedPeripheral/Session.cpp:228-230 | a host Revert over the wire looks whether the object is there and changes nothing |
| `HostSessions.StartRefines` | src/lib/TrustedPeripheral/Session.cpp:63-78 | a host's start over the wire returns the session exactly if the provider is registered and has none open, and opens exactly that one; otherwise it raises the device's status |
| `HostSessions.EndRefines` | src/lib/TrustedPeripheral/SessionManager.cpp:50-61 | a host's end over the wire closes that session and no other, and fails if it is not open |
| `HostRequests.OperationArrives` | src/lib/TrustedPeripheral/Session.cpp:63-239 | for each operation of a host: the device decodes the bytes it sends as a call of that method, by number, on that object, in that session, with exactly those arguments in their slots; the end of a session as the end of that session |
| `HostRequests.RunIsTranscribed` | src/lib/TrustedPeripheral/Session.cpp:63-239 | over any run the messages sent are the operations, in order, without those whose request cannot be encoded |
| `HostReplies.StatusDecides` | src/lib/Messaging/Method.cpp:121-146 | whatever the drive and its values: a reply, as the result of a method and as a call of the session manager, is a success exactly if its status is that of success or has no name in eMethodStatus; any named status raises |
| `HostReplies.CallReadIff` | src/lib/Messaging/Method.cpp:32-62 | a value is read as a call if and only if it is one: the command, two UIDs of eight bytes or more, a list, the end of data and three integers, of which the low byte of the first is the status |
| `HostReplies.ResultReadIff` | src/lib/Messaging/Method.cpp:74-119 | a value is read as a result if and only if it is one, or a CloseSession call in place of one |
| `HostReplies.ReplyPayload` | src/lib/TrustedPeripheral/MethodUtils.cpp:29-42 | of a received frame the first sub-packet of the first packet is read; without one there is no response |
| `HostReplies.ResultsUnpackIff` | src/lib/Messaging/Method.hpp:78-102 | a reply has the results of a method if and only if there are as many values and any further ones are named by integers |
| `HostReplies.VerdictRead` | src/lib/TrustedPeripheral/Session.cpp:205-217 | a proof is accepted on an integer whose low byte is not zero, refused on one whose is, and anything else is not supported |
| `HostReplies.RowsReadIff` | src/lib/TrustedPeripheral/Session.cpp:186-193 | rows are read exactly from a list of byte strings of eight bytes or more, as the numbers that the first eight spell |
| `HostReplies.StartReadIff` | src/lib/TrustedPeripheral/Session.cpp:63-78 | a started session has the host's own number and the second integer of the reply, modulo 2^32 |
| `HostReplies.ColumnHolds` | src/lib/TrustedPeripheral/Session.cpp:149-156 | a column of a Get holds the value of the last item of the reply whose number less the first column, modulo 2^64, is its place, or is empty if there is none |
| `DeviceRequests.CallMadeIff` | src/lib/MockDevice/MockDevice.cpp:262-296 | for any bytes: the device makes a method call of them if and only if they hold a frame for its ComID whose first sub-packet delivers a payload that is read as one |
| `DeviceRequests.EndMadeIff` | src/lib/MockDevice/MockDevice.cpp:285-289 | and the end of a session if and only if the payload is a list that begins with the command |
| `DeviceRequests.OtherwiseMade` | src/lib/MockDevice/MockDevice.cpp:266-276 | a frame with nothing in it is no request; a frame for another ComID, and a payload that is neither, are refused |
| `DeviceRequests.StartUnderstoodIff` | src/lib/MockDevice/MockDevice.cpp:499-519 | a start is understood if and only if its parameters are a number, a UID and an integer, then byte strings, UIDs and numbers in their nine slots |
| `DeviceRequests.SlotHolds` | src/lib/Messaging/Method.hpp:78-102 | whatever the parameters, a slot holds the value of the last one whose number is its own, 32 bits of it, and is absent if there is none |
| `DeviceRequests.BlockUnderstoodIff` | src/lib/Messaging/Native.hpp:86-129 | a cell block is understood if and only if its fields have the numbers 0 to 4 and values of their kinds; its columns are those of the last fields 3 and 4 |
| `DeviceRequests.GetAnswers` | src/lib/MockDevice/MockDevice.cpp:545-575 | for any cell block, bounded or open: the non-empty cells from the first to the last column, each once and in order, or an invalid parameter |
| `DeviceRequests.NextAnswers` | src/lib/MockDevice/MockDevice.cpp:626-644 | with or without a row to start behind and a number to stop after: exactly those rows, in order, as eight bytes each |
| `DeviceRequests.KeysMade` | src/lib/MockDevice/MockDevice.cpp:680-705 | for each table the tag and the length of what GenKey makes |
| `DeviceRequests.UnknownMethod` | src/lib/MockDevice/MockDevice.cpp:391-404 | a method with any other number is the device's error and changes nothing |
| `DeviceRequests.StartAnswered` | src/lib/MockDevice/MockDevice.cpp:369-373 | the reply to any start that is understood is a SyncSession call outside of sessions with both numbers, or with 0 and the status that says why |
| `DeviceRequests.PropertiesAnswered` | src/lib/MockDevice/MockDevice.cpp:364-368 | the reply to Properties is a Properties call with the device's list |
| `DeviceRequests.MethodAnswered` | src/lib/MockDevice/MockDevice.cpp:384-408 | the reply to a method is its result in wire form, in a message under the numbers of its session |
| `DeviceRequests.EndAnswered` | src/lib/MockDevice/MockDevice.cpp:461-472 | the reply to the end of an open session is the one byte of the command, and that session is closed |
| `DeviceRequests.NotUnderstood` | src/lib/MockDevice/MockDevice.cpp:346-359 | what the session manager does not understand changes nothing and raises, an invalid argument as the device's own error |
| `DeviceRequests.Received` | src/lib/MockDevice/MockDevice.cpp:299-343 | a receive hands out what is pending if it fits, and clears it; otherwise a bare header with the size as outstanding and as minimum transfer; without room for that it fails |
| `HostSessions.SessionLife` | src/lib/TrustedPeripheral/Session.cpp:63-104 | a started session is open and keeps every other start out, whatever its password and authority; after its end the provider can be started again under a new number |
| `Template.SendPacketizedValue` | src/lib/TrustedPeripheral/MethodUtils.cpp:45-66 | the program that builds, exchanges in the receive loop and takes apart computes the specified response and device state |
| `Template.CallRemoteMethod` | src/lib/TrustedPeripheral/MethodUtils.cpp:69-91 | the same for a call and the status that may raise, which `HostReplies.StatusDecides` spells out for every status |
| `Template.CallRemoteSessionMethod` | src/lib/TrustedPeripheral/MethodUtils.cpp:94-116 | the same for a call of the session manager, whose response is itself a call, with the statuses of `HostReplies.StatusDecides` |
| `Template.SessionManager.StartSession` | src/lib/TrustedPeripheral/Session.cpp:63-78 | the program computes the specified session and device state; and, if the password fits an atom and the device has no ComID extension, it has sent one message, which the device decodes as a call of StartSession on the session manager whose arguments unpack to the host's number, the provider's UID and write = 1, with the password as host challenge (0), the authority as host signing authority (3) and the other seven parameters absent |
| `Template.SessionManager.EndSession` | src/lib/TrustedPeripheral/SessionManager.cpp:50-61 | the program computes the specified outcome and device state |
| `RemoteCalls.CallSettles` | src/lib/TrustedPeripheral/MethodUtils.cpp:69-91 | a device with nothing odd pending answers every call whose frames stay below 2^32 bytes, so the loop ends, and it comes out of the call with nothing odd pending again |
| `Template.SessionTemplate.Get` | src/lib/TrustedPeripheral/Session.cpp:143-158 | the host's Get, program and loops, computes the specified row and device state |
| `Template.SessionTemplate.Set` | src/lib/TrustedPeripheral/Session.cpp:170-178 | the host's Set, program and loops, computes the specified result and device state |
| `Template.SessionTemplate.Next` | src/lib/TrustedPeripheral/Session.cpp:186-193 | the host's Next computes the specified rows and device state |
| `Template.SessionTemplate.GetOne` | src/lib/TrustedPeripheral/Session.cpp:161-167 | the host's Get of one column computes the specified value and device state |
| `Template.SessionTemplate.NextOne` | src/lib/TrustedPeripheral/Session.cpp:196-202 | the host's Next of one row computes the specified row and device state |
| `Template.SessionTemplate.Authenticate` | src/lib/TrustedPeripheral/Session.cpp:205-217 | the host's Authenticate computes the specified verdict and device state |
| `Template.SessionTemplate.GenKey` | src/lib/TrustedPeripheral/Session.cpp:219-221 | the host's GenKey computes the specified result and device state |
| `Template.SessionTemplate.Revert` | src/lib/TrustedPeripheral/Session.cpp:228-230 | the host's Revert computes the specified result and device state |
| `Template.SessionTemplate.Activate` | src/lib/TrustedPeripheral/Session.cpp:233-235 | the host's Activate computes the specified result and device state |
| `Handler.SecurityProvider.Get` | src/lib/MockDevice/MockDevice.cpp:545-575 | the loop over columns labels exactly the non-empty cells of the range, or reports it invalid |
| `Handler.SecurityProvider.Set` | src/lib/MockDevice/MockDevice.cpp:578-623 | the validating loop and the in-place writing loop have exactly the specified effect on the tables |
| `Handler.SecurityProvider.Next` | src/lib/MockDevice/MockDevice.cpp:626-644 | the counting loop returns the specified page |
| `Handler.SecurityProvider.Authenticate` | src/lib/MockDevice/MockDevice.cpp:647-664 | reads the authority, its credential and the PIN as specified |
| `Handler.SecurityProvider.GenKey` | src/lib/MockDevice/MockDevice.cpp:667-708 | writes exactly the specified key or PIN in place |
| `Handler.SessionLayerHandler.Activate` | src/lib/MockDevice/MockDevice.cpp:725-748 | updates the session's provider and, through the registered ones, the Locking SP in place as specified |
| `Handler.SessionLayerHandler.CallMethod` | src/lib/MockDevice/MockDevice.cpp:384-408 | unpacks, converts and dispatches every method with exactly the specified outcome on all providers |
| `Handler.SessionLayerHandler.StartSession` | src/lib/MockDevice/MockDevice.cpp:499-542 | finds the provider, refuses a busy one by object identity, and registers the session as specified |
| `Handler.SessionLayerHandler.EndSession` | src/lib/MockDevice/MockDevice.cpp:461-472 | erases the session and leaves the reply pending as specified |
| `Handler.SessionLayerHandler.SecuritySend` | src/lib/MockDevice/MockDevice.cpp:262-296 | for any bytes, the object ends in exactly the state of the state machine; other protocols and ComIDs are not handled |
| `Handler.SessionLayerHandler.SecurityReceive` | src/lib/MockDevice/MockDevice.cpp:299-343 | copies the frame to the front of the caller's buffer, or raises and leaves it alone, as the state machine says |
| `UidText.UidTextRoundTrip` | src/lib/Messaging/UID.cpp:9-37 | parsing undoes printing for every UID |
| `UidText.DigitsParse` | src/lib/Messaging/UID.cpp:24-37 | digits parse to their value wherever separators stand between them, unless it exceeds 64 bits |
| `UidText.ToString` | src/lib/Messaging/UID.cpp:9-21 | appends four groups of four digits |
| `UidText.Parse` | src/lib/Messaging/UID.cpp:24-37 | drops separators wherever they stand and parses as std::stoull does, signs, spaces, prefix and overflow included |
| `UidText.BytesTextRoundTrip` | src/EncryptedDevice/ValueToJSON.cpp:607-664 | reading undoes printing for every byte string, as digits or as text |
| `UidText.FormatBytes` | src/EncryptedDevice/ValueToJSON.cpp:607-620 | the loop writes a separator behind every byte but the last |
| `UidText.ReadBytes` | src/EncryptedDevice/ValueToJSON.cpp:623-664 | the loop reads chunks of two characters, skips separators and fails on any other text |
| `Spelling.PrintedIff` | src/EncryptedDevice/ValueToJSON.cpp:607-620 | the text of bytes is the one with these characters, or with these digits and quotes place by place, and no other |
| `Spelling.DigitsReadIff` | src/EncryptedDevice/ValueToJSON.cpp:636-663 | text is read as bytes if and only if it consists of chunks of two characters with these values, and of quotes between them, around them, or nowhere; a chunk is two digits of either case, or a sign or white space and a digit |
| `Spelling.UidSpelledOnce` | src/lib/Messaging/UID.cpp:9-21 | a UID's text is the one of nineteen characters with each of its sixteen digits at its place and quotes at 4, 9 and 14 |
| `Spelling.UidReadIff` | src/lib/Messaging/UID.cpp:24-37 | text is read as a UID if and only if, without its quotes, it is white space, a sign or none, a prefix or none, and digits whose number fits 64 bits |
| `TypedJson.ReferenceRoundTripIff` | src/EncryptedDevice/ValueToJSON.cpp:313-324 | a reference is read back if and only if its printed name, or its digits when it has none, is found again as that UID or left to the digits |
| `JsonMeaning.ReadIff` | src/EncryptedDevice/ValueToJSON.cpp:345-505 | main theorem of the reader, for every JSON tree, type and value: a text is read as a value if and only if the value is what it says there: a name the number it stands for, any integer that number modulo 2^16, or modulo 2^(8 width) in the type's kind, characters or digits the bytes, a reference the UID of its name or of its digits, an object the first alternative its key names, mandatory fields one by one and optional ones by their keys |
| `JsonMeaning.ReadableIff` | src/EncryptedDevice/ValueToJSON.cpp:345-505 | a text is read under a type at all if and only if it says something there |
| `JsonErrors.RefusedIff` | src/EncryptedDevice/ValueToJSON.cpp:345-505 | and it is refused with an error if and only if that is what is wrong with it first: the wrong kind of JSON, a name or a text that is none, an alternative, a key or a number of fields that the type does not have |
| `JsonMeaning.ShownIff` | src/EncryptedDevice/ValueToJSON.cpp:201-342 | a value is shown as a text under a type if and only if that is how it is spelled there, the keys `field`, `name` and `value` and the prefix of references included |
| `JsonErrors.UnshownIff` | src/EncryptedDevice/ValueToJSON.cpp:201-342 | and it is not shown, with an error, if and only if that is what is wrong with it first |
| `JsonMeaning.OctetsSpelled` | src/EncryptedDevice/ValueToJSON.cpp:594-664 | bytes under the types 0x5_0000_020B (name) and 0x5_0000_020C (password) are shown as one character each with that code; under any other type, or none, as 3n - 1 characters: two upper-case hexadecimal digits each, at 3i and 3i + 1, with quotes between; both texts are read as the bytes again |
| `TypedJson.PrintsExactlyFitting` | src/EncryptedDevice/ValueToJSON.cpp:201-342 | a value prints under a type if and only if it fits: shapes match, alternatives are identified up to the one taken, mandatory fields match one by one, optional fields are known (how it then prints is `JsonMeaning.ShownIff`) |
| `TypedJson.UnidentifiedIff` | src/lib/Messaging/Type.hpp:115-121 | the search for an alternative raises InvalidTypeError exactly if it meets one without an identifier before the one it looks for: the handler around it catches std::bad_cast only |
| `TypedJson.EnumerationPrintsByName` | src/EncryptedDevice/ValueToJSON.cpp:201-212 | an enumeration value prints as a name if and only if some name stands for its number, and then as a name of that number |
| `TypedJson.EnumerationPrintsApart` | src/EncryptedDevice/ValueToJSON.cpp:201-212 | two values of an enumeration print alike if and only if they are the same number of 16 bits |
| `TypedJson.Stable` | src/EncryptedDevice/ValueToJSON.cpp:201-505 | the normal form prints and is its own normal form |
| `TypedJson.SecondRoundTrip` | src/EncryptedDevice/ValueToJSON.cpp:201-505 | a value that was read back once comes back as it is ever after, given safe names for the UIDs that it prints |
| `ExactJson.IntegerComesBackIff` | src/EncryptedDevice/ValueToJSON.cpp:363-385 | an integer's number comes back if and only if it lies in the range of the integers that its type reads, and the integer itself if and only if it is of that kind |
| `ExactJson.IntegersThatChange` | src/EncryptedDevice/ValueToJSON.cpp:363-385 | three integers that change: too wide, of the wrong sign at the same width, and negative under an unsigned type |
| `TypedJson.NewEnumeration` | src/lib/Messaging/Type.hpp:220-233 | an enumeration is made if and only if its values and its names are unique, and its two tables are then inverse |
| `TypedJson.ReduceStruct` | src/EncryptedDevice/ValueToJSON.cpp:670-685 | the mandatory types in order, and the first type for each optional name |
| `TypedJson.ListToJson` | src/EncryptedDevice/ValueToJSON.cpp:263-272 | the loop converts every item, or fails at the first that does not |
| `TypedJson.ListFromJson` | src/EncryptedDevice/ValueToJSON.cpp:418-427 | the loop converts every item, or fails at the first that does not |
| `TypedJson.StructToJson` | src/EncryptedDevice/ValueToJSON.cpp:275-310 | the loop over mandatory fields in step with their types, then the loop over optional ones, compute the specified text or failure |
| `Names.SequenceRoundTrip` | src/lib/Specification/Common/Utility.cpp:6-35 | parsing the printed name of any UID of a sequence returns that UID |
| `Names.AcceptedIff` | src/lib/Specification/Common/Utility.cpp:16-35 | a name is accepted as a UID exactly if it is the format around digits whose number has the place in the sequence that the UID has |
| `Names.AcceptedName` | src/lib/Specification/Common/Utility.cpp:16-35 | the name of an accepted name's UID is the same without leading zeros |
| `Names.FinderRoundTripIff` | src/lib/Specification/Common/Utility.cpp:37-66 | finding the UID of a UID's name leads back if and only if the name is neither a pair's name nor accepted by an earlier sequence |
| `Names.FinderIsSafeIff` | src/lib/Specification/Common/Utility.cpp:37-66 | a finder meets what the typed JSON round trip asks of the name of a UID if and only if that name does not clash or, where there is none, no name spells the UID's digits |
| `Names.FinderIsSafe` | src/lib/Specification/Common/Utility.cpp:37-66 | so it is safe for any set of UIDs without such clashes |
| `Names.NameAndUidFinder.Build` | src/lib/Specification/Common/Utility.hpp:68-84 | the loops succeed if and only if UIDs and names are unique, and the two maps are then inverse |
| `Names.NameAndUidFinder.FindName` | src/lib/Specification/Common/Utility.cpp:37-50 | pairs first, then the first sequence that has a name |
| `Names.NameAndUidFinder.FindUid` | src/lib/Specification/Common/Utility.cpp:53-66 | pairs first, then the first sequence that accepts the name |
| `ModuleCollection.ModuleCollection.Load` | src/lib/TrustedPeripheral/ModuleCollection.cpp:8-23 | afterwards every name occurs once, the order is FEATURE, SSC, CORE, and the names are those of before, of the module and of its transitive features |
| `ModuleCollection.ModuleCollection.Find` | src/lib/TrustedPeripheral/ModuleCollection.cpp:26-67 | a lookup returns the first answer, which comes from a module of the smallest kind that has one |
| `ModuleCollection.UniqueNames` | src/lib/TrustedPeripheral/ModuleCollection.cpp:15-19 | dropping equal neighbours of a list sorted by name leaves every name exactly once |

## Left out

- NVMe and SCSI pass-through, device enumeration, C API, command line, pre-boot authentication, GUI: no logic to prove.
- Logging, `Dump`, type formatting and message texts: errors are tags; an exception raised while formatting a message
  (`TypeFormatter` on a plain reference type) is not modelled.
- Level 0 discovery, SetupPackets and the communication layer (StackReset, VerifyComId): fixed-layout reads that would
  only add easy members. The mock's StackReset does not touch sessions.
- Coroutines and the send/receive mutex: an exchange is one sequential step, as the mutex makes it.
- `RemoteRuns.RunRefinesPlainServer`: for frames below 2^32 bytes, a device without a ComID extension, objects filed
  in the table that their UID names, and integers in the range of their kinds, as C++ types make them.
- `Template.Execute`: under the same conditions; the hosts' operations come one after another, as the mutex makes them.
- `EncryptedDevice.SimpleSession.GetTableRows`: for rows whose list fits a frame below 2^32 bytes; runs of other hosts
  between two calls stand for the coroutine's suspension.
- `EncryptedDevice.SimpleSession.GetObjectColumns`: likewise, for cells whose replies fit a frame below 2^32 bytes.
- `Names.FinderRoundTripIff`: for sequences that neither reach numbers of 2^63 nor cross it with their UIDs
  (`Names.Proper`): there the conversions to `int64_t` and the differences of them would overflow.
- Frames of 2^32 bytes or more: lengths wrap around in the code; the theorems over the wire require smaller ones.
- Providers' position in `m_securityProviders` stands for `shared_ptr` identity in `MockDevice`; `Handler` keeps the
  objects and proves the two views equal.
- `Next` from a row that is not in the table: the original increments the end iterator, which is undefined; the model
  raises `AssertionFailed`.
- Objects filed in another table than their UID names: `Credentials.Filed` excludes them from credentials, activation
  and runs. The mock device's own preconfiguration has none.
- Byte tables: the mock raises `NotImplemented`, and so does the model.
- The loops of `JSONToValueConverter` over structs: as functions only (`TypedJson.MandatoryFromJson`,
  `TypedJson.OptionalFromJson`), mirroring `TypedJson.StructToJson`.
- `Value` maps and general ranges in `Native.hpp`: only the property list of Properties uses one, and only that
  conversion is modelled (`MockDevice.HostProperties`).
- Session::End and the destructors, which swallow the exceptions of `Template.SessionManager.EndSession`.
- SPNameAndUidFinder and TableFinder: a map lookup in front of the modelled finder.
- Name formats whose literal text contains regular-expression metacharacters: `Names.NameSequence` takes the text
  before and behind the number literally.
- Text of JSON documents (`dump`, `parse`): the model starts from the parsed tree.
