# The node side of the NTAP tunnel: a verified model

This project models `ntap-b`, the node program of a small tunnel protocol, and
proves what its design promises. A node keeps one control connection to a
server. Over it the server opens, feeds and closes up to 32 streams to targets
that the node can reach; in TAP mode the node instead relays Ethernet frames
between a TAP device, the server and up to eight clients that connect directly
and present a signed token.

## How the model is built

- `Bytes`, `Sequences`, `Options`, `Text`: octets and big-endian numbers,
  searching and cutting, optional results, characters and decimal numbers.
- `GrowingBuffer` (Buffer.dfy), `Frame`, `Net`: the growing buffer, the message
  header and what a byte stream means as messages, and the loops that push
  messages through sockets that take and give bytes in arbitrary pieces.
- `Wire`, `WireCode`: for every payload a layout and a parser as plain functions
  (`Wire`), and the encoders and decoders that append to a buffer or advance a
  position (`WireCode`), each proved to compute them.
- `Address`, `DirectToken`, `TokenCode`, `IniFile`, `IniSaved`, `IniCode`: target
  addresses, direct tokens and configuration files; again the meaning as functions,
  and the code that cuts buffers in place proved against it.
- `OctetMeaning`, `WireOctets`, `TextMeaning`, `TokenMeaning`, `IniMeaning`,
  `IniReading`: what the definitions of these modules amount to in octets, numbers
  and characters, stated without them, so that a reader need not trust a layout or a
  parser.
- `Kernel`: the operating system. Descriptors are opened and closed, calls give
  arbitrary answers, and everything observable is added to a ghost trace.
- `Delivery`: what the peer of a connection decodes from its octets when some
  messages could not be sent.
- `Streams`, `StreamRuns`: the multiplexed streams as a map from ids, the actions
  the control loop may take and what each makes visible; theorems over all runs.
- `StreamActs`, `StreamLives`: the same actions in octets and numbers, and what the
  messages received in the lifetime of a descriptor do to it, in the trace alone.
- `Slots`, `Accounting`, `DirectAccess`, `ControlLoop`, `ControlRuns`: the control
  loop itself, a class with 32 slots, counters and descriptors, whose methods
  keep the invariant that slots, descriptors and trace are those of a run of
  `Streams`.
- `Relay`, `RelayActs`, `HubSlots`, `TapHub`, `HubRuns`: the same for the relay hub of
  TAP mode.
- `Handshake`, `Session`, `SessionRuns`, `Hearing`: the opening exchange, a whole
  session, the driver that starts one session after another, and what the server
  decodes of a session.

The two loops are state machines: the trace of the system is always the trace of
a *legal log* of actions plus the events of the action in progress, so a theorem
about all legal logs is a theorem about every reachable state of the loop.

## Assumptions

- A successful connect, accept, listen or opening of the TAP device returns a
  descriptor that is not open. `select` returns a non-empty part of the set it was
  given, or a timeout, an interruption or a failure. `send` and `recv` move between
  one byte and as many as asked for, or fail.
- Runs are finite: `Kernel.Os` counts rounds (`ticks`), and `Net.Socket` counts
  "not now" answers (`stalls`); both numbers are arbitrary. Every finite part of an
  endless run is a part of such a run.
- The loops use `Kernel.Os.SendMsg` and `RecvMsg`, which move whole messages; `Net`
  and `Frame` prove that this is what the byte-level code achieves.
- A call that fails leaves a mark in the trace (`Unsent`, `Unheard`, `Unreachable`,
  `NotOpened`, `WaitFailed`, `FrameMissed`, `FrameRefused`, `Unattached`,
  `Exhausted`). So a contract can say that a refusal was attempted, that a client was
  dropped only after a failed send, and what made a loop end.
- The keyed digests are arbitrary functions of key and text; only their length and
  their lower-case hexadecimal form are used.
- Numbers out of range in a token are read as `sscanf` of the GNU C library does:
  the largest value of the type stands for them, and a minus sign negates an
  unsigned number modulo 2^64.
- `memory` holds the allocator's answers, one for every append to a growing buffer;
  the time is a parameter.

## What turned out not to hold, and exactly when it does

- Not every frame that a node takes from its TAP device can be received by its
  peers: they always apply the default mtu of 1400. All admitted frames pass if and
  only if the mtu is at most 1408 (`Relay.TapFramesFit`).
- Encoding and decoding are not inverse for texts with a NUL or beyond the
  decoder's buffers, and the short forms of CONFIG_PUSH and SOCKS_STREAM_CLOSE are
  not reproduced (the `RoundTrip` and `ReEncode` lemmas of `Wire` give the exact
  conditions).
- The server need not hear what the program sent. A refusal of a stream that could
  not be sent is ignored and the program goes on sending, so the server may take the
  next message for the rest of the refusal. If just the header of the refusal went
  out before a ping, the server decodes an abort of stream 0x4e544150 and loses the
  ping (`Hearing.UntoldRefusalMisleads`). The server hears exactly the messages sent,
  wherever the failed ones were cut, if and only if nothing is attempted after a
  failure (`Hearing.SessionIsHeard`); that is so whenever every refusal could be
  sent. The theorems of `StreamRuns` speak of the messages sent;
  `Hearing.StreamIsHeard` carries them over to what is decoded.
- A zero from the driver need not mean that the wanted number of sessions
  succeeded, because a success in the last permitted attempt also ends in zero. It
  does mean it, whatever the sessions return, if and only if the attempts are
  unlimited or one success is wanted (`Session.ZeroMeansEnoughWhen`). Otherwise it
  fails for failed sessions up to a success in the last permitted attempt
  (`Session.LateSuccessFallsShort`).
- A configuration table survives being written and loaded if and only if its entries
  are unique, at most 128, and free of what the loader trims, cuts or refuses
  (`IniSaved.SurvivesExactly`). Whatever a file yields is such a table.

## Model

| member | source | states |
|---|---|---|
| GrowingBuffer.NextCapacity | src/common/buffer.c:58-68 | the doubling loop ends, also by the overflow fallback, with the specified capacity, which is a size_t |
| GrowingBuffer.CapacityIsTight | src/common/buffer.c:45-76 | after any run of appends the capacity holds all bytes and is at most 256 or twice what is needed |
| GrowingBuffer.GrowthIsAmortised | src/common/buffer.c:25-76 | while the total stays within half of size_t, all reallocations together carry over fewer bytes than the final capacity |
| GrowingBuffer.CapacityIsPower | src/common/buffer.c:45-76 | the capacity is a power of two of at least 256, or nothing yet |
| GrowingBuffer.ProvidedExactly | src/common/buffer.c:25-76 | memory is asked for exactly by the appends that exceed the capacity so far |
| GrowingBuffer.Buffer.Reserve | src/common/buffer.c:25-43 | enlarges exactly, keeps the contents, fails only without memory |
| GrowingBuffer.Buffer.Append | src/common/buffer.c:45-76 | contents become old contents and new bytes, or nothing changes; when each happens |
| Frame.HdrExact | src/common/proto.c:30-77 | sixteen octets decode to a header exactly if they are its encoding |
| OctetMeaning.CheckOctets | src/common/proto.c:54-77 | which header is good and which defect another one has, in octets |
| OctetMeaning.LengthOctets | src/common/proto.c:79-102 | how long a payload of each type may be, in numbers |
| OctetMeaning.ReceivedOctets | src/common/net.c:625-662 | what a receiver makes of every stream, octet by octet: waits, refuses, or takes a message |
| OctetMeaning.GotExactly | src/common/net.c:625-662 | a message is received if and only if it fits and the stream begins with its header, of any flags, and its payload |
| OctetMeaning.SentOctets | src/common/net.c:597-623 | the octets of a message on the stream |
| Frame.PartialImageWaits | src/common/net.c:625-662 | no proper part of a message makes a receiver return or refuse anything |
| Frame.CompleteMeaning | src/common/net.c:597-662 | which messages are complete within the first n octets of a stream: as many as fit, and no more |
| Frame.ArrivedPartIsPrefix | src/common/net.c:490-662 | whatever part of a sent stream has arrived is received as exactly the complete messages, in order |
| Frame.AllSentIsReceived | src/common/net.c:490-662 | any sequence of receivable messages, once sent and arrived, is received unchanged and with nothing left over |
| Frame.CutOffIsUnheard | src/common/net.c:490-662 | after complete messages and a cut-off one the peer has received exactly the complete ones |
| Frame.ReceivingIsMonotone | src/common/net.c:625-662 | bytes arriving later never change the messages received before |
| Net.SendAll | src/common/net.c:490-506 | all bytes go out once and in order, or a proper beginning and the call fails |
| Net.SendAllTimeout | src/common/net.c:508-533 | the same with waiting and retries, which end |
| Net.RecvAll | src/common/net.c:535-563 | the buffer receives exactly the next bytes; failure only by a broken connection or an early end; the rest of the buffer is untouched |
| Net.HdrEncode | src/common/proto.c:30-52 | a good header, of magic 0x4e544150, version 1 and a type from 1 to 14, is laid out; a bad one is refused with its first defect and without touching the output |
| Net.HdrDecode | src/common/proto.c:54-77 | good exactly if the octets are "NTAP", version 1 and a type from 1 to 14; which defect is reported for all others; the header read encodes to the octets given |
| Net.SendMsg | src/common/net.c:597-623 | a valid type goes out as the message's image, whole or cut by a failure; an invalid one not at all |
| Net.SendMsgTimeout | src/common/net.c:565-595 | the same with timeouts |
| Net.RecvMsg | src/common/net.c:625-662 | success is exactly a complete acceptable message, and not one byte more is consumed |
| Net.RecvWhilePossible | src/common/net.c:625-662 | receiving again and again yields exactly the messages the stream means, however it is cut, and takes exactly their octets; a stream of images is received as its messages and taken to the end |
| Net.SendWhilePossible | src/common/net.c:597-623 | sending one message after the other leaves the images of those that went out and a proper beginning of one that failed |
| Net.Transfer | src/common/net.c:490-662 | from end to end over two sockets that cut as they like: exactly the messages that went out whole are received, with no octet left over |
| Wire.HelloExact | src/common/wire.c:104-157 | HELLO is decoded from a payload exactly if it is its layout and the text fits |
| Wire.HelloRoundTrip | src/common/wire.c:104-157 | decoding what was encoded returns the message exactly if the text has no NUL and fits |
| Wire.HelloReEncode | src/common/wire.c:104-157 | encoding what was decoded returns the payload exactly if the text has no NUL |
| Wire.AuthNodeExact | src/common/wire.c:159-204 | AUTH_NODE: accepted payloads are exactly the layouts of ids that fit |
| Wire.AuthNodeRoundTrip | src/common/wire.c:159-204 | decode after encode returns the message exactly if the id has no NUL and is below 128 octets |
| Wire.AuthNodeReEncode | src/common/wire.c:159-204 | encode after decode returns the payload exactly if the id has no NUL |
| Wire.AuthTapExact | src/common/wire.c:206-255 | AUTH_TAP: accepted payloads are exactly the layouts of names and passwords that fit |
| Wire.AuthTapRoundTrip | src/common/wire.c:206-255 | decode after encode returns the message exactly if both texts have no NUL and are below 512 octets |
| Wire.AuthTapReEncode | src/common/wire.c:206-255 | encode after decode returns the payload exactly if both texts have no NUL |
| Wire.AuthOkExact | src/common/wire.c:257-280 | AUTH_OK: encoding and decoding are inverse without exception |
| Wire.ConfigExact | src/common/wire.c:282-375 | CONFIG_PUSH: accepted payloads are exactly the layouts of messages in range, and the form without a tail for three empty strings |
| Wire.ConfigRoundTrip | src/common/wire.c:282-375 | decode after encode returns the message exactly if network, mtu and texts are acceptable and no text has a NUL |
| Wire.ConfigReEncode | src/common/wire.c:282-375 | encode after decode returns the payload exactly if no text has a NUL and the payload has a tail |
| Wire.TapFrameExact | src/common/wire.c:377-407 | TAP_FRAME: inverse for all frames of at least 14 octets, and only those |
| Wire.SocksOpenExact | src/common/wire.c:409-457 | SOCKS_STREAM_OPEN: accepted payloads are exactly the layouts with non-zero id and port and a non-empty host that fits |
| Wire.SocksOpenRoundTrip | src/common/wire.c:409-457 | decode after encode returns the message exactly if id and port are not zero and the host is non-empty, without NUL and below 256 octets |
| Wire.SocksOpenReEncode | src/common/wire.c:409-457 | encode after decode returns the payload exactly if the host has no NUL |
| Wire.SocksDataExact | src/common/wire.c:459-484 | SOCKS_STREAM_DATA: inverse without exception |
| Wire.SocksCloseExact | src/common/wire.c:486-527 | SOCKS_STREAM_CLOSE: accepted payloads are the long form of any reason and flags, and the short form of "closed remotely, no flags" |
| Wire.SocksCloseReEncode | src/common/wire.c:486-527 | reproduced exactly unless of the short form |
| WireOctets.HelloOctets | src/common/wire.c:140-157 | which payloads are accepted as HELLO and at which octets each field lies |
| WireOctets.AuthNodeOctets | src/common/wire.c:188-204 | the same for AUTH_NODE |
| WireOctets.AuthTapOctets | src/common/wire.c:238-255 | the same for AUTH_TAP |
| WireOctets.AuthOkOctets | src/common/wire.c:269-280 | twenty octets: session, network, time, features, in that order |
| WireOctets.ConfigOctets | src/common/wire.c:336-375 | the same for CONFIG_PUSH with or without its tail; network not zero, mtu from 576 to 1500 |
| WireOctets.TapFrameOctets | src/common/wire.c:392-407 | the same for TAP_FRAME; a frame has at least 14 octets |
| WireOctets.SocksOpenOctets | src/common/wire.c:441-457 | the same for SOCKS_STREAM_OPEN; id, host and port not zero or empty |
| WireOctets.SocksDataOctets | src/common/wire.c:474-484 | the same for SOCKS_STREAM_DATA |
| WireOctets.SocksCloseOctets | src/common/wire.c:509-527 | the same for SOCKS_STREAM_CLOSE, long and short |
| WireCode.AppendString | src/common/wire.c:61-74 | appends length and characters up to the NUL; fails exactly on texts too long to count, or if one of the two appends needs memory and gets none |
| WireCode.ReadString | src/common/wire.c:76-94 | reads one counted text that fits the caller's buffer and moves behind it, or fails |
| WireCode.EncodeHello | src/common/wire.c:104-138 | the output starts with the layout exactly if it fits and every allocation that an append needs succeeds, else it is untouched |
| WireCode.EncodeAuthNode | src/common/wire.c:159-186 | the same for AUTH_NODE |
| WireCode.EncodeAuthTap | src/common/wire.c:206-236 | the same for AUTH_TAP |
| WireCode.EncodeAuthOk | src/common/wire.c:257-267 | the output is the layout |
| WireCode.EncodeConfigPush | src/common/wire.c:282-334 | the same for CONFIG_PUSH, always with the tail |
| WireCode.EncodeTapFrame | src/common/wire.c:377-390 | the same for TAP_FRAME; frames below 14 octets are refused |
| WireCode.EncodeSocksOpen | src/common/wire.c:409-439 | the same for SOCKS_STREAM_OPEN, with its refusals |
| WireCode.EncodeSocksData | src/common/wire.c:459-472 | the same for SOCKS_STREAM_DATA, with its refusals |
| WireCode.EncodeSocksCloseReason | src/common/wire.c:496-507 | the eight-octet form, refused for stream 0 |
| WireCode.DecodeHello | src/common/wire.c:140-157 | accepts exactly what the parser accepts, with the same result |
| WireCode.DecodeAuthNode | src/common/wire.c:188-204 | the same for AUTH_NODE |
| WireCode.DecodeAuthTap | src/common/wire.c:238-255 | the same for AUTH_TAP |
| WireCode.DecodeAuthOk | src/common/wire.c:269-280 | the same for AUTH_OK |
| WireCode.DecodeConfigPush | src/common/wire.c:336-375 | the same for CONFIG_PUSH, with and without a tail |
| WireCode.DecodeTapFrame | src/common/wire.c:392-407 | the same for TAP_FRAME |
| WireCode.DecodeSocksOpen | src/common/wire.c:441-457 | the same for SOCKS_STREAM_OPEN |
| WireCode.DecodeSocksData | src/common/wire.c:474-484 | the same for SOCKS_STREAM_DATA |
| WireCode.DecodeSocksClose | src/common/wire.c:509-527 | the same for both forms of SOCKS_STREAM_CLOSE |
| Handshake.SignAuth | src/common/wire.c:529-556 | the digest of both nonces, the node id and the version, or nothing if one of the four appends needs memory and gets none |
| Address.ParseAddr | src/common/net.c:140-160 | host and port around the last colon, if neither is empty and both fit; otherwise the buffers are untouched |
| Address.TargetRoundTrip | src/b/control_client.c:506-507 | for every accepted OPEN the printed target is never cut and splits into exactly its host, colons included, and its port |
| TextMeaning.SplitsExactly | src/common/net.c:140-160 | an address splits into two parts exactly if it is their join, neither is empty, both fit, and the second has no colon |
| TextMeaning.DecDigits | src/b/control_client.c:489-512 | a port is printed with its most significant digit first: which digit stands where |
| TextMeaning.DecShortest | src/b/control_client.c:489-512 | and with as many digits as needed |
| Address.TcpConnect | src/common/net.c:391-429 | connects to the parts of the address, or nothing is opened; a malformed address is not tried |
| Address.ConnectTarget | src/b/control_client.c:506-507 | a new stream is connected to exactly the host and port of its OPEN |
| DirectToken.AlwaysFits | src/common/direct_token.c:46-70 | every signable token and its signing text stay below 1024 characters |
| DirectToken.JoinSplit | src/common/direct_token.c:89-106 | the fields joined again are the text, and no field holds a bar |
| DirectToken.SplitJoin | src/common/direct_token.c:89-106 | fields without bars are recovered from their joined text |
| DirectToken.MadeIsVerified | src/common/direct_token.c:149-227 | a made token is accepted before it expires and yields the fields it was made of |
| DirectToken.VerifiedIsCanonical | src/common/direct_token.c:168-227 | whatever spelling is accepted has seven fields, and the token made from its fields is accepted with the same result |
| DirectToken.SigningIsInjective | src/common/direct_token.c:39-66 | different fields never have the same signing text, even with newlines in the node id |
| DirectToken.MadeIsRead | src/b/control_client.c:621-669 | a made token sent as a line, with or without a carriage return, is read as that token |
| DirectToken.TokenRoundTrip | src/b/control_client.c:621-716 | making, sending, reading and verifying hand over exactly the fields |
| TokenMeaning.VerifiedIsGenuine | src/common/direct_token.c:168-227 | a token is accepted with given fields if and only if it has seven fields that say so, is for this node and network, has not expired, and its last field is, up to case, the digest of the others under the key |
| TokenMeaning.OneDigestIsAccepted | src/common/direct_token.c:213-218 | of two texts that agree in the first six fields and differ in the digest by more than case, at most one is accepted |
| TokenMeaning.SigningSpelled | src/common/direct_token.c:46-70 | the signed text field by field |
| TokenMeaning.TokenSpelled | src/common/direct_token.c:149-166 | the token text field by field |
| TokenMeaning.NumberIsRead | src/common/direct_token.c:108-136 | white space, at most one sign and digits are read as a number |
| TokenMeaning.OnlyNumbersAreRead | src/common/direct_token.c:108-136 | and nothing else is |
| TokenMeaning.NumbersMean | src/common/direct_token.c:108-136 | ids are positive and saturate at 2^63 - 1, expiry times are not zero and taken modulo 2^64 |
| TokenMeaning.LineExactly | src/b/control_client.c:621-669 | a line is what comes before the first newline, if that is within 1022 characters |
| TokenCode.CheckHexString | src/common/direct_token.c:24-37 | the loop accepts exactly hexadecimal texts of the length |
| TokenCode.CheckHexEqualCi | src/common/direct_token.c:72-87 | equal up to case, whatever the position of a difference |
| TokenCode.NextField | src/common/direct_token.c:89-106 | cutting in place yields the first field and leaves the others |
| TokenCode.VerifyToken | src/common/direct_token.c:168-227 | the code that cuts a copy accepts exactly genuine tokens, spelled out field by field, and returns their fields |
| TokenCode.ReadTokenLine | src/b/control_client.c:621-669 | reads exactly the specified line: none if it is too long or ends early |
| TokenCode.TrimInPlace | src/b/control_client.c:662-667 | line ends and blanks at the end are cut |
| IniFile.GetIsLookup | src/common/config.c:192-200 | reading an entry is looking it up in the map |
| IniFile.LoadRefinesMap | src/common/config.c:95-190 | loading fails exactly if the map reading does; else entries are unique, at most 128, and mean the map of last assignments |
| IniFile.ChunksOfLines | src/common/config.c:114-120 | complete lines that fit the buffer are delivered one by one |
| IniFile.WrittenIsLoaded | src/common/config.c:95-190 | a table of trimmed, comment-safe, bounded entries written as a file is loaded as the same table |
| IniMeaning.TrimTakes | src/common/config.c:22-38 | trimming takes blanks off both ends and leaves none there |
| IniMeaning.TrimOnly | src/common/config.c:22-38 | and there is no other way to do that |
| IniMeaning.CommentExactly | src/common/config.c:40-54 | a comment begins at the first sign that has an even number of quotes before it |
| IniMeaning.BlankLine | src/common/config.c:119-122 | which lines say nothing |
| IniMeaning.HeaderLine | src/common/config.c:123-137 | which name a section, and which are malformed for want of a bracket |
| IniMeaning.AssignLine | src/common/config.c:139-150 | what all other lines assign, and which are malformed |
| IniMeaning.ChunksMakeUp | src/common/config.c:114-120 | a file is cut into pieces of at most 1023 characters that end with their first newline and make it up again |
| IniMeaning.ChunksOnly | src/common/config.c:114-120 | and there is no other way to cut it |
| IniReading.LoadMeans | src/common/config.c:95-200 | a file is loaded if and only if each line is readable where it stands and at most 128 keys are assigned; a key has the value of the last line for it in its section, and none if there is no such line |
| IniSaved.SurvivesExactly | src/common/config.c:95-190 | a table written as a file is loaded as the same table if and only if its entries are writable, unique and at most 128 |
| IniSaved.LoadedSurvives | src/common/config.c:95-190 | what was loaded from any file survives being written and loaded again |
| IniCode.TrimAt | src/common/config.c:22-38 | the text at the returned position is the trimmed text; nothing before or behind the text changes |
| IniCode.CommentSign | src/common/config.c:40-54 | the position found ends the text before the first comment sign outside quotes |
| IniCode.ParseLine | src/common/config.c:114-170 | cutting the line buffer in place classifies the line as specified |
| IniCode.Config.FindEntry | src/common/config.c:71-85 | the first entry of the section and key, or none |
| IniCode.Config.GetValue | src/common/config.c:192-200 | the stored value, if any |
| IniCode.Config.Put | src/common/config.c:147-184 | overwrites or appends as specified, and fails as specified |
| IniCode.Config.LoadFile | src/common/config.c:95-190 | loading a file succeeds exactly as specified, with the specified table |
| Kernel.OpenMeansOnceMore | src/common/net.c:185-195 | a descriptor has been opened once more than closed exactly while it is open |
| Kernel.NothingLeftOpen | src/common/net.c:185-195 | if the same descriptors are open before and after, everything opened in between was closed, once each |
| Streams.RunsKeepTable | src/b/control_client.c:457-595 | in every reachable state: at most 32 streams, non-zero ids, distinct descriptors, none finished both ways |
| StreamRuns.StreamsAreIndependent | src/b/control_client.c:457-595 | what happens to a stream and what it makes visible depends only on the actions that name it |
| StreamRuns.EndsExactly | src/b/control_client.c:555-595 | over every run: an accepted stream is there exactly if since then it was neither aborted nor finished by both sides, and its flags say which side has finished |
| StreamRuns.FinsCommute | src/b/control_client.c:566-595 | both orders of the two finishes lead to the same table |
| StreamRuns.OutputGrammar | src/b/control_client.c:783-944 | since a stream's acceptance: data, then at most one finish, then only refusals; while it lives the finish is sent exactly if its target has finished |
| StreamRuns.ClosedIsSilent | src/b/control_client.c:489-595 | for a stream that is not open nothing is sent but the refusal of an OPEN of that id |
| StreamRuns.UploadIsFaithful | src/b/control_client.c:535-553 | bytes written to a target are exactly the payloads received from acceptance to first finish or abort |
| StreamRuns.DownloadIsFaithful | src/b/control_client.c:917-944 | payloads sent for a stream concatenate to exactly the bytes read from its target |
| StreamRuns.LiveHasLifetime | src/b/control_client.c:512-526 | a live stream's descriptor is that of its latest lifetime |
| StreamActs.OpenActs | src/b/control_client.c:489-533 | in octets and numbers: the host and port of the request are dialled; a stream starts if that succeeds with less than 32 open, else it is refused with reason 3 or, with 32, reason 4 |
| StreamActs.ClientActs | src/b/control_client.c:535-580 | data is written, a finish half-closes, an abort closes; which messages are which; a finish behind the target's closes too |
| StreamActs.TargetActs | src/b/control_client.c:917-944 | chunks of 1 to 8192 octets go on as data, an end as a finish with reason 2 |
| StreamActs.AsideActs | src/b/control_client.c:793-857 | everything else: pings, the test frame and answers, octet by octet, and clients that are let go; no stream is touched |
| StreamActs.HaltActs | src/b/control_client.c:783-944 | the loop is left in the middle of something only in the ways listed, in octets and numbers |
| StreamLives.LifetimeBegins | src/b/control_client.c:489-526 | in every run a stream's descriptor was opened for a request that was received, by dialling its host and port, and not opened again |
| StreamLives.UploadOnTheWire | src/b/control_client.c:535-553 | what was written to it since is the data of the messages received for the stream since, up to the first finish or abort |
| StreamLives.FinishReachesTarget | src/b/control_client.c:566-580 | while the stream is open its descriptor has been half-closed if and only if a finish was received for it since |
| StreamLives.LifetimeCourse | src/b/control_client.c:555-595 | the descriptor is closed if and only if an abort was received, or it was half-closed and the target has ended; it is never half-closed after that; the stream is open exactly until then |
| StreamLives.SymExactly | src/common/wire.c:474-527 | what the peer reads in a message about a stream, in octets |
| ControlRuns.UploadAtTheEnd | src/b/control_client.c:876-954 | when the loop is left, a target has got the delivered payloads and at most a proper beginning of the next one |
| ControlRuns.DownloadAtTheEnd | src/b/control_client.c:917-954 | and at most one chunk read last was not sent |
| ControlRuns.ResultInNumbers | src/b/control_client.c:829-876 | the result of the loop and the frames it sent, in numbers of answers, frames sent and frames received in the trace |
| Accounting.CountIsSize | src/b/control_client.c:829-876 | the counters are the numbers of places in the trace |
| Accounting.DueIs | src/b/control_client.c:835-850 | one frame is due for each answer up to the count, or all from the first |
| Delivery.StoppedIsHeard | src/common/net.c:597-662 | a run that stops at its first failed send is decoded as exactly the messages sent, wherever that one was cut |
| Delivery.HeardExactly | src/b/control_client.c:508-533 | if only CLOSE messages fail without consequences, the peer decodes exactly the messages sent, for all cuts, if and only if nothing is attempted after a failure |
| Hearing.StreamIsHeard | src/b/control_client.c:783-944 | with all refusals sent, what the server decodes about a stream is what the trace tells of it, its latest lifetime last |
| Hearing.UntoldRefusalMisleads | src/b/control_client.c:508-512 | a legal run whose refusal was cut after its header: the server decodes an abort that was never sent and loses the ping after it |
| Hearing.SessionIsHeard | src/b/control_client.c:957-1068 | for every session, in TAP mode with an mtu up to 1408: the server decodes exactly what was sent, for all cuts, if and only if nothing is attempted after a failure, which holds if every refusal was sent |
| Slots.FullExactly | src/b/control_client.c:513-526 | the map holds as many streams as there are slots exactly if no slot is free |
| Slots.WatchedIsUnfinished | src/b/control_client.c:783-792 | a watched descriptor never belongs to a stream whose target has finished |
| Slots.WatchedExactly | src/b/control_client.c:783-792 | watched are exactly the descriptors of streams whose target has not finished |
| DirectAccess.AcceptClient | src/b/control_client.c:671-716 | a descriptor is handed on exactly for a good token; every other accepted connection is closed |
| DirectAccess.AcceptProbe | src/b/control_client.c:718-732 | an accepted client is closed whatever its token |
| DirectAccess.AdmittedExactly | src/b/control_client.c:671-716 | admitted are exactly the clients whose first line holds a genuine token of some fields |
| ControlLoop.Loop.StreamFind | src/b/control_client.c:457-471 | finds the slot of a stream exactly if it is open |
| ControlLoop.Loop.SendClose | src/b/control_client.c:473-487 | one CLOSE of the stream, reason and flags is sent to the peer, or the attempt fails |
| ControlLoop.Loop.StreamOpen | src/b/control_client.c:489-533 | fails exactly on an undecodable OPEN or one of an open stream; else accepted, or refused as unreachable after a failed connection to its host and port, or as full exactly if connected with all 32 slots taken |
| ControlLoop.Loop.StreamData | src/b/control_client.c:535-553 | the payload goes to the target, is dropped if late, or the session ends with a cut write or a malformed message, and for no other reason |
| ControlLoop.Loop.StreamClose | src/b/control_client.c:555-564 | the descriptor of an open stream is closed and its slot freed; for other ids nothing happens |
| ControlLoop.Loop.MarkClientFin | src/b/control_client.c:566-580 | the target of an open stream is half-closed, and closed behind that exactly if it had finished itself; for other ids nothing happens |
| ControlLoop.Loop.MarkTargetFin | src/b/control_client.c:582-595 | noted; the descriptor is closed and the slot freed exactly if the client had finished |
| ControlLoop.Loop.TargetReadable | src/b/control_client.c:920-943 | a chunk goes out as data, an end as a finish, for the stream of that slot and no other; the loop ends only if it could not be sent |
| ControlLoop.Loop.SendData | src/b/control_client.c:936-942 | a chunk of at most 8192 octets can always be encoded |
| ControlLoop.Loop.ServeTargets | src/b/control_client.c:917-944 | exactly the ready streams are served, once each and in slot order, and nothing else is done; a round that ends early has served targets only |
| ControlLoop.Loop.PongReceived | src/b/control_client.c:829-857 | counts, sends the test frames due and does nothing else, ends exactly if the goal is met or a frame could not be sent |
| ControlLoop.Loop.FrameReceived | src/b/control_client.c:858-876 | only the test frame of the own network is accepted |
| ControlLoop.Loop.Dispatch | src/b/control_client.c:829-907 | at every loop head the test frames sent are those due for the answers seen, and the goal is not yet met |
| ControlLoop.Loop.ControlReadable | src/b/control_client.c:820-907 | one message is taken and nothing else done but the test frames it makes due, or the lost peer ends the loop, with success exactly in unlimited mode after an answer |
| ControlLoop.Loop.WatchSet | src/b/control_client.c:774-792 | the peer, the listener and the descriptor of every stream whose target has not finished, and no other |
| ControlLoop.Loop.Round | src/b/control_client.c:765-945 | one iteration keeps the invariant; it takes one message of the peer, or else probes one client, or else serves every ready target once, and nothing beside it; so no stream is opened in an iteration that reads targets |
| ControlLoop.Loop.Finish | src/b/control_client.c:947-954 | the listener and all streams are closed and nothing else happens |
| ControlLoop.RunControlLoop | src/b/control_client.c:734-955 | from any start to any end: a legal run with what surrounds it and the failure that ended it, nothing left open, zero exactly with the goal met or after a lost peer in unlimited mode, the test frames sent being those due |
| Relay.PresentOk | src/b/control_client.c:144-165 | at most eight clients, never the control connection or the device |
| Relay.HubForwards | src/b/control_client.c:333-402 | the control peer gets exactly the device frames of 14 to mtu + 18 octets, the device exactly the valid frames of control peer and clients, in order and once |
| Relay.ClientGetsAll | src/b/control_client.c:167-228 | a client that is still there got every frame of the device, the control peer and the other clients since it joined, and none of its own |
| Relay.EffectsSend | src/b/control_client.c:167-189 | one action sends each client that stays what it is owed, and strangers nothing |
| Relay.EffectsSendControl | src/b/control_client.c:340-402 | one action sends the control peer device frames only |
| Relay.ReceivedFramesFit | src/b/control_client.c:103-117 | a received frame fits the send buffer, is received by the next hop, and travels unchanged |
| Relay.TapFramesFit | src/b/control_client.c:333-357 | a frame cut off by the read buffer is skipped; every admitted device frame fits the buffer; all pass a peer's length check if and only if the mtu is at most 1408 |
| RelayActs.SizeExactly | src/b/control_client.c:345-357 | a device frame is passed on exactly if the peer's decoder takes the message it becomes |
| Relay.BringsExactly | src/b/control_client.c:374-390 | which messages bring a frame to the network, octet by octet |
| RelayActs.FrameActs | src/b/control_client.c:167-228 | a frame from the device, the control peer or a client: its size, its octets and where it goes; the clients listed once, without the sender; those it cannot be sent to are closed |
| RelayActs.OtherActs | src/b/control_client.c:191-228 | what is skipped, who is let go, who joins among less than eight, who is turned away, pings and answers |
| RelayActs.HaltActs | src/b/control_client.c:280-441 | the hub stops only in the ways listed, in octets and numbers |
| RelayActs.ClientOnTheWire | src/b/control_client.c:131-228 | in the trace alone: a client that is there was accepted with a genuine token, was not closed since, and was sent exactly the frames that passed since and are not its own |
| HubRuns.HubForwardsAtTheEnd | src/b/control_client.c:333-402 | when the hub stops, at most the device frame in progress was not sent to the control peer, and every valid received frame was offered to the device |
| HubRuns.ClientGetsAllAtTheEnd | src/b/control_client.c:167-189 | a client that is there at the end got every frame it was owed |
| HubRuns.ClientLetGo | src/b/control_client.c:131-189 | a client that is let go had got every frame it was owed before, and gets nothing of that action |
| HubRuns.ClientHearsAll | src/b/control_client.c:167-189 | with an mtu up to 1408 a client decodes from its octets exactly the frames it was owed since it joined |
| HubSlots.AllTaken | src/b/control_client.c:149-160 | as many clients as slots exactly if all slots are taken |
| TapHub.Hub.SendTapPayload | src/b/control_client.c:103-117 | frames of all sizes that occur are encoded; sent, or the call fails |
| TapHub.Hub.SendTap | src/b/control_client.c:167-189 | every client but one is offered the frame once; exactly those to whom sending failed are closed and removed |
| TapHub.Hub.TapReadable | src/b/control_client.c:333-364 | a frame of 14 to mtu + 18 octets goes to the control peer and to all clients, others nowhere |
| TapHub.Hub.ControlReadable | src/b/control_client.c:365-413 | a valid frame goes to the device and all clients, an answer nowhere, anything else ends the hub |
| TapHub.Hub.ClientReadable | src/b/control_client.c:191-228 | a valid frame goes to the device and all other clients; a client that fails or misbehaves is let go |
| TapHub.Hub.Accept | src/b/control_client.c:414-433 | a client joins exactly with a good token and a free slot, and is closed otherwise |
| TapHub.Hub.ServeClients | src/b/control_client.c:434-440 | every ready client is dealt with, only ready ones are heard, each at most once, and nothing else is done |
| TapHub.Hub.Round | src/b/control_client.c:280-441 | the device's action if it is ready, then exactly one of the control peer, else exactly one of the listener, else those of the ready clients |
| TapHub.Hub.Finish | src/b/control_client.c:312-330 | listener, clients and device are closed and nothing else happens |
| TapHub.RunTapLoop | src/b/control_client.c:230-442 | every way through ends with -1, a legal run, the failure that ended it, and nothing left open |
| Handshake.Greet | src/b/control_client.c:981-1034 | which part of the exchange happened and what ended it; success exactly with a hello of role 0, AUTH_OK and CONFIG_PUSH as the decoders read them, both for one network that is not zero; result 3 exactly for AUTH_FAIL |
| Handshake.AuthorisedMeans | src/b/control_client.c:981-1034 | authorised is an exchange with a hello of role 0, AUTH_OK and CONFIG_PUSH for one network that is not zero, as the decoders read them |
| Handshake.HelloSent | src/b/control_client.c:963-995 | the node's hello: type 1, session 0, role 1, "ntap-b/0.1", no features |
| Handshake.AuthSent | src/common/wire.c:529-556 | the node's answer octet by octet, signing the server's nonce, its own, its id and the version, in that order |
| Handshake.FailureMeans | src/b/control_client.c:981-1034 | what each failure of the exchange means in the terms of the decoders |
| Session.RunSession | src/b/control_client.c:957-1068 | a session is one of the permitted ones, serves only after a hello of role 0 and an AUTH_OK and CONFIG_PUSH for one network that is not zero, and closes once everything it opened |
| Session.EndedMeans | src/b/control_client.c:957-1068 | what is served when, over which link, with which mtu; three exactly for AUTH_FAIL, zero for a control loop only |
| Session.ServedBegins | src/b/control_client.c:734-764 | a loop begins with a listener exactly if direct access is on for a port, and then with a ping |
| Session.RunLoop | src/b/control_client.c:1075-1107 | the driver stops exactly at its verdict, every session being a permitted one |
| Session.SuccessesAre | src/b/control_client.c:1084-1106 | successes are the sessions that returned zero |
| Session.VerdictMeaning | src/b/control_client.c:1084-1106 | never more attempts or successes than given; zero comes exactly of enough successes or of a success in the last permitted attempt, three exactly of a refused authentication |
| Session.ZeroMeansEnoughWhen | src/b/control_client.c:1086-1106 | zero means the wanted number of successes, whatever the sessions return, if and only if attempts are unlimited or one success is wanted |
| Session.LateSuccessFallsShort | src/b/control_client.c:1087-1106 | for all other limits, the run that returns zero after one success |
| SessionRuns.SessionIsOrderly | src/b/control_client.c:987-1062 | HELLO, then AUTH_NODE, both under session 0; then, only after the server's hello, AUTH_OK and CONFIG_PUSH for one network that is not zero, a ping and messages of the mode under the granted session, frames only of that network |
| SessionRuns.ProperExactly | src/b/control_client.c:957-1068 | what may be sent in a session, in octets |

## Left out

- TokenCode.CheckHexEqualCi: the differences are collected in a boolean instead of being or-ed bit by bit; timing is not modelled.
- Session.RunLoop: a driver without limits never returns, so the model stops observing after an arbitrary number of sessions and then reports no result.
- ControlLoop.Loop.PongReceived: the counters are unbounded; the program's would overflow after 2^31 - 1 answers.
- Kernel.Os.SendMsg: the trace says that sending failed, not how much of the message went out. `Net.SendMsg` proves that it is a proper beginning; the peer makes nothing of it as long as nothing follows (`Delivery.HeardExactly`).
- Address.TcpConnect: a name with several addresses is attempted address by address, every failed socket being closed again before the next; the model shows only the final outcome.
- Name resolution, connecting with a timeout and socket options.
- The TAP device's ioctls, its name and attaching it to a bridge: only success or failure.
- Reading and writing files, the size and read errors of a configuration file, and command line parsing: a file is its text.
- `ntap_config_require_addr` and `ntap_config_get_u16`: single checks on a looked-up value.
- SHA-256, PBKDF2 and random numbers: the digests are arbitrary functions.
- `ntap_encode_socks_close`: the node never sends the four-octet form; its decoding is modelled.
- Logging, error texts, client address texts, the pause between attempts, and the Windows branches.
- The largest descriptor that `select` can watch: sets of descriptors have no bound.
- Fairness: the control connection is always served first, so nothing is claimed about when streams or clients are served.
- The server and the user side of the protocol: only the codecs of the messages they share with the node.
