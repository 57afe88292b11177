# bitcoin-handshake in Dafny

A model of the core of bitcoin-handshake, a Go program that opens a TCP connection to a
Bitcoin testnet node and performs the version/verack handshake of the Bitcoin P2P
protocol, with proofs about it.

The model has these modules:

- `Model` (model.dfy): the program's constants and its data model.
  - The constants are the testnet magic, the protocol version 70015, the node-network
    service bit and the field sizes of a message header.
  - The data model covers the network address, the message header, the version message,
    the decoded payload, the event the receive loop publishes and the error kinds.
- `Bytes` (bytes.dfy): little- and big-endian byte order, and the two's-complement
  reinterpretation between signed and unsigned integers.
  - It also has the zero-padding of a command name to 12 bytes and the trimming of
    trailing NUL bytes.
- `Streams` (streams.dfy): the program's collaborators.
  - An `io.Writer` (and `bytes.Buffer`) whose write calls may fail at given call numbers;
    a pure function `Run` says what a sequence of write calls leaves behind.
  - An `io.Reader` consumed by `io.ReadFull`.
  - The TCP connection.
  - The bounded event channel.
- `Encode` (encode.dfy): service/encode.go.
  - It writes a version payload or a header field by field: each element, the
    variable-length integer, the variable-length string and the network address.
  - Every method is proved against the list of write calls it makes.
  - Lemmas give the resulting byte layout.
- `Decode` (decode.dfy): service/decode.go.
  - `decodeElement` works on a tagged target (the Go code switches on the dynamic type
    of a pointer).
  - `DecodeElements` fills the targets left to right and stops at the first error.
  - Lemmas give the widths read, the round trips against the encoder and the error
    behaviour.
- `Frames` (frames.dfy): `readHeader` and `payloadRead` from core/receive.go.
  - A header read is proved to be the exact inverse of the header the encoder writes.
  - A version payload read is proved to give back a different message than the one
    written; the exact differences are listed below.
- `Client` (client.dfy): client/bitcoin.go.
  - Connecting, writing, cancelling, and one iteration of the receive loop (`receive`).
  - The iteration is specified by a function of the bytes the node has sent.
- `Generator` (generator.dfy): service/generator.go, the version message the program
  introduces itself with.
- `Handshake` (handshake.dfy): the listener of core/receive.go, which turns the messages
  taken from the event channel into signals on the version and verack gates.
- `Core` (core.dfy): core/core.go, core/send.go and the handshake of core/receive.go.
  - Sending the version and verack frames is proved against a frame function.
  - The handshake is proved against a function of the listener's signals.
  - Lemmas tie it all together: the program's handshake succeeds exactly when the client
    is connected, no write fails and exactly one version message arrives before the
    first verack. The node then holds the version frame followed by the verack frame.
  - Lemmas also state how `receive` takes back the frames the program itself sends.

The model follows the code as written, including these behaviours:

- The encoder never writes the version message's `Relay` field, but the decoder reads it.
- The decoder fills `AddrFrom` before `AddrRecv`, while the encoder writes `AddrRecv`
  first. Addresses therefore come back swapped (`Frames.VersionPayloadAsRead`).
- The string case of `decodeElement` reads as many bytes as the target string already
  holds and never changes the target. The user agent is decoded into an empty string, so
  it reads no bytes and comes back empty.
  - The start height is then read from the user agent's length byte and its first three
    bytes, and relay from the fourth. For the program's own message the start height is
    0x65732f0e and relay is true (`Core.GeneratedVersionAsRead`).
- The verack frame is sent with a zero length and a zero checksum. Whether a receiver
  accepts it depends on the double hash of the empty payload, so `Core.VerackFrameReceived`
  states both outcomes.
  - With a real SHA-256 that hash does not start with four zero bytes, so the program's
    own receive loop would publish an invalid-checksum error for such a frame. The hash
    is a parameter of the model, so that last step is not proved.
- A frame with a wrong magic number or a wrong checksum is published as an event that
  carries only the error (client/bitcoin.go:122-129 and 139-146).
- When `payloadRead` fails, `receive` returns without publishing anything
  (client/bitcoin.go:149-152). This includes an unknown command.

## Model

| member | source | states |
|---|---|---|
| Bytes.LE32 | service/encode.go:189-196 | the four bytes written for a uint32 are little-endian: reading them back in that order gives the value |
| Bytes.LE64 | service/encode.go:198-205 | the eight bytes written for a uint64 are little-endian: reading them back gives the value |
| Bytes.LE16 | service/encode.go:165-169 | two little-endian bytes that read back as the value |
| Bytes.Uint32LE | service/decode.go:147-156 | the uint32 read from four bytes is the one whose little-endian form is those bytes |
| Bytes.Uint64LE | service/decode.go:136-145 | the uint64 read from eight bytes is the one whose little-endian form is those bytes |
| Bytes.FromLEOfLE | service/decode.go:147-156 | reading a little-endian number back gives the value written |
| Bytes.LEOfFromLE | service/encode.go:189-205 | writing back a number read from n bytes gives the same n bytes |
| Bytes.BE16 | service/encode.go:151-153 | the port is written as two bytes |
| Bytes.Uint16BE | service/decode.go:125-127 | the port read from two bytes is the one whose big-endian form is those bytes |
| Bytes.Uint16BEOfBE16 | service/decode.go:125-127 | the port is read back exactly as written |
| Bytes.Int32Bits | service/encode.go:64-69 | an int32 is written as the uint32 equal to it modulo 2^32 |
| Bytes.Int32OfBits | service/decode.go:29-43 | an int32 is read as the int32 whose bits are the uint32 read |
| Bytes.Int32OfBitsOfInt32Bits | service/decode.go:29-43 | an int32 survives the trip through its uint32 bits |
| Bytes.Int64Bits | service/encode.go:78-83 | an int64 is written as the uint64 equal to it modulo 2^64 |
| Bytes.Int64OfBits | service/decode.go:45-59 | an int64 is read as the int64 whose bits are the uint64 read |
| Bytes.Int64OfBitsOfInt64Bits | service/decode.go:45-59 | an int64 survives the trip through its uint64 bits |
| Bytes.TrimRightNul | core/receive.go:26 | the command name is a prefix of the field with no trailing NUL, and only NUL bytes were trimmed |
| Bytes.TrimPadCommand | core/receive.go:26 | a name padded with NULs to 12 bytes (as the header is built) trims back to the name |
| Bytes.PadTrimCommand | core/send.go:15 | every 12-byte command field is the NUL padding of its trimmed name |
| Streams.RunAppend | service/encode.go:18-50 | write calls made in two groups leave what the calls made in one go leave; a failure in the first group stops the second |
| Streams.RunTwo | core/send.go:40-50 | the header write, then the payload write only when the header write did not fail |
| Streams.RunStopsAtPrefix | service/encode.go:52-60 | once a write call fails, the calls after it change nothing |
| Streams.RunStep | service/encode.go:52-60 | running the calls one by one composes into the whole run |
| Streams.RunSucceeds | service/encode.go:52-60 | a run of write calls succeeds exactly when none of its calls fails, and then the writer holds the bytes in order |
| Streams.RunFails | service/encode.go:52-60 | the first failing call ends the run with its error and the bytes of the calls before it |
| Streams.ReadFullOf | client/bitcoin.go:105-114 | io.ReadFull: succeeds exactly when n bytes are there; otherwise it reports EOF on an empty stream and an unexpected EOF on a short one |
| Streams.Reader.ReadFull | client/bitcoin.go:105-114 | consumes exactly what ReadFullOf says and returns those bytes |
| Encode.VarIntForm | service/encode.go:158-187 | a variable-length integer takes 1, 3, 5 or 9 bytes by the value's size, with the 0xfd/0xfe/0xff marker, and its bytes after the marker read back as the value |
| Encode.VarStringBytes | service/encode.go:112-120 | a string is written as its length as a variable-length integer followed by its bytes |
| Encode.NetAddressLayout | service/encode.go:136-156 | a network address is 26 bytes (services, sixteen IP bytes, big-endian port), and its timestamp is not written |
| Encode.VersionPayloadLayout | service/encode.go:18-50 | the version payload's bytes field by field, in the encoder's order, with no relay byte |
| Encode.VersionPayloadSize | service/encode.go:18-50 | a version payload is 84 bytes plus the user agent as a variable-length string, whatever relay is |
| Encode.PutLE | service/encode.go:189-205 | the buffer's first n bytes hold the value little-endian and nothing before them changes |
| Encode.PutUint32 | service/encode.go:189-196 | one write call of the value's four little-endian bytes |
| Encode.PutUint64 | service/encode.go:198-205 | one write call of the value's eight little-endian bytes |
| Encode.EncodeElement | service/encode.go:62-110 | one write call of the element's bytes by its type |
| Encode.EncodeElements | service/encode.go:52-60 | the elements' write calls in order, stopping at the first error |
| Encode.EncodeVarIntBuf | service/encode.go:158-187 | the marker and value write calls of a variable-length integer |
| Encode.EncodeVarStringBuf | service/encode.go:112-120 | the length's write calls, then the string's bytes |
| Encode.EncodeVarString | service/encode.go:122-127 | the same write calls as EncodeVarStringBuf, through a fresh buffer |
| Encode.EncodeNetAddressBuf | service/encode.go:136-156 | the write calls of services, IP and port, stopping at the first error |
| Encode.EncodeNetAddress | service/encode.go:129-134 | the same write calls through a fresh buffer |
| Encode.EncodeVersionMessage | service/encode.go:18-50 | the version message's write calls in field order, stopping at the first error |
| Decode.Uint32Of | service/decode.go:147-156 | succeeds exactly when four bytes are there, and then takes four and gives the value whose little-endian bytes they are; otherwise it consumes what is left and gives 0 |
| Decode.Uint64Of | service/decode.go:136-145 | succeeds exactly when eight bytes are there, and then takes eight and gives the value whose little-endian bytes they are; otherwise it consumes what is left and gives 0 |
| Decode.Uint8Of | service/decode.go:158-167 | succeeds exactly when a byte is there, and then takes and gives it; otherwise it gives 0 |
| Decode.NetAddressOf | service/decode.go:106-134 | succeeds exactly when 26 bytes are there, and then gives little-endian services, the sixteen IP bytes and the big-endian port, with no timestamp; a short read consumes what is left and gives the zero address |
| Decode.DecodeElementOf | service/decode.go:27-104 | reads at most what the input holds and fills the target with a value of the target's own type |
| Decode.DecodeElementsOf | service/decode.go:17-25 | reads at most what the input holds and gives one value per target, each of its target's type |
| Decode.DecodeElementsAppend | service/decode.go:17-25 | decoding two lists of targets is decoding the first and, only if it succeeded, the second from where it stopped |
| Decode.DecodeElementsOne | service/decode.go:17-25 | decoding a single target is decodeElement on it |
| Decode.DecodeElementWidth | service/decode.go:27-104 | an element decodes exactly when the input holds its width, and then exactly that width is read |
| Decode.DecodeElementsWidths | service/decode.go:17-25 | a list of targets decodes exactly when the input holds the sum of their widths, and then exactly that is read |
| Decode.Uint32OfLE32 | service/decode.go:147-156 | a uint32 written little-endian reads back, taking four bytes |
| Decode.Uint64OfLE64 | service/decode.go:136-145 | a uint64 written little-endian reads back, taking eight bytes |
| Decode.NetAddressRoundTrip | service/decode.go:106-134 | a network address as the encoder writes it reads back as services, IP and port, with a zero timestamp, in 26 bytes |
| Decode.NetAddressShortRead | service/decode.go:106-134 | reading an address fails exactly when fewer than 26 bytes are left, and then gives the zero address |
| Decode.DecodeElementRoundTrip | service/decode.go:27-104 | an element as the encoder writes it decodes back into a target of its type |
| Decode.DecodeElementsRoundTrip | service/decode.go:17-25 | elements as EncodeElements writes them decode back, in order, consuming exactly their bytes |
| Decode.DecodeElementOnError | service/decode.go:27-104 | a failed read consumes what was left; the target is unchanged, except that a fixed-size byte array takes the bytes that were read |
| Decode.DecodeBool | service/decode.go:61-71 | a bool is one byte, true exactly when it is not zero |
| Decode.DecodeStringLeavesTarget | service/decode.go:98-100 | a string target is never changed; it reads as many bytes as it holds and fails when fewer are left |
| Decode.Uint32 | service/decode.go:147-156 | consumes and returns what Uint32Of says |
| Decode.Uint64 | service/decode.go:136-145 | consumes and returns what Uint64Of says |
| Decode.Uint8 | service/decode.go:158-167 | consumes and returns what Uint8Of says |
| Decode.DecodeNetAddress | service/decode.go:106-134 | consumes and returns what NetAddressOf says |
| Decode.DecodeElement | service/decode.go:27-104 | consumes and returns what DecodeElementOf says |
| Decode.DecodeElements | service/decode.go:17-25 | fills the targets in a loop and consumes and returns what DecodeElementsOf says |
| Frames.HeaderLayout | core/send.go:29-38 | a header is 24 bytes: little-endian magic, the 12-byte command, little-endian length and the checksum |
| Frames.ReadHeaderOf | core/receive.go:20-29 | reads at most what the input holds |
| Frames.ReadHeader | core/receive.go:20-29 | consumes and returns what ReadHeaderOf says |
| Frames.ReadHeaderRoundTrip | core/receive.go:20-29 | a header as written reads back with its fields, taking 24 bytes |
| Frames.ReadHeaderName | core/receive.go:20-29 | a header written with a padded command name reads back with the name itself |
| Frames.ReadHeaderSucceeds | core/receive.go:20-29 | reading a header succeeds exactly when 24 bytes are there, and takes 24 |
| Frames.ReadHeaderPrefix | core/receive.go:20-29 | a header is read from its 24 bytes: the magic, the trimmed command, the length and the checksum |
| Frames.ReadHeaderFields | core/receive.go:20-29 | reading a header succeeds exactly when 24 bytes are there, and then gives each field from its place in the bytes |
| Frames.PayloadReadOf | core/receive.go:30-52 | a payload parses without error only for the version and verack commands (the rest is stated by PayloadReadCommands) |
| Frames.PayloadRead | core/receive.go:30-52 | returns what PayloadReadOf says |
| Frames.VersionWidths | core/receive.go:34-45 | the version message's targets take 85 bytes, the empty user agent none |
| Frames.PayloadReadCommands | core/receive.go:30-52 | a version payload parses exactly when 85 bytes are there; verack is an empty message; every other command is an unknown-command error with no payload |
| Frames.Received | service/decode.go:106-134 | an address comes back with its services and port and a zero timestamp |
| Frames.VersionDecode | core/receive.go:34-45 | the nine targets decode from a version payload field by field |
| Frames.VersionPayloadSplit | service/encode.go:18-50 | a version payload is the fields up to the nonce followed by the user agent |
| Frames.VersionPayloadAsRead | core/receive.go:34-45 | an encoded version message reads back with its version, services, timestamp and nonce, the addresses swapped, an empty user agent, and start height and relay taken from the user agent's bytes |
| Client.PayloadStage | client/bitcoin.go:131-159 | the payload part of receive never disconnects and takes the announced length or all that is left; a short payload publishes nothing; a whole payload whose double hash does not start with the checksum publishes an InvalidMessageChecksum error; a whole payload that matches publishes its message, with the header and the payload read, exactly when the payload reads |
| Client.ReceiveOf | client/bitcoin.go:93-160 | one iteration of receive reads at most what the node has sent |
| Client.ReceiveDisconnects | client/bitcoin.go:105-114 | receive marks the client disconnected exactly when the stream has ended, and then publishes nothing |
| Client.ReceiveShortHeader | client/bitcoin.go:105-114 | a partial header is consumed and dropped without an event |
| Client.ReceiveShortPayload | client/bitcoin.go:131-137 | a right magic with fewer payload bytes than announced consumes everything, publishes nothing and keeps the connection |
| Client.ReceiveWrongMagic | client/bitcoin.go:122-129 | a header with another magic publishes an invalid-magic error and takes only the header |
| Client.ReceiveFrame | client/bitcoin.go:122-159 | a well-formed frame publishes its parsed payload when the checksum is the double hash's first four bytes, an invalid-checksum error otherwise, and nothing when the payload does not parse |
| Client.BitcoinClient.constructor | client/bitcoin.go:28-41 | a client for host and port, not yet connected |
| Client.BitcoinClient.Connect | client/bitcoin.go:43-55 | a failed dial leaves the client disconnected and reports the cause; a successful one connects it |
| Client.BitcoinClient.New | client/bitcoin.go:28-41 | NewBitcoinClient: a connected client, or the dial error and no client |
| Client.BitcoinClient.Write | client/bitcoin.go:65-70 | a write is refused while disconnected; otherwise it is one write call on the connection |
| Client.BitcoinClient.Receive | client/bitcoin.go:93-160 | a disconnected client only reconnects, reads nothing from its old connection and publishes nothing; a connected one consumes and publishes what ReceiveOf says |
| Client.BitcoinClient.ReceivePayload | client/bitcoin.go:131-159 | consumes and publishes what PayloadStage says |
| Client.BitcoinClient.Cancel | client/bitcoin.go:80-86 | on cancellation the connection is closed and the client is disconnected |
| Generator.Nonce | service/generator.go:37 | the nonce is the Unix time, read as a uint64 |
| Generator.GenerateNewVersionMessage | service/generator.go:17-42 | protocol 70015, node-network services everywhere, one timestamp for the message and both addresses, the given addresses and ports, the fixed user agent, start height 0, relay on, and the nonce the Unix time read as a uint64 (equal to it for a time not before 1970) |
| Generator.NonceFromClock | service/generator.go:37 | two nonces are equal exactly when they were taken at the same time |
| Generator.GeneratedPayloadSize | service/generator.go:17-42 | every generated version payload is 99 bytes |
| Handshake.Taken | core/receive.go:54-81 | the listener takes at most the messages that are there |
| Handshake.TakenFirst | core/receive.go:58-77 | the listener takes every message up to and including the first version or verack; it goes on past that version only when the sender takes the version signal, and then with no further version signal taken (the send at core/receive.go:67 blocks) |
| Handshake.TakenWithoutSignal | core/receive.go:58-80 | with neither a version nor a verack the listener takes every message |
| Handshake.ListenStops | core/receive.go:54-81 | the listener gives at most two signals, at most one when the sender takes no version signal, and only the last one can be a verack signal |
| Handshake.SkipOthers | core/receive.go:64-77 | messages that are neither version nor verack make no difference to the signals |
| Handshake.FirstVersion | core/receive.go:54-81 | when the signals are version then verack, the first message that counts is a version |
| Handshake.NextVerack | core/receive.go:54-81 | when only a verack signal remains, the next message that counts is a verack |
| Handshake.ListenHandshake | core/receive.go:54-81 | when the sender takes the version signal, the listener signals version then verack exactly when exactly one version arrives before the first verack, and it then takes the messages up to that verack |
| Core.Port16 | core/send.go:17-20 | a port in range is passed on unchanged as a uint16 |
| Core.Length32 | core/send.go:29-33 | a payload length in range is announced unchanged as a uint32 |
| Core.SendOfWrites | core/send.go:40-50 | a frame is sent exactly when it was encoded, the client is connected and none of its writes fails; it then follows what was written before, and nothing is written on an encoding error or while disconnected |
| Core.HandshakeSucceeds | core/receive.go:99-130 | the handshake succeeds exactly when both frames are encoded, the client is connected, none of the three writes fails and the gates open version then verack; the node then holds version header, payload and verack header |
| Core.HandshakeFails | core/receive.go:99-130 | a version send error comes back unchanged with nothing more written; without the version signal the deadline gives a timeout with only the version frame written; a verack send error comes back unchanged; without the verack signal the deadline gives a timeout after both frames |
| Core.ProgramVersionFrame | core/send.go:12-53 | with the program's encoder the version frame is a 24-byte header with the payload's length and checksum, then the payload |
| Core.ProgramVerackFrame | core/send.go:55-76 | the verack frame is the magic, "verack" padded to 12 bytes, a zero length and a zero checksum |
| Core.VerackName | model/consts.go:11-12 | the command names fit in 12 bytes and do not end in NUL |
| Core.VerackFrameReceived | core/send.go:55-76 | receive takes the program's verack frame as an empty message only when the empty payload's double hash starts with four zero bytes, and as an invalid-checksum error otherwise |
| Core.GeneratedVersionFrame | core/send.go:12-53 | the program's version frame announces 99 bytes and carries the 99-byte payload |
| Core.GeneratedVersionAsRead | core/receive.go:34-45 | the program's version payload reads back with addresses swapped, an empty user agent, start height 0x65732f0e and relay on |
| Core.StartHeightAsRead | core/receive.go:34-45 | the user agent's length byte and first bytes read as start height 0x65732f0e and relay on |
| Core.VersionFrameReceived | client/bitcoin.go:93-160 | receive takes the program's version frame back in 123 bytes and publishes it as GeneratedVersionAsRead says |
| Core.ProgramHandshake | core/receive.go:83-130 | with the sender taking the version signal exactly when its version frame goes out, the program's handshake succeeds exactly when the client is connected, no write fails and exactly one version arrives before the first verack; the node then holds the version frame and the verack frame |
| Core.Core.New | core/core.go:23-36 | the core keeps its encoder, generator and client, with an empty receive channel and the receive loop not started |
| Core.Core.GetReceiveChannel | core/core.go:38-40 | the receive channel, of capacity 10 |
| Core.Core.ReceiveMessages | core/receive.go:14-18 | the receive loop is started once, on the first call only |
| Core.Core.SendVersionMessage | core/send.go:12-53 | sends the version frame as SendOf says |
| Core.Core.SendVerackMessage | core/send.go:55-76 | sends the verack frame as SendOf says |
| Core.Core.ListenReceiveChannel | core/receive.go:54-81 | in a loop, takes the messages the listener takes and gives the signals Listen says, stopping at the verack or at a version signal the sender will not take |
| Core.Core.SendHandshakeMessages | core/receive.go:99-130 | writes and returns what HandshakeOf says for the given signals, whose success and failure outcomes HandshakeSucceeds and HandshakeFails state |
| Core.Core.Handshake | core/receive.go:83-97 | runs the listener over the messages in the channel, with the sender taking the version signal exactly when its version frame goes out, and the sender over its signals, with the outcomes HandshakeSucceeds and HandshakeFails state; leaves the messages the listener did not take; returns the elapsed time only on success |

## Left out

- The double SHA-256 (utils/hash.go) is a parameter `hash`, so nothing is proved about its values. `net.ParseIP` is a parameter of the generator, and `net.Dial` is the parameter `dial`.
- The clock is a parameter. A single time value stands for every `time.Now()` call of one message, and the elapsed time of a handshake is given.
- The `binary.Write` fallback of `encodeElement` and the `binary.Read` fallback of `decodeElement` are not modelled. The program never calls them with the types it uses.
- Goroutines, the ticker of `ReceiveMsg` and logging are not modelled. Of `ReceiveMsg`, only the cancellation branch (`Cancel`) and one iteration of the loop (`Receive`) are modelled.
- The listener and the sender of a handshake run concurrently in the source. The model runs the listener over the messages in the channel and hands its signals to the sender. A missing signal stands for the context's deadline, which ends the handshake with a timeout. The gate channels are unbuffered and the listener's sends on them are not guarded by the deadline: a signal nobody receives blocks the listener for good. The sender receives the version signal only after its version frame went out and only once, so the model works out from the version send whether the sender takes that signal, and the listener stops at a version signal nobody takes.
- The channel's capacity is recorded but not enforced: a publish on a full channel, which blocks in Go, is not modelled.
- Transport errors other than the end of the stream are not modelled. Reading is `io.ReadFull` over the bytes the node has sent.
- Encoder errors are modelled as write calls that fail at given call numbers.
- A failing write call writes nothing. A partial write that delivers some bytes and then fails, which `conn.Write` can report, is not modelled.
- `connectOnce` is never called and is not modelled. `GetNodeHost` and `GetNodePort` only return fields.
- Decode.DecodeElementOf: its contract bounds the bytes read and the kind of value filled. Exactly what is read is stated by DecodeElementWidth, DecodeElementRoundTrip and DecodeElementOnError.
- Frames.ReadHeaderOf: its contract only bounds the bytes read. The fields are stated by ReadHeaderFields and ReadHeaderRoundTrip.
- Client.ReceiveOf: its contract only bounds the bytes read. The branches are stated by ReceiveDisconnects, ReceiveShortHeader, ReceiveWrongMagic, ReceiveShortPayload and ReceiveFrame.
- Decode.DecodeElementsOf: its contract gives only the bound on the bytes read, one value per target and their kinds. The values are stated by DecodeElementsRoundTrip, DecodeElementsWidths, DecodeElementsAppend and DecodeElementsOne.
- Frames.PayloadReadOf: its contract says only which commands can parse. The payload of each command is stated by PayloadReadCommands and VersionPayloadAsRead.
- Handshake.Taken: its contract only bounds the count. TakenFirst, TakenWithoutSignal and ListenHandshake state it.
- Core.Core.New: the Go constructor also takes a decoder, and readHeader and payloadRead call through it. The model has no decoder field: reading always uses the Decode module, which models the program's DecodeService. A substitute decoder, such as a test double, is not modelled.
