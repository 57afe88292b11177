// Data types, constants and errors of the handshake (model/common.go, model/version.go,
// model/consts.go, model/errors.go). Go strings are byte strings, so every string of
// the program is a seq<byte> here.
module Model {

  newtype byte = x: int | 0 <= x < 0x100
  newtype uint16 = x: int | 0 <= x < 0x1_0000
  newtype uint32 = x: int | 0 <= x < 0x1_0000_0000
  newtype uint64 = x: int | 0 <= x < 0x1_0000_0000_0000_0000
  newtype int32 = x: int | -0x8000_0000 <= x < 0x8000_0000
  newtype int64 = x: int | -0x8000_0000_0000_0000 <= x < 0x8000_0000_0000_0000

  /** Go's [4]byte, [12]byte and [16]byte arrays */
  type Bytes4 = s: seq<byte> | |s| == 4 witness [0, 0, 0, 0]
  type Bytes12 = s: seq<byte> | |s| == 12 witness [0, 0, 0, 0, 0, 0, 0, 0, 0, 0, 0, 0]
  type Bytes16 = s: seq<byte> | |s| == 16 witness [0, 0, 0, 0, 0, 0, 0, 0, 0, 0, 0, 0, 0, 0, 0, 0]

  /** Output of the double SHA-256 used for checksums */
  type Digest = s: seq<byte> | |s| == 32 witness seq(32, _ => 0)

  datatype Option<+T> = None | Some(value: T)

  datatype Result<+T> = Ok(value: T) | Err(error: Error)

  const MagicSize := 4
  const CommandSize := 12
  const LengthSize := 4
  const ChecksumSize := 4

  /** "version" */
  const VersionCmd: seq<byte> := [0x76, 0x65, 0x72, 0x73, 0x69, 0x6f, 0x6e]
  /** "verack" */
  const VerackCmd: seq<byte> := [0x76, 0x65, 0x72, 0x61, 0x63, 0x6b]

  const ProtocolVersion: int32 := 70015
  /** The testnet magic number, the only network the program speaks to */
  const TestNetMagic: uint32 := 0x0709110B
  const ServiceNodeNetwork: uint64 := 1

  /**
   * The errors the core returns or publishes. `Failure` stands for an error made by a
   * collaborator the model does not see inside (a transport, a dialer, a stand-in
   * encoder); tests only ever compare such errors for identity.
   */
  datatype Error =
    | ContextTimeout
    | ConnectionClosed
    | InvalidMessageChecksum
    | InvalidMagicNumber
    | EOF                                 // io.EOF: nothing could be read
    | UnexpectedEOF                       // io.ErrUnexpectedEOF: the stream ended mid-read
    | ConnectFailed(cause: Error)         // "failed to connect: %w"
    | UnknownCommand(command: seq<byte>)  // "unknown command, can't parse payload: %s"
    | Failure(code: int)

  /** A peer address; `ip` is None for a nil net.IP and otherwise its 16-byte form */
  datatype NetAddress = NetAddress(timestamp: int64, services: uint64, ip: Option<Bytes16>, port: uint16)

  const ZeroNetAddress := NetAddress(0, 0, None, 0)

  datatype MessageHeader = MessageHeader(magic: uint32, command: seq<byte>, length: uint32, checksum: Bytes4)

  const ZeroHeader := MessageHeader(0, [], 0, [0, 0, 0, 0])

  datatype VersionMessage = VersionMessage(
    version: int32,
    services: uint64,
    timestamp: int64,
    addrRecv: NetAddress,
    addrFrom: NetAddress,
    nonce: uint64,
    userAgent: seq<byte>,
    startHeight: int32,
    relay: bool)

  /** The dynamic `any` payload of a received message: nil, a VersionMessage or an EmptyMessage */
  datatype Payload = NoPayload | Version(msg: VersionMessage) | Empty

  /** MessageFromNode: what the receive loop publishes on the channel */
  datatype Event = Event(header: MessageHeader, payload: Payload, error: Option<Error>)
}
