// The version message the program introduces itself with (service/generator.go).
// The clock is a parameter: `now` is the Unix time every time.Now() call reads, and
// net.ParseIP is a function the generator is given.
module Generator {
  import opened Model
  import opened Bytes
  import Encode

  /** "/sensei:0.0.1/" */
  const UserAgent: seq<byte> := [0x2f, 0x73, 0x65, 0x6e, 0x73, 0x65, 0x69, 0x3a, 0x30, 0x2e, 0x30, 0x2e, 0x31, 0x2f]

  /** MessageGenerator, with net.ParseIP: the 16-byte form of a textual address, or None (a nil IP) */
  datatype MessageGenerator = MessageGenerator(parseIP: seq<byte> -> Option<Bytes16>)

  /** The nonce is the Unix time reinterpreted as a uint64 */
  function Nonce(now: int64): (n: uint64)
    ensures now >= 0 ==> n as int == now as int
  {
    Int64Bits(now)
  }

  /**
   * GenerateNewVersionMessage: protocol version 70015 with the node-network service,
   * both addresses stamped with the same time and advertising the same service, the
   * fixed user agent, start height 0 and relay set.
   */
  function GenerateNewVersionMessage(g: MessageGenerator, remoteHost: seq<byte>, remotePort: uint16,
                                     localHost: seq<byte>, localPort: uint16, now: int64): (m: VersionMessage)
    ensures m.addrRecv.ip == g.parseIP(remoteHost) && m.addrRecv.port == remotePort
    ensures m.addrFrom.ip == g.parseIP(localHost) && m.addrFrom.port == localPort
    ensures m.timestamp == m.addrRecv.timestamp == m.addrFrom.timestamp == now
    ensures m.services == m.addrRecv.services == m.addrFrom.services == ServiceNodeNetwork
    ensures m.nonce == Nonce(now)
    ensures m.version == ProtocolVersion && m.userAgent == UserAgent && m.startHeight == 0 && m.relay
  {
    VersionMessage(
      ProtocolVersion,
      ServiceNodeNetwork,
      now,
      NetAddress(now, ServiceNodeNetwork, g.parseIP(remoteHost), remotePort),
      NetAddress(now, ServiceNodeNetwork, g.parseIP(localHost), localPort),
      Nonce(now),
      UserAgent,
      0,
      true)
  }

  /** Two messages generated at different times have different nonces; at the same time the same one */
  lemma NonceFromClock(t1: int64, t2: int64)
    ensures Nonce(t1) == Nonce(t2) <==> t1 == t2
  {
    if Nonce(t1) == Nonce(t2) {
      Int64OfBitsOfInt64Bits(t1);
      Int64OfBitsOfInt64Bits(t2);
    }
  }

  /**
   * Every generated version payload is 99 bytes: the 84 fixed bytes, the one-byte
   * length of the user agent and its 14 bytes.
   */
  lemma GeneratedPayloadSize(g: MessageGenerator, remoteHost: seq<byte>, remotePort: uint16,
                             localHost: seq<byte>, localPort: uint16, now: int64)
    ensures |Encode.VersionPayload(GenerateNewVersionMessage(g, remoteHost, remotePort, localHost, localPort, now))| == 99
  {
    var m := GenerateNewVersionMessage(g, remoteHost, remotePort, localHost, localPort, now);
    Encode.VersionPayloadSize(m, true);
    Encode.VarIntForm(14);
  }
}
