// Message frames (core/send.go, core/receive.go): the 24-byte header the sender writes
// in front of a payload, readHeader and payloadRead, which turn received bytes back
// into a header and a payload, and what one frame from the node amounts to.
module Frames {
  import opened Model
  import opened Bytes
  import opened Streams
  import Encode
  import opened Decode

  /** The checksum of a payload: the first four bytes of its double SHA-256 */
  function ChecksumOf(hash: seq<byte> -> Digest, payload: seq<byte>): Bytes4
  {
    hash(payload)[..ChecksumSize]
  }

  /** The header fields as EncodeElements writes them, the command as a NUL-padded [12]byte */
  function HeaderElements(magic: uint32, command: Bytes12, length: uint32, checksum: Bytes4): seq<Encode.Element>
  {
    [Encode.U32(magic), Encode.Command(command), Encode.U32(length), Encode.Checksum(checksum)]
  }

  function HeaderBytes(magic: uint32, command: Bytes12, length: uint32, checksum: Bytes4): seq<byte>
  {
    Flatten(Encode.ElementsChunks(HeaderElements(magic, command, length, checksum)))
  }

  lemma FlattenFour(a: seq<byte>, b: seq<byte>, c: seq<byte>, d: seq<byte>)
    ensures Flatten([a, b, c, d]) == a + b + c + d
  {
    assert [a, b, c, d][1..] == [b, c, d];
    FlattenThree(b, c, d);
  }

  /** A header is 24 bytes: little-endian magic, the padded command, little-endian length, checksum */
  lemma HeaderLayout(magic: uint32, command: Bytes12, length: uint32, checksum: Bytes4)
    ensures HeaderBytes(magic, command, length, checksum) == LE32(magic) + command + LE32(length) + checksum
    ensures |HeaderBytes(magic, command, length, checksum)| == 24
  {
    assert Encode.ElementsChunks(HeaderElements(magic, command, length, checksum)) ==
           [LE32(magic), command, LE32(length), checksum];
    FlattenFour(LE32(magic), command, LE32(length), checksum);
  }

  /** The variables readHeader decodes into: the magic, a [12]byte command, the length, the checksum */
  const HeaderTargets: seq<Target> :=
    [U32(0), Command([0, 0, 0, 0, 0, 0, 0, 0, 0, 0, 0, 0]), U32(0), Checksum([0, 0, 0, 0])]

  /**
   * readHeader: the four fields decoded in order; the command is the [12]byte with its
   * trailing NULs trimmed, whether or not the decoding failed.
   */
  function ReadHeaderOf(s: seq<byte>): (r: Step<MessageHeader>)
    ensures r.used <= |s|
  {
    var d := DecodeElementsOf(s, HeaderTargets);
    Step(MessageHeader(d.value[0].u32, TrimRightNul(d.value[1].b12), d.value[2].u32, d.value[3].b4), d.used, d.err)
  }

  method ReadHeader(r: Reader) returns (hdr: MessageHeader, err: Option<Error>)
    modifies r
    ensures var d := ReadHeaderOf(old(r.rest)); hdr == d.value && err == d.err && r.rest == old(r.rest)[d.used..]
  {
    var v;
    v, err := DecodeElements(r, HeaderTargets);
    hdr := MessageHeader(v[0].u32, TrimRightNul(v[1].b12), v[2].u32, v[3].b4);
  }

  /**
   * Reading back a header that was written gives its fields, the command without its
   * padding, and consumes exactly its 24 bytes.
   */
  lemma ReadHeaderRoundTrip(magic: uint32, command: Bytes12, length: uint32, checksum: Bytes4, rest: seq<byte>)
    ensures ReadHeaderOf(HeaderBytes(magic, command, length, checksum) + rest) ==
            Step(MessageHeader(magic, TrimRightNul(command), length, checksum), 24, None)
  {
    var es := HeaderElements(magic, command, length, checksum);
    HeaderLayout(magic, command, length, checksum);
    DecodeElementsRoundTrip(es, HeaderTargets, rest);
    var d := DecodeElementsOf(HeaderBytes(magic, command, length, checksum) + rest, HeaderTargets);
    assert d == Step(TargetsOf(es), 24, None);
    assert es[0] == Encode.U32(magic) && es[1] == Encode.Command(command);
    assert es[2] == Encode.U32(length) && es[3] == Encode.Checksum(checksum);
  }

  /** A command name of at most 12 bytes that does not end in NUL survives the padding and the trimming */
  lemma ReadHeaderName(magic: uint32, name: seq<byte>, length: uint32, checksum: Bytes4, rest: seq<byte>)
    requires |name| <= CommandSize && (name == [] || name[|name| - 1] != 0)
    ensures ReadHeaderOf(HeaderBytes(magic, PadCommand(name), length, checksum) + rest) ==
            Step(MessageHeader(magic, name, length, checksum), 24, None)
  {
    ReadHeaderRoundTrip(magic, PadCommand(name), length, checksum, rest);
    TrimPadCommand(name);
  }

  /** readHeader succeeds exactly when 24 bytes are available, and then takes those 24 */
  lemma ReadHeaderSucceeds(s: seq<byte>)
    ensures ReadHeaderOf(s).err.None? <==> |s| >= 24
    ensures ReadHeaderOf(s).err.None? ==> ReadHeaderOf(s).used == 24
  {
    assert Widths(HeaderTargets) == 24;
    DecodeElementsWidths(s, HeaderTargets);
  }

  /** With 24 bytes or more available, the header is read from the first 24 of them */
  lemma ReadHeaderPrefix(s: seq<byte>)
    requires |s| >= 24
    ensures ReadHeaderOf(s) ==
            Step(MessageHeader(Uint32LE(s[..4]), TrimRightNul(s[4..16]), Uint32LE(s[16..20]), s[20..24]), 24, None)
  {
    var magic, command, length, checksum := Uint32LE(s[..4]), s[4..16], Uint32LE(s[16..20]), s[20..24];
    HeaderLayout(magic, command, length, checksum);
    assert s == HeaderBytes(magic, command, length, checksum) + s[24..];
    ReadHeaderRoundTrip(magic, command, length, checksum, s[24..]);
  }

  /**
   * readHeader succeeds exactly when 24 bytes are available, and then the header is
   * read from the first 24 of them.
   */
  lemma ReadHeaderFields(s: seq<byte>)
    ensures ReadHeaderOf(s).err.None? <==> |s| >= 24
    ensures |s| >= 24 ==>
              ReadHeaderOf(s) ==
              Step(MessageHeader(Uint32LE(s[..4]), TrimRightNul(s[4..16]), Uint32LE(s[16..20]), s[20..24]), 24, None)
  {
    ReadHeaderSucceeds(s);
    if |s| >= 24 {
      ReadHeaderPrefix(s);
    }
  }

  /** What payloadRead returns: the payload (nil, a VersionMessage or an EmptyMessage) and the error */
  datatype Parsed = Parsed(payload: Payload, err: Option<Error>)

  /**
   * The variables payloadRead decodes a version message into, in its order: version,
   * services, timestamp, AddrFrom, AddrRecv, nonce, user agent, start height, relay.
   */
  const VersionTargets: seq<Target> :=
    [I32(0), U64(0), I64(0), Addr(ZeroNetAddress), Addr(ZeroNetAddress), U64(0), Str([]), I32(0), Bool(false)]

  /** The message payloadRead builds from what DecodeElements filled in */
  function VersionOf(v: seq<Target>): VersionMessage
    requires |v| == 9 && v[0].I32? && v[1].U64? && v[2].I64? && v[3].Addr? && v[4].Addr?
    requires v[5].U64? && v[6].Str? && v[7].I32? && v[8].Bool?
  {
    VersionMessage(v[0].i32, v[1].u64, v[2].i64, v[4].na, v[3].na, v[5].u64, v[6].s, v[7].i32, v[8].b)
  }

  /**
   * payloadRead: a version command decodes the payload (returning the partly filled
   * message with a decoding error), verack gives an EmptyMessage, and any other command
   * is an unknown-command error with a nil payload.
   */
  function PayloadReadOf(s: seq<byte>, hdr: MessageHeader): (r: Parsed)
    ensures r.err.None? ==> hdr.command in {VersionCmd, VerackCmd}
  {
    if hdr.command == VersionCmd then
      var d := DecodeElementsOf(s, VersionTargets);
      Parsed(Version(VersionOf(d.value)), d.err)
    else if hdr.command == VerackCmd then Parsed(Empty, None)
    else Parsed(NoPayload, Some(UnknownCommand(hdr.command)))
  }

  method PayloadRead(r: Reader, hdr: MessageHeader) returns (payload: Payload, err: Option<Error>)
    modifies r
    ensures var p := PayloadReadOf(old(r.rest), hdr); payload == p.payload && err == p.err
  {
    if hdr.command == VersionCmd {
      var v;
      v, err := DecodeElements(r, VersionTargets);
      payload := Version(VersionOf(v));
    } else if hdr.command == VerackCmd {
      payload, err := Empty, None;
    } else {
      payload, err := NoPayload, Some(UnknownCommand(hdr.command));
    }
  }

  lemma VersionWidths()
    ensures Widths(VersionTargets) == 85
  {
    var ts := VersionTargets;
    assert Widths(ts[8..]) == 1 by { assert ts[8..][1..] == []; }
    assert Widths(ts[7..]) == 5 by { assert ts[7..][1..] == ts[8..]; }
    assert Widths(ts[6..]) == 5 by { assert ts[6..][1..] == ts[7..]; }
    assert Widths(ts[5..]) == 13 by { assert ts[5..][1..] == ts[6..]; }
    assert Widths(ts[4..]) == 39 by { assert ts[4..][1..] == ts[5..]; }
    assert Widths(ts[3..]) == 65 by { assert ts[3..][1..] == ts[4..]; }
    assert Widths(ts[2..]) == 73 by { assert ts[2..][1..] == ts[3..]; }
    assert Widths(ts[1..]) == 81 by { assert ts[1..][1..] == ts[2..]; }
    assert ts[0..] == ts;
  }

  /**
   * The commands payloadRead knows: verack needs no bytes at all, a version payload
   * needs 85 bytes (the user agent target is empty, so it reads none), and every other
   * command is refused by name.
   */
  lemma PayloadReadCommands(s: seq<byte>, hdr: MessageHeader)
    ensures hdr.command == VersionCmd ==>
            PayloadReadOf(s, hdr).payload.Version? && (PayloadReadOf(s, hdr).err.None? <==> |s| >= 85)
    ensures hdr.command == VerackCmd ==> PayloadReadOf(s, hdr) == Parsed(Empty, None)
    ensures hdr.command !in {VersionCmd, VerackCmd} ==>
            PayloadReadOf(s, hdr) == Parsed(NoPayload, Some(UnknownCommand(hdr.command)))
  {
    VersionWidths();
    DecodeElementsWidths(s, VersionTargets);
  }

  /** An address as the decoder gives it back: no timestamp, and a nil IP as sixteen zero bytes */
  function Received(na: NetAddress): (r: NetAddress)
    ensures r.services == na.services && r.port == na.port && r.timestamp == 0
  {
    NetAddress(0, na.services, Some(Encode.IPBytes(na.ip)), na.port)
  }

  /** The bytes of a version payload after the nonce: the user agent as a var-string, the start height */
  function AfterNonce(m: VersionMessage, rest: seq<byte>): (r: seq<byte>)
    requires |m.userAgent| <= Encode.MaxLen
    ensures |r| >= 5
  {
    Encode.VarIntForm(|m.userAgent| as uint64);
    Encode.VarInt(|m.userAgent| as uint64) + m.userAgent + LE32(Int32Bits(m.startHeight)) + rest
  }

  /** The chunks the version decoding reads, when the bytes after the nonce are `tail` */
  function VersionReadChunks(m: VersionMessage, tail: seq<byte>): (c: seq<seq<byte>>)
    requires |tail| >= 5
    ensures |c| == 9
  {
    [LE32(Int32Bits(m.version)), LE64(m.services), LE64(Int64Bits(m.timestamp)),
     Encode.NetAddressBytes(m.addrRecv), Encode.NetAddressBytes(m.addrFrom), LE64(m.nonce),
     [], tail[..4], tail[4..5]]
  }

  /** The values the version decoding gives, when the bytes after the nonce are `tail` */
  function VersionReadValues(m: VersionMessage, tail: seq<byte>): (v: seq<Target>)
    requires |tail| >= 5
    ensures |v| == 9
  {
    [I32(m.version), U64(m.services), I64(m.timestamp), Addr(Received(m.addrRecv)),
     Addr(Received(m.addrFrom)), U64(m.nonce), Str([]), I32(Int32OfBits(Uint32LE(tail[..4]))),
     Bool(tail[4] != 0)]
  }

  /** One target of the version decoding read from its chunk, whatever follows */
  lemma VersionChunk(k: nat, m: VersionMessage, tail: seq<byte>, more: seq<byte>)
    requires k < 9 && |tail| >= 5
    ensures var chunks, vs := VersionReadChunks(m, tail), VersionReadValues(m, tail);
            DecodeElementOf(chunks[k] + more, VersionTargets[k]) == Step(vs[k], |chunks[k]|, None)
  {
    var chunks, vs := VersionReadChunks(m, tail), VersionReadValues(m, tail);
    if k == 0 {
      DecodeElementRoundTrip(Encode.I32(m.version), VersionTargets[k], more);
    } else if k == 1 {
      DecodeElementRoundTrip(Encode.U64(m.services), VersionTargets[k], more);
    } else if k == 2 {
      DecodeElementRoundTrip(Encode.I64(m.timestamp), VersionTargets[k], more);
    } else if k == 3 {
      NetAddressRoundTrip(m.addrRecv, more);
      Encode.NetAddressLayout(m.addrRecv, 0);
      assert VersionTargets[k] == Addr(ZeroNetAddress);
    } else if k == 4 {
      NetAddressRoundTrip(m.addrFrom, more);
      Encode.NetAddressLayout(m.addrFrom, 0);
      assert VersionTargets[k] == Addr(ZeroNetAddress);
    } else if k == 5 {
      DecodeElementRoundTrip(Encode.U64(m.nonce), VersionTargets[k], more);
    } else if k == 6 {
      assert [] + more == more;
    } else if k == 7 {
      DecodeElementRoundTrip(Encode.I32(Int32OfBits(Uint32LE(tail[..4]))), VersionTargets[k], more);
    } else {
      assert tail[4..5] == [tail[4]];
      DecodeBool(tail[4], more, false);
    }
  }

  lemma FlattenNine(c: seq<seq<byte>>)
    requires |c| == 9
    ensures Flatten(c) == (c[0] + c[1] + c[2]) + (c[3] + c[4] + c[5]) + (c[6] + c[7] + c[8])
  {
    assert c == [c[0], c[1], c[2]] + [c[3], c[4], c[5]] + [c[6], c[7], c[8]];
    FlattenAppend([c[0], c[1], c[2]] + [c[3], c[4], c[5]], [c[6], c[7], c[8]]);
    FlattenAppend([c[0], c[1], c[2]], [c[3], c[4], c[5]]);
    FlattenThree(c[0], c[1], c[2]);
    FlattenThree(c[3], c[4], c[5]);
    FlattenThree(c[6], c[7], c[8]);
  }

  lemma Regroup(a: seq<byte>, b: seq<byte>, tail: seq<byte>)
    requires |tail| >= 5
    ensures a + b + ([] + tail[..4] + tail[4..5]) + tail[5..] == a + b + tail
  {
    assert [] + tail[..4] + tail[4..5] + tail[5..] == tail;
  }

  /** The first 80 bytes of a version payload: the fixed fields up to the nonce */
  function UpToNonce(m: VersionMessage): seq<byte>
  {
    LE32(Int32Bits(m.version)) + LE64(m.services) + LE64(Int64Bits(m.timestamp))
    + (Encode.NetAddressBytes(m.addrRecv) + Encode.NetAddressBytes(m.addrFrom) + LE64(m.nonce))
  }

  /** Decoding the version targets from the fixed fields and then any five or more bytes */
  lemma VersionDecode(m: VersionMessage, tail: seq<byte>)
    requires |tail| >= 5
    ensures DecodeElementsOf(UpToNonce(m) + tail, VersionTargets).value == VersionReadValues(m, tail)
    ensures DecodeElementsOf(UpToNonce(m) + tail, VersionTargets).err == None
  {
    var chunks, vs := VersionReadChunks(m, tail), VersionReadValues(m, tail);
    forall k, more | 0 <= k < 9
      ensures DecodeElementOf(chunks[k] + more, VersionTargets[k]) == Step(vs[k], |chunks[k]|, None)
    {
      VersionChunk(k, m, tail, more);
    }
    FoldInverts(DecodeElementOf, chunks, VersionTargets, vs, tail[5..]);
    FlattenNine(chunks);
    var a := LE32(Int32Bits(m.version)) + LE64(m.services) + LE64(Int64Bits(m.timestamp));
    var b := Encode.NetAddressBytes(m.addrRecv) + Encode.NetAddressBytes(m.addrFrom) + LE64(m.nonce);
    Regroup(a, b, tail);
    assert a + b + tail == UpToNonce(m) + tail;
  }

  /** A version payload is its fixed fields followed by the bytes after the nonce */
  lemma VersionPayloadSplit(m: VersionMessage, rest: seq<byte>)
    requires |m.userAgent| <= Encode.MaxLen
    ensures Encode.VersionPayload(m) + rest == UpToNonce(m) + AfterNonce(m, rest)
  {
    Encode.VersionPayloadLayout(m);
  }

  /**
   * payloadRead applied to an encoded version payload, as the two halves of the codec
   * are written: version, services, timestamp and nonce come back, but the two
   * addresses come back swapped (the encoder writes AddrRecv first, the decoder fills
   * AddrFrom first), the user agent comes back empty (an empty string target reads no
   * bytes), the start height is read from the four bytes where the user agent's length
   * begins, and relay, which the encoder never writes, from the byte after them.
   */
  lemma VersionPayloadAsRead(m: VersionMessage, rest: seq<byte>, hdr: MessageHeader)
    requires |m.userAgent| <= Encode.MaxLen && hdr.command == VersionCmd
    ensures var tail := AfterNonce(m, rest);
            PayloadReadOf(Encode.VersionPayload(m) + rest, hdr) ==
            Parsed(Version(VersionMessage(m.version, m.services, m.timestamp, Received(m.addrFrom), Received(m.addrRecv),
                                          m.nonce, [], Int32OfBits(Uint32LE(tail[..4])), tail[4] != 0)), None)
  {
    VersionPayloadSplit(m, rest);
    VersionDecode(m, AfterNonce(m, rest));
  }
}
