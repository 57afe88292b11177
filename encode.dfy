// The encoding half of the codec (service/encode.go). Every encoder is a method that
// makes a fixed sequence of write calls on an io.Writer and returns at the first one
// that fails; its contract ties the writer's new state and the error to Run applied to
// the chunks the encoding consists of, and lemmas say what those bytes are.
module Encode {
  import opened Model
  import opened Bytes
  import opened Streams

  /** The largest length of a Go string or slice */
  const MaxLen: nat := 0x7fff_ffff_ffff_ffff

  /** The values encodeElement handles itself (the binary.Write fallback is not modelled) */
  datatype Element =
    | I32(i32: int32)
    | U32(u32: uint32)
    | I64(i64: int64)
    | U64(u64: uint64)
    | Checksum(b4: Bytes4)   // the [4]byte header checksum
    | Command(b12: Bytes12)  // the [12]byte header command

  /** The single write encodeElement makes for an element */
  function ElementBytes(e: Element): seq<byte>
  {
    match e
    case I32(i) => LE32(Int32Bits(i))
    case U32(u) => LE32(u)
    case I64(i) => LE64(Int64Bits(i))
    case U64(u) => LE64(u)
    case Checksum(b) => b
    case Command(b) => b
  }

  /** The writes EncodeElements makes: one per element, left to right */
  function ElementsChunks(es: seq<Element>): seq<seq<byte>>
  {
    seq(|es|, i requires 0 <= i < |es| => ElementBytes(es[i]))
  }

  /** The writes encodeVarIntBuf makes for a CompactSize integer */
  function VarIntChunks(v: uint64): seq<seq<byte>>
  {
    if v < 0xfd then [[v as int as byte]]
    else if v <= 0xffff then [[0xfd] + LE16(v as int as uint16)]
    else if v <= 0xffff_ffff then [[0xfe] + LE32(v as int as uint32)]
    else [[0xff], LE64(v)]
  }

  function VarInt(v: uint64): seq<byte>
  {
    Flatten(VarIntChunks(v))
  }

  /**
   * The CompactSize form is 1, 3, 5 or 9 bytes, the shortest one that holds the value:
   * a value below 0xfd is its own single byte, any other value follows its marker
   * byte as little-endian bytes.
   */
  lemma VarIntForm(v: uint64)
    ensures |VarInt(v)| == 1 <==> v < 0xfd
    ensures |VarInt(v)| == 3 <==> 0xfd <= v <= 0xffff
    ensures |VarInt(v)| == 5 <==> 0xffff < v <= 0xffff_ffff
    ensures |VarInt(v)| == 9 <==> 0xffff_ffff < v
    ensures v < 0xfd ==> VarInt(v) == [v as int as byte]
    ensures v >= 0xfd ==> VarInt(v)[0] == (if v <= 0xffff then 0xfd else if v <= 0xffff_ffff then 0xfe else 0xff)
    ensures v >= 0xfd ==> FromLE(VarInt(v)[1..]) == v as int
  {
    var c := VarIntChunks(v);
    if v <= 0xffff_ffff {
      FlattenOne(c[0]);
    } else {
      FlattenTwo([0xff], LE64(v));
    }
  }

  /** The writes encodeVarStringBuf makes: the length as a CompactSize, then the bytes */
  function VarStringChunks(s: seq<byte>): seq<seq<byte>>
    requires |s| <= MaxLen
  {
    VarIntChunks(|s| as uint64) + [s]
  }

  lemma VarStringBytes(s: seq<byte>)
    requires |s| <= MaxLen
    ensures Flatten(VarStringChunks(s)) == VarInt(|s| as uint64) + s
  {
    FlattenAppend(VarIntChunks(|s| as uint64), [s]);
  }

  /** The 16 address bytes written for an IP: all zero for a nil IP */
  function IPBytes(ip: Option<Bytes16>): Bytes16
  {
    match ip
    case None => Zeros(16)
    case Some(b) => b
  }

  /** The writes encodeNetAddressBuf makes: services, address, port */
  function NetAddressChunks(na: NetAddress): seq<seq<byte>>
  {
    [LE64(na.services), IPBytes(na.ip), BE16(na.port)]
  }

  function NetAddressBytes(na: NetAddress): seq<byte>
  {
    Flatten(NetAddressChunks(na))
  }

  /**
   * An address is always 26 bytes: little-endian services, the 16 address bytes and
   * the big-endian port; its timestamp is never written.
   */
  lemma NetAddressLayout(na: NetAddress, t: int64)
    ensures NetAddressBytes(na) == LE64(na.services) + IPBytes(na.ip) + BE16(na.port)
    ensures |NetAddressBytes(na)| == 26
    ensures NetAddressBytes(na.(timestamp := t)) == NetAddressBytes(na)
  {
    FlattenThree(LE64(na.services), IPBytes(na.ip), BE16(na.port));
  }

  /** The writes EncodeVersionMessage makes, in order */
  function VersionChunks(m: VersionMessage): seq<seq<byte>>
    requires |m.userAgent| <= MaxLen
  {
    ElementsChunks([I32(m.version), U64(m.services), I64(m.timestamp)])
    + (NetAddressChunks(m.addrRecv)
    + (NetAddressChunks(m.addrFrom)
    + ([ElementBytes(U64(m.nonce))]
    + (VarStringChunks(m.userAgent)
    + [ElementBytes(I32(m.startHeight))]))))
  }

  /** The encoded version payload */
  function VersionPayload(m: VersionMessage): seq<byte>
    requires |m.userAgent| <= MaxLen
  {
    Flatten(VersionChunks(m))
  }

  /**
   * The version payload is version, services, timestamp, the receiving address, the
   * sending address, nonce, user agent and start height, in that order.
   */
  lemma VersionPayloadLayout(m: VersionMessage)
    requires |m.userAgent| <= MaxLen
    ensures VersionPayload(m) ==
            LE32(Int32Bits(m.version)) + LE64(m.services) + LE64(Int64Bits(m.timestamp))
            + NetAddressBytes(m.addrRecv) + NetAddressBytes(m.addrFrom)
            + LE64(m.nonce) + VarInt(|m.userAgent| as uint64) + m.userAgent
            + LE32(Int32Bits(m.startHeight))
  {
    var p1 := ElementsChunks([I32(m.version), U64(m.services), I64(m.timestamp)]);
    var p2 := NetAddressChunks(m.addrRecv);
    var p3 := NetAddressChunks(m.addrFrom);
    var p4 := [ElementBytes(U64(m.nonce))];
    var p5 := VarStringChunks(m.userAgent);
    var p6 := [ElementBytes(I32(m.startHeight))];
    var b1, b2, b3 := LE32(Int32Bits(m.version)) + LE64(m.services) + LE64(Int64Bits(m.timestamp)),
                      NetAddressBytes(m.addrRecv), NetAddressBytes(m.addrFrom);
    var b4, b5, b6 := LE64(m.nonce), VarInt(|m.userAgent| as uint64) + m.userAgent, LE32(Int32Bits(m.startHeight));
    assert p1 == [LE32(Int32Bits(m.version)), LE64(m.services), LE64(Int64Bits(m.timestamp))];
    FlattenThree(LE32(Int32Bits(m.version)), LE64(m.services), LE64(Int64Bits(m.timestamp)));
    FlattenOne(b4);
    VarStringBytes(m.userAgent);
    FlattenOne(b6);
    FlattenSixOf(p1, p2, p3, p4, p5, p6, b1, b2, b3, b4, b5, b6);
  }

  /** Six groups of writes whose bytes are known amount to those bytes in order */
  lemma FlattenSixOf(p1: seq<seq<byte>>, p2: seq<seq<byte>>, p3: seq<seq<byte>>,
                     p4: seq<seq<byte>>, p5: seq<seq<byte>>, p6: seq<seq<byte>>,
                     b1: seq<byte>, b2: seq<byte>, b3: seq<byte>, b4: seq<byte>, b5: seq<byte>, b6: seq<byte>)
    requires Flatten(p1) == b1 && Flatten(p2) == b2 && Flatten(p3) == b3
    requires Flatten(p4) == b4 && Flatten(p5) == b5 && Flatten(p6) == b6
    ensures Flatten(p1 + (p2 + (p3 + (p4 + (p5 + p6))))) == b1 + b2 + b3 + b4 + b5 + b6
  {
    FlattenSix(p1, p2, p3, p4, p5, p6);
    ConcatSix(b1, b2, b3, b4, b5, b6);
  }

  lemma FlattenSix(p1: seq<seq<byte>>, p2: seq<seq<byte>>, p3: seq<seq<byte>>,
                   p4: seq<seq<byte>>, p5: seq<seq<byte>>, p6: seq<seq<byte>>)
    ensures Flatten(p1 + (p2 + (p3 + (p4 + (p5 + p6))))) ==
            Flatten(p1) + (Flatten(p2) + (Flatten(p3) + (Flatten(p4) + (Flatten(p5) + Flatten(p6)))))
  {
    FlattenAppend(p5, p6);
    FlattenAppend(p4, p5 + p6);
    FlattenAppend(p3, p4 + (p5 + p6));
    FlattenAppend(p2, p3 + (p4 + (p5 + p6)));
    FlattenAppend(p1, p2 + (p3 + (p4 + (p5 + p6))));
  }

  lemma ConcatSix(b1: seq<byte>, b2: seq<byte>, b3: seq<byte>, b4: seq<byte>, b5: seq<byte>, b6: seq<byte>)
    ensures b1 + (b2 + (b3 + (b4 + (b5 + b6)))) == b1 + b2 + b3 + b4 + b5 + b6
  {
    assert b5 + b6 == b5 + b6;
    assert b4 + (b5 + b6) == b4 + b5 + b6;
    assert b3 + (b4 + b5 + b6) == b3 + b4 + b5 + b6;
    assert b2 + (b3 + b4 + b5 + b6) == b2 + b3 + b4 + b5 + b6;
  }

  /**
   * `relay` is never written, so the payload is 84 bytes plus the user agent as a
   * var-string, whatever `relay` says.
   */
  lemma VersionPayloadSize(m: VersionMessage, relay: bool)
    requires |m.userAgent| <= MaxLen
    ensures |VersionPayload(m)| == 84 + |VarInt(|m.userAgent| as uint64)| + |m.userAgent|
    ensures VersionPayload(m.(relay := relay)) == VersionPayload(m)
  {
    VersionPayloadLayout(m);
    NetAddressLayout(m.addrRecv, 0);
    NetAddressLayout(m.addrFrom, 0);
  }

  /** The first little-endian byte of x, and the bytes of the rest */
  lemma LEStep(x: nat, m: nat)
    requires 0 < m && x < Pow256(m)
    ensures x / 256 < Pow256(m - 1)
    ensures LE(x, m) == [(x % 256) as byte] + LE(x / 256, m - 1)
  {
  }

  /** binary.LittleEndian.PutUint16/32/64 into buf[off..off + n] */
  method PutLE(buf: array<byte>, off: nat, v: nat, n: nat)
    requires off + n <= buf.Length && v < Pow256(n)
    modifies buf
    ensures buf[off..off + n] == LE(v, n)
    ensures buf[..off] == old(buf[..off])
  {
    var x: nat, k: nat := v, 0;
    while k < n
      invariant 0 <= k <= n
      invariant x < Pow256(n - k)
      invariant buf[off..off + k] + LE(x, n - k) == LE(v, n)
      invariant buf[..off] == old(buf[..off])
    {
      LEStep(x, n - k);
      ghost var done := buf[off..off + k];
      var b := (x % 256) as byte;
      buf[off + k] := b;
      assert buf[off..off + k + 1] == done + [b];
      assert done + [b] + LE(x / 256, n - k - 1) == done + LE(x, n - k);
      x, k := x / 256, k + 1;
    }
  }

  method PutUint32(w: Writer, v: uint32) returns (err: Option<Error>)
    modifies w
    ensures Outcome(w.State(), err) == Run(w.faults, old(w.State()), [LE32(v)])
  {
    Pow256Widths();
    var buf := new byte[4];
    PutLE(buf, 0, v as nat, 4);
    var n;
    n, err := w.Write(buf[..]);
  }

  method PutUint64(w: Writer, v: uint64) returns (err: Option<Error>)
    modifies w
    ensures Outcome(w.State(), err) == Run(w.faults, old(w.State()), [LE64(v)])
  {
    Pow256Widths();
    var buf := new byte[8];
    PutLE(buf, 0, v as nat, 8);
    var n;
    n, err := w.Write(buf[..]);
  }

  method EncodeElement(w: Writer, e: Element) returns (err: Option<Error>)
    modifies w
    ensures Outcome(w.State(), err) == Run(w.faults, old(w.State()), [ElementBytes(e)])
  {
    match e
    case I32(i) => err := PutUint32(w, Int32Bits(i));
    case U32(u) => err := PutUint32(w, u);
    case I64(i) => err := PutUint64(w, Int64Bits(i));
    case U64(u) => err := PutUint64(w, u);
    case Checksum(b) =>
      var n;
      n, err := w.Write(b);
    case Command(b) =>
      var n;
      n, err := w.Write(b);
  }

  /** Encodes the elements left to right and returns at the first write error */
  method EncodeElements(w: Writer, es: seq<Element>) returns (err: Option<Error>)
    modifies w
    ensures Outcome(w.State(), err) == Run(w.faults, old(w.State()), ElementsChunks(es))
  {
    ghost var s0 := w.State();
    ghost var chunks := ElementsChunks(es);
    var i := 0;
    while i < |es|
      invariant 0 <= i <= |es|
      invariant Run(w.faults, s0, chunks[..i]) == Outcome(w.State(), None)
    {
      ghost var before := w.State();
      err := EncodeElement(w, es[i]);
      assert chunks[..i + 1] == chunks[..i] + [ElementBytes(es[i])];
      RunStep(w.faults, s0, chunks[..i], [ElementBytes(es[i])], chunks[i + 1..], Outcome(w.State(), err));
      if err.Some? {
        assert chunks == chunks[..i + 1] + chunks[i + 1..];
        return;
      }
      i := i + 1;
    }
    assert chunks[..i] == chunks;
    err := None;
  }

  /** Writes a CompactSize integer, assembling it in the 8-byte scratch buffer */
  method EncodeVarIntBuf(w: Writer, v: uint64, buf: array<byte>) returns (err: Option<Error>)
    requires buf.Length == 8
    modifies w, buf
    ensures Outcome(w.State(), err) == Run(w.faults, old(w.State()), VarIntChunks(v))
  {
    Pow256Widths();
    var n;
    if v < 0xfd {
      buf[0] := v as int as byte;
      n, err := w.Write(buf[..1]);
    } else if v <= 0xffff {
      buf[0] := 0xfd;
      PutLE(buf, 1, v as nat, 2);
      assert buf[..3] == [0xfd] + LE16(v as int as uint16);
      n, err := w.Write(buf[..3]);
    } else if v <= 0xffff_ffff {
      buf[0] := 0xfe;
      PutLE(buf, 1, v as nat, 4);
      assert buf[..5] == [0xfe] + LE32(v as int as uint32);
      n, err := w.Write(buf[..5]);
    } else {
      assert VarIntChunks(v) == [[0xff]] + [LE64(v)];
      RunAppend(w.faults, w.State(), [[0xff]], [LE64(v)]);
      buf[0] := 0xff;
      assert buf[..1] == [0xff];
      n, err := w.Write(buf[..1]);
      if err.Some? {
        return;
      }
      PutLE(buf, 0, v as nat, 8);
      assert buf[..] == LE64(v);
      n, err := w.Write(buf[..]);
    }
  }

  /** Writes the length as a CompactSize and then the bytes of the string */
  method EncodeVarStringBuf(w: Writer, str: seq<byte>, buf: array<byte>) returns (err: Option<Error>)
    requires buf.Length == 8 && |str| <= MaxLen
    modifies w, buf
    ensures Outcome(w.State(), err) == Run(w.faults, old(w.State()), VarStringChunks(str))
  {
    ghost var s0 := w.State();
    err := EncodeVarIntBuf(w, |str| as uint64, buf);
    RunStep(w.faults, s0, [], VarIntChunks(|str| as uint64), [str], Outcome(w.State(), err));
    if err.Some? {
      return;
    }
    var n;
    n, err := w.Write(str);
    RunStep(w.faults, s0, VarIntChunks(|str| as uint64), [str], [], Outcome(w.State(), err));
  }

  method EncodeVarString(w: Writer, str: seq<byte>) returns (err: Option<Error>)
    requires |str| <= MaxLen
    modifies w
    ensures Outcome(w.State(), err) == Run(w.faults, old(w.State()), VarStringChunks(str))
  {
    var buf := new byte[8];
    err := EncodeVarStringBuf(w, str, buf);
  }

  /** Writes services, the 16 address bytes and the big-endian port, using the scratch buffer */
  method EncodeNetAddressBuf(w: Writer, na: NetAddress, buf: array<byte>) returns (err: Option<Error>)
    requires buf.Length == 8
    modifies w, buf
    ensures Outcome(w.State(), err) == Run(w.faults, old(w.State()), NetAddressChunks(na))
  {
    Pow256Widths();
    ghost var s0 := w.State();
    PutLE(buf, 0, na.services as nat, 8);
    assert buf[..] == buf[0..8];
    var n;
    n, err := w.Write(buf[..]);
    RunStep(w.faults, s0, [], [LE64(na.services)], [IPBytes(na.ip), BE16(na.port)], Outcome(w.State(), err));
    if err.Some? {
      return;
    }
    var ip := IPBytes(na.ip);
    n, err := w.Write(ip);
    RunStep(w.faults, s0, [LE64(na.services)], [ip], [BE16(na.port)], Outcome(w.State(), err));
    if err.Some? {
      return;
    }
    buf[0] := (na.port as int / 256) as byte;
    buf[1] := (na.port as int % 256) as byte;
    n, err := w.Write(buf[..2]);
    RunStep(w.faults, s0, [LE64(na.services), ip], [BE16(na.port)], [], Outcome(w.State(), err));
  }

  method EncodeNetAddress(w: Writer, na: NetAddress) returns (err: Option<Error>)
    modifies w
    ensures Outcome(w.State(), err) == Run(w.faults, old(w.State()), NetAddressChunks(na))
  {
    var buf := new byte[8];
    err := EncodeNetAddressBuf(w, na, buf);
  }

  /** Writes the version payload field by field, returning at the first write error */
  method EncodeVersionMessage(w: Writer, m: VersionMessage) returns (err: Option<Error>)
    requires |m.userAgent| <= MaxLen
    modifies w
    ensures Outcome(w.State(), err) == Run(w.faults, old(w.State()), VersionChunks(m))
  {
    ghost var p1 := ElementsChunks([I32(m.version), U64(m.services), I64(m.timestamp)]);
    ghost var p2 := NetAddressChunks(m.addrRecv);
    ghost var p3 := NetAddressChunks(m.addrFrom);
    ghost var p4 := [ElementBytes(U64(m.nonce))];
    ghost var p5 := VarStringChunks(m.userAgent);
    ghost var p6 := [ElementBytes(I32(m.startHeight))];

    RunAppend(w.faults, w.State(), p1, p2 + (p3 + (p4 + (p5 + p6))));
    err := EncodeElements(w, [I32(m.version), U64(m.services), I64(m.timestamp)]);
    if err.Some? {
      return;
    }
    RunAppend(w.faults, w.State(), p2, p3 + (p4 + (p5 + p6)));
    err := EncodeNetAddress(w, m.addrRecv);
    if err.Some? {
      return;
    }
    RunAppend(w.faults, w.State(), p3, p4 + (p5 + p6));
    err := EncodeNetAddress(w, m.addrFrom);
    if err.Some? {
      return;
    }
    RunAppend(w.faults, w.State(), p4, p5 + p6);
    err := EncodeElement(w, U64(m.nonce));
    if err.Some? {
      return;
    }
    RunAppend(w.faults, w.State(), p5, p6);
    err := EncodeVarString(w, m.userAgent);
    if err.Some? {
      return;
    }
    err := EncodeElement(w, I32(m.startHeight));
  }
}
