// Byte-level building blocks of the wire format: little- and big-endian integers
// (encoding/binary's LittleEndian and BigEndian), two's-complement reinterpretation
// (Go's int32(u) and uint32(i) conversions), and the NUL padding of command names.
module Bytes {
  import opened Model

  function Pow256(n: nat): (p: nat)
    ensures p > 0
  {
    if n == 0 then 1 else 256 * Pow256(n - 1)
  }

  lemma Pow256Widths()
    ensures Pow256(2) == 0x1_0000
    ensures Pow256(4) == 0x1_0000_0000
    ensures Pow256(8) == 0x1_0000_0000_0000_0000
  {
    assert Pow256(4) == 0x1_0000 * Pow256(2);
    assert Pow256(8) == 0x1_0000_0000 * Pow256(4);
  }

  /** The n bytes of v, least significant first */
  function LE(v: nat, n: nat): (r: seq<byte>)
    requires v < Pow256(n)
    ensures |r| == n
  {
    if n == 0 then [] else [(v % 256) as byte] + LE(v / 256, n - 1)
  }

  /** The value of little-endian bytes (binary.LittleEndian.Uint16/32/64) */
  function FromLE(s: seq<byte>): (v: nat)
    ensures v < Pow256(|s|)
  {
    if s == [] then 0 else s[0] as nat + 256 * FromLE(s[1..])
  }

  lemma {:induction false} FromLEOfLE(v: nat, n: nat)
    requires v < Pow256(n)
    ensures FromLE(LE(v, n)) == v
  {
    if n > 0 {
      FromLEOfLE(v / 256, n - 1);
    }
  }

  lemma {:induction false} LEOfFromLE(s: seq<byte>)
    ensures LE(FromLE(s), |s|) == s
  {
    if s != [] {
      LEOfFromLE(s[1..]);
      assert LE(FromLE(s), |s|) == [s[0]] + LE(FromLE(s[1..]), |s| - 1);
    }
  }

  function LE16(v: uint16): (r: seq<byte>)
    ensures |r| == 2 && FromLE(r) == v as int
  {
    Pow256Widths();
    FromLEOfLE(v as nat, 2);
    LE(v as nat, 2)
  }

  function LE32(v: uint32): (r: seq<byte>)
    ensures |r| == 4 && FromLE(r) == v as int
  {
    Pow256Widths();
    FromLEOfLE(v as nat, 4);
    LE(v as nat, 4)
  }

  function LE64(v: uint64): (r: seq<byte>)
    ensures |r| == 8 && FromLE(r) == v as int
  {
    Pow256Widths();
    FromLEOfLE(v as nat, 8);
    LE(v as nat, 8)
  }

  /** binary.LittleEndian.Uint32 of four bytes */
  function Uint32LE(s: seq<byte>): (v: uint32)
    requires |s| == 4
    ensures LE32(v) == s
  {
    Pow256Widths();
    LEOfFromLE(s);
    FromLE(s) as uint32
  }

  /** binary.LittleEndian.Uint64 of eight bytes */
  function Uint64LE(s: seq<byte>): (v: uint64)
    requires |s| == 8
    ensures LE64(v) == s
  {
    Pow256Widths();
    LEOfFromLE(s);
    FromLE(s) as uint64
  }

  /** binary.BigEndian.PutUint16: most significant byte first */
  function BE16(v: uint16): (r: seq<byte>)
    ensures |r| == 2
  {
    [(v as int / 256) as byte, (v as int % 256) as byte]
  }

  /** binary.BigEndian.Uint16 of two bytes */
  function Uint16BE(s: seq<byte>): (v: uint16)
    requires |s| == 2
    ensures BE16(v) == s
  {
    (s[0] as int * 256 + s[1] as int) as uint16
  }

  lemma Uint16BEOfBE16(v: uint16)
    ensures Uint16BE(BE16(v)) == v
  {
  }

  /** The bit pattern of an int32, as Go's uint32(i) gives it */
  function Int32Bits(i: int32): (u: uint32)
    ensures (u as int - i as int) % 0x1_0000_0000 == 0
  {
    if i < 0 then (i as int + 0x1_0000_0000) as uint32 else i as int as uint32
  }

  /** The int32 with a given bit pattern, as Go's int32(u) gives it */
  function Int32OfBits(u: uint32): (i: int32)
    ensures Int32Bits(i) == u
  {
    if u < 0x8000_0000 then u as int as int32 else (u as int - 0x1_0000_0000) as int32
  }

  lemma Int32OfBitsOfInt32Bits(i: int32)
    ensures Int32OfBits(Int32Bits(i)) == i
  {
  }

  /** The bit pattern of an int64, as Go's uint64(i) gives it */
  function Int64Bits(i: int64): (u: uint64)
    ensures (u as int - i as int) % 0x1_0000_0000_0000_0000 == 0
  {
    if i < 0 then (i as int + 0x1_0000_0000_0000_0000) as uint64 else i as int as uint64
  }

  /** The int64 with a given bit pattern, as Go's int64(u) gives it */
  function Int64OfBits(u: uint64): (i: int64)
    ensures Int64Bits(i) == u
  {
    if u < 0x8000_0000_0000_0000 then u as int as int64 else (u as int - 0x1_0000_0000_0000_0000) as int64
  }

  lemma Int64OfBitsOfInt64Bits(i: int64)
    ensures Int64OfBits(Int64Bits(i)) == i
  {
  }

  /** The bytes of several writes, in order */
  function Flatten(chunks: seq<seq<byte>>): seq<byte>
  {
    if chunks == [] then [] else chunks[0] + Flatten(chunks[1..])
  }

  lemma {:induction false} FlattenAppend(a: seq<seq<byte>>, b: seq<seq<byte>>)
    ensures Flatten(a + b) == Flatten(a) + Flatten(b)
  {
    if a != [] {
      assert (a + b)[1..] == a[1..] + b;
      FlattenAppend(a[1..], b);
    } else {
      assert a + b == b;
    }
  }

  lemma FlattenOne(a: seq<byte>)
    ensures Flatten([a]) == a
  {
    assert [a][1..] == [];
  }

  lemma FlattenTwo(a: seq<byte>, b: seq<byte>)
    ensures Flatten([a, b]) == a + b
  {
    assert [a, b][1..] == [b];
    FlattenOne(b);
  }

  lemma FlattenThree(a: seq<byte>, b: seq<byte>, c: seq<byte>)
    ensures Flatten([a, b, c]) == a + b + c
  {
    assert [a, b, c][1..] == [b, c];
    FlattenTwo(b, c);
  }

  function Zeros(n: nat): (r: seq<byte>)
    ensures |r| == n && forall i :: 0 <= i < n ==> r[i] == 0
  {
    seq(n, _ => 0)
  }

  /** A command name copied into a zeroed [12]byte, as copy(command[:], name) does */
  function PadCommand(name: seq<byte>): Bytes12
  {
    if |name| <= CommandSize then name + Zeros(CommandSize - |name|) else name[..CommandSize]
  }

  /** bytes.TrimRight(s, "\x00"): s without its trailing NUL bytes */
  function TrimRightNul(s: seq<byte>): (r: seq<byte>)
    ensures r <= s
    ensures r == [] || r[|r| - 1] != 0
    ensures forall i :: |r| <= i < |s| ==> s[i] == 0
  {
    if s == [] || s[|s| - 1] != 0 then s else TrimRightNul(s[..|s| - 1])
  }

  /** Trimming undoes the padding for every name that fits and does not end in NUL */
  lemma TrimPadCommand(name: seq<byte>)
    requires |name| <= CommandSize
    requires name == [] || name[|name| - 1] != 0
    ensures TrimRightNul(PadCommand(name)) == name
  {
    var s := PadCommand(name);
    var r := TrimRightNul(s);
    if |r| < |name| {
      assert s[|name| - 1] == name[|name| - 1];
    }
  }

  /** Every 12-byte command field is the padding of its trimmed name */
  lemma PadTrimCommand(field: Bytes12)
    ensures PadCommand(TrimRightNul(field)) == field
  {
    var r := TrimRightNul(field);
    assert field == r + field[|r|..];
    assert field[|r|..] == Zeros(CommandSize - |r|);
  }
}
