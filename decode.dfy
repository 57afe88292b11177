// The decoding half of the codec (service/decode.go). A decoder reads from an io.Reader
// with io.ReadFull and stores what it read through a pointer; here the pointed-to
// variable is a Target value that goes in and comes back filled. Each method is proved
// against a function of the reader's remaining bytes, and lemmas relate those functions
// to the encoders.
module Decode {
  import opened Model
  import opened Bytes
  import opened Streams
  import Encode

  /** The pointer targets decodeElement handles itself (the binary.Read fallback is not modelled) */
  datatype Target =
    | I32(i32: int32)
    | U32(u32: uint32)
    | I64(i64: int64)
    | U64(u64: uint64)
    | Bool(b: bool)
    | Checksum(b4: Bytes4)
    | Command(b12: Bytes12)
    | Addr(na: NetAddress)
    | Str(s: seq<byte>)

  /** Two targets are variables of the same Go type */
  predicate SameKind(a: Target, b: Target)
  {
    match a
    case I32(_) => b.I32?
    case U32(_) => b.U32?
    case I64(_) => b.I64?
    case U64(_) => b.U64?
    case Bool(_) => b.Bool?
    case Checksum(_) => b.Checksum?
    case Command(_) => b.Command?
    case Addr(_) => b.Addr?
    case Str(_) => b.Str?
  }

  /** A decoding step: the value produced, the bytes consumed from the reader, the error */
  datatype Step<T> = Step(value: T, used: nat, err: Option<Error>)

  /** DecodeService.uint32: four little-endian bytes, or 0 and the read error */
  function Uint32Of(s: seq<byte>): (r: Step<uint32>)
    ensures r.err.None? <==> |s| >= 4
    ensures r.err.None? ==> r.used == 4 && LE32(r.value) == s[..4]
    ensures r.err.Some? ==> r.used == |s| && r.value == 0
  {
    var rd := ReadFullOf(s, 4);
    if rd.err.Some? then Step(0, rd.used, rd.err) else Step(Uint32LE(rd.got), 4, None)
  }

  /** DecodeService.uint64: eight little-endian bytes, or 0 and the read error */
  function Uint64Of(s: seq<byte>): (r: Step<uint64>)
    ensures r.err.None? <==> |s| >= 8
    ensures r.err.None? ==> r.used == 8 && LE64(r.value) == s[..8]
    ensures r.err.Some? ==> r.used == |s| && r.value == 0
  {
    var rd := ReadFullOf(s, 8);
    if rd.err.Some? then Step(0, rd.used, rd.err) else Step(Uint64LE(rd.got), 8, None)
  }

  /** DecodeService.uint8: one byte, or 0 and the read error */
  function Uint8Of(s: seq<byte>): (r: Step<byte>)
    ensures r.err.None? <==> |s| >= 1
    ensures r.err.None? ==> r.used == 1 && r.value == s[0]
    ensures r.err.Some? ==> r.used == |s| && r.value == 0
  {
    var rd := ReadFullOf(s, 1);
    if rd.err.Some? then Step(0, rd.used, rd.err) else Step(rd.got[0], 1, None)
  }

  /** decodeNetAddress: services, 16 address bytes, big-endian port; the zero address on a short read */
  function NetAddressOf(s: seq<byte>): (r: Step<NetAddress>)
    ensures r.err.None? <==> |s| >= 26
    ensures r.err.None? ==> && r.used == 26 && r.value.timestamp == 0
                            && LE64(r.value.services) == s[..8] && r.value.ip == Some(s[8..24])
                            && BE16(r.value.port) == s[24..26]
    ensures r.err.Some? ==> r.used == |s| && r.value == ZeroNetAddress
  {
    var a := ReadFullOf(s, 8);
    if a.err.Some? then Step(ZeroNetAddress, a.used, a.err)
    else
      var b := ReadFullOf(s[8..], 16);
      if b.err.Some? then Step(ZeroNetAddress, 8 + b.used, b.err)
      else
        var c := ReadFullOf(s[24..], 2);
        if c.err.Some? then Step(ZeroNetAddress, 24 + c.used, c.err)
        else
          assert b.got == s[8..24] && c.got == s[24..26];
          Step(NetAddress(0, Uint64LE(a.got), Some(b.got), Uint16BE(c.got)), 26, None)
  }

  /** decodeElement: the new value of the target, the bytes consumed and the error */
  function DecodeElementOf(s: seq<byte>, t: Target): (r: Step<Target>)
    ensures r.used <= |s| && SameKind(r.value, t)
  {
    match t
    case I32(_) =>
      var u := Uint32Of(s);
      if u.err.Some? then Step(t, u.used, u.err) else Step(I32(Int32OfBits(u.value)), u.used, None)
    case U32(_) =>
      var u := Uint32Of(s);
      if u.err.Some? then Step(t, u.used, u.err) else Step(U32(u.value), u.used, None)
    case I64(_) =>
      var u := Uint64Of(s);
      if u.err.Some? then Step(t, u.used, u.err) else Step(I64(Int64OfBits(u.value)), u.used, None)
    case U64(_) =>
      var u := Uint64Of(s);
      if u.err.Some? then Step(t, u.used, u.err) else Step(U64(u.value), u.used, None)
    case Bool(_) =>
      var u := Uint8Of(s);
      if u.err.Some? then Step(t, u.used, u.err) else Step(Bool(u.value != 0), u.used, None)
    case Checksum(b) =>
      // io.ReadFull copies into the array whatever it could read
      var rd := ReadFullOf(s, 4);
      Step(Checksum(rd.got + b[|rd.got|..]), rd.used, rd.err)
    case Command(b) =>
      var rd := ReadFullOf(s, 12);
      Step(Command(rd.got + b[|rd.got|..]), rd.used, rd.err)
    case Addr(_) =>
      var a := NetAddressOf(s);
      if a.err.Some? then Step(t, a.used, a.err) else Step(Addr(a.value), a.used, None)
    case Str(str) =>
      // reads len(*e) bytes into a copy of the string; the string itself is left alone
      var rd := ReadFullOf(s, |str|);
      Step(t, rd.used, rd.err)
  }

  /** A decoder of one target never consumes more bytes than remain */
  ghost predicate Consumes(dec: (seq<byte>, Target) -> Step<Target>)
  {
    forall s, t :: dec(s, t).used <= |s|
  }

  /** A decoder of one target keeps the target's type */
  ghost predicate KeepsKinds(dec: (seq<byte>, Target) -> Step<Target>)
  {
    forall s, t :: SameKind(dec(s, t).value, t)
  }

  /** The outcome of a first target h followed by the outcome q of the targets `rest` after it */
  function Then(h: Step<Target>, rest: seq<Target>, q: Step<seq<Target>>): Step<seq<Target>>
  {
    if h.err.Some? then Step([h.value] + rest, h.used, h.err)
    else Step([h.value] + q.value, h.used + q.used, q.err)
  }

  /** The outcome of the targets p covers followed by the outcome q of the targets b after them */
  function AndThen(p: Step<seq<Target>>, b: seq<Target>, q: Step<seq<Target>>): Step<seq<Target>>
  {
    if p.err.Some? then Step(p.value + b, p.used, p.err)
    else Step(p.value + q.value, p.used + q.used, q.err)
  }

  /**
   * Decodes into the targets left to right with `dec`, stopping at the first error;
   * the targets after the failing one are returned as they were.
   */
  function Fold(dec: (seq<byte>, Target) -> Step<Target>, s: seq<byte>, ts: seq<Target>): (r: Step<seq<Target>>)
    requires Consumes(dec)
    ensures r.used <= |s| && |r.value| == |ts|
    decreases |ts|
  {
    if ts == [] then Step([], 0, None)
    else
      var h := dec(s, ts[0]);
      Then(h, ts[1..], Fold(dec, s[h.used..], ts[1..]))
  }

  /** Every target comes out of the fold with the type it went in with */
  lemma {:induction false} FoldKeepsKinds(dec: (seq<byte>, Target) -> Step<Target>, s: seq<byte>, ts: seq<Target>)
    requires Consumes(dec) && KeepsKinds(dec)
    ensures forall i :: 0 <= i < |ts| ==> SameKind(Fold(dec, s, ts).value[i], ts[i])
    decreases |ts|
  {
    if ts != [] {
      var h := dec(s, ts[0]);
      var q := Fold(dec, s[h.used..], ts[1..]);
      FoldKeepsKinds(dec, s[h.used..], ts[1..]);
      var r := Fold(dec, s, ts);
      assert r == Then(h, ts[1..], q);
      forall i | 0 <= i < |ts|
        ensures SameKind(r.value[i], ts[i])
      {
        if i > 0 && h.err.None? {
          assert r.value[i] == q.value[i - 1];
        }
      }
    }
  }

  /** DecodeElements: decodeElement on each target in turn */
  function DecodeElementsOf(s: seq<byte>, ts: seq<Target>): (r: Step<seq<Target>>)
    ensures r.used <= |s| && |r.value| == |ts|
    ensures forall i :: 0 <= i < |ts| ==> SameKind(r.value[i], ts[i])
  {
    FoldKeepsKinds(DecodeElementOf, s, ts);
    Fold(DecodeElementOf, s, ts)
  }

  lemma FoldCons(dec: (seq<byte>, Target) -> Step<Target>, s: seq<byte>, t: Target, rest: seq<Target>)
    requires Consumes(dec)
    ensures Fold(dec, s, [t] + rest) == Then(dec(s, t), rest, Fold(dec, s[dec(s, t).used..], rest))
  {
    assert ([t] + rest)[0] == t && ([t] + rest)[1..] == rest;
  }

  /** Then and AndThen associate */
  lemma ThenAndThen(h: Step<Target>, a: seq<Target>, b: seq<Target>, p: Step<seq<Target>>, q: Step<seq<Target>>)
    ensures Then(h, a + b, AndThen(p, b, q)) == AndThen(Then(h, a, p), b, q)
  {
    if h.err.None? {
      if p.err.None? {
        assert [h.value] + (p.value + q.value) == [h.value] + p.value + q.value;
      } else {
        assert [h.value] + (p.value + b) == [h.value] + p.value + b;
      }
    } else {
      assert [h.value] + (a + b) == [h.value] + a + b;
    }
  }

  /** The algebra of one step of FoldAppend, over the outcomes alone */
  lemma ThenAppendStep(h: Step<Target>, a: seq<Target>, b: seq<Target>, p: Step<seq<Target>>, pb: Step<seq<Target>>,
                       q: Step<seq<Target>>, x: Step<seq<Target>>, xb: Step<seq<Target>>, q': Step<seq<Target>>)
    requires pb == AndThen(p, b, q) && x == Then(h, a, p) && xb == Then(h, a + b, pb)
    requires x.err.None? ==> q' == q
    ensures xb == AndThen(x, b, q')
  {
    ThenAndThen(h, a, b, p, q);
  }

  /** Folding over a + b is folding over a and then, unless that failed, over b from the bytes that follow */
  lemma {:induction false} FoldAppend(dec: (seq<byte>, Target) -> Step<Target>, s: seq<byte>, a: seq<Target>, b: seq<Target>)
    requires Consumes(dec)
    ensures Fold(dec, s, a + b) == AndThen(Fold(dec, s, a), b, Fold(dec, s[Fold(dec, s, a).used..], b))
    decreases |a|
  {
    if a == [] {
      var q := Fold(dec, s, b);
      assert a + b == b && s[0..] == s;
      assert [] + q.value == q.value;
    } else {
      var t, a' := a[0], a[1..];
      assert a == [t] + a' && a + b == [t] + (a' + b);
      FoldCons(dec, s, t, a');
      FoldCons(dec, s, t, a' + b);
      var h := dec(s, t);
      var s' := s[h.used..];
      FoldAppend(dec, s', a', b);
      var p := Fold(dec, s', a');
      var x := Fold(dec, s, a);
      if x.err.None? {
        assert s[x.used..] == s'[p.used..];
      }
      ThenAppendStep(h, a', b, p, Fold(dec, s', a' + b), Fold(dec, s'[p.used..], b), x, Fold(dec, s, a + b),
                     Fold(dec, s[x.used..], b));
    }
  }

  /**
   * Decoding the targets a + b is decoding a and then, unless that failed, decoding b
   * from the bytes that follow; after a failure the targets b are left as they were.
   */
  lemma DecodeElementsAppend(s: seq<byte>, a: seq<Target>, b: seq<Target>)
    ensures DecodeElementsOf(s, a + b) ==
            AndThen(DecodeElementsOf(s, a), b, DecodeElementsOf(s[DecodeElementsOf(s, a).used..], b))
  {
    FoldAppend(DecodeElementOf, s, a, b);
  }

  /** Folding over a single target is decoding that target */
  lemma FoldOne(dec: (seq<byte>, Target) -> Step<Target>, s: seq<byte>, t: Target)
    requires Consumes(dec)
    ensures Fold(dec, s, [t]) == var h := dec(s, t); Step([h.value], h.used, h.err)
  {
    FoldCons(dec, s, t, []);
    assert [t] + [] == [t];
    var h := dec(s, t);
    assert [h.value] + [] == [h.value];
    assert Fold(dec, s[h.used..], []) == Step([], 0, None);
  }

  /** The algebra of FoldSnoc, over the outcomes alone */
  lemma SnocStep(p: Step<seq<Target>>, one: Step<seq<Target>>, h: Step<Target>, t: Target, rest: seq<Target>,
                 x: Step<seq<Target>>, full: Step<seq<Target>>, q: Step<seq<Target>>)
    requires p.err.None? && one == Step([h.value], h.used, h.err)
    requires x == AndThen(p, [t], one) && full == AndThen(x, rest, q)
    ensures x == Step(p.value + [h.value], p.used + h.used, h.err)
    ensures h.err.Some? ==> full == Step(p.value + [h.value] + rest, p.used + h.used, h.err)
  {
  }

  /** One more target after a prefix that decoded without error */
  lemma FoldSnoc(dec: (seq<byte>, Target) -> Step<Target>, s: seq<byte>, ts: seq<Target>, i: nat)
    requires Consumes(dec) && i < |ts| && Fold(dec, s, ts[..i]).err.None?
    ensures var p := Fold(dec, s, ts[..i]);
            var h := dec(s[p.used..], ts[i]);
            && Fold(dec, s, ts[..i + 1]) == Step(p.value + [h.value], p.used + h.used, h.err)
            && (h.err.Some? ==> Fold(dec, s, ts) == Step(p.value + [h.value] + ts[i + 1..], p.used + h.used, h.err))
            && s[p.used..][h.used..] == s[p.used + h.used..]
  {
    var p := Fold(dec, s, ts[..i]);
    var s' := s[p.used..];
    var h := dec(s', ts[i]);
    FoldOne(dec, s', ts[i]);
    assert ts[..i + 1] == ts[..i] + [ts[i]];
    FoldAppend(dec, s, ts[..i], [ts[i]]);
    assert ts == ts[..i + 1] + ts[i + 1..];
    var x := Fold(dec, s, ts[..i + 1]);
    FoldAppend(dec, s, ts[..i + 1], ts[i + 1..]);
    SnocStep(p, Fold(dec, s', [ts[i]]), h, ts[i], ts[i + 1..], x, Fold(dec, s, ts), Fold(dec, s[x.used..], ts[i + 1..]));
  }

  /** Decoding a single target is decodeElement */
  lemma DecodeElementsOne(s: seq<byte>, t: Target)
    ensures DecodeElementsOf(s, [t]) ==
            var h := DecodeElementOf(s, t); Step([h.value], h.used, h.err)
  {
    FoldOne(DecodeElementOf, s, t);
  }

  /** The bytes decodeElement needs for a target; a string needs as many as it already holds */
  function Width(t: Target): nat
  {
    match t
    case I32(_) => 4
    case U32(_) => 4
    case I64(_) => 8
    case U64(_) => 8
    case Bool(_) => 1
    case Checksum(_) => 4
    case Command(_) => 12
    case Addr(_) => 26
    case Str(s) => |s|
  }

  function Widths(ts: seq<Target>): nat
  {
    if ts == [] then 0 else Width(ts[0]) + Widths(ts[1..])
  }

  /** A target decodes without error exactly when its width is available, and then consumes exactly that */
  lemma DecodeElementWidth(s: seq<byte>, t: Target)
    ensures DecodeElementOf(s, t).err.None? <==> Width(t) <= |s|
    ensures DecodeElementOf(s, t).err.None? ==> DecodeElementOf(s, t).used == Width(t)
  {
    if t.Addr? {
      NetAddressShortRead(s);
    }
  }

  /** Every target decodes from a fixed number of bytes: Width */
  ghost predicate HasWidths(dec: (seq<byte>, Target) -> Step<Target>)
  {
    forall s, t :: (dec(s, t).err.None? <==> Width(t) <= |s|) && (dec(s, t).err.None? ==> dec(s, t).used == Width(t))
  }

  lemma {:induction false} FoldWidths(dec: (seq<byte>, Target) -> Step<Target>, s: seq<byte>, ts: seq<Target>)
    requires Consumes(dec) && HasWidths(dec)
    ensures Fold(dec, s, ts).err.None? <==> Widths(ts) <= |s|
    ensures Fold(dec, s, ts).err.None? ==> Fold(dec, s, ts).used == Widths(ts)
    decreases |ts|
  {
    if ts != [] {
      var h := dec(s, ts[0]);
      FoldWidths(dec, s[h.used..], ts[1..]);
    }
  }

  /**
   * DecodeElements succeeds exactly when the stream holds the widths of all the
   * targets, and then consumes exactly that many bytes.
   */
  lemma DecodeElementsWidths(s: seq<byte>, ts: seq<Target>)
    ensures DecodeElementsOf(s, ts).err.None? <==> Widths(ts) <= |s|
    ensures DecodeElementsOf(s, ts).err.None? ==> DecodeElementsOf(s, ts).used == Widths(ts)
  {
    forall s': seq<byte>, t: Target
      ensures (DecodeElementOf(s', t).err.None? <==> Width(t) <= |s'|)
      ensures DecodeElementOf(s', t).err.None? ==> DecodeElementOf(s', t).used == Width(t)
    {
      DecodeElementWidth(s', t);
    }
    FoldWidths(DecodeElementOf, s, ts);
  }

  /** A four-byte read gives back the value whose little-endian bytes were read */
  lemma Uint32OfLE32(v: uint32, rest: seq<byte>)
    ensures Uint32Of(LE32(v) + rest) == Step(v, 4, None)
  {
    assert (LE32(v) + rest)[..4] == LE32(v);
    LEOfFromLE(LE32(v));
  }

  /** An eight-byte read gives back the value whose little-endian bytes were read (the inverse of putUint64) */
  lemma Uint64OfLE64(v: uint64, rest: seq<byte>)
    ensures Uint64Of(LE64(v) + rest) == Step(v, 8, None)
  {
    assert (LE64(v) + rest)[..8] == LE64(v);
    LEOfFromLE(LE64(v));
  }

  /**
   * Decoding what encodeNetAddressBuf wrote gives back the services, the 16 address
   * bytes and the port, consuming exactly 26 bytes; the timestamp comes back as 0.
   */
  lemma NetAddressRoundTrip(na: NetAddress, rest: seq<byte>)
    ensures NetAddressOf(Encode.NetAddressBytes(na) + rest) ==
            Step(NetAddress(0, na.services, Some(Encode.IPBytes(na.ip)), na.port), 26, None)
  {
    Encode.NetAddressLayout(na, 0);
    var s := Encode.NetAddressBytes(na) + rest;
    assert s[..8] == LE64(na.services);
    assert s[8..][..16] == Encode.IPBytes(na.ip);
    assert s[24..][..2] == BE16(na.port);
    Uint64OfLE64(na.services, []);
    assert LE64(na.services) + [] == LE64(na.services);
  }

  /** An address read fails exactly when fewer than 26 bytes remain, and then yields the zero address */
  lemma NetAddressShortRead(s: seq<byte>)
    ensures NetAddressOf(s).err.Some? <==> |s| < 26
    ensures NetAddressOf(s).err.Some? ==> NetAddressOf(s).value == ZeroNetAddress
  {
  }

  /** The target an encoded element decodes into */
  function TargetOf(e: Encode.Element): Target
  {
    match e
    case I32(i) => I32(i)
    case U32(u) => U32(u)
    case I64(i) => I64(i)
    case U64(u) => U64(u)
    case Checksum(b) => Checksum(b)
    case Command(b) => Command(b)
  }

  /**
   * Decoding into a variable of the element's type gives back the element and consumes
   * exactly the bytes encodeElement wrote, whatever the variable held before.
   */
  lemma DecodeElementRoundTrip(e: Encode.Element, t: Target, rest: seq<byte>)
    requires SameKind(t, TargetOf(e))
    ensures DecodeElementOf(Encode.ElementBytes(e) + rest, t) ==
            Step(TargetOf(e), |Encode.ElementBytes(e)|, None)
  {
    var s := Encode.ElementBytes(e) + rest;
    match e
    case I32(i) =>
      Uint32OfLE32(Int32Bits(i), rest);
      Int32OfBitsOfInt32Bits(i);
    case U32(u) =>
      Uint32OfLE32(u, rest);
    case I64(i) =>
      Uint64OfLE64(Int64Bits(i), rest);
      Int64OfBitsOfInt64Bits(i);
    case U64(u) =>
      Uint64OfLE64(u, rest);
    case Checksum(b) =>
      assert s[..4] == b && t.b4[4..] == [];
      assert s[..4] + t.b4[4..] == b;
    case Command(b) =>
      assert s[..12] == b && t.b12[12..] == [];
      assert s[..12] + t.b12[12..] == b;
  }

  function TargetsOf(es: seq<Encode.Element>): seq<Target>
  {
    seq(|es|, i requires 0 <= i < |es| => TargetOf(es[i]))
  }

  /**
   * When `dec` reads each chunk back as the matching value, whatever follows it, folding
   * over the concatenated chunks reads back all the values and consumes exactly the chunks.
   */
  lemma {:induction false} FoldInverts(dec: (seq<byte>, Target) -> Step<Target>, chunks: seq<seq<byte>>,
                                       ts: seq<Target>, vs: seq<Target>, rest: seq<byte>)
    requires Consumes(dec) && |ts| == |chunks| == |vs|
    requires forall k, tail :: 0 <= k < |ts| ==> dec(chunks[k] + tail, ts[k]) == Step(vs[k], |chunks[k]|, None)
    ensures Fold(dec, Flatten(chunks) + rest, ts) == Step(vs, |Flatten(chunks)|, None)
    decreases |ts|
  {
    if ts == [] {
      assert [] + rest == rest;
    } else {
      var bs, tail := chunks[0], Flatten(chunks[1..]);
      var s := Flatten(chunks) + rest;
      assert s == bs + (tail + rest) && s[|bs|..] == tail + rest;
      assert ts == [ts[0]] + ts[1..];
      FoldCons(dec, s, ts[0], ts[1..]);
      assert dec(s, ts[0]) == Step(vs[0], |bs|, None);
      FoldInverts(dec, chunks[1..], ts[1..], vs[1..], rest);
      assert vs == [vs[0]] + vs[1..];
    }
  }

  /**
   * DecodeElements inverts EncodeElements: decoding the bytes of the elements into
   * variables of their types gives the elements back and consumes exactly those bytes.
   */
  lemma DecodeElementsRoundTrip(es: seq<Encode.Element>, ts: seq<Target>, rest: seq<byte>)
    requires |ts| == |es| && forall i :: 0 <= i < |es| ==> SameKind(ts[i], TargetOf(es[i]))
    ensures DecodeElementsOf(Flatten(Encode.ElementsChunks(es)) + rest, ts) ==
            Step(TargetsOf(es), |Flatten(Encode.ElementsChunks(es))|, None)
  {
    var chunks := Encode.ElementsChunks(es);
    forall k, tail | 0 <= k < |ts|
      ensures DecodeElementOf(chunks[k] + tail, ts[k]) == Step(TargetsOf(es)[k], |chunks[k]|, None)
    {
      DecodeElementRoundTrip(es[k], ts[k], tail);
    }
    FoldInverts(DecodeElementOf, chunks, ts, TargetsOf(es), rest);
  }

  /**
   * A short read of a number, a bool or an address leaves the target as it was; a short
   * read of an array fills its front with the bytes that were there; a string target is
   * never changed.
   */
  lemma DecodeElementOnError(s: seq<byte>, t: Target)
    requires DecodeElementOf(s, t).err.Some?
    ensures DecodeElementOf(s, t).used == |s|
    ensures !t.Checksum? && !t.Command? ==> DecodeElementOf(s, t).value == t
    ensures t.Checksum? ==> DecodeElementOf(s, t).value.b4 == s + t.b4[|s|..]
    ensures t.Command? ==> DecodeElementOf(s, t).value.b12 == s + t.b12[|s|..]
  {
    if t.Addr? {
      var a := ReadFullOf(s, 8);
      if a.err.None? {
        var b := ReadFullOf(s[8..], 16);
        if b.err.None? {
          assert |s[24..]| < 2;
        }
      }
    }
  }

  /** A bool is one byte: zero is false, anything else true */
  lemma DecodeBool(b: byte, rest: seq<byte>, was: bool)
    ensures DecodeElementOf([b] + rest, Bool(was)) == Step(Bool(b != 0), 1, None)
  {
    assert ([b] + rest)[..1] == [b];
  }

  /** A string target consumes as many bytes as it already holds and is never changed */
  lemma DecodeStringLeavesTarget(s: seq<byte>, str: seq<byte>)
    ensures DecodeElementOf(s, Str(str)).value == Str(str)
    ensures DecodeElementOf(s, Str(str)).used == if |str| <= |s| then |str| else |s|
    ensures DecodeElementOf(s, Str(str)).err.None? <==> |str| <= |s|
  {
  }

  method Uint32(r: Reader) returns (v: uint32, err: Option<Error>)
    modifies r
    ensures var d := Uint32Of(old(r.rest)); v == d.value && err == d.err && r.rest == old(r.rest)[d.used..]
  {
    var buf, e := r.ReadFull(4);
    if e.Some? {
      return 0, e;
    }
    v, err := Uint32LE(buf), None;
  }

  method Uint64(r: Reader) returns (v: uint64, err: Option<Error>)
    modifies r
    ensures var d := Uint64Of(old(r.rest)); v == d.value && err == d.err && r.rest == old(r.rest)[d.used..]
  {
    var buf, e := r.ReadFull(8);
    if e.Some? {
      return 0, e;
    }
    v, err := Uint64LE(buf), None;
  }

  method Uint8(r: Reader) returns (v: byte, err: Option<Error>)
    modifies r
    ensures var d := Uint8Of(old(r.rest)); v == d.value && err == d.err && r.rest == old(r.rest)[d.used..]
  {
    var buf, e := r.ReadFull(1);
    if e.Some? {
      return 0, e;
    }
    v, err := buf[0], None;
  }

  method DecodeNetAddress(r: Reader) returns (na: NetAddress, err: Option<Error>)
    modifies r
    ensures var d := NetAddressOf(old(r.rest)); na == d.value && err == d.err && r.rest == old(r.rest)[d.used..]
  {
    ghost var s := r.rest;
    var buf, e := r.ReadFull(8);
    if e.Some? {
      return ZeroNetAddress, e;
    }
    var services := Uint64LE(buf);
    assert r.rest == s[8..];
    var ip, e2 := r.ReadFull(16);
    if e2.Some? {
      return ZeroNetAddress, e2;
    }
    assert r.rest == s[24..];
    var pb, e3 := r.ReadFull(2);
    if e3.Some? {
      return ZeroNetAddress, e3;
    }
    na, err := NetAddress(0, services, Some(ip), Uint16BE(pb)), None;
  }

  /** decodeElement: reads the target's type from the reader and returns the variable's new value */
  method DecodeElement(r: Reader, t: Target) returns (filled: Target, err: Option<Error>)
    modifies r
    ensures var d := DecodeElementOf(old(r.rest), t); filled == d.value && err == d.err && r.rest == old(r.rest)[d.used..]
  {
    match t
    case I32(_) =>
      var v, e := Uint32(r);
      filled, err := if e.Some? then t else I32(Int32OfBits(v)), e;
    case U32(_) =>
      var v, e := Uint32(r);
      filled, err := if e.Some? then t else U32(v), e;
    case I64(_) =>
      var v, e := Uint64(r);
      filled, err := if e.Some? then t else I64(Int64OfBits(v)), e;
    case U64(_) =>
      var v, e := Uint64(r);
      filled, err := if e.Some? then t else U64(v), e;
    case Bool(_) =>
      var v, e := Uint8(r);
      filled, err := if e.Some? then t else Bool(v != 0), e;
    case Checksum(b) =>
      var got, e := r.ReadFull(4);
      filled, err := Checksum(got + b[|got|..]), e;
    case Command(b) =>
      var got, e := r.ReadFull(12);
      filled, err := Command(got + b[|got|..]), e;
    case Addr(_) =>
      var na, e := DecodeNetAddress(r);
      filled, err := if e.Some? then t else Addr(na), e;
    case Str(str) =>
      var got, e := r.ReadFull(|str|);
      filled, err := t, e;
  }

  /** Filling slot i of a sequence whose suffix from i is still ts's */
  lemma FillSlot(filled: seq<Target>, ts: seq<Target>, i: nat, t: Target)
    requires i < |filled| == |ts| && filled[i..] == ts[i..]
    ensures filled[i := t] == filled[..i] + [t] + ts[i + 1..]
    ensures filled[i := t][..i + 1] == filled[..i] + [t] && filled[i := t][i + 1..] == ts[i + 1..]
  {
    assert filled[i + 1..] == filled[i..][1..];
  }

  /** DecodeElements: decodes into the targets left to right and returns at the first error */
  method DecodeElements(r: Reader, ts: seq<Target>) returns (filled: seq<Target>, err: Option<Error>)
    modifies r
    ensures var d := DecodeElementsOf(old(r.rest), ts); filled == d.value && err == d.err && r.rest == old(r.rest)[d.used..]
  {
    ghost var s0 := r.rest;
    ghost var used: nat := 0;
    filled := ts;
    var i := 0;
    while i < |ts|
      invariant 0 <= i <= |ts| && |filled| == |ts|
      invariant Fold(DecodeElementOf, s0, ts[..i]) == Step(filled[..i], used, None)
      invariant filled[i..] == ts[i..]
      invariant used <= |s0| && r.rest == s0[used..]
    {
      var t, e := DecodeElement(r, ts[i]);
      FoldSnoc(DecodeElementOf, s0, ts, i);
      FillSlot(filled, ts, i, t);
      filled := filled[i := t];
      used := used + DecodeElementOf(s0[used..], ts[i]).used;
      if e.Some? {
        return filled, e;
      }
      i := i + 1;
    }
    assert ts[..i] == ts;
    err := None;
  }
}
