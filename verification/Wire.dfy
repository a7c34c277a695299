/** The wire format of the Protocol Buffers Encoding specification, as far as the hub messages use it:
    "Base 128 Varints", "Message Structure" (tags, wire types, skipping), fixed-width little-endian
    scalars and "Length-Delimited Records". A reader's state is the byte string that is left. */
module Wire {
  import opened Prelude

  type byte = x: int | 0 <= x < 0x100
  type bytes = seq<byte>
  type uint32 = x: int | 0 <= x < 0x1_0000_0000
  type int32 = x: int | -0x8000_0000 <= x < 0x8000_0000
  type bits64 = x: int | 0 <= x < 0x1_0000_0000_0000_0000

  const VARINT := 0
  const BIT64 := 1
  const LENGTH_DELIMITED := 2
  const START_GROUP := 3
  const END_GROUP := 4
  const BIT32 := 5

  // ---- Base 128 varints ----

  function Varint(n: nat): (b: bytes)
    ensures |b| >= 1
  {
    if n < 128 then [n] else [n % 128 + 128] + Varint(n / 128)
  }

  /** Reads a varint of at most `limit` bytes; more continuation bytes are an error. */
  function ReadVarint(b: bytes, limit: nat): (o: Option<(nat, bytes)>)
    ensures o.Some? ==> |o.value.1| < |b| && o.value.1 == b[|b| - |o.value.1|..]
  {
    if |b| == 0 || limit == 0 then None
    else if b[0] < 128 then Some((b[0], b[1..]))
    else
      var (high, rest) :- ReadVarint(b[1..], limit - 1);
      Some((b[0] - 128 + 128 * high, rest))
  }

  function Pow128(k: nat): (p: nat)
    ensures p >= 1
  {
    if k == 0 then 1 else 128 * Pow128(k - 1)
  }

  lemma ReadVarintStep(low: byte, b: bytes, limit: nat)
    requires low >= 128 && limit > 0 && ReadVarint(b, limit - 1).Some?
    ensures var (high, rest) := ReadVarint(b, limit - 1).value;
            ReadVarint([low] + b, limit) == Some((low - 128 + 128 * high, rest))
  {
    assert ([low] + b)[1..] == b;
  }

  lemma OneDigitLess(n: nat, limit: nat)
    requires limit > 0 && n < Pow128(limit)
    ensures n / 128 < Pow128(limit - 1) && n % 128 + 128 * (n / 128) == n
  {
  }

  lemma {:induction false} VarintRoundTrip(n: nat, limit: nat, rest: bytes)
    requires limit > 0 && n < Pow128(limit)
    ensures ReadVarint(Varint(n) + rest, limit) == Some((n, rest))
  {
    if n < 128 {
      assert (Varint(n) + rest)[1..] == rest;
    } else {
      hide ReadVarint;
      OneDigitLess(n, limit);
      assert Varint(n) + rest == [n % 128 + 128] + (Varint(n / 128) + rest);
      VarintRoundTrip(n / 128, limit - 1, rest);
      ReadVarintStep(n % 128 + 128, Varint(n / 128) + rest, limit);
    }
  }

  lemma {:induction false} ReadVarintLocal(b: bytes, limit: nat, c: bytes)
    requires ReadVarint(b, limit).Some?
    ensures ReadVarint(b + c, limit) == Some((ReadVarint(b, limit).value.0, ReadVarint(b, limit).value.1 + c))
  {
    assert (b + c)[1..] == b[1..] + c;
    if b[0] >= 128 {
      ReadVarintLocal(b[1..], limit - 1, c);
    }
  }

  // ---- 32-bit scalars: the low 32 bits of a varint of at most ten bytes ----

  function ReadUint32(b: bytes): (o: Option<(uint32, bytes)>)
    ensures o.Some? ==> |o.value.1| < |b| && o.value.1 == b[|b| - |o.value.1|..]
  {
    var (v, rest) :- ReadVarint(b, 10);
    Some((v % 0x1_0000_0000, rest))
  }

  function ToInt32(u: uint32): int32 {
    if u < 0x8000_0000 then u else u - 0x1_0000_0000
  }

  function ReadInt32(b: bytes): (o: Option<(int32, bytes)>)
    ensures o.Some? ==> |o.value.1| < |b| && o.value.1 == b[|b| - |o.value.1|..]
  {
    var (v, rest) :- ReadUint32(b);
    Some((ToInt32(v), rest))
  }

  /** A negative int32 is sign-extended to 64 bits first, so it always takes ten bytes. */
  function Int32Varint(v: int32): bytes {
    if v >= 0 then Varint(v) else Varint(v + 0x1_0000_0000_0000_0000)
  }

  lemma TenBytesHold64Bits(n: nat)
    requires n < 0x1_0000_0000_0000_0000
    ensures n < Pow128(10)
  {
    assert Pow128(5) == 0x8_0000_0000;
    assert Pow128(10) == 0x40_0000_0000_0000_0000;
  }

  lemma Uint32RoundTrip(v: uint32, rest: bytes)
    ensures ReadUint32(Varint(v) + rest) == Some((v, rest))
  {
    hide Pow128, Varint, ReadVarint;
    TenBytesHold64Bits(v);
    VarintRoundTrip(v, 10, rest);
  }

  lemma Int32RoundTrip(v: int32, rest: bytes)
    ensures ReadInt32(Int32Varint(v) + rest) == Some((v, rest))
  {
    hide Pow128, Varint, ReadVarint;
    var u := if v >= 0 then v else v + 0x1_0000_0000_0000_0000;
    TenBytesHold64Bits(u);
    VarintRoundTrip(u, 10, rest);
    assert u % 0x1_0000_0000 == if v >= 0 then v else v + 0x1_0000_0000;
  }

  // ---- Tags ----

  datatype Tag = Tag(no: nat, wire: nat)

  predicate ValidTag(no: nat, wire: nat) {
    1 <= no < 0x2000_0000 && wire <= 5
  }

  function WriteTag(no: nat, wire: nat): bytes {
    Varint(no * 8 + wire)
  }

  function ReadTag(b: bytes): (o: Option<(Tag, bytes)>)
    ensures o.Some? ==> |o.value.1| < |b| && o.value.1 == b[|b| - |o.value.1|..]
    ensures o.Some? ==> ValidTag(o.value.0.no, o.value.0.wire)
  {
    var (v, rest) :- ReadUint32(b);
    if v / 8 == 0 || v % 8 > 5 then None else Some((Tag(v / 8, v % 8), rest))
  }

  lemma TagRoundTrip(no: nat, wire: nat, rest: bytes)
    requires ValidTag(no, wire)
    ensures ReadTag(WriteTag(no, wire) + rest) == Some((Tag(no, wire), rest))
  {
    Uint32RoundTrip(no * 8 + wire, rest);
  }

  lemma ReadTagLocal(b: bytes, c: bytes)
    requires ReadTag(b).Some?
    ensures ReadTag(b + c) == Some((ReadTag(b).value.0, ReadTag(b).value.1 + c))
  {
    ReadVarintLocal(b, 10, c);
  }

  // ---- The written form is the shortest ----

  lemma {:induction false} VarintShortest(b: bytes, limit: nat)
    requires ReadVarint(b, limit).Some?
    ensures |Varint(ReadVarint(b, limit).value.0)| <= |b| - |ReadVarint(b, limit).value.1|
  {
    if b[0] >= 128 {
      VarintShortest(b[1..], limit - 1);
      var high := ReadVarint(b[1..], limit - 1).value.0;
      assert (b[0] - 128 + 128 * high) / 128 == high;
    }
  }

  lemma {:induction false} VarintGrows(m: nat, n: nat)
    requires m <= n
    ensures |Varint(m)| <= |Varint(n)|
  {
    if m >= 128 {
      VarintGrows(m / 128, n / 128);
    }
  }

  /** A tag that was read, in however many bytes, is written in no more. */
  lemma TagShortest(b: bytes)
    requires ReadTag(b).Some?
    ensures var (tag, rest) := ReadTag(b).value; |WriteTag(tag.no, tag.wire)| <= |b| - |rest|
  {
    hide Varint, ReadVarint;
    var v := ReadVarint(b, 10).value.0;
    VarintShortest(b, 10);
    VarintGrows(v % 0x1_0000_0000, v);
  }

  // ---- Fixed-width little-endian scalars; a float or double is its bit pattern ----

  function Pow256(k: nat): (p: nat)
    ensures p >= 1
  {
    if k == 0 then 1 else 0x100 * Pow256(k - 1)
  }

  function Fixed(k: nat, v: nat): (b: bytes)
    ensures |b| == k
  {
    if k == 0 then [] else [v % 0x100] + Fixed(k - 1, v / 0x100)
  }

  function FixedValue(b: bytes): (v: nat)
    ensures v < Pow256(|b|)
  {
    if b == [] then 0 else b[0] + 0x100 * FixedValue(b[1..])
  }

  function ReadFixed(k: nat, b: bytes): (o: Option<(nat, bytes)>)
    ensures o.Some? ==> |o.value.1| == |b| - k && o.value.1 == b[k..] && o.value.0 < Pow256(k)
  {
    if |b| < k then None else Some((FixedValue(b[..k]), b[k..]))
  }

  lemma {:induction false} FixedValueRoundTrip(k: nat, v: nat)
    requires v < Pow256(k)
    ensures FixedValue(Fixed(k, v)) == v
  {
    if k > 0 {
      assert Fixed(k, v)[1..] == Fixed(k - 1, v / 0x100);
      FixedValueRoundTrip(k - 1, v / 0x100);
    }
  }

  lemma FixedRoundTrip(k: nat, v: nat, rest: bytes)
    requires v < Pow256(k)
    ensures ReadFixed(k, Fixed(k, v) + rest) == Some((v, rest))
  {
    assert (Fixed(k, v) + rest)[..k] == Fixed(k, v);
    assert (Fixed(k, v) + rest)[k..] == rest;
    FixedValueRoundTrip(k, v);
  }

  lemma ReadFixedLocal(k: nat, b: bytes, c: bytes)
    requires ReadFixed(k, b).Some?
    ensures ReadFixed(k, b + c) == Some((ReadFixed(k, b).value.0, ReadFixed(k, b).value.1 + c))
  {
    assert (b + c)[..k] == b[..k];
    assert (b + c)[k..] == b[k..] + c;
  }

  // ---- Length-delimited records ----

  function Delimited(payload: bytes): bytes {
    Varint(|payload|) + payload
  }

  function ReadBytes(b: bytes): (o: Option<(bytes, bytes)>)
    ensures o.Some? ==> |o.value.1| < |b| && o.value.1 == b[|b| - |o.value.1|..]
  {
    var (n, rest) :- ReadUint32(b);
    if |rest| < n then None else Some((rest[..n], rest[n..]))
  }

  lemma DelimitedRoundTrip(payload: bytes, rest: bytes)
    requires |payload| < 0x1_0000_0000
    ensures ReadBytes(Delimited(payload) + rest) == Some((payload, rest))
  {
    assert Delimited(payload) + rest == Varint(|payload|) + (payload + rest);
    Uint32RoundTrip(|payload|, payload + rest);
  }

  lemma ReadBytesLocal(b: bytes, c: bytes)
    requires ReadBytes(b).Some?
    ensures ReadBytes(b + c) == Some((ReadBytes(b).value.0, ReadBytes(b).value.1 + c))
  {
    ReadVarintLocal(b, 10, c);
    var (n, rest) := ReadUint32(b).value;
    assert (rest + c)[..n] == rest[..n];
    assert (rest + c)[n..] == rest[n..] + c;
  }

  // ---- Skipping a field whose number is not known ----

  /** Unlike ReadVarint, skipping sets no limit on the number of continuation bytes. */
  function SkipVarint(b: bytes): (o: Option<bytes>)
    ensures o.Some? ==> |o.value| < |b| && o.value == b[|b| - |o.value|..]
  {
    if |b| == 0 then None else if b[0] < 128 then Some(b[1..]) else SkipVarint(b[1..])
  }

  predicate IsSuffix(b: bytes, s: bytes) {
    |s| <= |b| && s == b[|b| - |s|..]
  }

  lemma SuffixOfSuffix(b: bytes, s: bytes, t: bytes)
    requires IsSuffix(b, s) && IsSuffix(s, t)
    ensures IsSuffix(b, t)
  {
  }

  /** The bytes left after one value of the wire type; None when there is no such value. */
  function Skip(wire: nat, b: bytes): (o: Option<bytes>)
    ensures o.Some? ==> |o.value| < |b| && o.value == b[|b| - |o.value|..]
    decreases |b|, 1
  {
    if wire == VARINT then SkipVarint(b)
    else if wire == BIT64 then if |b| < 8 then None else Some(b[8..])
    else if wire == BIT32 then if |b| < 4 then None else Some(b[4..])
    else if wire == LENGTH_DELIMITED then
      var (_, rest) :- ReadBytes(b);
      Some(rest)
    else if wire == START_GROUP then SkipGroup(b)
    else None
  }

  /** Skips nested fields up to the matching end-group tag. */
  function SkipGroup(b: bytes): (o: Option<bytes>)
    ensures o.Some? ==> |o.value| < |b| && IsSuffix(b, o.value)
    decreases |b|, 0
  {
    hide ReadTag, Skip;
    var (tag, rest) :- ReadTag(b);
    if tag.wire == END_GROUP then Some(rest)
    else
      var rest' :- Skip(tag.wire, rest);
      SuffixOfSuffix(b, rest, rest');
      var rest'' :- SkipGroup(rest');
      SuffixOfSuffix(b, rest', rest'');
      Some(rest'')
  }

  lemma {:induction false} SkipVarintLocal(b: bytes, c: bytes)
    requires SkipVarint(b).Some?
    ensures SkipVarint(b + c) == Some(SkipVarint(b).value + c)
  {
    assert (b + c)[1..] == b[1..] + c;
    if b[0] >= 128 {
      SkipVarintLocal(b[1..], c);
    }
  }

  lemma {:induction false} SkipLocal(wire: nat, b: bytes, c: bytes)
    requires Skip(wire, b).Some?
    ensures Skip(wire, b + c) == Some(Skip(wire, b).value + c)
    decreases |b|, 1
  {
    if wire == VARINT {
      SkipVarintLocal(b, c);
    } else if wire == BIT64 {
      assert (b + c)[8..] == b[8..] + c;
    } else if wire == BIT32 {
      assert (b + c)[4..] == b[4..] + c;
    } else if wire == LENGTH_DELIMITED {
      ReadBytesLocal(b, c);
    } else {
      SkipGroupLocal(b, c);
    }
  }

  lemma {:induction false} SkipGroupLocal(b: bytes, c: bytes)
    requires SkipGroup(b).Some?
    ensures SkipGroup(b + c) == Some(SkipGroup(b).value + c)
    decreases |b|, 0
  {
    ReadTagLocal(b, c);
    var (tag, rest) := ReadTag(b).value;
    if tag.wire != END_GROUP {
      SkipLocal(tag.wire, rest, c);
      SkipGroupLocal(Skip(tag.wire, rest).value, c);
    }
  }
}
