/** What the bytes of a number mean, digit by digit: for every number that is written and any bytes that are read. */
module WireNumbers {
  import opened Prelude
  import opened Wire

  function Pow(base: nat, k: nat): nat {
    if k == 0 then 1 else base * Pow(base, k - 1)
  }

  /** The number with these digits, the lowest first. */
  function Sum(base: nat, digits: seq<nat>): nat {
    if digits == [] then 0
    else
      var n := |digits| - 1;
      Sum(base, digits[..n]) + digits[n] * Pow(base, n)
  }

  lemma MoreByOnePower(base: nat, x: nat, s: nat, d: nat, p: nat)
    ensures x + base * s + d * (base * p) == x + base * (s + d * p)
  {
  }

  lemma {:induction false} SumFromFront(base: nat, x: nat, digits: seq<nat>)
    ensures Sum(base, [x] + digits) == x + base * Sum(base, digits)
  {
    var all := [x] + digits;
    if digits == [] {
      assert all[..0] == [] && Pow(base, 0) == 1;
    } else {
      var n := |digits| - 1;
      assert all[..n + 1] == [x] + digits[..n];
      SumFromFront(base, x, digits[..n]);
      MoreByOnePower(base, x, Sum(base, digits[..n]), digits[n], Pow(base, n));
    }
  }

  // ---- Fixed-width numbers ----

  lemma {:induction false} FixedReadsExactly(b: bytes)
    ensures FixedValue(b) == Sum(256, b)
  {
    hide Sum;
    if b == [] {
      NoDigits(256);
    } else {
      FixedReadsExactly(b[1..]);
      SumFromFront(256, b[0], b[1..]);
      assert b == [b[0]] + b[1..];
    }
  }

  lemma NoDigits(base: nat)
    ensures Sum(base, []) == 0
  {
  }

  /** A float or double is written with its low byte first. */
  lemma FixedExactly(k: nat, v: nat)
    requires v < Pow256(k)
    ensures |Fixed(k, v)| == k && Sum(256, Fixed(k, v)) == v
  {
    FixedValueRoundTrip(k, v);
    FixedReadsExactly(Fixed(k, v));
  }

  // ---- Varints ----

  /** The low seven bits of each byte. */
  function Groups(b: bytes): seq<nat> {
    seq(|b|, i requires 0 <= i < |b| => b[i] % 128)
  }

  lemma GroupsFromFront(x: byte, b: bytes)
    ensures Groups([x] + b) == [x % 128] + Groups(b)
  {
  }

  lemma LastByteRead(b: bytes, limit: nat)
    requires b != [] && limit > 0 && b[0] < 128
    ensures ReadVarint(b, limit) == Some((b[0], b[1..])) && SkipVarint(b) == Some(b[1..])
  {
  }

  lemma MarkedByteRead(b: bytes, limit: nat, high: nat, rest: bytes)
    requires b != [] && limit > 0 && b[0] >= 128 && ReadVarint(b[1..], limit - 1) == Some((high, rest))
    ensures ReadVarint(b, limit) == Some((b[0] - 128 + 128 * high, rest)) && SkipVarint(b) == SkipVarint(b[1..])
  {
  }

  /** The bytes up to the first unmarked one, within the limit, hold the number in groups of seven bits, the low ones
      first; skipping it leaves the same bytes. */
  lemma {:induction false} VarintReadsExactly(b: bytes, k: nat, limit: nat)
    requires k < |b| && k < limit && b[k] < 128 && forall i | 0 <= i < k :: b[i] >= 128
    ensures ReadVarint(b, limit) == Some((Sum(128, Groups(b[..k + 1])), b[k + 1..]))
    ensures SkipVarint(b) == Some(b[k + 1..])
  {
    hide Sum, Groups, ReadVarint, SkipVarint;
    var rest := b[1..];
    assert b[..k + 1] == [b[0]] + rest[..k];
    GroupsFromFront(b[0], rest[..k]);
    SumFromFront(128, b[0] % 128, Groups(rest[..k]));
    if k == 0 {
      NoGroups(rest[..0]);
      NoDigits(128);
      LastByteRead(b, limit);
    } else {
      VarintReadsExactly(rest, k - 1, limit - 1);
      assert rest[k..] == b[k + 1..];
      MarkedByteRead(b, limit, Sum(128, Groups(rest[..k])), rest[k..]);
    }
  }

  lemma NoGroups(b: bytes)
    requires b == []
    ensures Groups(b) == []
  {
  }

  /** A varint that does not end within the limit, or at all, is an error. */
  lemma {:induction false} EndlessVarintFails(b: bytes, limit: nat)
    requires forall i | 0 <= i < |b| && i < limit :: b[i] >= 128
    ensures ReadVarint(b, limit) == None
  {
    if b != [] && limit > 0 {
      assert forall i | 0 <= i < |b| - 1 :: b[1..][i] == b[i + 1];
      EndlessVarintFails(b[1..], limit - 1);
    }
  }

  /** A number is written in groups of seven bits, the low ones first, each but the last marked, and without a last group
      of zeros. */
  lemma {:induction false} VarintExactly(n: nat)
    ensures var b := Varint(n);
            && Sum(128, Groups(b)) == n && b[|b| - 1] < 128 && (|b| > 1 ==> b[|b| - 1] > 0)
            && forall i | 0 <= i < |b| - 1 :: b[i] >= 128
  {
    hide Sum;
    var b := Varint(n);
    if n < 128 {
      assert Groups(b) == [n] + [];
      SumFromFront(128, n, []);
      NoDigits(128);
    } else {
      var rest := Varint(n / 128);
      VarintExactly(n / 128);
      assert b == [n % 128 + 128] + rest;
      assert Groups(b) == [n % 128] + Groups(rest);
      SumFromFront(128, n % 128, Groups(rest));
      assert forall i | 0 < i < |b| :: b[i] == rest[i - 1];
    }
  }

  // ---- Tags ----

  /** A tag holds a field number and a wire type; number 0 and wire types 6 and 7 are errors. */
  lemma TagsExactly(no: nat, wire: nat, rest: bytes)
    requires no < 0x2000_0000 && wire < 8
    ensures ReadTag(Varint(no * 8 + wire) + rest) == if no == 0 || wire > 5 then None else Some((Tag(no, wire), rest))
  {
    hide Varint, ReadUint32;
    Uint32RoundTrip(no * 8 + wire, rest);
  }

  /** Only the low 32 bits of a longer number count, as a two's complement number where a sign is expected. */
  lemma LowBitsExactly(b: bytes)
    requires ReadVarint(b, 10).Some?
    ensures var v, u, s := ReadVarint(b, 10).value.0, ReadUint32(b), ReadInt32(b);
            && u.Some? && s.Some? && 0 <= u.value.0 < 0x1_0000_0000 && -0x8000_0000 <= s.value.0 < 0x8000_0000
            && (v - u.value.0) % 0x1_0000_0000 == 0 && (v - s.value.0) % 0x1_0000_0000 == 0
  {
    hide ReadVarint;
  }
}
