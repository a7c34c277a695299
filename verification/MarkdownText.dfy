/** Strings as the Markdown normaliser sees them: trimming, cleaned headings and version suffixes. */
module MarkdownText {

  /** White space and line terminators, as `trim` removes them. */
  predicate IsSpace(c: char) {
    var n := c as int;
    9 <= n <= 13 || n == 32 || n == 160 || n == 5760 || 8192 <= n <= 8202 || n == 8232 || n == 8233 || n == 8239
    || n == 8287 || n == 12288 || n == 65279
  }

  /** The class that is stripped from the end of a heading. */
  predicate IsTail(c: char) {
    c in {'.', '!', '?', ':', ' ', '\t', '\n', '\r'}
  }

  /** White space that the heading class knows too. */
  predicate Plain(s: string) {
    forall i | 0 <= i < |s| :: IsSpace(s[i]) ==> IsTail(s[i])
  }

  function TrimEnd(s: string): (r: string)
    ensures |r| <= |s| && r == s[..|r|]
    ensures r != "" ==> !IsSpace(r[|r| - 1])
    ensures forall i | |r| <= i < |s| :: IsSpace(s[i])
  {
    if s != "" && IsSpace(s[|s| - 1]) then TrimEnd(s[..|s| - 1]) else s
  }

  function TrimStart(s: string): (r: string)
    ensures |r| <= |s| && r == s[|s| - |r|..]
    ensures r != "" ==> !IsSpace(r[0])
    ensures forall i | 0 <= i < |s| - |r| :: IsSpace(s[i])
  {
    if s != "" && IsSpace(s[0]) then TrimStart(s[1..]) else s
  }

  function Trim(s: string): (r: string) {
    TrimStart(TrimEnd(s))
  }

  /** `replace(/[.!?: \t\n\r]+$/, "")`. */
  function Clean(s: string): (r: string)
    ensures |r| <= |s| && r == s[..|r|]
    ensures r != "" ==> !IsTail(r[|r| - 1])
    ensures forall i | |r| <= i < |s| :: IsTail(s[i])
  {
    if s != "" && IsTail(s[|s| - 1]) then Clean(s[..|s| - 1]) else s
  }

  /** No white space at either end. */
  predicate Trimmed(s: string) {
    s != "" ==> !IsSpace(s[0]) && !IsSpace(s[|s| - 1])
  }

  lemma TrimmedIsFixed(s: string)
    requires Trimmed(s)
    ensures TrimEnd(s) == s && Trim(s) == s
  {
  }

  lemma TrimIsTrimmed(s: string)
    ensures Trimmed(Trim(s)) && Trim(TrimEnd(s)) == Trim(s) && TrimEnd(TrimEnd(s)) == TrimEnd(s)
    ensures Trim(s) == "" <==> TrimEnd(s) == ""
  {
    var e := TrimEnd(s);
    var r := TrimStart(e);
    if r != "" {
      assert r[|r| - 1] == e[|e| - 1];
    }
  }

  lemma {:induction false} TrimStartDrops(space: string, rest: string)
    requires (forall i | 0 <= i < |space| :: IsSpace(space[i])) && (rest != "" ==> !IsSpace(rest[0]))
    ensures TrimStart(space + rest) == rest
  {
    hide IsSpace;
    if space == "" {
      assert space + rest == rest;
    } else {
      assert (space + rest)[1..] == space[1..] + rest && (space + rest)[0] == space[0];
      TrimStartDrops(space[1..], rest);
    }
  }

  lemma TrimEndStep(s: string)
    requires s != ""
    ensures TrimEnd(s) == if IsSpace(s[|s| - 1]) then TrimEnd(s[..|s| - 1]) else s
  {
    hide IsSpace;
  }

  lemma NothingToTrim()
    ensures TrimEnd("") == ""
  {
  }

  lemma {:induction false} TrimEndDrops(space: string, rest: string)
    requires (forall i | 0 <= i < |space| :: IsSpace(space[i])) && (rest != "" ==> !IsSpace(rest[0]))
    ensures TrimEnd(space + rest) == if rest == "" then "" else space + TrimEnd(rest)
    decreases |space| + |rest|
  {
    hide IsSpace, TrimEnd;
    var s := space + rest;
    if rest != "" {
      TrimEndStep(s);
      TrimEndStep(rest);
      assert s[..|s| - 1] == space + rest[..|rest| - 1] && s[|s| - 1] == rest[|rest| - 1];
      if IsSpace(rest[|rest| - 1]) {
        TrimEndDrops(space, rest[..|rest| - 1]);
      }
    } else if space != "" {
      TrimEndStep(s);
      assert s == space && s[..|s| - 1] == space[..|space| - 1] + "";
      TrimEndDrops(space[..|space| - 1], "");
    } else {
      NothingToTrim();
    }
  }

  /** What trimming leaves of a line with white space in front. */
  lemma TrimDropsEnds(space: string, rest: string)
    requires (forall i | 0 <= i < |space| :: IsSpace(space[i])) && (rest != "" ==> !IsSpace(rest[0]))
    ensures Trim(space + rest) == TrimEnd(rest)
  {
    hide IsSpace, TrimEnd, TrimStart;
    TrimEndDrops(space, rest);
    if rest == "" {
      TrimStartDrops("", "");
      TrimEndDrops("", "");
      assert "" + "" == "";
    } else {
      var e := TrimEnd(rest);
      FirstStays(rest);
      TrimStartDrops(space, e);
    }
  }

  lemma FirstStays(rest: string)
    requires rest != "" && !IsSpace(rest[0])
    ensures TrimEnd(rest) != "" && TrimEnd(rest)[0] == rest[0]
  {
    hide IsSpace;
  }

  lemma CleanIsFixed(s: string)
    requires s != "" ==> !IsTail(s[|s| - 1])
    ensures Clean(s) == s
  {
  }

  predicate StartsWith(s: string, prefix: string) {
    prefix <= s
  }

  /** A heading cleaned of its tail is still a heading. */
  lemma CleanKeepsHash(t: string)
    requires StartsWith(t, "#")
    ensures StartsWith(Clean(t), "#")
  {
    assert t[0] == '#';
  }

  // ---- Version suffixes ----

  function Digit(d: nat): char
    requires d < 10
  {
    (48 + d) as char
  }

  predicate IsDigit(c: char) {
    '0' <= c <= '9'
  }

  function Decimal(n: nat): (s: string)
    ensures s != "" && IsDigit(s[|s| - 1])
  {
    if n < 10 then [Digit(n)] else Decimal(n / 10) + [Digit(n % 10)]
  }

  function Suffix(n: nat): (s: string)
    ensures |s| > 0 && s[|s| - 1] == ']'
  {
    " [v" + Decimal(n) + "]"
  }

  /** The `k`-th repetition of a heading; the first occurrence (k == 0) stays as it is. */
  function Label(c: string, k: nat): string {
    if k == 0 then c else c + Suffix(k + 1)
  }

  /** All digits but the last. */
  function Leading(n: nat): (s: string)
    ensures s != "" ==> IsDigit(s[|s| - 1])
    ensures Decimal(n) == s + [Digit(n % 10)] && (s == "" <==> n < 10) && (n >= 10 ==> s == Decimal(n / 10))
  {
    if n < 10 then "" else Decimal(n / 10)
  }

  lemma LastDigit(a: string, m: nat, b: string, n: nat)
    requires a + Decimal(m) == b + Decimal(n)
    ensures m % 10 == n % 10 && a + Leading(m) == b + Leading(n)
  {
    hide Decimal, Leading;
    assert a + Decimal(m) == a + Leading(m) + [Digit(m % 10)];
    assert b + Decimal(n) == b + Leading(n) + [Digit(n % 10)];
    LastCharacter(a + Leading(m), Digit(m % 10), b + Leading(n), Digit(n % 10));
  }

  lemma LastCharacter(a: string, x: char, b: string, y: char)
    requires a + [x] == b + [y]
    ensures a == b && x == y
  {
    assert (a + [x])[|a|] == x && (b + [y])[|b|] == y;
    assert (a + [x])[..|a|] == a && (b + [y])[..|b|] == b;
  }

  lemma {:induction false} DecimalInjective(a: string, m: nat, b: string, n: nat)
    requires a != "" && b != "" && !IsDigit(a[|a| - 1]) && !IsDigit(b[|b| - 1])
    requires a + Decimal(m) == b + Decimal(n)
    ensures a == b && m == n
  {
    hide Decimal, Leading;
    LastDigit(a, m, b, n);
    var s, t := a + Leading(m), b + Leading(n);
    assert s[|s| - 1] == (if m < 10 then a[|a| - 1] else Leading(m)[|Leading(m)| - 1]);
    assert t[|t| - 1] == (if n < 10 then b[|b| - 1] else Leading(n)[|Leading(n)| - 1]);
    assert m < 10 <==> n < 10;
    if m >= 10 {
      DecimalInjective(a, m / 10, b, n / 10);
    } else {
      assert s == a && t == b;
    }
  }

  /** Different headings or versions never share a versioned form. */
  lemma SuffixInjective(c: string, m: nat, d: string, n: nat)
    requires c + Suffix(m) == d + Suffix(n)
    ensures c == d && m == n
  {
    var a, b := c + " [v", d + " [v";
    assert c + Suffix(m) == a + Decimal(m) + "]" && d + Suffix(n) == b + Decimal(n) + "]";
    var s, t := a + Decimal(m) + "]", b + Decimal(n) + "]";
    assert s[..|s| - 1] == a + Decimal(m) && t[..|t| - 1] == b + Decimal(n);
    DecimalInjective(a, m, b, n);
    assert a[..|a| - 3] == c && b[..|b| - 3] == d;
  }

  /** The number that a string of decimal digits stands for. */
  function Value(s: string): nat
    requires forall i | 0 <= i < |s| :: IsDigit(s[i])
  {
    if s == "" then 0
    else
      var last := s[|s| - 1];
      assert IsDigit(last);
      10 * Value(s[..|s| - 1]) + (last as int - 48)
  }

  lemma {:induction false} DecimalReads(n: nat)
    ensures (forall i | 0 <= i < |Decimal(n)| :: IsDigit(Decimal(n)[i])) && Value(Decimal(n)) == n
    ensures Decimal(n)[0] == '0' ==> n == 0
  {
    if n >= 10 {
      DecimalReads(n / 10);
      var s := Decimal(n);
      assert s[..|s| - 1] == Decimal(n / 10) && s[0] == Decimal(n / 10)[0];
    } else {
      assert Decimal(n)[..0] == "";
    }
  }

  /** What the normaliser makes of a heading is a fixed point of trimming and cleaning. */
  predicate Settled(h: string) {
    StartsWith(h, "#") && Trimmed(h) && Clean(h) == h
  }
}
