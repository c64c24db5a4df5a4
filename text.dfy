/** The JavaScript string operations the quiz app relies on: `startsWith`,
    `endsWith`, `trim`, `toLowerCase`/`toUpperCase` (ASCII letters only),
    `join`, `substring(0, n)`, `Number.prototype.toString()` on naturals,
    the first match of `/\d+/` and `parseInt` on a run of digits. */
module Text {
  import opened Wrappers

  predicate StartsWith(s: string, prefix: string) {
    |prefix| <= |s| && s[..|prefix|] == prefix
  }

  predicate EndsWith(s: string, suffix: string) {
    |suffix| <= |s| && s[|s| - |suffix|..] == suffix
  }

  // ---------------------------------------------------------------------------
  // trim

  /** The characters `String.prototype.trim` strips: ECMAScript WhiteSpace
      (TAB, VT, FF, SP, NBSP, ZWNBSP and the space separators) and
      LineTerminator (LF, CR, LS, PS). */
  predicate IsWhiteSpace(c: char) {
    var k := c as int;
    (9 <= k <= 13) || k == 32 || k == 0xA0 || k == 0x1680 || (0x2000 <= k <= 0x200A)
    || k == 0x2028 || k == 0x2029 || k == 0x202F || k == 0x205F || k == 0x3000 || k == 0xFEFF
  }

  predicate AllWhiteSpace(s: string) {
    forall i :: 0 <= i < |s| ==> IsWhiteSpace(s[i])
  }

  /** `s` with its leading white space removed: a suffix of `s`, preceded only
      by white space and not itself starting with white space. */
  function TrimStart(s: string): (r: string)
    ensures |r| <= |s| && r == s[|s| - |r|..]
    ensures AllWhiteSpace(s[..|s| - |r|])
    ensures r == [] || !IsWhiteSpace(r[0])
  {
    if |s| == 0 || !IsWhiteSpace(s[0]) then s
    else
      var t := s[1..];
      var r := TrimStart(t);
      assert s[..|s| - |r|] == [s[0]] + t[..|t| - |r|];
      assert s[|s| - |r|..] == t[|t| - |r|..];
      r
  }

  /** `s` with its trailing white space removed: a prefix of `s`, followed only
      by white space and not itself ending with white space. */
  function TrimEnd(s: string): (r: string)
    ensures |r| <= |s| && r == s[..|r|]
    ensures AllWhiteSpace(s[|r|..])
    ensures r == [] || !IsWhiteSpace(r[|r| - 1])
  {
    if |s| > 0 && IsWhiteSpace(s[|s| - 1]) then
      var r := TrimEnd(s[..|s| - 1]);
      assert s[|r|..] == s[..|s| - 1][|r|..] + [s[|s| - 1]];
      r
    else s
  }

  /** `String.prototype.trim`. */
  function Trim(s: string): (r: string)
    ensures |r| <= |s|
    ensures r == [] || (!IsWhiteSpace(r[0]) && !IsWhiteSpace(r[|r| - 1]))
  {
    var a := TrimStart(s);
    var r := TrimEnd(a);
    assert r != [] ==> r[0] == a[0];
    r
  }

  lemma {:induction false} TrimStartSkips(p: string, t: string)
    requires AllWhiteSpace(p)
    ensures TrimStart(p + t) == TrimStart(t)
  {
    if p == [] {
      assert p + t == t;
    } else {
      assert (p + t)[1..] == p[1..] + t;
      TrimStartSkips(p[1..], t);
    }
  }

  lemma {:induction false} TrimEndSkips(t: string, q: string)
    requires AllWhiteSpace(q)
    ensures TrimEnd(t + q) == TrimEnd(t)
  {
    if q == [] {
      assert t + q == t;
    } else {
      assert (t + q)[..|t + q| - 1] == t + q[..|q| - 1];
      TrimEndSkips(t, q[..|q| - 1]);
    }
  }

  /** Trim is determined by its specification: if `s` is `m` wrapped in white
      space and `m` neither starts nor ends with white space, Trim(s) is `m`. */
  lemma TrimUnique(p: string, m: string, q: string)
    requires AllWhiteSpace(p) && AllWhiteSpace(q)
    requires m == [] || (!IsWhiteSpace(m[0]) && !IsWhiteSpace(m[|m| - 1]))
    ensures Trim(p + m + q) == m
  {
    assert p + m + q == p + (m + q);
    TrimStartSkips(p, m + q);
    if m == [] {
      assert m + q == q && q + [] == q;
      TrimStartSkips(q, []);
    } else {
      assert TrimStart(m + q) == m + q;
      TrimEndSkips(m, q);
    }
  }

  /** Surrounding white space never changes what `trim` returns. */
  lemma TrimIgnoresPadding(p: string, s: string, q: string)
    requires AllWhiteSpace(p) && AllWhiteSpace(q)
    ensures Trim(p + s + q) == Trim(s)
  {
    var p', m, q' := TrimSplit(s);
    AllWhiteSpaceAppend(p, p');
    AllWhiteSpaceAppend(q', q);
    Regroup(p, p', m, q', q);
    TrimUnique(p + p', m, q' + q);
  }

  lemma Regroup(a: string, b: string, c: string, d: string, e: string)
    ensures a + (b + c + d) + e == (a + b) + c + (d + e)
  {
  }

  /** Concatenation regrouped to the right, for proofs that peel one piece off. */
  lemma Assoc(a: string, b: string, c: string)
    ensures a + b + c == a + (b + c)
  {
  }

  /** Every string is its trimmed form wrapped in white space. */
  lemma TrimSplit(s: string) returns (p: string, m: string, q: string)
    ensures s == p + m + q && m == Trim(s)
    ensures AllWhiteSpace(p) && AllWhiteSpace(q)
  {
    var a := TrimStart(s);
    m := TrimEnd(a);
    p := s[..|s| - |a|];
    q := a[|m|..];
    SplitThree(s, a, m);
  }

  /** A suffix `a` of `s` and a prefix `m` of `a` cut `s` into three parts. */
  lemma SplitThree(s: string, a: string, m: string)
    requires |a| <= |s| && a == s[|s| - |a|..]
    requires |m| <= |a| && m == a[..|m|]
    ensures s == s[..|s| - |a|] + m + a[|m|..]
  {
    assert a == m + a[|m|..];
    assert s == s[..|s| - |a|] + a;
  }

  lemma AllWhiteSpaceAppend(a: string, b: string)
    requires AllWhiteSpace(a) && AllWhiteSpace(b)
    ensures AllWhiteSpace(a + b)
  {
  }

  /** Only an all-white-space string trims to the empty string. */
  lemma TrimEmptyIff(s: string)
    ensures Trim(s) == [] <==> AllWhiteSpace(s)
  {
    var p, m, q := TrimSplit(s);
    if m == [] {
      assert s == p + q;
      AllWhiteSpaceAppend(p, q);
    }
  }

  // ---------------------------------------------------------------------------
  // ASCII case mapping

  function LowerChar(c: char): char {
    if 'A' <= c <= 'Z' then (c as int + 32) as char else c
  }

  function UpperChar(c: char): char {
    if 'a' <= c <= 'z' then (c as int - 32) as char else c
  }

  /** `toLowerCase`, restricted to the ASCII letters. */
  function Lower(s: string): (r: string)
    ensures |r| == |s|
    ensures forall i :: 0 <= i < |r| ==> !('A' <= r[i] <= 'Z')
    ensures forall i :: 0 <= i < |s| && !('A' <= s[i] <= 'Z') ==> r[i] == s[i]
  {
    seq(|s|, i requires 0 <= i < |s| => LowerChar(s[i]))
  }

  /** `toUpperCase`, restricted to the ASCII letters. */
  function Upper(s: string): (r: string)
    ensures |r| == |s|
  {
    seq(|s|, i requires 0 <= i < |s| => UpperChar(s[i]))
  }

  /** Lower-casing forgets the case of every letter. */
  lemma LowerForgetsCase(s: string)
    ensures Lower(Upper(s)) == Lower(s)
  {
    forall i | 0 <= i < |s| ensures Lower(Upper(s))[i] == Lower(s)[i] {
      var c := s[i];
      assert Upper(s)[i] == UpperChar(c);
    }
  }

  lemma LowerAppend(a: string, b: string)
    ensures Lower(a + b) == Lower(a) + Lower(b)
  {
  }

  lemma LowerKeepsWhiteSpace(s: string)
    requires AllWhiteSpace(s)
    ensures Lower(s) == s
  {
  }

  lemma LowerKeepsEdges(s: string)
    ensures s == [] || (!IsWhiteSpace(s[0]) && !IsWhiteSpace(s[|s| - 1])) ==>
              Lower(s) == [] || (!IsWhiteSpace(Lower(s)[0]) && !IsWhiteSpace(Lower(s)[|s| - 1]))
  {
  }

  /** Lower-casing and trimming commute, since no ASCII letter is white space. */
  lemma TrimLowerCommute(s: string)
    ensures Trim(Lower(s)) == Lower(Trim(s))
  {
    var p, m, q := TrimSplit(s);
    LowerAppend(p, m);
    LowerAppend(p + m, q);
    LowerKeepsWhiteSpace(p);
    LowerKeepsWhiteSpace(q);
    LowerKeepsEdges(m);
    TrimUnique(p, Lower(m), q);
  }

  // ---------------------------------------------------------------------------
  // join and substring

  /** `Array.prototype.join(sep)` on strings. */
  function Join(parts: seq<string>, sep: string): (r: string)
    ensures parts == [] ==> r == ""
    ensures parts != [] ==> StartsWith(r, parts[0]) && EndsWith(r, parts[|parts| - 1])
    ensures |parts| == 1 ==> r == parts[0]
  {
    if |parts| == 0 then ""
    else if |parts| == 1 then parts[0]
    else
      var first, last := parts[0], parts[|parts| - 1];
      var rest := Join(parts[1..], sep);
      assert parts[1..][|parts| - 2] == last;
      var r := first + sep + rest;
      assert r[..|first|] == first;
      assert r[|r| - |last|..] == rest[|rest| - |last|..];
      r
  }

  /** Joining two non-empty lists puts one separator between their joins:
      `sep` sits exactly between consecutive parts. */
  lemma {:induction false} JoinAppend(a: seq<string>, b: seq<string>, sep: string)
    requires a != [] && b != []
    ensures Join(a + b, sep) == Join(a, sep) + sep + Join(b, sep)
  {
    var ab := a + b;
    assert ab[0] == a[0];
    if |a| == 1 {
      assert ab[1..] == b;
      calc {
        Join(ab, sep);
        a[0] + sep + Join(ab[1..], sep);
        Join(a, sep) + sep + Join(b, sep);
      }
    } else {
      assert ab[1..] == a[1..] + b;
      JoinAppend(a[1..], b, sep);
      calc {
        Join(ab, sep);
        a[0] + sep + Join(a[1..] + b, sep);
        a[0] + sep + (Join(a[1..], sep) + sep + Join(b, sep));
        (a[0] + sep + Join(a[1..], sep)) + sep + Join(b, sep);
        Join(a, sep) + sep + Join(b, sep);
      }
    }
  }

  /** `s.substring(0, n)`: the first `n` characters, or all of `s` if shorter. */
  function Take(s: string, n: nat): (r: string)
    ensures |r| == (if |s| <= n then |s| else n)
    ensures r == s[..|r|]
  {
    if |s| <= n then s else s[..n]
  }

  /** Cutting a string twice keeps the shorter cut. */
  lemma TakeTake(s: string, m: nat, n: nat)
    requires n <= m
    ensures Take(Take(s, m), n) == Take(s, n)
  {
  }

  // ---------------------------------------------------------------------------
  // decimal numerals

  predicate IsDigit(c: char) {
    '0' <= c <= '9'
  }

  predicate AllDigits(s: string) {
    forall i :: 0 <= i < |s| ==> IsDigit(s[i])
  }

  function DigitChar(d: nat): (c: char)
    requires d < 10
    ensures IsDigit(c) && c as int - '0' as int == d
  {
    ('0' as int + d) as char
  }

  /** `n.toString()`: the decimal numeral of `n`, without leading zeros. */
  function NatToString(n: nat): (r: string)
    ensures r != [] && AllDigits(r)
    ensures r[0] == '0' ==> n == 0
  {
    if n < 10 then [DigitChar(n)] else NatToString(n / 10) + [DigitChar(n % 10)]
  }

  /** `parseInt` of a run of decimal digits. */
  function DigitsValue(s: string): nat
    requires AllDigits(s)
  {
    if s == [] then 0 else DigitsValue(s[..|s| - 1]) * 10 + (s[|s| - 1] as int - '0' as int)
  }

  /** Reading back a numeral gives the number it was written from. */
  lemma {:induction false} DigitsValueOfNatToString(n: nat)
    ensures DigitsValue(NatToString(n)) == n
  {
    if n >= 10 {
      var s := NatToString(n);
      assert s[..|s| - 1] == NatToString(n / 10);
      DigitsValueOfNatToString(n / 10);
    }
  }

  /** Distinct numbers have distinct numerals. */
  lemma NatToStringInjective(m: nat, n: nat)
    requires NatToString(m) == NatToString(n)
    ensures m == n
  {
    DigitsValueOfNatToString(m);
    DigitsValueOfNatToString(n);
  }

  // ---------------------------------------------------------------------------
  // the first match of /\d+/

  /** The longest prefix of `s` made of digits. */
  function DigitPrefix(s: string): (r: string)
    ensures |r| <= |s| && r == s[..|r|] && AllDigits(r)
    ensures |r| == |s| || !IsDigit(s[|r|])
  {
    if |s| > 0 && IsDigit(s[0]) then [s[0]] + DigitPrefix(s[1..]) else []
  }

  /** The position of the first digit of `s`, if any. */
  function FirstDigitIndex(s: string): (r: Option<nat>)
    ensures r.None? <==> forall i :: 0 <= i < |s| ==> !IsDigit(s[i])
    ensures r.Some? ==> r.value < |s| && IsDigit(s[r.value])
                        && forall i :: 0 <= i < r.value ==> !IsDigit(s[i])
  {
    if |s| == 0 then None
    else if IsDigit(s[0]) then Some(0)
    else match FirstDigitIndex(s[1..])
      case None => None
      case Some(i) => Some(i + 1)
  }

  /** `s.match(/\d+/)?.[0]`: the first maximal run of digits, if any. */
  function FirstDigitRun(s: string): (r: Option<string>)
    ensures r.None? <==> forall i :: 0 <= i < |s| ==> !IsDigit(s[i])
    ensures r.Some? ==> r.value != [] && AllDigits(r.value)
    ensures r.Some? ==>
              var i := FirstDigitIndex(s).value;
              // it starts at the first digit of `s` ...
              && (forall j :: 0 <= j < i ==> !IsDigit(s[j]))
              && i + |r.value| <= |s| && r.value == s[i..i + |r.value|]
              // ... and is followed by the end of `s` or a non-digit
              && (i + |r.value| == |s| || !IsDigit(s[i + |r.value|]))
  {
    match FirstDigitIndex(s)
    case None => None
    case Some(i) => Some(DigitPrefix(s[i..]))
  }

  /** In a string that has no digits up to position |p|, the first run of
      digits is a numeral placed right there. */
  lemma FirstDigitRunAfter(p: string, n: nat, q: string)
    requires forall i :: 0 <= i < |p| ==> !IsDigit(p[i])
    requires q == [] || !IsDigit(q[0])
    ensures FirstDigitRun(p + NatToString(n) + q) == Some(NatToString(n))
  {
    var s := p + NatToString(n) + q;
    var d := NatToString(n);
    assert IsDigit(s[|p|]);
    var i := FirstDigitIndex(s).value;
    assert i == |p|;
    assert s[i..] == d + q;
    DigitPrefixOf(d, q);
  }

  lemma {:induction false} DigitPrefixOf(d: string, q: string)
    requires AllDigits(d)
    requires q == [] || !IsDigit(q[0])
    ensures DigitPrefix(d + q) == d
  {
    if d != [] {
      assert (d + q)[1..] == d[1..] + q;
      DigitPrefixOf(d[1..], q);
    }
  }
}
