/**
 * The few pieces of Python string handling the extractor relies on:
 * `str.strip()`, `str.split(sep, 1)`, `int(str)` and `f'{n}'` for integers.
 */
module Text {
  import opened Wrappers

  /** Python's `str.isspace()`: the characters `strip()` and `int()` discard. */
  predicate IsSpace(c: char) {
    || c == ' ' || c == '\t' || c == '\n' || c == '\r'
    || c == '\U{0B}' || c == '\U{0C}'
    || ('\U{1C}' <= c <= '\U{1F}')
    || c == '\U{85}' || c == '\U{A0}' || c == '\U{1680}'
    || ('\U{2000}' <= c <= '\U{200A}')
    || c == '\U{2028}' || c == '\U{2029}' || c == '\U{202F}' || c == '\U{205F}' || c == '\U{3000}'
  }

  /** The number of whitespace characters `s` starts with. */
  function LeadingSpaces(s: string): (k: nat)
    ensures k <= |s|
    ensures forall i :: 0 <= i < k ==> IsSpace(s[i])
    ensures k < |s| ==> !IsSpace(s[k])
  {
    if s != [] && IsSpace(s[0]) then 1 + LeadingSpaces(s[1..]) else 0
  }

  /** The number of whitespace characters `s` ends with. */
  function TrailingSpaces(s: string): (k: nat)
    ensures k <= |s|
    ensures forall i :: |s| - k <= i < |s| ==> IsSpace(s[i])
    ensures k < |s| ==> !IsSpace(s[|s| - 1 - k])
  {
    if s != [] && IsSpace(s[|s| - 1]) then 1 + TrailingSpaces(s[..|s| - 1]) else 0
  }

  /** `s.strip()`: `s` without its leading and trailing whitespace. */
  function Strip(s: string): (r: string)
    ensures |r| <= |s|
    ensures r == [] || (!IsSpace(r[0]) && !IsSpace(r[|r| - 1]))
    ensures (s == [] || (!IsSpace(s[0]) && !IsSpace(s[|s| - 1]))) ==> r == s
  {
    var left := s[LeadingSpaces(s)..];
    left[..|left| - TrailingSpaces(left)]
  }

  /** Every character of `s` is whitespace. */
  predicate AllSpace(s: string) {
    forall i :: 0 <= i < |s| ==> IsSpace(s[i])
  }

  /** `strip()` removes whitespace at the two ends only: `s` is whitespace, the result, whitespace. */
  lemma StripShape(s: string)
    ensures exists a, b :: s == a + Strip(s) + b && AllSpace(a) && AllSpace(b)
  {
    var k := LeadingSpaces(s);
    var left := s[k..];
    var j := |left| - TrailingSpaces(left);
    assert s == s[..k] + left[..j] + left[j..];
    assert AllSpace(s[..k]) && AllSpace(left[j..]);
  }

  /**
   * Conversely, text between two runs of whitespace that neither starts nor ends with
   * whitespace is exactly what `strip()` keeps: with `StripShape` and the ends of the
   * result, this fixes `strip()` completely.
   */
  lemma StripAround(a: string, m: string, b: string)
    requires AllSpace(a) && AllSpace(b)
    requires m != [] && !IsSpace(m[0]) && !IsSpace(m[|m| - 1])
    ensures Strip(a + m + b) == m
  {
    var s := a + m + b;
    var k := LeadingSpaces(s);
    assert s[|a|] == m[0];
    assert k == |a|;
    var left := s[k..];
    assert left == m + b;
    var t := TrailingSpaces(left);
    assert left[|m| - 1] == m[|m| - 1];
    assert t == |b|;
    assert left[..|left| - t] == m;
  }

  /** Text that starts with `p`, whose two ends are not whitespace, still starts with `p` once stripped. */
  lemma StripKeepsHead(p: string, rest: string)
    requires p != [] && !IsSpace(p[0]) && !IsSpace(p[|p| - 1])
    ensures |Strip(p + rest)| >= |p| && Strip(p + rest)[..|p|] == p
  {
    var s := p + rest;
    assert s[0] == p[0];
    assert LeadingSpaces(s) == 0;
    assert s[0..] == s;
    assert s[|p| - 1] == p[|p| - 1];
    var t := TrailingSpaces(s);
    assert t <= |rest|;
    assert s[..|s| - t][..|p|] == p;
  }

  /** Text made only of whitespace strips to nothing. */
  lemma StripAllSpace(s: string)
    requires AllSpace(s)
    ensures Strip(s) == []
  {
  }

  lemma StripIdempotent(s: string)
    ensures Strip(Strip(s)) == Strip(s)
  {
  }

  /** Position of the first `c` in `s`, or `|s|` when there is none. */
  function IndexOf(s: string, c: char): (r: nat)
    ensures r <= |s|
    ensures r < |s| ==> s[r] == c
    ensures forall i :: 0 <= i < r ==> s[i] != c
  {
    if s == [] then 0
    else if s[0] == c then 0
    else 1 + IndexOf(s[1..], c)
  }

  /**
   * `s.split(c, 1)` unpacked into two names: the text before the first `c` and the
   * text after it; `None` stands for the `ValueError` of unpacking a one-element list.
   */
  function SplitOnce(s: string, c: char): (r: Option<(string, string)>)
    ensures r.None? <==> c !in s
    ensures r.Some? ==> s == r.value.0 + [c] + r.value.1 && c !in r.value.0
  {
    var k := IndexOf(s, c);
    if k == |s| then None else Some((s[..k], s[k + 1..]))
  }

  lemma IndexOfAfter(a: string, c: char, b: string)
    requires c !in a
    ensures IndexOf(a + [c] + b, c) == |a|
  {
    var s := a + [c] + b;
    assert forall i :: 0 <= i < |a| ==> s[i] == a[i];
    assert s[|a|] == c;
  }

  lemma SplitOnceAt(a: string, c: char, b: string)
    requires c !in a
    ensures SplitOnce(a + [c] + b, c) == Some((a, b))
  {
    var s := a + [c] + b;
    IndexOfAfter(a, c, b);
    assert s[..|a|] == a && s[|a| + 1..] == b;
  }

  /** Text before the first `c` is determined: `x + c + u == y + c + w` splits the same way. */
  lemma SplitUnique(x: string, u: string, y: string, w: string, c: char)
    requires c !in x && c !in y && x + [c] + u == y + [c] + w
    ensures x == y && u == w
  {
    SplitOnceAt(x, c, u);
    SplitOnceAt(y, c, w);
  }

  predicate IsDigit(c: char) {
    '0' <= c <= '9'
  }

  function DigitChar(d: nat): (c: char)
    requires d < 10
    ensures IsDigit(c)
  {
    (('0' as int) + d) as char
  }

  function DigitValue(c: char): (d: nat)
    requires IsDigit(c)
    ensures d < 10 && DigitChar(d) == c
  {
    (c as int) - ('0' as int)
  }

  /** Decimal rendering of a natural number, without leading zeros. */
  function NatToString(n: nat): (s: string)
    ensures |s| > 0 && forall i :: 0 <= i < |s| ==> IsDigit(s[i])
    ensures s[0] == '0' ==> n == 0 && s == "0"
  {
    if n < 10 then [DigitChar(n)] else NatToString(n / 10) + [DigitChar(n % 10)]
  }

  /** `f'{i}'` (or `str(i)`) for a Python `int`. */
  function IntToString(i: int): (s: string)
    ensures |s| > 0 && '.' !in s && !IsSpace(s[0]) && IsDigit(s[|s| - 1])
  {
    if i < 0 then "-" + NatToString(-i) else NatToString(i)
  }

  predicate IsGroupChar(c: char) {
    IsDigit(c) || c == '_'
  }

  /**
   * The digit part `int()` accepts: decimal digits where single underscores
   * may separate two digits (no leading, trailing or doubled underscore).
   */
  predicate IsDigitGroup(s: string) {
    && |s| > 0 && IsDigit(s[0]) && IsDigit(s[|s| - 1])
    && (forall i :: 0 <= i < |s| ==> IsGroupChar(s[i]))
    && (forall i, j :: 0 <= i < |s| && 0 <= j < |s| && j == i + 1 ==> s[i] != '_' || s[j] != '_')
  }

  function GroupValue(s: string): nat
    requires forall i :: 0 <= i < |s| ==> IsGroupChar(s[i])
  {
    if s == [] then 0
    else
      assert IsGroupChar(s[|s| - 1]);
      if s[|s| - 1] == '_' then GroupValue(s[..|s| - 1])
      else 10 * GroupValue(s[..|s| - 1]) + DigitValue(s[|s| - 1])
  }

  /** `int()` on stripped text: an optional sign, then a digit group. */
  function ParseSigned(t: string): (r: Option<int>)
    ensures r.Some? ==> exists k :: 0 <= k < |t| && IsDigit(t[k])
  {
    if |t| > 0 && (t[0] == '+' || t[0] == '-') then
      var digits := t[1..];
      if IsDigitGroup(digits) then
        var v: int := GroupValue(digits);
        Some(if t[0] == '-' then -v else v)
      else None
    else if IsDigitGroup(t) then
      Some(GroupValue(t))
    else None
  }

  /**
   * `int(s)` on a string: optional surrounding whitespace, an optional sign,
   * then a digit group; `None` stands for the `ValueError` it raises otherwise.
   */
  function ParseInt(s: string): (r: Option<int>)
    ensures r.Some? ==> exists k :: 0 <= k < |s| && IsDigit(s[k])
  {
    ParseSigned(Strip(s))
  }

  /**
   * The shape of the text `int()` accepts: whitespace `a`, an optional sign, a digit
   * group `g`, whitespace `b`.
   */
  predicate IsIntText(s: string, a: string, sign: string, g: string, b: string) {
    && s == a + sign + g + b
    && AllSpace(a) && AllSpace(b)
    && (sign == "" || sign == "+" || sign == "-")
    && IsDigitGroup(g)
  }

  /** The value of a signed digit group. */
  function SignedValue(sign: string, g: string): int
    requires IsDigitGroup(g)
  {
    if sign == "-" then -(GroupValue(g) as int) else GroupValue(g)
  }

  /** Text of that shape is accepted, with the value of its signed digit group. */
  lemma ParseIntOfForm(s: string, a: string, sign: string, g: string, b: string)
    requires IsIntText(s, a, sign, g, b)
    ensures ParseInt(s) == Some(SignedValue(sign, g))
  {
    var m := sign + g;
    assert s == a + m + b;
    assert m[0] == (if sign == "" then g[0] else sign[0]);
    assert m[|m| - 1] == g[|g| - 1];
    StripAround(a, m, b);
    SignedGroup(sign, g);
  }

  lemma SignedGroup(sign: string, g: string)
    requires (sign == "" || sign == "+" || sign == "-") && IsDigitGroup(g)
    ensures ParseSigned(sign + g) == Some(SignedValue(sign, g))
  {
    var t := sign + g;
    if sign == "" {
      assert t == g && IsDigit(t[0]);
    } else {
      assert t[0] == sign[0] && t[1..] == g;
    }
  }

  /** Stripped text `int()` accepts is an optional sign followed by a digit group. */
  lemma SignedHasForm(t: string) returns (sign: string, g: string)
    requires ParseSigned(t).Some?
    ensures (sign == "" || sign == "+" || sign == "-") && IsDigitGroup(g)
    ensures t == sign + g && ParseSigned(t) == Some(SignedValue(sign, g))
  {
    if |t| > 0 && (t[0] == '+' || t[0] == '-') {
      sign, g := t[..1], t[1..];
      assert t == sign + g;
    } else {
      sign, g := "", t;
      assert t == sign + g;
    }
  }

  lemma Concat4(s: string, a: string, t: string, b: string, sign: string, g: string)
    requires s == a + t + b && t == sign + g
    ensures s == a + sign + g + b
  {
  }

  /** Every text `int()` accepts has that shape, and its value is that of its signed digit group. */
  lemma ParseIntHasForm(s: string)
    requires ParseInt(s).Some?
    ensures exists a, sign, g, b :: IsIntText(s, a, sign, g, b) && ParseInt(s) == Some(SignedValue(sign, g))
  {
    StripShape(s);
    var t := Strip(s);
    var a, b :| s == a + t + b && AllSpace(a) && AllSpace(b);
    var sign, g := SignedHasForm(t);
    Concat4(s, a, t, b, sign, g);
    assert IsIntText(s, a, sign, g, b);
  }

  /** `int(s)` succeeds exactly on whitespace, an optional sign, a digit group, whitespace. */
  lemma ParseIntAccepts(s: string)
    ensures ParseInt(s).Some? <==> exists a, sign, g, b :: IsIntText(s, a, sign, g, b)
    ensures forall a, sign, g, b :: IsIntText(s, a, sign, g, b) ==> ParseInt(s) == Some(SignedValue(sign, g))
  {
    if ParseInt(s).Some? {
      ParseIntHasForm(s);
    }
    forall a, sign, g, b | IsIntText(s, a, sign, g, b)
      ensures ParseInt(s) == Some(SignedValue(sign, g))
    {
      ParseIntOfForm(s, a, sign, g, b);
    }
  }

  lemma {:induction false} GroupValueOfNat(n: nat)
    ensures GroupValue(NatToString(n)) == n
  {
    if n >= 10 {
      var s := NatToString(n);
      assert s[..|s| - 1] == NatToString(n / 10);
      GroupValueOfNat(n / 10);
    }
  }

  /** A rendered natural number is a digit group denoting that number. */
  lemma NatStringIsGroup(n: nat)
    ensures IsDigitGroup(NatToString(n)) && GroupValue(NatToString(n)) == n
  {
    var s := NatToString(n);
    assert forall i :: 0 <= i < |s| ==> IsGroupChar(s[i]);
    assert forall i :: 0 <= i < |s| ==> s[i] != '_';
    GroupValueOfNat(n);
  }

  lemma ParseIntUnsigned(t: string)
    requires IsDigitGroup(t)
    ensures ParseInt(t) == Some(GroupValue(t))
  {
    assert Strip(t) == t;
  }

  lemma ParseIntNegative(d: string)
    requires IsDigitGroup(d)
    ensures ParseInt("-" + d) == Some(-(GroupValue(d) as int))
  {
    var t := "-" + d;
    assert t[1..] == d;
    assert Strip(t) == t;
  }

  lemma ParseIntOfNegative(i: int)
    requires i < 0
    ensures ParseInt(IntToString(i)) == Some(i)
  {
    var d := NatToString(-i);
    NatStringIsGroup(-i);
    ParseIntNegative(d);
    assert -(GroupValue(d) as int) == i;
    assert IntToString(i) == "-" + d;
  }

  lemma ParseIntOfNatural(n: nat)
    ensures ParseInt(IntToString(n)) == Some(n as int)
  {
    var d := NatToString(n);
    NatStringIsGroup(n);
    ParseIntUnsigned(d);
    assert IntToString(n) == d;
  }

  /** `int(str(i)) == i`: rendering an integer and parsing it back loses nothing. */
  lemma ParseIntOfString(i: int)
    ensures ParseInt(IntToString(i)) == Some(i)
  {
    if i < 0 {
      ParseIntOfNegative(i);
    } else {
      ParseIntOfNatural(i);
    }
  }

  /** `t` is exactly what `str(int(t))` gives back. */
  predicate IsCanonicalInt(t: string) {
    ParseInt(t).Some? && IntToString(ParseInt(t).value) == t
  }

}
