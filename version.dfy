/**
 * `PythonVersion`: the version triple parsed from the `cpython-<version>` tail of the
 * interpreter link, and its two renderings `long()` and `short()`.
 */
module Version {
  import opened Wrappers
  import opened Text

  /** The patch field: an `int` when the text parses as one, else the text itself. */
  datatype Patch = Num(n: int) | Label(text: string)

  datatype PythonVersion = PythonVersion(major: int, minor: int, patch: Patch)

  /** What `from_str` makes of the third field (`try: int(patch) except ValueError: pass`). */
  function PatchOf(text: string): (p: Patch)
    ensures p.Num? <==> ParseInt(text).Some?
    ensures p.Num? ==> p.n == ParseInt(text).value
    ensures p.Label? ==> p.text == text
  {
    match ParseInt(text)
    case Some(n) => Num(n)
    case None => Label(text)
  }

  /** `f'{self.patch}'`. */
  function PatchText(p: Patch): string {
    match p
    case Num(n) => IntToString(n)
    case Label(t) => t
  }

  /**
   * `PythonVersion.from_str`: split at the first two dots only, so the third field
   * keeps any further dots; `None` stands for the `ValueError` raised when there are
   * fewer than three fields or when the first two are not integers.
   */
  function FromStr(value: string): (r: Option<PythonVersion>)
    ensures r.Some? ==> exists i, j :: 0 <= i < j < |value| && value[i] == '.' && value[j] == '.'
  {
    match SplitOnce(value, '.')
    case None => None
    case Some((major, rest)) =>
      match SplitOnce(rest, '.')
      case None => None
      case Some((minor, patch)) =>
        if ParseInt(major).Some? && ParseInt(minor).Some? then
          assert value == major + ['.'] + (minor + ['.'] + patch);
          assert value[|major|] == '.' && value[|major| + 1 + |minor|] == '.';
          Some(PythonVersion(ParseInt(major).value, ParseInt(minor).value, PatchOf(patch)))
        else None
  }

  /**
   * `long()`: `major.minor.patch`. Parsing it back gives major and minor exactly, and
   * the patch field re-parsed from its text.
   */
  function Long(v: PythonVersion): (r: string)
    ensures FromStr(r) == Some(PythonVersion(v.major, v.minor, PatchOf(PatchText(v.patch))))
  {
    var ma, mi, pt := IntToString(v.major), IntToString(v.minor), PatchText(v.patch);
    ParseIntOfString(v.major);
    ParseIntOfString(v.minor);
    FromStrFields(ma, mi, pt);
    ma + "." + mi + "." + pt
  }

  /** `short()`: `major.minor`; the two sides of its dot read back as major and minor. */
  function Short(v: PythonVersion): (r: string)
    ensures SplitOnce(r, '.').Some?
    ensures ParseInt(SplitOnce(r, '.').value.0) == Some(v.major)
    ensures ParseInt(SplitOnce(r, '.').value.1) == Some(v.minor)
  {
    var ma, mi := IntToString(v.major), IntToString(v.minor);
    SplitOnceAt(ma, '.', mi);
    ParseIntOfString(v.major);
    ParseIntOfString(v.minor);
    ma + "." + mi
  }

  /** With the first two fields free of dots, `from_str` parses each field on its own. */
  lemma FromStrFields(major: string, minor: string, patch: string)
    requires '.' !in major && '.' !in minor
    ensures FromStr(major + "." + minor + "." + patch)
         == if ParseInt(major).Some? && ParseInt(minor).Some?
            then Some(PythonVersion(ParseInt(major).value, ParseInt(minor).value, PatchOf(patch)))
            else None
  {
    var rest := minor + "." + patch;
    assert major + "." + minor + "." + patch == major + ['.'] + rest;
    SplitOnceAt(major, '.', rest);
    assert rest == minor + ['.'] + patch;
    SplitOnceAt(minor, '.', patch);
  }

  /** A patch field survives printing and re-parsing unless it is a label that reads as an integer. */
  lemma PatchRoundTrip(p: Patch)
    ensures PatchOf(PatchText(p)) == p <==> (p.Num? || ParseInt(p.text).None?)
  {
    if p.Num? {
      ParseIntOfString(p.n);
    }
  }

  /**
   * `from_str(v.long()) == v` exactly when the patch field survives the trip: it is an
   * integer, or a label that does not itself parse as an integer (`rc1`, `4+`).
   */
  lemma FromStrLong(v: PythonVersion)
    ensures FromStr(Long(v)) == Some(v) <==> (v.patch.Num? || ParseInt(v.patch.text).None?)
  {
    PatchRoundTrip(v.patch);
  }

  /** Three dot-separated fields, the first two free of dots, are compared field by field. */
  lemma DottedEqual(x1: string, x2: string, x3: string, y1: string, y2: string, y3: string)
    requires '.' !in x1 && '.' !in x2 && '.' !in y1 && '.' !in y2
    ensures x1 + "." + x2 + "." + x3 == y1 + "." + y2 + "." + y3 <==> x1 == y1 && x2 == y2 && x3 == y3
  {
    assert x1 + "." + x2 + "." + x3 == x1 + ['.'] + (x2 + ['.'] + x3);
    assert y1 + "." + y2 + "." + y3 == y1 + ['.'] + (y2 + ['.'] + y3);
    if x1 + "." + x2 + "." + x3 == y1 + "." + y2 + "." + y3 {
      SplitUnique(x1, x2 + ['.'] + x3, y1, y2 + ['.'] + y3, '.');
      SplitUnique(x2, x3, y2, y3, '.');
    }
  }

  /** Printing the parsed patch field gives back its text exactly when it was not a non-canonical integer. */
  lemma PatchTextOfPatchOf(text: string)
    ensures PatchText(PatchOf(text)) == text <==> ParseInt(text).None? || IsCanonicalInt(text)
  {
  }

  /**
   * `long()` rebuilds the text `from_str` parsed exactly when every field is written the
   * way Python prints it (no sign `+`, no leading zeros, underscores or whitespace),
   * the patch field only when it parsed as an integer.
   */
  lemma LongFromStr(major: string, minor: string, patch: string)
    requires '.' !in major && '.' !in minor
    requires FromStr(major + "." + minor + "." + patch).Some?
    ensures Long(FromStr(major + "." + minor + "." + patch).value) == major + "." + minor + "." + patch
        <==> IsCanonicalInt(major) && IsCanonicalInt(minor) && (ParseInt(patch).None? || IsCanonicalInt(patch))
  {
    FromStrFields(major, minor, patch);
    var v := FromStr(major + "." + minor + "." + patch).value;
    assert v.major == ParseInt(major).value && v.minor == ParseInt(minor).value && v.patch == PatchOf(patch);
    DottedEqual(IntToString(v.major), IntToString(v.minor), PatchText(v.patch), major, minor, patch);
    PatchTextOfPatchOf(patch);
  }

  /** `s` is `l` cut just before its second dot. */
  predicate CutAtSecondDot(l: string, s: string) {
    var first := IndexOf(l, '.');
    first < |l| &&
    var second := first + 1 + IndexOf(l[first + 1..], '.');
    second < |l| && s == l[..second]
  }

  /** In `a.b.c` with `a` and `b` free of dots, the second dot follows `b`. */
  lemma SecondDot(a: string, b: string, c: string)
    requires '.' !in a && '.' !in b
    ensures CutAtSecondDot(a + "." + b + "." + c, a + "." + b)
  {
    var l := a + "." + b + "." + c;
    assert l == a + ['.'] + (b + ['.'] + c);
    IndexOfAfter(a, '.', b + ['.'] + c);
    assert l[|a| + 1..] == b + ['.'] + c;
    IndexOfAfter(b, '.', c);
    assert l[..|a| + 1 + |b|] == a + "." + b;
  }

  /** `short()` is `long()` cut just before its second dot. */
  lemma ShortCutsLong(v: PythonVersion)
    ensures CutAtSecondDot(Long(v), Short(v))
  {
    var ma, mi, pt := IntToString(v.major), IntToString(v.minor), PatchText(v.patch);
    SecondDot(ma, mi, pt);
    assert Long(v) == ma + "." + mi + "." + pt;
    assert Short(v) == ma + "." + mi;
  }
}
