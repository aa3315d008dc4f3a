/**
 * The part of `pathlib.PurePosixPath` the extractor relies on: parsing a string into
 * components (empty and `.` components vanish), joining with `/`, `.name` and `.parent`.
 */
module Paths {
  import opened Text

  /** A parsed path: rooted or not, and its components. */
  datatype Path = Path(absolute: bool, parts: seq<string>)

  /** A component as pathlib keeps it. */
  predicate IsPart(c: string) {
    c != "" && c != "." && '/' !in c
  }

  /** The components of `s`, as `PurePosixPath(s).parts` lists them after the root. */
  function Components(s: string): (r: seq<string>)
    ensures forall i :: 0 <= i < |r| ==> IsPart(r[i])
    decreases |s|
  {
    if s == [] then []
    else if s[0] == '/' then Components(s[1..])
    else
      var k := IndexOf(s, '/');
      var part := s[..k];
      (if part == "." then [] else [part]) + Components(s[k..])
  }

  /** `Path(s)`. */
  function Parse(s: string): (p: Path)
    ensures forall i :: 0 <= i < |p.parts| ==> IsPart(p.parts[i])
    ensures p.absolute <==> |s| > 0 && s[0] == '/'
  {
    Path(|s| > 0 && s[0] == '/', Components(s))
  }

  /** `base / rel`: a rooted right operand replaces the left one. */
  function Join(base: Path, rel: Path): (r: Path)
    ensures rel.absolute ==> r == rel
    ensures !rel.absolute ==> r.absolute == base.absolute && r.parts == base.parts + rel.parts
  {
    if rel.absolute then rel else Path(base.absolute, base.parts + rel.parts)
  }

  /** `p.name`: the last component, or `""` for a path without one. */
  function Name(p: Path): string {
    if p.parts == [] then "" else p.parts[|p.parts| - 1]
  }

  /** `p.parent`. */
  function Parent(p: Path): Path {
    if p.parts == [] then p else Path(p.absolute, p.parts[..|p.parts| - 1])
  }

  /** A single plain component parses to itself. */
  lemma ParsePart(c: string)
    requires IsPart(c)
    ensures Parse(c) == Path(false, [c])
  {
    assert c[0] != '/';
    assert IndexOf(c, '/') == |c|;
    assert c[..|c|] == c && c[|c|..] == [];
    assert Components(c) == [c] + Components([]);
  }

  /** `dir / name` for a plain file name lies directly in `dir` and is named `name`. */
  lemma JoinPart(dir: Path, c: string)
    requires IsPart(c)
    ensures Join(dir, Parse(c)).parts == dir.parts + [c]
    ensures Name(Join(dir, Parse(c))) == c && Parent(Join(dir, Parse(c))) == dir
  {
    ParsePart(c);
    assert (dir.parts + [c])[..|dir.parts|] == dir.parts;
  }

  /** A piece without `/` contributes itself, unless it is empty or `.`. */
  lemma ComponentsOfPiece(c: string)
    requires '/' !in c
    ensures Components(c) == if c == "" || c == "." then [] else [c]
  {
    if c != "" {
      assert IndexOf(c, '/') == |c|;
      assert c[..|c|] == c && c[|c|..] == [];
    }
  }

  /** A `/` that ends the first piece of `s` is also the first `/` of `s + u`. */
  lemma IndexOfPrefix(s: string, u: string)
    requires IndexOf(s, '/') < |s|
    ensures IndexOf(s + u, '/') == IndexOf(s, '/')
  {
    var k := IndexOf(s, '/');
    assert (s + u)[k] == '/';
    assert forall i :: 0 <= i < k ==> (s + u)[i] == s[i];
  }

  /**
   * The components of `a/b` are those of `a` followed by those of `b`: with
   * `ComponentsOfPiece`, the components of a string are its `/`-separated pieces,
   * in order, leaving out the empty ones and `.`.
   */
  lemma {:induction false} ComponentsConcat(a: string, b: string)
    ensures Components(a + "/" + b) == Components(a) + Components(b)
    decreases |a|
  {
    var s := a + "/" + b;
    if a == [] {
      assert s[1..] == b;
    } else if a[0] == '/' {
      assert s[1..] == a[1..] + "/" + b;
      ComponentsConcat(a[1..], b);
    } else {
      var k := IndexOf(a, '/');
      if k < |a| {
        IndexOfPrefix(a, "/" + b);
        assert s == a + ("/" + b);
        assert s[..k] == a[..k];
        assert s[k..] == a[k..] + "/" + b;
        ComponentsConcat(a[k..], b);
      } else {
        IndexOfAfter(a, '/', b);
        assert s[..|a|] == a && s[|a|..] == "/" + b;
        assert ("/" + b)[1..] == b;
        ComponentsOfPiece(a);
      }
    }
  }

  /** The name of `s/c`, for a plain component `c`, is `c`; its parent is `s`. */
  lemma NameAfterSlash(s: string, c: string)
    requires IsPart(c)
    ensures Name(Parse(s + "/" + c)) == c
    ensures Parent(Parse(s + "/" + c)).parts == Parse(s).parts
  {
    ComponentsConcat(s, c);
    ComponentsOfPiece(c);
    assert (Components(s) + [c])[..|Components(s)|] == Components(s);
  }

  /** A leading `/` adds no component: `Path('/x').parts[1:] == Path('x').parts`. */
  lemma ComponentsAfterSlash(s: string)
    requires |s| > 0 && s[0] == '/'
    ensures Components(s[1..]) == Components(s)
  {
  }
}
