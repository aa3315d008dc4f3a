/**
 * `Extractor.ldd`: a depth-first walk of the NEEDED graph that records every followed
 * library in one shared dictionary before descending into it, and the merge of the
 * per-binary results with `dict.update`.
 */
module Closure {
  import opened Wrappers
  import opened Paths
  import opened FileSystem
  import opened Extraction

  /** `recurse` follows the NEEDED name `m` of a list when it is not on the exclude list. */
  predicate Follows(x: Extractor, names: seq<string>, m: string) {
    m in names && m !in x.excluded
  }

  /** `m` is followed from the binary at `p`, which `readelf` can read. */
  predicate FollowsFrom(x: Extractor, fs: Fs, p: Path, m: string) {
    Needed(fs, p).Some? && Follows(x, Needed(fs, p).value, m)
  }

  /** `m` is followed from library `n`: from the file `locate_library(n)` finds. */
  predicate Step(x: Extractor, fs: Fs, n: string, m: string) {
    Locate(x.libraryPath, fs, n).Some? && FollowsFrom(x, fs, Locate(x.libraryPath, fs, n).value, m)
  }

  /** A chain of followed names starting at a NEEDED entry of `target`. */
  ghost predicate IsWalk(x: Extractor, fs: Fs, target: Path, w: seq<string>) {
    && |w| > 0
    && FollowsFrom(x, fs, target, w[0])
    && forall i :: 0 <= i < |w| - 1 ==> Step(x, fs, w[i], w[i + 1])
  }

  /** `n` is a NEEDED name reachable from `target` through names that are not excluded. */
  ghost predicate Reachable(x: Extractor, fs: Fs, target: Path, n: string) {
    exists w :: IsWalk(x, fs, target, w) && w[|w| - 1] == n
  }

  /** Every reachable name can be located, and `readelf` reads `target` and every located file. */
  ghost predicate Resolvable(x: Extractor, fs: Fs, target: Path) {
    && Needed(fs, target).Some?
    && forall n :: Reachable(x, fs, target, n) ==>
         Locate(x.libraryPath, fs, n).Some? && Needed(fs, Locate(x.libraryPath, fs, n).value).Some?
  }

  /** The error names something that really fails in the walk from `target`. */
  ghost predicate Blame(x: Extractor, fs: Fs, target: Path, e: Error) {
    match e
    case LibraryNotFound(n) => Reachable(x, fs, target, n) && Locate(x.libraryPath, fs, n).None?
    case ReadelfFailed(p) =>
      && Needed(fs, p).None?
      && (p == target || exists n :: Reachable(x, fs, target, n) && Locate(x.libraryPath, fs, n) == Some(p))
    case _ => false
  }

  lemma BlameDeniesResolvable(x: Extractor, fs: Fs, target: Path, e: Error)
    requires Blame(x, fs, target, e)
    ensures !Resolvable(x, fs, target)
  {
    if e.ReadelfFailed? && e.target != target {
      var n :| Reachable(x, fs, target, n) && Locate(x.libraryPath, fs, n) == Some(e.target);
    }
  }

  /** A name followed from `target`, or from a reachable library, is reachable. */
  lemma FollowIsReachable(x: Extractor, fs: Fs, root: Path, target: Path, parent: Option<string>, m: string)
    requires parent.None? ==> target == root
    requires parent.Some? ==> Reachable(x, fs, root, parent.value) &&
                              Locate(x.libraryPath, fs, parent.value) == Some(target)
    requires FollowsFrom(x, fs, target, m)
    ensures Reachable(x, fs, root, m)
  {
    if parent.None? {
      assert IsWalk(x, fs, root, [m]);
    } else {
      var w :| IsWalk(x, fs, root, w) && w[|w| - 1] == parent.value;
      var w' := w + [m];
      assert forall i :: 0 <= i < |w| ==> w'[i] == w[i];
      assert IsWalk(x, fs, root, w');
    }
  }

  /** Every name of a walk lies in any set that holds `target`'s names and is closed under following. */
  lemma {:induction false} WalkStaysInside(x: Extractor, fs: Fs, target: Path, keys: set<string>,
                                          w: seq<string>, i: nat)
    requires forall m :: FollowsFrom(x, fs, target, m) ==> m in keys
    requires forall k, m :: k in keys && Step(x, fs, k, m) ==> m in keys
    requires IsWalk(x, fs, target, w) && i < |w|
    ensures w[i] in keys
  {
    if i > 0 {
      WalkStaysInside(x, fs, target, keys, w, i - 1);
      assert Step(x, fs, w[i - 1], w[i]);
    }
  }

  /** The closure lemma: a set closed under following that holds `target`'s names holds everything reachable. */
  lemma ClosedContainsReachable(x: Extractor, fs: Fs, target: Path, keys: set<string>)
    requires forall m :: FollowsFrom(x, fs, target, m) ==> m in keys
    requires forall k, m :: k in keys && Step(x, fs, k, m) ==> m in keys
    ensures forall n :: Reachable(x, fs, target, n) ==> n in keys
  {
    forall n | Reachable(x, fs, target, n) ensures n in keys {
      var w :| IsWalk(x, fs, target, w) && w[|w| - 1] == n;
      WalkStaysInside(x, fs, target, keys, w, |w| - 1);
    }
  }

  /** Library `k` has been walked: its file is readable and every name it needs is recorded. */
  ghost predicate Expanded(x: Extractor, fs: Fs, paths: map<string, Path>, k: string)
    requires k in paths
  {
    Needed(fs, paths[k]).Some? && forall m :: FollowsFrom(x, fs, paths[k], m) ==> m in paths
  }

  predicate NoDuplicates(s: seq<string>) {
    forall i, j :: 0 <= i < j < |s| ==> s[i] != s[j]
  }

  /**
   * The state of the walk: each key was located exactly once, is reachable from `root`,
   * is not excluded and maps to the file `locate_library` finds for it.
   */
  ghost predicate TableValid(x: Extractor, fs: Fs, root: Path, names: seq<string>,
                             paths: map<string, Path>, located: seq<string>)
  {
    && located == names
    && NoDuplicates(names)
    && (forall n :: n in paths <==> n in names)
    && (forall n :: n in paths ==> n !in x.excluded)
    && (forall n {:trigger Reachable(x, fs, root, n)} :: n in paths ==> Reachable(x, fs, root, n))
    && forall n {:trigger Locate(x.libraryPath, fs, n)} :: n in paths ==> Locate(x.libraryPath, fs, n) == Some(paths[n])
  }

  /** Recording a newly located, reachable name keeps the walk's state valid. */
  lemma InsertKeepsValid(x: Extractor, fs: Fs, root: Path, names: seq<string>,
                         paths: map<string, Path>, m: string, p: Path)
    requires TableValid(x, fs, root, names, paths, names)
    requires m !in paths && m !in x.excluded
    requires Reachable(x, fs, root, m) && Locate(x.libraryPath, fs, m) == Some(p)
    ensures TableValid(x, fs, root, names + [m], paths[m := p], names + [m])
  {
  }

  /** Recording a new name leaves every finished library finished. */
  lemma InsertKeepsExpanded(x: Extractor, fs: Fs, paths: map<string, Path>, active: set<string>,
                            m: string, p: Path)
    requires m !in paths
    requires forall k :: k in paths && k !in active ==> Expanded(x, fs, paths, k)
    ensures forall k :: k in paths[m := p] && k !in active + {m} ==> Expanded(x, fs, paths[m := p], k)
  {
    forall k | k in paths[m := p] && k !in active + {m}
      ensures Expanded(x, fs, paths[m := p], k)
    {
      assert Expanded(x, fs, paths, k);
    }
  }

  /**
   * The invariant of the walk: the table is valid, and every key
   * outside `active` (the libraries still being walked) is finished.
   */
  ghost predicate WalkState(x: Extractor, fs: Fs, root: Path, active: set<string>,
                            names: seq<string>, paths: map<string, Path>, located: seq<string>)
  {
    && TableValid(x, fs, root, names, paths, located)
    && forall k :: k in paths && k !in active ==> Expanded(x, fs, paths, k)
  }

  /** The shared `dependencies` dictionary of one `ldd` call. */
  class Dependencies {
    /** The keys in insertion order, as iterating the dictionary yields them. */
    var names: seq<string>
    var paths: map<string, Path>
    /** Every name handed to `locate_library` during the walk, in order. */
    ghost var located: seq<string>

    constructor ()
      ensures names == [] && paths == map[] && located == []
    {
      names, paths, located := [], map[], [];
    }
  }

  lemma FewerLeft(u: set<string>, before: set<string>, now: set<string>, m: string)
    requires before <= now && m in u && m !in now
    ensures |u - (now + {m})| < |u - before|
  {
    var a, b := u - (now + {m}), u - before;
    assert a <= b - {m};
    assert m in b;
    assert |b - {m}| == |b| - 1;
    SubsetCard(a, b - {m});
  }

  lemma {:induction false} SubsetCard(a: set<string>, b: set<string>)
    requires a <= b
    ensures |a| <= |b|
    decreases |b|
  {
    if a != {} {
      var e :| e in a;
      SubsetCard(a - {e}, b - {e});
    }
  }

  /**
   * Recording a newly located, reachable name `m` (the tables `names'`, `paths'` and
   * `located'` after the insertion): the state stays valid and fewer names are left.
   */
  lemma Record(x: Extractor, fs: Fs, root: Path, active: set<string>,
               names: seq<string>, paths: map<string, Path>, m: string, p: Path,
               names': seq<string>, paths': map<string, Path>, located': seq<string>)
    requires WalkState(x, fs, root, active, names, paths, names)
    requires m !in paths && m !in x.excluded && m in Universe(fs)
    requires Reachable(x, fs, root, m) && Locate(x.libraryPath, fs, m) == Some(p)
    requires names' == names + [m] && located' == names' && paths' == paths[m := p]
    ensures WalkState(x, fs, root, active + {m}, names', paths', located')
    ensures paths.Keys <= paths'.Keys && |Universe(fs) - paths'.Keys| < |Universe(fs) - paths.Keys|
    ensures m in paths' && paths'[m] == p
  {
    InsertKeepsValid(x, fs, root, names, paths, m, p);
    InsertKeepsExpanded(x, fs, paths, active, m, p);
    assert paths'.Keys == paths.Keys + {m};
    FewerLeft(Universe(fs), paths.Keys, paths.Keys, m);
  }

  /** Once the walk from `m`'s file `p` is complete, `m` itself is finished. */
  lemma Finish(x: Extractor, fs: Fs, root: Path, active: set<string>,
               names: seq<string>, paths: map<string, Path>, located: seq<string>, m: string, p: Path)
    requires WalkState(x, fs, root, active + {m}, names, paths, located)
    requires m in paths && paths[m] == p
    requires Needed(fs, p).Some? && forall n :: FollowsFrom(x, fs, p, n) ==> n in paths
    ensures WalkState(x, fs, root, active, names, paths, located)
  {
    assert Expanded(x, fs, paths, m);
  }

  /** One more NEEDED name handled: the first `i + 1` followed names are recorded. */
  lemma PrefixRecorded(matches: seq<string>, i: nat, excluded: seq<string>,
                       before: set<string>, after: set<string>)
    requires i < |matches|
    requires forall j :: 0 <= j < i && matches[j] !in excluded ==> matches[j] in before
    requires before <= after && (matches[i] in after || matches[i] in excluded)
    ensures forall j :: 0 <= j < i + 1 && matches[j] !in excluded ==> matches[j] in after
  {
  }

  /**
   * `recurse(target)`: read `target`'s NEEDED names and visit each in order. `parent` is
   * the library whose file `target` is (none for the initial binary) and `active` the
   * libraries whose walk is still in progress further up the call stack.
   */
  method Recurse(x: Extractor, fs: Fs, root: Path, deps: Dependencies, target: Path,
                 ghost parent: Option<string>, ghost active: set<string>)
    returns (err: Option<Error>)
    requires WalkState(x, fs, root, active, deps.names, deps.paths, deps.located)
    requires parent.None? ==> target == root
    requires parent.Some? ==> parent.value in active && parent.value in deps.paths &&
                              deps.paths[parent.value] == target
    modifies deps
    decreases |Universe(fs) - deps.paths.Keys|, 2
    ensures NoDuplicates(deps.located)
    ensures err.Some? ==> Blame(x, fs, root, err.value)
    ensures err.None? ==> WalkState(x, fs, root, active, deps.names, deps.paths, deps.located)
    ensures err.None? ==> old(deps.paths.Keys) <= deps.paths.Keys
    ensures err.None? ==> Needed(fs, target).Some? && forall m :: FollowsFrom(x, fs, target, m) ==> m in deps.paths
  {
    ghost var entryKeys := deps.paths.Keys;
    if parent.Some? {
      assert Reachable(x, fs, root, parent.value);
      assert Locate(x.libraryPath, fs, parent.value) == Some(target);
    }
    var needed := Needed(fs, target);  // readelf -d target
    if needed.None? {
      return Some(ReadelfFailed(target));
    }
    var matches := needed.value;
    for i := 0 to |matches|
      invariant WalkState(x, fs, root, active, deps.names, deps.paths, deps.located)
      invariant entryKeys <= deps.paths.Keys
      invariant forall j :: 0 <= j < i && matches[j] !in x.excluded ==> matches[j] in deps.paths.Keys
      invariant parent.Some? ==> parent.value in deps.paths && deps.paths[parent.value] == target
    {
      SubsetCard(Universe(fs) - deps.paths.Keys, Universe(fs) - entryKeys);
      ghost var keysBefore := deps.paths.Keys;
      err := Visit(x, fs, root, deps, target, parent, active, matches[i]);
      if err.Some? {
        return;
      }
      PrefixRecorded(matches, i, x.excluded, keysBefore, deps.paths.Keys);
    }
    err := None;
  }

  /**
   * The body of `recurse`'s loop for one NEEDED name `m` of `target`: unless it is
   * already recorded or excluded, locate it, record it, then descend into its file.
   */
  method Visit(x: Extractor, fs: Fs, root: Path, deps: Dependencies, target: Path,
               ghost parent: Option<string>, ghost active: set<string>, m: string)
    returns (err: Option<Error>)
    requires WalkState(x, fs, root, active, deps.names, deps.paths, deps.located)
    requires Needed(fs, target).Some? && m in Needed(fs, target).value
    requires parent.None? ==> target == root
    requires parent.Some? ==> parent.value in active && parent.value in deps.paths &&
                              Reachable(x, fs, root, parent.value) &&
                              Locate(x.libraryPath, fs, parent.value) == Some(target)
    modifies deps
    decreases |Universe(fs) - deps.paths.Keys|, 1
    ensures NoDuplicates(deps.located)
    ensures err.Some? ==> Blame(x, fs, root, err.value)
    ensures err.None? ==> WalkState(x, fs, root, active, deps.names, deps.paths, deps.located)
    ensures err.None? ==> old(deps.paths.Keys) <= deps.paths.Keys
    ensures err.None? ==> m in deps.paths || m in x.excluded
  {
    if m in deps.paths || m in x.excluded {
      return None;
    }
    assert FollowsFrom(x, fs, target, m);
    FollowIsReachable(x, fs, root, target, parent, m);
    InUniverse(fs, target, m);
    deps.located := deps.located + [m];
    var found := LocateLibrary(x, fs, m);
    if found.Failure? {
      return Some(found.error);
    }
    err := Descend(x, fs, root, deps, active, m, found.value);
  }

  /** Record library `m`, located at `p`, then walk the file `p`. */
  method Descend(x: Extractor, fs: Fs, root: Path, deps: Dependencies,
                 ghost active: set<string>, m: string, p: Path)
    returns (err: Option<Error>)
    requires WalkState(x, fs, root, active, deps.names, deps.paths, deps.names)
    requires deps.located == deps.names + [m]
    requires m !in deps.paths && m !in x.excluded && m in Universe(fs)
    requires Reachable(x, fs, root, m) && Locate(x.libraryPath, fs, m) == Some(p)
    modifies deps
    decreases |Universe(fs) - deps.paths.Keys|, 0
    ensures NoDuplicates(deps.located)
    ensures err.Some? ==> Blame(x, fs, root, err.value)
    ensures err.None? ==> WalkState(x, fs, root, active, deps.names, deps.paths, deps.located)
    ensures err.None? ==> old(deps.paths.Keys) <= deps.paths.Keys
    ensures err.None? ==> m in deps.paths
  {
    ghost var names, paths := deps.names, deps.paths;
    deps.paths := deps.paths[m := p];
    deps.names := deps.names + [m];
    Record(x, fs, root, active, names, paths, m, p, deps.names, deps.paths, deps.located);
    err := Recurse(x, fs, root, deps, p, Some(m), active + {m});
    if err.Some? {
      return;
    }
    Finish(x, fs, root, active, deps.names, deps.paths, deps.located, m, p);
  }

  /** Every name reachable from `target` is recorded once the walk is closed, and nothing else is. */
  lemma Complete(x: Extractor, fs: Fs, root: Path, names: seq<string>,
                 paths: map<string, Path>, located: seq<string>)
    requires WalkState(x, fs, root, {}, names, paths, located)
    requires Needed(fs, root).Some? && forall m :: FollowsFrom(x, fs, root, m) ==> m in paths
    ensures forall n :: n in paths <==> Reachable(x, fs, root, n)
    ensures Resolvable(x, fs, root)
  {
    forall k, m | k in paths && Step(x, fs, k, m)
      ensures m in paths
    {
      assert Expanded(x, fs, paths, k);
    }
    ClosedContainsReachable(x, fs, root, paths.Keys);
    forall n | Reachable(x, fs, root, n)
      ensures Locate(x.libraryPath, fs, n).Some? && Needed(fs, Locate(x.libraryPath, fs, n).value).Some?
    {
      assert n in paths && Expanded(x, fs, paths, n);
    }
  }

  /** The dictionary `ldd` returns: its keys in insertion order and the path of each. */
  datatype Deps = Deps(names: seq<string>, paths: map<string, Path>)

  /** The keys are listed once each, and the listed keys are exactly the dictionary's. */
  ghost predicate WellFormed(d: Deps) {
    NoDuplicates(d.names) && forall n :: n in d.paths <==> n in d.names
  }

  /** Every entry is a followed name mapped to the file `locate_library` finds for it. */
  predicate Agrees(x: Extractor, fs: Fs, d: Deps) {
    forall n :: n in d.paths ==> n !in x.excluded && Locate(x.libraryPath, fs, n) == Some(d.paths[n])
  }

  /**
   * `Extractor.ldd(target)`. It fails exactly when some reachable name cannot be located
   * or `readelf` cannot read a file on the way, and the error names that culprit.
   * Otherwise the keys are exactly the names reachable from `target` through names that
   * are not excluded. The ghost `located` lists every name handed to `locate_library`:
   * none twice, which is why the walk ends on cyclic graphs.
   */
  method Ldd(x: Extractor, fs: Fs, target: Path) returns (r: Result<Deps, Error>, ghost located: seq<string>)
    ensures r.Success? <==> Resolvable(x, fs, target)
    ensures r.Failure? ==> Blame(x, fs, target, r.error)
    ensures NoDuplicates(located)
    ensures r.Success? ==> WellFormed(r.value) && Agrees(x, fs, r.value) && located == r.value.names
    ensures r.Success? ==> forall n :: n in r.value.paths <==> Reachable(x, fs, target, n)
  {
    var deps := new Dependencies();
    var err := Recurse(x, fs, target, deps, target, None, {});
    located := deps.located;
    if err.Some? {
      BlameDeniesResolvable(x, fs, target, err.value);
      return Failure(err.value), located;
    }
    Complete(x, fs, target, deps.names, deps.paths, deps.located);
    r := Success(Deps(deps.names, deps.paths));
  }

  /** The names of `b` that `known` does not hold yet, in order. */
  function NewNames(b: seq<string>, known: map<string, Path>): (r: seq<string>)
    ensures forall n :: n in r <==> n in b && n !in known
    ensures NoDuplicates(b) ==> NoDuplicates(r)
  {
    if b == [] then []
    else
      var rest := NewNames(b[1..], known);
      if b[0] in known then rest else [b[0]] + rest
  }

  /**
   * `a.update(b)`: the keys of `a` keep their place, the new keys of `b` follow in
   * `b`'s order, and `b`'s value wins on a shared key.
   */
  function Update(a: Deps, b: Deps): (r: Deps)
    ensures |a.names| <= |r.names| && r.names[..|a.names|] == a.names
    ensures forall n :: n in r.paths <==> n in a.paths || n in b.paths
    ensures forall n :: n in b.paths ==> r.paths[n] == b.paths[n]
    ensures forall n :: n in a.paths && n !in b.paths ==> r.paths[n] == a.paths[n]
  {
    var names := a.names + NewNames(b.names, a.paths);
    assert names[..|a.names|] == a.names;
    Deps(names, a.paths + b.paths)
  }

  /** Merging two well-formed dictionaries gives one holding exactly the union of their keys. */
  lemma UpdateWellFormed(a: Deps, b: Deps)
    requires WellFormed(a) && WellFormed(b)
    ensures WellFormed(Update(a, b))
    ensures forall n :: n in Update(a, b).paths <==> n in a.paths || n in b.paths
    ensures Update(a, b).names[..|a.names|] == a.names
  {
    var c := Update(a, b);
    var added := NewNames(b.names, a.paths);
    forall i, j | 0 <= i < j < |c.names|
      ensures c.names[i] != c.names[j]
    {
      if j < |a.names| {
      } else if i >= |a.names| {
        assert c.names[i] == added[i - |a.names|] && c.names[j] == added[j - |a.names|];
      } else {
        assert c.names[j] in added;
      }
    }
    assert c.names[..|a.names|] == a.names;
  }

  /**
   * Results that agree with `locate_library` agree with each other, so the merge changes
   * no value already present and the merged dictionary still agrees.
   */
  lemma UpdateConsistent(x: Extractor, fs: Fs, a: Deps, b: Deps)
    requires Agrees(x, fs, a) && Agrees(x, fs, b)
    ensures Agrees(x, fs, Update(a, b))
    ensures forall n :: n in a.paths ==> Update(a, b).paths[n] == a.paths[n]
    ensures forall n :: n in b.paths ==> Update(a, b).paths[n] == b.paths[n]
  {
  }

  /** `n` is reachable from one of `roots`. */
  ghost predicate ReachableFromAny(x: Extractor, fs: Fs, roots: seq<Path>, n: string) {
    exists j :: 0 <= j < |roots| && Reachable(x, fs, roots[j], n)
  }

  /** The merge of the walks from the first `i` roots, as the loop of `extract` holds it. */
  ghost predicate MergedSoFar(x: Extractor, fs: Fs, roots: seq<Path>, i: nat, libs: Deps)
    requires i <= |roots|
  {
    && (forall k :: 0 <= k < i ==> Resolvable(x, fs, roots[k]))
    && WellFormed(libs) && Agrees(x, fs, libs)
    && forall n :: n in libs.paths <==> ReachableFromAny(x, fs, roots[..i], n)
  }

  /** The result of the first walk is the merge of the first root. */
  lemma MergeFirst(x: Extractor, fs: Fs, roots: seq<Path>, l: Deps)
    requires |roots| > 0 && Resolvable(x, fs, roots[0]) && WellFormed(l) && Agrees(x, fs, l)
    requires forall n :: n in l.paths <==> Reachable(x, fs, roots[0], n)
    ensures MergedSoFar(x, fs, roots, 1, l)
  {
    forall n
      ensures n in l.paths <==> ReachableFromAny(x, fs, roots[..1], n)
    {
      if n in l.paths {
        assert roots[..1][0] == roots[0];
      }
    }
  }

  /** Updating the merge with the walk from root `i` gives the merge of the first `i + 1` roots. */
  lemma MergeNext(x: Extractor, fs: Fs, roots: seq<Path>, i: nat, libs: Deps, l: Deps)
    requires i < |roots| && MergedSoFar(x, fs, roots, i, libs)
    requires Resolvable(x, fs, roots[i]) && WellFormed(l) && Agrees(x, fs, l)
    requires forall n :: n in l.paths <==> Reachable(x, fs, roots[i], n)
    ensures MergedSoFar(x, fs, roots, i + 1, Update(libs, l))
  {
    UpdateWellFormed(libs, l);
    UpdateConsistent(x, fs, libs, l);
    ReachableFromOneMore(x, fs, roots, i);
  }

  /**
   * Lines 184-188 of `extract`: `ldd` of the runtime, then of every binary module in
   * turn, merged with `update`. `roots` is the runtime followed by the modules. The merge
   * fails with the first failing walk, and otherwise holds exactly the names reachable
   * from some root, each mapped to the file `locate_library` finds for it.
   */
  method CollectLibs(x: Extractor, fs: Fs, roots: seq<Path>) returns (r: Result<Deps, Error>)
    requires |roots| > 0
    ensures r.Success? <==> forall j :: 0 <= j < |roots| ==> Resolvable(x, fs, roots[j])
    ensures r.Failure? ==> exists j :: 0 <= j < |roots| && Blame(x, fs, roots[j], r.error) &&
                                       forall k :: 0 <= k < j ==> Resolvable(x, fs, roots[k])
    ensures r.Success? ==> WellFormed(r.value) && Agrees(x, fs, r.value)
    ensures r.Success? ==> forall n :: n in r.value.paths <==> ReachableFromAny(x, fs, roots, n)
  {
    var first, _ := Ldd(x, fs, roots[0]);
    if first.Failure? {
      return first;
    }
    var libs := first.value;
    MergeFirst(x, fs, roots, libs);
    for i := 1 to |roots|
      invariant MergedSoFar(x, fs, roots, i, libs)
    {
      var l, _ := Ldd(x, fs, roots[i]);
      if l.Failure? {
        return l;
      }
      MergeNext(x, fs, roots, i, libs, l.value);
      libs := Update(libs, l.value);
    }
    assert roots[..|roots|] == roots;
    r := Success(libs);
  }

  lemma ReachableFromOneMore(x: Extractor, fs: Fs, roots: seq<Path>, i: nat)
    requires i < |roots|
    ensures forall n :: ReachableFromAny(x, fs, roots[..i + 1], n) <==>
                        ReachableFromAny(x, fs, roots[..i], n) || Reachable(x, fs, roots[i], n)
  {
    forall n | ReachableFromAny(x, fs, roots[..i + 1], n)
      ensures ReachableFromAny(x, fs, roots[..i], n) || Reachable(x, fs, roots[i], n)
    {
      var j :| 0 <= j < i + 1 && Reachable(x, fs, roots[..i + 1][j], n);
      if j < i {
        assert roots[..i + 1][j] == roots[..i][j];
      }
    }
    forall n | ReachableFromAny(x, fs, roots[..i], n) || Reachable(x, fs, roots[i], n)
      ensures ReachableFromAny(x, fs, roots[..i + 1], n)
    {
      if Reachable(x, fs, roots[i], n) {
        assert roots[..i + 1][i] == roots[i];
      } else {
        var j :| 0 <= j < i && Reachable(x, fs, roots[..i][j], n);
        assert roots[..i + 1][j] == roots[..i][j];
      }
    }
  }
}
