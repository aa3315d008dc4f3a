/**
 * The second half of `Extractor.extract`: copy every mapped library into `<destination>/lib`,
 * make it owner-writable and point its rpath at `$ORIGIN`, then point the rpath of every
 * binary module and of the runtime at that directory. `set_rpath` runs `patchelf
 * --set-rpath` only when the current rpath differs.
 */
module Relocation {
  import opened Wrappers
  import opened Text
  import opened Paths
  import Version
  import opened FileSystem
  import opened Extraction
  import opened Closure

  /** One run of `patchelf --set-rpath '<rpath>' <target>`. */
  datatype RpathEdit = RpathEdit(target: Path, rpath: string)

  /** The trees the extractor reads and writes, and the `--set-rpath` runs made so far. */
  datatype Tree = Tree(files: Fs, edits: seq<RpathEdit>)

  /** The tree after a step, and the exception that ended the step, if any. */
  datatype Run = Run(after: Tree, err: Option<Error>)

  /** The rpath given to every copied library. */
  const Origin := "$ORIGIN"

  /** `patchelf --print-rpath p`, decoded and stripped; `None` when patchelf exits non-zero. */
  function PrintRpath(fs: Fs, p: Path): (r: Option<string>)
    ensures r.Some? <==> Needed(fs, p).Some?
  {
    if p in fs && fs[p].elf.Some? then Some(Strip(fs[p].elf.value.rpath)) else None
  }

  /** The ELF file `p` with its rpath replaced, as `--set-rpath` leaves it. */
  function WithRpath(fs: Fs, p: Path, rpath: string): Fs
    requires Needed(fs, p).Some?
  {
    fs[p := fs[p].(elf := Some(fs[p].elf.value.(rpath := rpath)))]
  }

  /**
   * `after` differs from `before` at most in the rpath of `p`: the same paths, the same
   * modes, the same NEEDED lists, and every other file untouched.
   */
  ghost predicate OnlyRpathOf(before: Fs, after: Fs, p: Path) {
    && before.Keys == after.Keys
    && (forall q :: q in before && q != p ==> after[q] == before[q])
    && (p in before ==> after[p].mode == before[p].mode && Needed(after, p) == Needed(before, p))
  }

  /**
   * `set_rpath(target, rpath)`: read the current rpath with `--print-rpath`, and run
   * `--set-rpath` only when it differs. It fails exactly when `target` is not an ELF
   * file patchelf can read.
   */
  function SetRpathRun(t: Tree, target: Path, rpath: string): (r: Run)
    ensures r.err.Some? <==> Needed(t.files, target).None?
    ensures r.err.Some? ==> r == Run(t, Some(PatchelfFailed(target)))
  {
    match PrintRpath(t.files, target)
    case None => Run(t, Some(PatchelfFailed(target)))
    case Some(current) =>
      if current == rpath then Run(t, None)
      else Run(Tree(WithRpath(t.files, target, rpath), t.edits + [RpathEdit(target, rpath)]), None)
  }

  /**
   * After a successful `set_rpath`, `--print-rpath` reports `rpath` (stripped), only that
   * rpath changed, and a `--set-rpath` run was logged exactly when the current rpath differed.
   */
  lemma SetRpathEffect(t: Tree, target: Path, rpath: string)
    requires SetRpathRun(t, target, rpath).err.None?
    ensures var r := SetRpathRun(t, target, rpath);
            && OnlyRpathOf(t.files, r.after.files, target)
            && PrintRpath(r.after.files, target) == Some(Strip(rpath))
            && (r.after.edits == t.edits <==> PrintRpath(t.files, target) == Some(rpath))
            && (r.after.edits == t.edits || r.after.edits == t.edits + [RpathEdit(target, rpath)])
  {
  }

  /** `mode | S_IWUSR` when the owner-write bit is clear, else `mode` unchanged. */
  function OwnerWritable(mode: bv32): (r: bv32)
    ensures r & S_IWUSR == S_IWUSR
    ensures r & !S_IWUSR == mode & !S_IWUSR
  {
    if mode & S_IWUSR == 0 then mode | S_IWUSR else mode
  }

  /** `libdir / name`: where the library `name` is installed. */
  function Destination(libdir: Path, name: string): Path {
    Join(libdir, Parse(name))
  }

  /** `shutil.copy(src, dst)` then the conditional `chmod`: `src`'s file at `dst`, owner-writable. */
  function CopyWritable(fs: Fs, src: Path, dst: Path): Fs
    requires src in fs
  {
    fs[dst := fs[src].(mode := OwnerWritable(fs[src].mode))]
  }

  /** `dst` in `after` is an owner-writable copy of the ELF file `src` of `before` whose rpath reads `$ORIGIN`. */
  ghost predicate Copied(before: Fs, after: Fs, src: Path, dst: Path)
    requires Needed(before, src).Some?
  {
    && dst in after
    && after[dst].mode == OwnerWritable(before[src].mode)
    && Needed(after, dst) == Needed(before, src)
    && PrintRpath(after, dst) == Some(Origin)
  }

  /** `Copied`, and nothing else changed. */
  ghost predicate Installed(before: Fs, after: Fs, src: Path, dst: Path)
    requires Needed(before, src).Some?
  {
    && Copied(before, after, src, dst)
    && after.Keys == before.Keys + {dst}
    && forall q :: q in before && q != dst ==> after[q] == before[q]
  }

  /** One pass of the install loop for the entry `(name, src)`: copy, chmod, `set_rpath(dst, '$ORIGIN')`. */
  function InstallOne(t: Tree, libdir: Path, name: string, src: Path): (r: Run)
    ensures src !in t.files ==> r == Run(t, Some(CopyFailed(src)))
    ensures src in t.files && Needed(t.files, src).None? ==>
              r.err == Some(PatchelfFailed(Destination(libdir, name)))
    ensures Needed(t.files, src).Some? ==>
              r.err.None? && Installed(t.files, r.after.files, src, Destination(libdir, name))
  {
    var dst := Destination(libdir, name);
    if src !in t.files then Run(t, Some(CopyFailed(src)))
    else
      CopyThenPatch(t.files, t.edits, src, dst);
      SetRpathRun(Tree(CopyWritable(t.files, src, dst), t.edits), dst, Origin)
  }

  /** `$ORIGIN` has no surrounding whitespace, so `--print-rpath` reports it as written. */
  lemma OriginStripped()
    ensures Strip(Origin) == Origin
  {
    assert Origin[0] == '$' && Origin[|Origin| - 1] == 'N' && !IsSpace('$') && !IsSpace('N');
  }

  /** Patching the fresh copy of an ELF file succeeds and leaves exactly the installed file. */
  lemma CopyThenPatch(fs: Fs, edits: seq<RpathEdit>, src: Path, dst: Path)
    requires src in fs
    ensures var r := SetRpathRun(Tree(CopyWritable(fs, src, dst), edits), dst, Origin);
            && (r.err.None? <==> Needed(fs, src).Some?)
            && (Needed(fs, src).Some? ==> Installed(fs, r.after.files, src, dst))
  {
    var c := CopyWritable(fs, src, dst);
    assert Needed(c, dst) == Needed(fs, src);
    var r := SetRpathRun(Tree(c, edits), dst, Origin);
    if r.err.None? {
      SetRpathEffect(Tree(c, edits), dst, Origin);
      OriginStripped();
    }
  }

  lemma Overwrite(fs: Fs, p: Path, a: Node, b: Node)
    ensures fs[p := a][p := b] == fs[p := b]
  {
  }

  /** The exception the install step for `(name, src)` raises: the copy's, or `set_rpath`'s on the copy. */
  predicate InstallError(libdir: Path, name: string, src: Path, e: Error) {
    e == CopyFailed(src) || e == PatchelfFailed(Destination(libdir, name))
  }

  /** The install loop over the first entries `names` of the merged dictionary, stopping at the first exception. */
  function InstallAll(t: Tree, libdir: Path, names: seq<string>, paths: map<string, Path>): (r: Run)
    requires forall n :: n in names ==> n in paths
    ensures r.err.Some? ==> exists i :: 0 <= i < |names| && InstallError(libdir, names[i], paths[names[i]], r.err.value)
  {
    if names == [] then Run(t, None)
    else
      var prev := InstallAll(t, libdir, names[..|names| - 1], paths);
      if prev.err.Some? then prev
      else InstallOne(prev.after, libdir, names[|names| - 1], paths[names[|names| - 1]])
  }

  /** `set_rpath` on each edit in turn, stopping at the first exception. */
  function PatchAll(t: Tree, fixes: seq<RpathEdit>): (r: Run)
    ensures r.err.Some? ==> exists i :: 0 <= i < |fixes| && r.err.value == PatchelfFailed(fixes[i].target)
  {
    if fixes == [] then Run(t, None)
    else
      var prev := PatchAll(t, fixes[..|fixes| - 1]);
      if prev.err.Some? then prev
      else SetRpathRun(prev.after, fixes[|fixes| - 1].target, fixes[|fixes| - 1].rpath)
  }

  /** `f'$ORIGIN/{os.path.relpath(libdir, p.parent)}'` for each binary `p`. */
  function Fixes(binaries: seq<Path>, libdir: Path, relpath: (Path, Path) -> string): (r: seq<RpathEdit>)
    ensures |r| == |binaries|
    ensures forall i :: 0 <= i < |r| ==> r[i].target == binaries[i]
    ensures forall i :: 0 <= i < |r| ==> r[i].rpath == Origin + "/" + relpath(libdir, Parent(binaries[i]))
  {
    seq(|binaries|, i requires 0 <= i < |binaries| =>
      RpathEdit(binaries[i], Origin + "/" + relpath(libdir, Parent(binaries[i]))))
  }

  /** A failing prefix of the install loop is the whole loop's outcome: the exception propagates. */
  lemma {:induction false} InstallAllStops(t: Tree, libdir: Path, names: seq<string>, paths: map<string, Path>, i: nat)
    requires forall n :: n in names ==> n in paths
    requires i <= |names| && InstallAll(t, libdir, names[..i], paths).err.Some?
    ensures InstallAll(t, libdir, names, paths) == InstallAll(t, libdir, names[..i], paths)
    decreases |names|
  {
    if i < |names| {
      var init := names[..|names| - 1];
      assert init[..i] == names[..i];
      InstallAllStops(t, libdir, init, paths, i);
    } else {
      assert names[..i] == names;
    }
  }

  /** The edit list of `binaries + [b]` is that of `binaries`, then `b`'s edit. */
  lemma FixesSnoc(binaries: seq<Path>, b: Path, libdir: Path, relpath: (Path, Path) -> string)
    ensures Fixes(binaries + [b], libdir, relpath)
         == Fixes(binaries, libdir, relpath) + [RpathEdit(b, Origin + "/" + relpath(libdir, Parent(b)))]
  {
  }

  /** One more edit: the rpath loop stops at an earlier exception, else runs that edit on the result. */
  lemma PatchAllSnoc(t: Tree, fixes: seq<RpathEdit>, e: RpathEdit)
    ensures PatchAll(t, fixes + [e])
         == if PatchAll(t, fixes).err.Some? then PatchAll(t, fixes)
            else SetRpathRun(PatchAll(t, fixes).after, e.target, e.rpath)
  {
    assert (fixes + [e])[..|fixes|] == fixes;
  }

  /** A failing prefix of the rpath loop is the whole loop's outcome. */
  lemma {:induction false} PatchAllStops(t: Tree, fixes: seq<RpathEdit>, i: nat)
    requires i <= |fixes| && PatchAll(t, fixes[..i]).err.Some?
    ensures PatchAll(t, fixes) == PatchAll(t, fixes[..i])
    decreases |fixes|
  {
    if i < |fixes| {
      var init := fixes[..|fixes| - 1];
      assert init[..i] == fixes[..i];
      PatchAllStops(t, init, i);
    } else {
      assert fixes[..i] == fixes;
    }
  }

  /** `python = f'python{self.version.short()}'`, the interpreter's file name. */
  function PythonName(x: Extractor): string {
    "python" + Version.Short(x.version)
  }

  /** `self.python_prefix / f'bin/{python}'`: the runtime whose dependencies are mapped first. */
  function RuntimeSource(x: Extractor): Path {
    Join(x.pythonPrefix, Parse("bin/" + PythonName(x)))
  }

  /** `destination / runtime`: the copied runtime whose rpath is patched last. */
  function RuntimeTarget(x: Extractor, destination: Path): Path {
    Join(destination, Parse("bin/" + PythonName(x)))
  }

  /** `libdir = destination / 'lib'`. */
  function LibraryDir(destination: Path): Path {
    Join(destination, Parse("lib"))
  }

  /** The binaries `ldd` is run on: the runtime, then each binary module of the installation. */
  function Roots(x: Extractor, modules: seq<Path>): (r: seq<Path>)
    ensures |r| == |modules| + 1 && r[0] == RuntimeSource(x) && r[1..] == modules
  {
    [RuntimeSource(x)] + modules
  }

  ghost predicate AllResolvable(x: Extractor, fs: Fs, roots: seq<Path>) {
    forall j :: 0 <= j < |roots| ==> Resolvable(x, fs, roots[j])
  }

  /**
   * What lines 191-215 do once the libraries are mapped: install every library, then
   * patch the binary modules and the runtime; the first exception ends the run.
   */
  function Relocate(t: Tree, libdir: Path, libs: Deps, fixes: seq<RpathEdit>): (r: Run)
    requires forall n :: n in libs.names ==> n in libs.paths
    ensures r.err.Some? ==>
              || (exists i :: 0 <= i < |libs.names| && InstallError(libdir, libs.names[i], libs.paths[libs.names[i]], r.err.value))
              || (exists i :: 0 <= i < |fixes| && r.err.value == PatchelfFailed(fixes[i].target))
  {
    var installed := InstallAll(t, libdir, libs.names, libs.paths);
    if installed.err.Some? then installed else PatchAll(installed.after, fixes)
  }

  /** Asking again for an rpath without surrounding whitespace changes nothing and runs no `--set-rpath`. */
  lemma SetRpathIdempotent(t: Tree, target: Path, rpath: string)
    requires Strip(rpath) == rpath && SetRpathRun(t, target, rpath).err.None?
    ensures var once := SetRpathRun(t, target, rpath).after;
            SetRpathRun(once, target, rpath) == Run(once, None)
  {
  }

  /** An rpath with surrounding whitespace never reads back as itself, so every call runs `--set-rpath`. */
  lemma SetRpathRepeatsUnstripped(t: Tree, target: Path, rpath: string)
    requires Strip(rpath) != rpath && SetRpathRun(t, target, rpath).err.None?
    ensures SetRpathRun(t, target, rpath).after.edits == t.edits + [RpathEdit(target, rpath)]
  {
    StripIdempotent(t.files[target].elf.value.rpath);
  }

  /** Every ELF file stays an ELF file (it may be overwritten by a copy of another one). */
  ghost predicate KeepsElf(before: Fs, after: Fs) {
    forall p :: Needed(before, p).Some? ==> Needed(after, p).Some?
  }

  /**
   * The install loop raises nothing when every library it copies is an ELF file, and
   * every ELF file stays one.
   */
  lemma {:induction false} InstallAllSucceeds(t: Tree, libdir: Path, names: seq<string>, paths: map<string, Path>)
    requires forall n :: n in names ==> n in paths && Needed(t.files, paths[n]).Some?
    ensures InstallAll(t, libdir, names, paths).err.None?
    ensures KeepsElf(t.files, InstallAll(t, libdir, names, paths).after.files)
    decreases |names|
  {
    if names != [] {
      var init, last := names[..|names| - 1], names[|names| - 1];
      assert forall n :: n in init ==> n in names;
      InstallAllSucceeds(t, libdir, init, paths);
      var prev := InstallAll(t, libdir, init, paths).after;
      var src, dst := paths[last], Destination(libdir, last);
      assert Needed(prev.files, src).Some?;
      var r := InstallOne(prev, libdir, last, src);
      InstalledKeepsElf(prev.files, r.after.files, src, dst);
      forall p | Needed(t.files, p).Some?
        ensures Needed(r.after.files, p).Some?
      {
        assert Needed(prev.files, p).Some?;
      }
    }
  }

  lemma InstalledKeepsElf(before: Fs, after: Fs, src: Path, dst: Path)
    requires Needed(before, src).Some? && Installed(before, after, src, dst)
    ensures KeepsElf(before, after)
  {
    forall p | Needed(before, p).Some?
      ensures Needed(after, p).Some?
    {
      if p != dst {
        assert after[p] == before[p];
      }
    }
  }

  /** `set_rpath` keeps the paths, the modes and the NEEDED lists of every file. */
  ghost predicate SameBinaries(before: Fs, after: Fs) {
    && before.Keys == after.Keys
    && forall p :: p in before ==> after[p].mode == before[p].mode && Needed(after, p) == Needed(before, p)
  }

  /** The rpath loop keeps every path, mode and NEEDED list: it only rewrites rpaths. */
  lemma {:induction false} PatchAllKeeps(t: Tree, fixes: seq<RpathEdit>)
    ensures SameBinaries(t.files, PatchAll(t, fixes).after.files)
    decreases |fixes|
  {
    if fixes != [] {
      var init, last := fixes[..|fixes| - 1], fixes[|fixes| - 1];
      PatchAllKeeps(t, init);
      var prev := PatchAll(t, init);
      if prev.err.None? {
        var r := SetRpathRun(prev.after, last.target, last.rpath);
        if r.err.None? {
          SetRpathEffect(prev.after, last.target, last.rpath);
          forall p | p in t.files
            ensures r.after.files[p].mode == t.files[p].mode && Needed(r.after.files, p) == Needed(t.files, p)
          {
            assert p in prev.after.files;
          }
        }
      }
    }
  }

  /** Every file `fixes` patches is an ELF file. */
  ghost predicate AllElf(fs: Fs, fixes: seq<RpathEdit>) {
    forall i :: 0 <= i < |fixes| ==> Needed(fs, fixes[i].target).Some?
  }

  lemma AllElfSnoc(fs: Fs, fixes: seq<RpathEdit>)
    requires fixes != []
    ensures AllElf(fs, fixes) <==>
              AllElf(fs, fixes[..|fixes| - 1]) && Needed(fs, fixes[|fixes| - 1].target).Some?
  {
    assert forall i :: 0 <= i < |fixes| - 1 ==> fixes[..|fixes| - 1][i] == fixes[i];
  }

  /** The rpath loop raises nothing exactly when every file it patches is an ELF file. */
  lemma {:induction false} PatchAllSucceeds(t: Tree, fixes: seq<RpathEdit>)
    ensures PatchAll(t, fixes).err.None? <==> AllElf(t.files, fixes)
    decreases |fixes|
  {
    if fixes != [] {
      var init, last := fixes[..|fixes| - 1], fixes[|fixes| - 1];
      PatchAllSucceeds(t, init);
      AllElfSnoc(t.files, fixes);
      var prev := PatchAll(t, init);
      if prev.err.None? {
        PatchAllKeeps(t, init);
        assert Needed(prev.after.files, last.target) == Needed(t.files, last.target) by {
          if last.target in t.files {
          }
        }
      }
    }
  }

  lemma CopiedSameSource(before: Fs, before': Fs, after: Fs, src: Path, dst: Path)
    requires Needed(before, src).Some? && src in before' && before'[src] == before[src]
    requires Installed(before, after, src, dst)
    ensures Needed(before', src).Some? && Copied(before', after, src, dst)
  {
  }

  lemma CopiedElsewhere(before: Fs, mid: Fs, after: Fs, p: Path, q: Path, src: Path, dst: Path)
    requires Needed(before, p).Some? && Copied(before, mid, p, q)
    requires Needed(mid, src).Some? && Installed(mid, after, src, dst) && q != dst
    ensures Copied(before, after, p, q)
  {
    assert after[q] == mid[q];
  }

  /** `libdir / name` for each name, in order. */
  function Dests(libdir: Path, names: seq<string>): (r: seq<Path>)
    ensures |r| == |names| && forall i :: 0 <= i < |r| ==> r[i] == Destination(libdir, names[i])
  {
    seq(|names|, i requires 0 <= i < |names| => Destination(libdir, names[i]))
  }

  /** No two names are installed at the same place, and no library is read from a place one is installed at. */
  ghost predicate Disjoint(libdir: Path, names: seq<string>, paths: map<string, Path>)
    requires forall n :: n in names ==> n in paths
  {
    && (forall i, j :: 0 <= i < j < |names| ==> Destination(libdir, names[i]) != Destination(libdir, names[j]))
    && forall n :: n in names ==> paths[n] !in Dests(libdir, names)
  }

  lemma DisjointInit(libdir: Path, names: seq<string>, paths: map<string, Path>)
    requires names != [] && forall n :: n in names ==> n in paths
    requires Disjoint(libdir, names, paths)
    ensures forall n :: n in names[..|names| - 1] ==> n in paths
    ensures Disjoint(libdir, names[..|names| - 1], paths)
    ensures Dests(libdir, names) == Dests(libdir, names[..|names| - 1]) + [Destination(libdir, names[|names| - 1])]
  {
    var init := names[..|names| - 1];
    assert forall n :: n in init ==> n in names;
    DestsSnoc(libdir, names);
  }

  /** After a successful loop over all but the last entry, the loop runs that entry. */
  lemma InstallAllLast(t: Tree, libdir: Path, names: seq<string>, paths: map<string, Path>)
    requires names != [] && forall n :: n in names ==> n in paths
    ensures forall n :: n in names[..|names| - 1] ==> n in paths
    ensures InstallAll(t, libdir, names[..|names| - 1], paths).err.None? ==>
              (InstallAll(t, libdir, names, paths)
               == InstallOne(InstallAll(t, libdir, names[..|names| - 1], paths).after,
                             libdir, names[|names| - 1], paths[names[|names| - 1]]))
  {
    assert forall n :: n in names[..|names| - 1] ==> n in names;
  }

  lemma DestsSnoc(libdir: Path, names: seq<string>)
    requires names != []
    ensures Dests(libdir, names) == Dests(libdir, names[..|names| - 1]) + [Destination(libdir, names[|names| - 1])]
  {
    assert Dests(libdir, names) == Dests(libdir, names[..|names| - 1]) + [Destination(libdir, names[|names| - 1])];
  }

  /** A successful install loop adds exactly the destinations and leaves every other file as it was. */
  lemma {:induction false} InstallAllFrame(t: Tree, libdir: Path, names: seq<string>, paths: map<string, Path>)
    requires forall n :: n in names ==> n in paths && Needed(t.files, paths[n]).Some?
    ensures var after := InstallAll(t, libdir, names, paths).after.files;
            && (forall q :: q in after <==> q in t.files || q in Dests(libdir, names))
            && (forall q :: q in t.files && q !in Dests(libdir, names) ==> after[q] == t.files[q])
    decreases |names|
  {
    if names != [] {
      var init, last := names[..|names| - 1], names[|names| - 1];
      InstallAllLast(t, libdir, names, paths);
      InstallAllSucceeds(t, libdir, init, paths);
      InstallAllFrame(t, libdir, init, paths);
      var prev := InstallAll(t, libdir, init, paths).after.files;
      var after := InstallAll(t, libdir, names, paths).after.files;
      var src, dst := paths[last], Destination(libdir, last);
      assert Needed(prev, src).Some?;
      assert Installed(prev, after, src, dst);
      DestsSnoc(libdir, names);
    }
  }

  /** With distinct destinations that are never read from, the `i`-th destination holds a copy of its library. */
  lemma {:induction false} InstallAllCopies(t: Tree, libdir: Path, names: seq<string>, paths: map<string, Path>, i: nat)
    requires forall n :: n in names ==> n in paths && Needed(t.files, paths[n]).Some?
    requires Disjoint(libdir, names, paths) && i < |names|
    ensures Copied(t.files, InstallAll(t, libdir, names, paths).after.files, paths[names[i]], Destination(libdir, names[i]))
    decreases |names|
  {
    var init, last := names[..|names| - 1], names[|names| - 1];
    DisjointInit(libdir, names, paths);
    var src, dst := paths[last], Destination(libdir, last);
    assert src !in Dests(libdir, init);
    InstallAllStep(t, libdir, names, paths);
    var prev := InstallAll(t, libdir, init, paths).after.files;
    var after := InstallAll(t, libdir, names, paths).after.files;
    if i < |init| {
      assert init[i] == names[i];
      assert Destination(libdir, names[i]) != dst;
      InstallAllCopies(t, libdir, init, paths, i);
      CopiedElsewhere(t.files, prev, after, paths[names[i]], Destination(libdir, names[i]), src, dst);
    } else {
      assert i == |names| - 1;
      CopiedSameSource(prev, t.files, after, src, dst);
    }
  }

  /** The last entry of a successful install loop copies a library nobody has overwritten. */
  lemma InstallAllStep(t: Tree, libdir: Path, names: seq<string>, paths: map<string, Path>)
    requires names != [] && forall n :: n in names ==> n in paths && Needed(t.files, paths[n]).Some?
    requires paths[names[|names| - 1]] !in Dests(libdir, names[..|names| - 1])
    ensures forall n :: n in names[..|names| - 1] ==> n in paths
    ensures var prev := InstallAll(t, libdir, names[..|names| - 1], paths).after.files;
            var src := paths[names[|names| - 1]];
            && src in t.files && src in prev && prev[src] == t.files[src] && Needed(prev, src).Some?
            && Installed(prev, InstallAll(t, libdir, names, paths).after.files, src, Destination(libdir, names[|names| - 1]))
  {
    var init := names[..|names| - 1];
    InstallAllLast(t, libdir, names, paths);
    InstallAllSucceeds(t, libdir, init, paths);
    InstallAllFrame(t, libdir, init, paths);
  }

  /**
   * With distinct destinations that are never read from, the install loop leaves at each
   * destination an owner-writable copy of its library whose rpath reads `$ORIGIN`, adds
   * exactly the destinations, and leaves every other file as it was.
   */
  lemma InstallAllEffect(t: Tree, libdir: Path, names: seq<string>, paths: map<string, Path>)
    requires forall n :: n in names ==> n in paths && Needed(t.files, paths[n]).Some?
    requires Disjoint(libdir, names, paths)
    ensures var r := InstallAll(t, libdir, names, paths);
            && r.err.None?
            && (forall i :: 0 <= i < |names| ==> Copied(t.files, r.after.files, paths[names[i]], Destination(libdir, names[i])))
            && (forall q :: q in r.after.files <==> q in t.files || q in Dests(libdir, names))
            && (forall q :: q in t.files && q !in Dests(libdir, names) ==> r.after.files[q] == t.files[q])
  {
    InstallAllSucceeds(t, libdir, names, paths);
    InstallAllFrame(t, libdir, names, paths);
    forall i | 0 <= i < |names|
      ensures Copied(t.files, InstallAll(t, libdir, names, paths).after.files, paths[names[i]], Destination(libdir, names[i]))
    {
      InstallAllCopies(t, libdir, names, paths, i);
    }
  }

  /** The files `fixes` patches, in order. */
  function Targets(fixes: seq<RpathEdit>): (r: seq<Path>)
    ensures |r| == |fixes| && forall i :: 0 <= i < |r| ==> r[i] == fixes[i].target
  {
    if fixes == [] then [] else Targets(fixes[..|fixes| - 1]) + [fixes[|fixes| - 1].target]
  }

  /** No file is patched twice. */
  predicate DistinctTargets(fixes: seq<RpathEdit>) {
    forall i, j :: 0 <= i < j < |fixes| ==> fixes[i].target != fixes[j].target
  }

  lemma SetRpathElsewhere(t: Tree, target: Path, rpath: string, q: Path)
    requires SetRpathRun(t, target, rpath).err.None? && q != target
    ensures PrintRpath(SetRpathRun(t, target, rpath).after.files, q) == PrintRpath(t.files, q)
  {
    var after := SetRpathRun(t, target, rpath).after.files;
    SetRpathEffect(t, target, rpath);
    if q in t.files {
      assert after[q] == t.files[q];
    }
  }

  /** A successful rpath loop is a successful loop over all but the last edit, then that edit. */
  lemma PatchAllLast(t: Tree, fixes: seq<RpathEdit>)
    requires fixes != [] && PatchAll(t, fixes).err.None?
    ensures PatchAll(t, fixes[..|fixes| - 1]).err.None?
    ensures PatchAll(t, fixes) == SetRpathRun(PatchAll(t, fixes[..|fixes| - 1]).after,
                                              fixes[|fixes| - 1].target, fixes[|fixes| - 1].rpath)
  {
  }

  lemma DistinctTargetsInit(fixes: seq<RpathEdit>)
    requires fixes != [] && DistinctTargets(fixes)
    ensures DistinctTargets(fixes[..|fixes| - 1])
  {
    var init := fixes[..|fixes| - 1];
    forall j, k | 0 <= j < k < |init|
      ensures init[j].target != init[k].target
    {
      assert init[j] == fixes[j] && init[k] == fixes[k];
    }
  }

  /** After a successful rpath loop over distinct files, the `i`-th file reports the rpath asked for it (stripped). */
  lemma {:induction false} PatchAllReports(t: Tree, fixes: seq<RpathEdit>, i: nat)
    requires DistinctTargets(fixes) && PatchAll(t, fixes).err.None? && i < |fixes|
    ensures PrintRpath(PatchAll(t, fixes).after.files, fixes[i].target) == Some(Strip(fixes[i].rpath))
    decreases |fixes|
  {
    var init, last := fixes[..|fixes| - 1], fixes[|fixes| - 1];
    PatchAllLast(t, fixes);
    var prev := PatchAll(t, init).after;
    if i < |init| {
      assert init[i] == fixes[i] && fixes[i].target != last.target;
      DistinctTargetsInit(fixes);
      PatchAllReports(t, init, i);
      SetRpathElsewhere(prev, last.target, last.rpath, init[i].target);
    } else {
      assert fixes[i] == last;
      SetRpathEffect(prev, last.target, last.rpath);
    }
  }

  /** After a successful rpath loop over distinct files, each file reports the rpath asked for it (stripped). */
  lemma PatchAllEffect(t: Tree, fixes: seq<RpathEdit>)
    requires DistinctTargets(fixes) && PatchAll(t, fixes).err.None?
    ensures forall i :: 0 <= i < |fixes| ==>
              PrintRpath(PatchAll(t, fixes).after.files, fixes[i].target) == Some(Strip(fixes[i].rpath))
  {
    forall i | 0 <= i < |fixes|
      ensures PrintRpath(PatchAll(t, fixes).after.files, fixes[i].target) == Some(Strip(fixes[i].rpath))
    {
      PatchAllReports(t, fixes, i);
    }
  }

  /** The rpath loop leaves every file it does not patch as it was. */
  lemma {:induction false} PatchAllFrame(t: Tree, fixes: seq<RpathEdit>)
    ensures var after := PatchAll(t, fixes).after.files;
            && after.Keys == t.files.Keys
            && (forall q :: q in t.files && q !in Targets(fixes) ==> after[q] == t.files[q])
    decreases |fixes|
  {
    PatchAllKeeps(t, fixes);
    if fixes != [] {
      var init, last := fixes[..|fixes| - 1], fixes[|fixes| - 1];
      PatchAllFrame(t, init);
      var prev := PatchAll(t, init);
      if prev.err.None? {
        var r := SetRpathRun(prev.after, last.target, last.rpath);
        if r.err.None? {
          SetRpathEffect(prev.after, last.target, last.rpath);
        }
      }
    }
  }

  /** When every file already reports the rpath asked for it, the rpath loop changes nothing. */
  lemma {:induction false} PatchAllNoop(t: Tree, fixes: seq<RpathEdit>)
    requires forall i :: 0 <= i < |fixes| ==> PrintRpath(t.files, fixes[i].target) == Some(fixes[i].rpath)
    ensures PatchAll(t, fixes) == Run(t, None)
    decreases |fixes|
  {
    if fixes != [] {
      var init := fixes[..|fixes| - 1];
      assert forall i :: 0 <= i < |init| ==> init[i] == fixes[i];
      PatchAllNoop(t, init);
    }
  }

  /**
   * Running the rpath loop a second time over distinct files and rpaths without
   * surrounding whitespace runs no `--set-rpath` and changes nothing.
   */
  lemma PatchAllIdempotent(t: Tree, fixes: seq<RpathEdit>)
    requires DistinctTargets(fixes) && PatchAll(t, fixes).err.None?
    requires forall i :: 0 <= i < |fixes| ==> Strip(fixes[i].rpath) == fixes[i].rpath
    ensures var once := PatchAll(t, fixes).after;
            PatchAll(once, fixes) == Run(once, None)
  {
    PatchAllEffect(t, fixes);
    PatchAllNoop(PatchAll(t, fixes).after, fixes);
  }

  /** Every library in a successful mapping is an ELF file: `readelf` read it during the walk. */
  lemma LibsAreElf(x: Extractor, fs: Fs, roots: seq<Path>, libs: Deps)
    requires AllResolvable(x, fs, roots) && Agrees(x, fs, libs)
    requires forall n :: n in libs.paths ==> ReachableFromAny(x, fs, roots, n)
    ensures forall n :: n in libs.paths ==> Needed(fs, libs.paths[n]).Some?
  {
    forall n | n in libs.paths
      ensures Needed(fs, libs.paths[n]).Some?
    {
      var j :| 0 <= j < |roots| && Reachable(x, fs, roots[j], n);
      assert Resolvable(x, fs, roots[j]);
    }
  }

  /**
   * Once every binary's dependencies are mapped, the rest of `extract` raises nothing
   * exactly when every binary module and the runtime it patches is an ELF file.
   */
  lemma RelocateSucceeds(x: Extractor, t: Tree, roots: seq<Path>, libdir: Path, libs: Deps, fixes: seq<RpathEdit>)
    requires AllResolvable(x, t.files, roots) && WellFormed(libs) && Agrees(x, t.files, libs)
    requires forall n :: n in libs.paths ==> ReachableFromAny(x, t.files, roots, n)
    ensures Relocate(t, libdir, libs, fixes).err.None? <==>
              AllElf(InstallAll(t, libdir, libs.names, libs.paths).after.files, fixes)
    ensures AllElf(t.files, fixes) ==> Relocate(t, libdir, libs, fixes).err.None?
  {
    LibsAreElf(x, t.files, roots, libs);
    InstallAllSucceeds(t, libdir, libs.names, libs.paths);
    var installed := InstallAll(t, libdir, libs.names, libs.paths).after;
    PatchAllSucceeds(installed, fixes);
    if AllElf(t.files, fixes) {
      assert KeepsElf(t.files, installed.files);
      assert AllElf(installed.files, fixes);
    }
  }

  /** An rpath that starts with `$ORIGIN/`: it names a directory relative to the binary itself. */
  predicate SelfRelative(rpath: string) {
    |rpath| > |Origin| && rpath[..|Origin| + 1] == Origin + "/"
  }

  /** `f'$ORIGIN/{dst}'` still starts with `$ORIGIN/` once `--print-rpath`'s output is stripped. */
  lemma OriginRelative(rel: string)
    ensures SelfRelative(Strip(Origin + "/" + rel))
  {
    var p := Origin + "/";
    assert p[0] == '$' && p[|p| - 1] == '/';
    StripKeepsHead(p, rel);
  }

  /** A copy stays a copy when a later step leaves its destination alone. */
  lemma CopiedKept(before: Fs, mid: Fs, after: Fs, src: Path, dst: Path)
    requires Needed(before, src).Some? && Copied(before, mid, src, dst)
    requires dst in after && after[dst] == mid[dst]
    ensures Copied(before, after, src, dst)
  {
  }

  /** Every library `names[i]` of `before` has its installed copy in `after`. */
  ghost predicate AllCopied(before: Fs, after: Fs, libdir: Path, names: seq<string>, paths: map<string, Path>)
    requires forall n :: n in names ==> n in paths && Needed(before, paths[n]).Some?
  {
    forall i :: 0 <= i < |names| ==> Copied(before, after, paths[names[i]], Destination(libdir, names[i]))
  }

  /** Every binary reports the `$ORIGIN/<relpath>` rpath that points it at `libdir`, and that rpath is self-relative. */
  ghost predicate PointsAt(after: Fs, libdir: Path, binaries: seq<Path>, relpath: (Path, Path) -> string) {
    forall i :: 0 <= i < |binaries| ==>
      && PrintRpath(after, binaries[i]) == Some(Strip(Origin + "/" + relpath(libdir, Parent(binaries[i]))))
      && SelfRelative(Strip(Origin + "/" + relpath(libdir, Parent(binaries[i]))))
  }

  /** `after` holds the paths of `before` and `added`, and every path of `before` outside `added` and `touched` is unchanged. */
  ghost predicate AddsOnly(before: Fs, after: Fs, added: seq<Path>, touched: seq<Path>) {
    && (forall q :: q in after <==> q in before || q in added)
    && forall q :: q in before && q !in added && q !in touched ==> after[q] == before[q]
  }

  /** The install loop, when destinations are distinct, never read from and no binary: it leaves the binaries alone. */
  lemma InstallPhase(t: Tree, libdir: Path, names: seq<string>, paths: map<string, Path>, binaries: seq<Path>)
    requires forall n :: n in names ==> n in paths && Needed(t.files, paths[n]).Some?
    requires Disjoint(libdir, names, paths)
    requires forall i :: 0 <= i < |binaries| ==> binaries[i] in t.files && binaries[i] !in Dests(libdir, names)
    ensures var inst := InstallAll(t, libdir, names, paths);
            && inst.err.None?
            && AllCopied(t.files, inst.after.files, libdir, names, paths)
            && AddsOnly(t.files, inst.after.files, Dests(libdir, names), [])
            && forall i :: 0 <= i < |binaries| ==> inst.after.files[binaries[i]] == t.files[binaries[i]]
  {
    InstallAllEffect(t, libdir, names, paths);
  }

  /** The rpath loop over distinct ELF binaries points each of them at `libdir` and touches nothing else. */
  lemma PatchPhase(u: Tree, libdir: Path, binaries: seq<Path>, relpath: (Path, Path) -> string)
    requires forall i, j :: 0 <= i < j < |binaries| ==> binaries[i] != binaries[j]
    requires forall i :: 0 <= i < |binaries| ==> Needed(u.files, binaries[i]).Some?
    ensures var r := PatchAll(u, Fixes(binaries, libdir, relpath));
            && r.err.None?
            && PointsAt(r.after.files, libdir, binaries, relpath)
            && AddsOnly(u.files, r.after.files, [], binaries)
  {
    var fixes := Fixes(binaries, libdir, relpath);
    assert DistinctTargets(fixes);
    PatchAllSucceeds(u, fixes);
    PatchAllEffect(u, fixes);
    PatchAllFrame(u, fixes);
    forall i | 0 <= i < |binaries| {
      OriginRelative(relpath(libdir, Parent(binaries[i])));
    }
    forall q | q in u.files && q !in binaries
      ensures q !in Targets(fixes)
    {
    }
  }

  /** Patching the binaries leaves the installed libraries alone when none of them is a binary. */
  lemma PatchKeepsCopies(before: Fs, inst: Fs, after: Fs, libdir: Path, names: seq<string>, paths: map<string, Path>,
                         binaries: seq<Path>)
    requires forall n :: n in names ==> n in paths && Needed(before, paths[n]).Some?
    requires AllCopied(before, inst, libdir, names, paths)
    requires forall i :: 0 <= i < |binaries| ==> binaries[i] !in Dests(libdir, names)
    requires AddsOnly(inst, after, [], binaries)
    ensures AllCopied(before, after, libdir, names, paths)
  {
    var ds := Dests(libdir, names);
    forall i | 0 <= i < |names|
      ensures Copied(before, after, paths[names[i]], Destination(libdir, names[i]))
    {
      var dst := Destination(libdir, names[i]);
      assert ds[i] == dst;
      assert dst in inst;
      CopiedKept(before, inst, after, paths[names[i]], dst);
    }
  }

  /**
   * The bundle after the rest of `extract`, when the library destinations are distinct and
   * never read from and the patched binaries are distinct ELF files outside them: every
   * library has its owner-writable copy with rpath `$ORIGIN`, every binary reports the
   * self-relative `$ORIGIN/<relpath>` rpath asked for it, exactly the destinations are
   * added, and every other file is as it was.
   */
  lemma RelocateEffect(t: Tree, libdir: Path, libs: Deps, binaries: seq<Path>, relpath: (Path, Path) -> string)
    requires forall n :: n in libs.names ==> n in libs.paths && Needed(t.files, libs.paths[n]).Some?
    requires Disjoint(libdir, libs.names, libs.paths)
    requires forall i, j :: 0 <= i < j < |binaries| ==> binaries[i] != binaries[j]
    requires forall i :: 0 <= i < |binaries| ==>
               Needed(t.files, binaries[i]).Some? && binaries[i] !in Dests(libdir, libs.names)
    ensures var r := Relocate(t, libdir, libs, Fixes(binaries, libdir, relpath));
            && r.err.None?
            && AllCopied(t.files, r.after.files, libdir, libs.names, libs.paths)
            && PointsAt(r.after.files, libdir, binaries, relpath)
            && AddsOnly(t.files, r.after.files, Dests(libdir, libs.names), binaries)
  {
    var names, paths := libs.names, libs.paths;
    InstallPhase(t, libdir, names, paths, binaries);
    var inst := InstallAll(t, libdir, names, paths).after;
    PatchPhase(inst, libdir, binaries, relpath);
    var after := PatchAll(inst, Fixes(binaries, libdir, relpath)).after.files;
    PatchKeepsCopies(t.files, inst.files, after, libdir, names, paths, binaries);
  }

  /** The trees being worked on and the log of `--set-rpath` runs, as `extract` changes them. */
  class Host {
    var files: Fs
    var edits: seq<RpathEdit>

    constructor (files: Fs)
      ensures this.files == files && edits == []
    {
      this.files, edits := files, [];
    }

    function State(): Tree
      reads this
    {
      Tree(files, edits)
    }

    /** `Extractor.set_rpath(target, rpath)`. */
    method SetRpath(target: Path, rpath: string) returns (err: Option<Error>)
      modifies this
      ensures Run(State(), err) == SetRpathRun(old(State()), target, rpath)
    {
      var current := PrintRpath(files, target);  // patchelf --print-rpath target
      if current.None? {
        return Some(PatchelfFailed(target));
      }
      if current.value != rpath {
        files := WithRpath(files, target, rpath);  // patchelf --set-rpath 'rpath' target
        edits := edits + [RpathEdit(target, rpath)];
      }
      err := None;
    }

    /** One pass of the install loop: copy `src` to `libdir / name`, chmod it if needed, set its rpath. */
    method Install(libdir: Path, name: string, src: Path) returns (err: Option<Error>)
      modifies this
      ensures Run(State(), err) == InstallOne(old(State()), libdir, name, src)
    {
      var dst := Destination(libdir, name);
      if src !in files {
        return Some(CopyFailed(src));
      }
      ghost var before := files;
      files := files[dst := files[src]];  // shutil.copy(src, dst)
      var mode := files[dst].mode;
      if mode & S_IWUSR == 0 {
        mode := mode | S_IWUSR;
        files := files[dst := files[dst].(mode := mode)];  // dst.chmod(mode)
        Overwrite(before, dst, before[src], before[src].(mode := mode));
      } else {
        assert before[src].(mode := OwnerWritable(before[src].mode)) == before[src];
      }
      err := SetRpath(dst, Origin);
    }

    /** The loop over `libs.items()`: install each library in the dictionary's order. */
    method InstallLibraries(libdir: Path, names: seq<string>, paths: map<string, Path>) returns (err: Option<Error>)
      requires forall n :: n in names ==> n in paths
      modifies this
      ensures Run(State(), err) == InstallAll(old(State()), libdir, names, paths)
    {
      ghost var t := State();
      for i := 0 to |names|
        invariant InstallAll(t, libdir, names[..i], paths) == Run(State(), None)
      {
        assert names[..i + 1][..i] == names[..i];
        err := Install(libdir, names[i], paths[names[i]]);
        if err.Some? {
          InstallAllStops(t, libdir, names, paths, i + 1);
          return;
        }
      }
      assert names[..|names|] == names;
      err := None;
    }

    /** `set_rpath` on each binary in turn. */
    method PatchBinaries(fixes: seq<RpathEdit>) returns (err: Option<Error>)
      modifies this
      ensures Run(State(), err) == PatchAll(old(State()), fixes)
    {
      ghost var t := State();
      for i := 0 to |fixes|
        invariant PatchAll(t, fixes[..i]) == Run(State(), None)
      {
        assert fixes[..i + 1] == fixes[..i] + [fixes[i]];
        PatchAllSnoc(t, fixes[..i], fixes[i]);
        err := SetRpath(fixes[i].target, fixes[i].rpath);
        if err.Some? {
          PatchAllStops(t, fixes, i + 1);
          return;
        }
      }
      assert fixes[..|fixes|] == fixes;
      err := None;
    }

    /**
     * `extract(destination)` from the mapping of binary dependencies onwards (lines 184-215).
     * `modules` and `copied` are the globbed binary modules of the installation and of
     * its copy under `destination`, and `relpath` is `os.path.relpath`. When some binary's
     * dependencies cannot be mapped nothing is changed and the exception names the culprit;
     * otherwise `libs` is the merged dictionary and the run is `Relocate`'s.
     */
    method Extract(x: Extractor, destination: Path, modules: seq<Path>, copied: seq<Path>,
                   relpath: (Path, Path) -> string) returns (err: Option<Error>, ghost libs: Deps)
      modifies this
      ensures !AllResolvable(x, old(files), Roots(x, modules)) ==>
                State() == old(State()) && err.Some? &&
                exists j :: 0 <= j < |Roots(x, modules)| && Blame(x, old(files), Roots(x, modules)[j], err.value)
      ensures AllResolvable(x, old(files), Roots(x, modules)) ==>
                && WellFormed(libs) && Agrees(x, old(files), libs)
                && (forall n :: n in libs.paths <==> ReachableFromAny(x, old(files), Roots(x, modules), n))
                && Run(State(), err) ==
                   Relocate(old(State()), LibraryDir(destination), libs,
                            Fixes(copied + [RuntimeTarget(x, destination)], LibraryDir(destination), relpath))
    {
      var roots := Roots(x, modules);
      var mapped := CollectLibs(x, files, roots);
      if mapped.Failure? {
        return Some(mapped.error), Deps([], map[]);
      }
      var deps := mapped.value;
      libs := deps;
      ghost var t := State();
      var libdir := LibraryDir(destination);
      err := InstallLibraries(libdir, deps.names, deps.paths);
      if err.Some? {
        return;
      }
      var moduleFixes := Fixes(copied, libdir, relpath);
      err := PatchBinaries(moduleFixes);
      var runtime := RuntimeTarget(x, destination);
      var last := RpathEdit(runtime, Origin + "/" + relpath(libdir, Parent(runtime)));
      FixesSnoc(copied, runtime, libdir, relpath);
      PatchAllSnoc(InstallAll(t, libdir, deps.names, deps.paths).after, moduleFixes, last);
      if err.Some? {
        return;
      }
      err := SetRpath(runtime, last.rpath);
    }
  }
}
