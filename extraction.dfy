/**
 * `Extractor`: the frozen record `__post_init__` derives from the architecture, the
 * image prefix and the interpreter tag, and its `locate_library` search.
 */
module Extraction {
  import opened Wrappers
  import opened Text
  import opened Paths
  import opened Version
  import opened FileSystem

  datatype Arch = AARCH64 | I686 | X86_64

  datatype PythonImpl = CPython

  /** The exceptions the core raises, named after their cause. */
  datatype Error =
    | NotImplemented                 // NotImplementedError: unsupported layout or implementation
    | ValueError                     // ValueError: a malformed `<impl>-<version>` link name
    | LinkNotFound(link: Path)       // OSError from os.readlink
    | ExcludeListUnreadable          // OSError from opening the exclude list
    | LibraryNotFound(name: string)  // FileNotFoundError(name) from locate_library
    | ReadelfFailed(target: Path)    // CalledProcessError from `readelf -d`
    | CopyFailed(src: Path)          // FileNotFoundError from shutil.copy
    | PatchelfFailed(target: Path)   // CalledProcessError from `patchelf --print-rpath`

  datatype Extractor = Extractor(
    arch: Arch,
    prefix: Path,
    tag: string,
    excluded: seq<string>,
    impl: PythonImpl,
    libraryPath: seq<Path>,
    pythonPrefix: Path,
    version: PythonVersion)

  /** The relative paths `'lib'`, `'lib64'` and `'usr/local/lib'`, written as their components. */
  const LibDir := Path(false, ["lib"])
  const Lib64Dir := Path(false, ["lib64"])
  const UsrLocalLibDir := Path(false, ["usr", "local", "lib"])

  /** The symbolic link that names the interpreter installation: `prefix / 'opt/python/<tag>'`. */
  function LinkPath(prefix: Path, tag: string): Path {
    Join(prefix, Parse("opt/python/" + tag))
  }

  /**
   * What `__post_init__` derives from the link target: the installation prefix inside
   * the image, the implementation and the version.
   */
  function Interpreter(prefix: Path, link: string): (r: Result<(Path, PythonImpl, PythonVersion), Error>)
    ensures (|link| == 0 || link[0] != '/') ==> r == Failure(NotImplemented)
    ensures '-' !in Name(Parse(link)) && |link| > 0 && link[0] == '/' ==> r == Failure(ValueError)
    ensures r.Success? ==> r.value.0 == Join(prefix, Parse(link[1..])) && r.value.1 == CPython
  {
    if |link| == 0 || link[0] != '/' then Failure(NotImplemented)
    else
      match SplitOnce(Name(Parse(link)), '-')
      case None => Failure(ValueError)
      case Some((head, tail)) =>
        if head == "cpython" then
          match FromStr(tail)
          case None => Failure(ValueError)
          case Some(v) => Success((Join(prefix, Parse(link[1..])), CPython, v))
        else Failure(NotImplemented)
  }

  /**
   * A rooted link whose last component is `cpython-<tail>` is accepted exactly when
   * `<tail>` parses as a version, and that version is the one recorded.
   */
  lemma InterpreterAccepts(prefix: Path, link: string, tail: string)
    requires |link| > 0 && link[0] == '/' && Name(Parse(link)) == "cpython-" + tail
    ensures Interpreter(prefix, link)
         == if FromStr(tail).Some? then Success((Join(prefix, Parse(link[1..])), CPython, FromStr(tail).value))
            else Failure(ValueError)
  {
    assert "cpython-" + tail == "cpython" + ['-'] + tail;
    SplitOnceAt("cpython", '-', tail);
  }

  /** A last component whose text before the first `-` is not `cpython` is unsupported. */
  lemma InterpreterRejectsOtherImplementations(prefix: Path, link: string, head: string, tail: string)
    requires |link| > 0 && link[0] == '/' && Name(Parse(link)) == head + "-" + tail
    requires '-' !in head && head != "cpython"
    ensures Interpreter(prefix, link) == Failure(NotImplemented)
  {
    assert head + "-" + tail == head + ['-'] + tail;
    SplitOnceAt(head, '-', tail);
  }

  /**
   * The installation prefix is the link target re-rooted at the image prefix, unless the
   * target starts with `//`: then `link[1:]` is itself rooted and replaces the prefix.
   */
  lemma PythonPrefixInImage(prefix: Path, link: string)
    requires |link| > 0 && link[0] == '/'
    ensures (|link| == 1 || link[1] != '/') ==>
              Join(prefix, Parse(link[1..])) == Path(prefix.absolute, prefix.parts + Parse(link).parts)
    ensures (|link| > 1 && link[1] == '/') ==> Join(prefix, Parse(link[1..])) == Parse(link[1..])
  {
    ComponentsAfterSlash(link);
  }

  /** Whether an exclude-list line contributes an entry: non-blank and not a `#` comment. */
  predicate KeepsLine(line: string) {
    Strip(line) != "" && Strip(line)[0] != '#'
  }

  /**
   * The entries of the exclude list: its kept lines, stripped, in file order. Every
   * entry is non-empty, is not a comment and carries no surrounding whitespace.
   */
  function Kept(lines: seq<string>): (r: seq<string>)
    ensures forall k :: 0 <= k < |r| ==> r[k] != "" && r[k][0] != '#' && Strip(r[k]) == r[k]
  {
    if lines == [] then []
    else
      var last := lines[|lines| - 1];
      StripIdempotent(last);
      Kept(lines[..|lines| - 1]) + (if KeepsLine(last) then [Strip(last)] else [])
  }

  /** An entry is excluded exactly when some line of the list, stripped, is that entry. */
  lemma KeptMembers(lines: seq<string>, x: string)
    ensures x in Kept(lines) <==> exists i :: 0 <= i < |lines| && KeepsLine(lines[i]) && Strip(lines[i]) == x
  {
    if x in Kept(lines) {
      KeptFromLine(lines, x);
    }
    forall i | 0 <= i < |lines| && KeepsLine(lines[i]) && Strip(lines[i]) == x
      ensures x in Kept(lines)
    {
      LineIsKept(lines, i);
    }
  }

  /** Every entry comes from some kept line. */
  lemma {:induction false} KeptFromLine(lines: seq<string>, x: string)
    requires x in Kept(lines)
    ensures exists i :: 0 <= i < |lines| && KeepsLine(lines[i]) && Strip(lines[i]) == x
  {
    var init := lines[..|lines| - 1];
    if x in Kept(init) {
      KeptFromLine(init, x);
      var i :| 0 <= i < |init| && KeepsLine(init[i]) && Strip(init[i]) == x;
      assert lines[i] == init[i];
    } else {
      assert KeepsLine(lines[|lines| - 1]) && Strip(lines[|lines| - 1]) == x;
    }
  }

  /** Every kept line contributes its stripped text. */
  lemma {:induction false} LineIsKept(lines: seq<string>, i: nat)
    requires i < |lines| && KeepsLine(lines[i])
    ensures Strip(lines[i]) in Kept(lines)
  {
    var init, last := lines[..|lines| - 1], lines[|lines| - 1];
    assert Kept(lines) == Kept(init) + (if KeepsLine(last) then [Strip(last)] else []);
    if i < |init| {
      assert init[i] == lines[i];
      LineIsKept(init, i);
    } else {
      assert lines[i] == last;
    }
  }

  /** Reading the list line by line: the entries of two pieces of the file are concatenated in order. */
  lemma {:induction false} KeptAppend(a: seq<string>, b: seq<string>)
    ensures Kept(a + b) == Kept(a) + Kept(b)
  {
    if b == [] {
      assert a + b == a;
    } else {
      var init := b[..|b| - 1];
      assert (a + b)[..|a + b| - 1] == a + init;
      KeptAppend(a, init);
    }
  }

  /** `__post_init__`'s loop over the exclude-list file. */
  method ReadExcluded(lines: seq<string>) returns (excluded: seq<string>)
    ensures excluded == Kept(lines)
  {
    excluded := [];
    for i := 0 to |lines|
      invariant excluded == Kept(lines[..i])
    {
      var line := Strip(lines[i]);
      if line != "" && line[0] != '#' {
        excluded := excluded + [line];
      }
      assert lines[..i + 1][..i] == lines[..i];
    }
    assert lines[..|lines|] == lines;
  }

  /**
   * The library search path: the image's `lib` directory for i686 and its `lib64` for
   * the 64-bit architectures, then `usr/local/lib`, then the `lib` directory of the
   * first OpenSSL installation when there is one.
   */
  predicate IsSearchPath(arch: Arch, prefix: Path, opensslDirs: seq<string>, paths: seq<Path>) {
    && |paths| == (if opensslDirs == [] then 2 else 3)
    && paths[0] == Join(prefix, if arch == I686 then LibDir else Lib64Dir)
    && paths[1] == Join(prefix, UsrLocalLibDir)
    && (opensslDirs != [] ==> paths[2] == Join(Parse(opensslDirs[0]), LibDir))
  }

  /** `__post_init__`'s construction of `library_path`, entry by entry. */
  method SearchPath(arch: Arch, prefix: Path, opensslDirs: seq<string>) returns (paths: seq<Path>)
    ensures IsSearchPath(arch, prefix, opensslDirs, paths)
  {
    paths := [];
    match arch {
      case AARCH64 => paths := paths + [Join(prefix, Lib64Dir)];
      case X86_64 => paths := paths + [Join(prefix, Lib64Dir)];
      case I686 => paths := paths + [Join(prefix, LibDir)];
    }
    paths := paths + [Join(prefix, UsrLocalLibDir)];
    if opensslDirs != [] {
      paths := paths + [Join(Parse(opensslDirs[0]), LibDir)];
    }
  }

  /**
   * `Extractor.__post_init__` (without the patchelf discovery): `links` holds the image's
   * symbolic links, `opensslDirs` what `glob` returns for `opt/_internal/openssl-*`, and
   * `excludeFile` the lines of the exclude list, `None` when it cannot be opened.
   */
  method NewExtractor(arch: Arch, prefix: Path, tag: string, links: map<Path, string>,
                      opensslDirs: seq<string>, excludeFile: Option<seq<string>>)
    returns (r: Result<Extractor, Error>)
    ensures LinkPath(prefix, tag) !in links ==> r == Failure(LinkNotFound(LinkPath(prefix, tag)))
    ensures LinkPath(prefix, tag) in links && Interpreter(prefix, links[LinkPath(prefix, tag)]).Failure? ==>
              r == Failure(Interpreter(prefix, links[LinkPath(prefix, tag)]).error)
    ensures r.Success? <==>
              LinkPath(prefix, tag) in links && Interpreter(prefix, links[LinkPath(prefix, tag)]).Success? &&
              excludeFile.Some?
    ensures r.Failure? && LinkPath(prefix, tag) in links && Interpreter(prefix, links[LinkPath(prefix, tag)]).Success? ==>
              r.error == ExcludeListUnreadable
    ensures r.Success? ==>
              var x := r.value;
              var found := Interpreter(prefix, links[LinkPath(prefix, tag)]).value;
              && x.arch == arch && x.prefix == prefix && x.tag == tag
              && x.pythonPrefix == found.0 && x.impl == found.1 && x.version == found.2
              && x.excluded == Kept(excludeFile.value)
              && IsSearchPath(arch, prefix, opensslDirs, x.libraryPath)
  {
    // Locate Python installation, parse implementation and version.
    var linkPath := LinkPath(prefix, tag);
    if linkPath !in links {
      return Failure(LinkNotFound(linkPath));
    }
    var found := Interpreter(prefix, links[linkPath]);
    if found.Failure? {
      return Failure(found.error);
    }
    var (pythonPrefix, impl, version) := found.value;

    var paths := SearchPath(arch, prefix, opensslDirs);

    // Set excluded libraries.
    if excludeFile.None? {
      return Failure(ExcludeListUnreadable);
    }
    var excluded := ReadExcluded(excludeFile.value);

    r := Success(Extractor(arch, prefix, tag, excluded, impl, paths, pythonPrefix, version));
  }

  /** `locate_library`'s search, as a function: the first `dir / name` that exists. */
  function Locate(dirs: seq<Path>, fs: Fs, name: string): (r: Option<Path>)
    ensures r.Some? ==> r.value in fs
  {
    if dirs == [] then None
    else if Join(dirs[0], Parse(name)) in fs then Some(Join(dirs[0], Parse(name)))
    else Locate(dirs[1..], fs, name)
  }

  /**
   * The search finds a file exactly when one of the directories holds the name, and
   * then it returns the one in the earliest such directory.
   */
  lemma {:induction false} LocateIsFirstMatch(dirs: seq<Path>, fs: Fs, name: string)
    ensures Locate(dirs, fs, name).Some? <==> exists i :: 0 <= i < |dirs| && Join(dirs[i], Parse(name)) in fs
    ensures Locate(dirs, fs, name).Some? ==>
              exists i :: 0 <= i < |dirs| && Locate(dirs, fs, name).value == Join(dirs[i], Parse(name)) &&
                          forall j :: 0 <= j < i ==> Join(dirs[j], Parse(name)) !in fs
  {
    if dirs != [] {
      LocateIsFirstMatch(dirs[1..], fs, name);
      if Join(dirs[0], Parse(name)) !in fs {
        if Locate(dirs, fs, name).Some? {
          var i :| 0 <= i < |dirs[1..]| && Locate(dirs, fs, name).value == Join(dirs[1..][i], Parse(name)) &&
                   forall j :: 0 <= j < i ==> Join(dirs[1..][j], Parse(name)) !in fs;
          assert forall j :: 0 <= j < i + 1 ==> Join(dirs[j], Parse(name)) !in fs by {
            forall j | 0 <= j < i + 1 ensures Join(dirs[j], Parse(name)) !in fs {
              if j > 0 { assert dirs[j] == dirs[1..][j - 1]; }
            }
          }
        } else {
          forall i | 0 <= i < |dirs| ensures Join(dirs[i], Parse(name)) !in fs {
            if i > 0 { assert dirs[i] == dirs[1..][i - 1]; }
          }
        }
      }
    }
  }

  /** `Extractor.locate_library`: a for/else search over `library_path`. */
  method LocateLibrary(x: Extractor, fs: Fs, name: string) returns (r: Result<Path, Error>)
    ensures r == match Locate(x.libraryPath, fs, name)
                 case Some(p) => Success(p)
                 case None => Failure(LibraryNotFound(name))
  {
    var dirs := x.libraryPath;
    for i := 0 to |dirs|
      invariant Locate(dirs, fs, name) == Locate(dirs[i..], fs, name)
    {
      var path := Join(dirs[i], Parse(name));
      if path in fs {
        return Success(path);
      }
      assert dirs[i..][1..] == dirs[i + 1..];
    }
    return Failure(LibraryNotFound(name));
  }
}
