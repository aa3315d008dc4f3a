# extract-manylinux: the extraction and relocation core in Dafny

This project models `extract_manylinux/extract.py` of extract-manylinux. The `Extractor`
turns the unpacked root of a manylinux container image into a relocatable Python runtime.
It finds the CPython installation behind the `opt/python/<tag>` link. It computes the
transitive closure of the shared libraries the interpreter and its binary modules need,
using `readelf -d`. It copies that closure into `<destination>/lib` and rewrites every rpath
with `patchelf`, so that the bundle finds its libraries relative to `$ORIGIN`.

Modules, one per file:

- `Wrappers` (wrappers.dfy): `Option` and `Result`.
- `Text` (text.dfy): the Python string operations the code relies on: `str.strip()`,
  `str.split(sep, 1)` unpacked into two names, `int(str)` and `f'{n}'`.
- `Paths` (paths.dfy): the part of `pathlib` the code uses (parsing, `/`, `.name`, `.parent`).
- `Version` (version.dfy): `PythonVersion.from_str`, `long` and `short`.
- `FileSystem` (filesystem.dfy): the trees as the code observes them. A finite map sends each
  existing path to its `st_mode` and, for an ELF file, to its NEEDED names and its rpath.
  `readelf -d` and `patchelf --print-rpath` read this map. `patchelf --set-rpath` and
  `shutil.copy` write it.
- `Extraction` (extraction.dfy): the frozen `Extractor` record, `__post_init__` as the method
  `NewExtractor`, and `locate_library`.
- `Closure` (closure.dfy): `ldd` and its inner `recurse`. The shared `dependencies` dictionary
  is the class `Dependencies`, whose `names` field keeps the insertion order. `recurse` becomes
  the mutually recursive methods `Recurse`, `Visit` and `Descend`. `CollectLibs` is the merge of
  the per-binary results with `dict.update`.
- `Relocation` (relocation.dfy): `set_rpath` and the rest of `extract` from line 184 on. The
  class `Host` holds the tree and the log of `--set-rpath` runs, and its methods change them in
  place. Each method is proved equal to a step function on `Tree` values: `SetRpathRun`,
  `InstallOne`, `InstallAll`, `PatchAll` and `Relocate`. The properties of the code are proved
  as lemmas about those functions.

Inputs from the outside world become parameters:

- the image's symbolic links (`os.readlink`);
- what `glob` returns;
- the lines of the exclude list;
- the file tree;
- `os.path.relpath`.

## Model

| member | source | states |
|---|---|---|
| Text.Strip | extract_manylinux/extract.py:125 | the result has no whitespace at either end, is no longer than the input, and is the input itself when the input has none; `StripShape` and `StripAround` pin down which text it keeps |
| Text.StripShape | extract_manylinux/extract.py:125 | the input is whitespace, then the result, then whitespace |
| Text.StripAround | extract_manylinux/extract.py:125 | text with no whitespace at its ends, between two runs of whitespace, strips to exactly that text |
| Text.StripKeepsHead | extract_manylinux/extract.py:255 | text starting with a piece that has no whitespace at its ends still starts with that piece once stripped |
| Text.StripAllSpace | extract_manylinux/extract.py:125 | text made only of whitespace strips to nothing |
| Text.StripIdempotent | extract_manylinux/extract.py:255 | stripping twice is stripping once |
| Text.SplitOnce | extract_manylinux/extract.py:94 | fails exactly when the separator is absent; otherwise the input is head, separator, tail, with no separator in the head |
| Text.ParseInt | extract_manylinux/extract.py:37 | `int()` accepts only text that holds a decimal digit; `ParseIntAccepts` states exactly which texts it accepts and their values |
| Text.ParseIntOfForm | extract_manylinux/extract.py:37-40 | whitespace, an optional `+` or `-`, a digit group (digits with single `_` between them), whitespace: `int()` returns the group's value, negated after `-` |
| Text.ParseIntHasForm | extract_manylinux/extract.py:37-40 | every text `int()` accepts has that form, and its value is the one of that form |
| Text.ParseIntAccepts | extract_manylinux/extract.py:37-40 | `int()` accepts a text exactly when it has that form, and then returns the signed value of its digit group |
| Text.ParseIntOfString | extract_manylinux/extract.py:40-43 | `int(str(i)) == i` for every integer |
| Paths.Parse | extract_manylinux/extract.py:94 | every component is non-empty, not `.` and free of `/`; the path is rooted exactly when the text starts with `/` |
| Paths.ComponentsOfPiece | extract_manylinux/extract.py:94 | a `/`-free piece is one component, or none when it is empty or `.` |
| Paths.ComponentsConcat | extract_manylinux/extract.py:94 | the components of `a/b` are those of `a` followed by those of `b` |
| Paths.NameAfterSlash | extract_manylinux/extract.py:94 | the `.name` of `s/c`, for a plain name `c`, is `c`, and its `.parent` has the components of `s` |
| Paths.Join | extract_manylinux/extract.py:91 | a rooted right operand replaces the left one; otherwise the components are concatenated and the left operand's root is kept |
| Paths.JoinPart | extract_manylinux/extract.py:193 | `libdir / name` for a plain name lies directly in `libdir` and is named `name` |
| FileSystem.Needed | extract_manylinux/extract.py:225-228 | `readelf -d` succeeds exactly on existing ELF files |
| Version.PatchOf | extract_manylinux/extract.py:36-39 | the patch field is an integer exactly when `int()` accepts it, and otherwise keeps its text |
| Version.FromStr | extract_manylinux/extract.py:34-40 | a value is accepted only when it holds two dots; `FromStrFields` gives the fields and the failures |
| Version.FromStrFields | extract_manylinux/extract.py:34-40 | `a.b.c` with dot-free `a` and `b` parses into `int(a)`, `int(b)` and the patch field of `c`, and fails when `a` or `b` is not an integer |
| Version.Long | extract_manylinux/extract.py:42-43 | `long()` parses back to the same major and minor, with the patch field re-parsed |
| Version.Short | extract_manylinux/extract.py:45-46 | `short()` has a dot whose two sides read back as major and minor |
| Version.PatchRoundTrip | extract_manylinux/extract.py:36-43 | a patch field survives printing and re-parsing exactly when it is an integer or a label `int()` rejects |
| Version.FromStrLong | extract_manylinux/extract.py:34-43 | `from_str(v.long()) == v` exactly when the patch is an integer or a label that does not read as one |
| Version.LongFromStr | extract_manylinux/extract.py:34-43 | `long()` rebuilds the parsed text exactly when every integer field is written the way Python prints it |
| Version.ShortCutsLong | extract_manylinux/extract.py:42-46 | `short()` is the text of `long()` before its second dot |
| Extraction.Interpreter | extract_manylinux/extract.py:88-101 | a link target that is not rooted raises NotImplementedError; a name without `-` raises ValueError; on success the prefix is `prefix / link[1:]` and the implementation is CPython |
| Extraction.InterpreterAccepts | extract_manylinux/extract.py:94-101 | a rooted link named `cpython-<version>` succeeds exactly when `from_str` accepts the version, and yields the prefix, CPython and that version; otherwise it raises ValueError |
| Extraction.InterpreterRejectsOtherImplementations | extract_manylinux/extract.py:94-99 | any head other than `cpython` raises NotImplementedError |
| Extraction.PythonPrefixInImage | extract_manylinux/extract.py:89-91 | the installation prefix is the link target re-rooted at the image prefix, except that a target starting with `//` replaces the prefix |
| Extraction.Kept | extract_manylinux/extract.py:122-127 | every kept entry is stripped, non-empty and not a comment |
| Extraction.KeptMembers | extract_manylinux/extract.py:122-127 | a name is excluded exactly when it is the stripped form of some non-empty, non-comment line |
| Extraction.KeptAppend | extract_manylinux/extract.py:122-127 | reading two runs of lines in a row keeps the entries of each, in file order |
| Extraction.ReadExcluded | extract_manylinux/extract.py:122-128 | the loop over the exclude list yields exactly `Kept(lines)` |
| Extraction.SearchPath | extract_manylinux/extract.py:104-117 | `lib64` for aarch64 and x86_64, `lib` for i686, then `usr/local/lib`, then the first OpenSSL `lib` directory when one exists |
| Extraction.NewExtractor | extract_manylinux/extract.py:86-128 | a missing link, a link the interpreter parse rejects and an unreadable exclude list each raise their own error, in that order; on success every derived field is the one the source computes |
| Extraction.Locate | extract_manylinux/extract.py:243-246 | a found path exists |
| Extraction.LocateIsFirstMatch | extract_manylinux/extract.py:243-248 | the search succeeds exactly when some directory holds the name, and returns the earliest such directory's file |
| Extraction.LocateLibrary | extract_manylinux/extract.py:240-248 | returns the first match, or raises FileNotFoundError(name) |
| Closure.BlameDeniesResolvable | extract_manylinux/extract.py:225-234 | a blamed error rules out a complete walk |
| Closure.Dependencies.constructor | extract_manylinux/extract.py:222 | the dictionary starts empty |
| Closure.Recurse | extract_manylinux/extract.py:224-234 | on error the error names a real failure of the walk; otherwise the walk invariant holds, recorded keys only grow, every non-excluded NEEDED name of `target` is recorded, and no name is located twice |
| Closure.Visit | extract_manylinux/extract.py:230-234 | after one NEEDED name, that name is recorded or excluded, with the same guarantees as `Recurse` |
| Closure.Descend | extract_manylinux/extract.py:232-234 | recording a located name and walking its file keeps the walk invariant and records the name |
| Closure.Record | extract_manylinux/extract.py:232-233 | inserting a located, reachable name keeps the table valid and leaves fewer names unrecorded, which bounds the walk |
| Closure.Complete | extract_manylinux/extract.py:236-237 | a finished walk records exactly the reachable names, and each of them was located and read |
| Closure.Ldd | extract_manylinux/extract.py:218-237 | succeeds exactly when every reachable name is found and readable; on failure the error names the culprit; on success the keys are exactly the reachable names, each mapped to the file `locate_library` finds, and no name is located twice, even on cyclic graphs |
| Closure.NewNames | extract_manylinux/extract.py:188 | the names of `b` missing from the dictionary, without duplicates |
| Closure.Update | extract_manylinux/extract.py:188 | `a.update(b)`: the keys of `a` stay first and in place; the keys are the union; a key of `b` takes `b`'s value, any other keeps `a`'s |
| Closure.UpdateWellFormed | extract_manylinux/extract.py:188 | `update` keeps the existing keys first and in place, and holds exactly the union of keys without duplicates |
| Closure.UpdateConsistent | extract_manylinux/extract.py:188 | merging results that agree with `locate_library` changes no existing value |
| Closure.MergeFirst | extract_manylinux/extract.py:184 | the runtime's walk is the merge of the first binary |
| Closure.MergeNext | extract_manylinux/extract.py:186-188 | one more `update` gives the merge of one more binary |
| Closure.ReachableFromOneMore | extract_manylinux/extract.py:186-188 | reachable from the first `i + 1` binaries is reachable from the first `i` or from binary `i` |
| Closure.CollectLibs | extract_manylinux/extract.py:184-188 | succeeds exactly when every binary's walk succeeds; otherwise it blames the first failing binary; on success the keys are exactly the names reachable from some binary, each mapped to its located file |
| Relocation.PrintRpath | extract_manylinux/extract.py:252-255 | `--print-rpath` succeeds exactly on ELF files |
| Relocation.SetRpathRun | extract_manylinux/extract.py:251-258 | fails exactly when the target is not an ELF file, and then changes nothing |
| Relocation.SetRpathEffect | extract_manylinux/extract.py:251-258 | after success the file reports the stripped rpath, only its rpath changed, and `--set-rpath` ran exactly when the current rpath differed |
| Relocation.SetRpathIdempotent | extract_manylinux/extract.py:251-258 | a second call with a stripped rpath runs nothing and changes nothing |
| Relocation.SetRpathRepeatsUnstripped | extract_manylinux/extract.py:255-258 | an rpath with surrounding whitespace is written again on every call |
| Relocation.Host.SetRpath | extract_manylinux/extract.py:251-258 | the method's new state and error are those of `SetRpathRun` |
| Relocation.OwnerWritable | extract_manylinux/extract.py:198-201 | the owner-write bit ends set and every other mode bit is unchanged |
| Relocation.InstallOne | extract_manylinux/extract.py:192-203 | a missing source raises at the copy; a non-ELF source raises at `set_rpath` on the destination; otherwise the destination is an owner-writable copy with rpath `$ORIGIN` and nothing else changed |
| Relocation.OriginStripped | extract_manylinux/extract.py:203 | `$ORIGIN` has no surrounding whitespace |
| Relocation.CopyThenPatch | extract_manylinux/extract.py:194-203 | copying an ELF file and setting its rpath to `$ORIGIN` yields an installed copy |
| Relocation.Host.Install | extract_manylinux/extract.py:192-203 | the method's new state and error are those of `InstallOne` |
| Relocation.InstallAll | extract_manylinux/extract.py:192-203 | an error is the copy failure of some library's source or the `set_rpath` failure of its destination |
| Relocation.InstallAllStops | extract_manylinux/extract.py:192-203 | a failing prefix of the install loop is the whole loop's outcome |
| Relocation.InstallAllSucceeds | extract_manylinux/extract.py:192-203 | the install loop raises nothing when every source is an ELF file, and every ELF file stays one |
| Relocation.InstallAllFrame | extract_manylinux/extract.py:191-203 | the install loop adds exactly the destinations and leaves every other file as it was |
| Relocation.InstallAllCopies | extract_manylinux/extract.py:191-203 | with distinct destinations never read from, each destination holds its library's copy |
| Relocation.InstallAllEffect | extract_manylinux/extract.py:191-203 | the whole effect of the install loop: success, one installed copy per name, exactly the destinations added, nothing else changed |
| Relocation.Host.InstallLibraries | extract_manylinux/extract.py:191-203 | the loop's new state and error are those of `InstallAll` |
| Relocation.Fixes | extract_manylinux/extract.py:206-215 | one rpath request per binary, in order, each aimed at its own binary, asking for `$ORIGIN/` followed by `relpath(libdir, parent)` |
| Relocation.PatchAll | extract_manylinux/extract.py:205-215 | an error is the `set_rpath` failure of one of the patched binaries |
| Relocation.PatchAllStops | extract_manylinux/extract.py:205-215 | a failing prefix of the rpath loop is the whole loop's outcome |
| Relocation.PatchAllSnoc | extract_manylinux/extract.py:205-215 | the rpath loop over one more binary is the loop, then `set_rpath` on it unless an earlier call failed |
| Relocation.PatchAllKeeps | extract_manylinux/extract.py:205-215 | the rpath loop keeps every path, mode and NEEDED list |
| Relocation.PatchAllSucceeds | extract_manylinux/extract.py:205-215 | the rpath loop raises nothing exactly when every binary it patches is an ELF file |
| Relocation.PatchAllReports | extract_manylinux/extract.py:205-215 | over distinct binaries, binary `i` ends up reporting the rpath asked for it, stripped |
| Relocation.PatchAllEffect | extract_manylinux/extract.py:205-215 | over distinct binaries, every binary ends up reporting the rpath asked for it, stripped |
| Relocation.PatchAllFrame | extract_manylinux/extract.py:205-215 | the rpath loop keeps the set of paths and leaves every file it does not patch as it was |
| Relocation.PatchAllNoop | extract_manylinux/extract.py:251-258 | when every binary already reports its rpath, the loop changes nothing and runs nothing |
| Relocation.PatchAllIdempotent | extract_manylinux/extract.py:205-215 | a second run of the rpath loop with stripped rpaths changes nothing and runs no `--set-rpath` |
| Relocation.Host.PatchBinaries | extract_manylinux/extract.py:205-210 | the loop's new state and error are those of `PatchAll` |
| Relocation.Roots | extract_manylinux/extract.py:184-187 | `ldd` runs on the runtime first, then on each binary module in order |
| Relocation.LibsAreElf | extract_manylinux/extract.py:184-188 | every mapped library is an ELF file, because `readelf` read it during the walk |
| Relocation.Relocate | extract_manylinux/extract.py:191-215 | an error is that of a library install or of a patched binary |
| Relocation.RelocateSucceeds | extract_manylinux/extract.py:191-215 | once the libraries are mapped, copying and patching raise nothing exactly when every patched binary is an ELF file after the copies; that holds whenever they are ELF files to begin with |
| Relocation.OriginRelative | extract_manylinux/extract.py:209-215 | the rpath `$ORIGIN/<relpath>` still starts with `$ORIGIN/` after `--print-rpath` and `strip()` |
| Relocation.CopiedKept | extract_manylinux/extract.py:191-215 | an installed copy stays installed when a later step leaves its destination alone |
| Relocation.InstallPhase | extract_manylinux/extract.py:191-203 | the install loop succeeds, installs every library, adds exactly the destinations and leaves the binaries to patch as they were |
| Relocation.PatchPhase | extract_manylinux/extract.py:205-215 | over distinct ELF binaries, the rpath loop succeeds, each binary reports its self-relative `$ORIGIN/<relpath>` rpath, and nothing else changes |
| Relocation.PatchKeepsCopies | extract_manylinux/extract.py:191-215 | patching binaries outside the destinations keeps every installed copy |
| Relocation.RelocateEffect | extract_manylinux/extract.py:191-215 | the whole of copying and patching: success; every library has its owner-writable copy with rpath `$ORIGIN`; every binary reports its self-relative `$ORIGIN/<relpath>` rpath; exactly the destinations are added; every other file is as it was |
| Relocation.Host.Extract | extract_manylinux/extract.py:184-215 | an unmappable dependency raises an error that names it and changes nothing; otherwise the mapping holds exactly the reachable names, and the new state and error are those of `Relocate` with the libraries, then the copied modules, then the runtime |

## Left out

- The download of the image (`download.py`), the command-line interface and the example scripts are not part of this model.
- The patchelf discovery of `__post_init__` (lines 130-146) is not modelled. `patchelf` is an oracle over the file tree.
- The first part of `extract` (lines 152-181) is not modelled: the include-directory glob, the copy of the runtime, the two convenience links and the `copytree` of the standard library and headers. `Extract` starts at line 184 and receives the runtime's path in the bundle through `RuntimeTarget`.
- `glob.glob` results, `os.readlink`, the exclude-list file and `os.path.relpath` are parameters. Their ordering and content come from the caller.
- The `readelf` output regex, shell quoting and byte decoding are not modelled: `readelf -d` returns the NEEDED list of the tree's ELF node directly.
- ParseInt: CPython's default limit of 4300 digits for `int()` and `str()` on integers raises ValueError; the model has no limit. Python's `int()` also accepts non-ASCII Unicode digits; the model accepts ASCII digits only.
- Directories and symbolic links are not modelled; the tree is a flat map from path to file. `shutil.copy(..., follow_symlinks=True)` copies the node of its source path.
- Only the owner-write bit of `st_mode` is interpreted; file-type bits are carried along unchanged.
- InstallOne: `shutil.copy` onto an existing read-only destination raises PermissionError in Python; the model overwrites it.
- NewExtractor: the `OSError` of `os.readlink` on a missing or non-link path is modelled as `LinkNotFound`; other I/O errors are not.
- SetRpathRun: `patchelf --set-rpath` is assumed to succeed on every file `--print-rpath` reads. The read-only modes `copytree` keeps on the copied binary modules (lines 175-181), which line 210 patches without a chmod, are not modelled; such a failure is not part of this model. Other subprocess failures are modelled as a missing or non-ELF file; exit statuses and messages are not.
- SetRpathRun: its effect on a success (the new rpath, the frame, the `--set-rpath` log) is stated in the lemma `SetRpathEffect` rather than on the function, so that proofs use it only where needed.
- InstallAllEffect: assumes distinct destinations, none of them a library source. The source does not check this; when names collide, later copies overwrite earlier ones (`InstallAllSucceeds` and `InstallAllFrame` hold without it).
- RelocateEffect: assumes distinct destinations never read from, and distinct binaries outside them (the source does not check this); `RelocateSucceeds` holds without it.
- PatchAllEffect: assumes each binary appears once in the loop. When one repeats, the last request wins; `PatchAllSucceeds` and `PatchAllFrame` hold regardless.
- The `raise NotImplementedError()` for an unknown architecture (line 110) cannot be reached, because `Arch` has exactly the three handled values.
- A relative interpreter link raises `NotImplementedError`, and a link name without `-`, such as the `bin` of `/opt/_internal/cpython-3.11.4/bin`, raises `ValueError`; the model does the same.
