/**
 * The image and bundle trees as the extractor observes them through `os.path.exists`,
 * `stat`, `readelf -d` and `patchelf --print-rpath`: a finite map from path to node.
 */
module FileSystem {
  import opened Wrappers
  import opened Paths

  /** The dynamic section of an ELF file: its NEEDED entries, in order, and its rpath. */
  datatype Elf = Elf(needed: seq<string>, rpath: string)

  /** An existing path: its `st_mode`, and its dynamic section when it is an ELF file. */
  datatype Node = Node(mode: bv32, elf: Option<Elf>)

  type Fs = map<Path, Node>

  /** `stat.S_IWUSR`, the owner-write permission bit (octal 0200). */
  const S_IWUSR: bv32 := 0x80

  /** The names `readelf -d p` reports as NEEDED, or `None` when it exits non-zero. */
  function Needed(fs: Fs, p: Path): (r: Option<seq<string>>)
    ensures r.Some? <==> p in fs && fs[p].elf.Some?
  {
    if p in fs && fs[p].elf.Some? then Some(fs[p].elf.value.needed) else None
  }

  /** Every name that appears in some NEEDED list of the tree: a finite set. */
  function Universe(fs: Fs): set<string> {
    set p, m | p in fs && fs[p].elf.Some? && m in fs[p].elf.value.needed :: m
  }

  lemma InUniverse(fs: Fs, p: Path, m: string)
    requires Needed(fs, p).Some? && m in Needed(fs, p).value
    ensures m in Universe(fs)
  {
  }
}
