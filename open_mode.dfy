/** How both adapters choose the mode string of the device-side `open()`
    from the flag word the kernel passes to `open`, with the Linux values of
    the `os.O_*` constants. The flag word is a C `int`, modelled as `bv32`. */
module OpenMode {

  const O_RDONLY: bv32 := 0
  const O_WRONLY: bv32 := 1
  const O_RDWR: bv32 := 2
  const O_CREAT: bv32 := 0x40     // 0o100
  const O_TRUNC: bv32 := 0x200    // 0o1000
  const O_APPEND: bv32 := 0x400   // 0o2000

  /** The mode strings the chain can name. */
  predicate IsMode(m: string) {
    m == "a" || m == "r" || m == "w+" || m == "r+" || m == "w" || m == "a+"
  }

  /** The if/elif chain of src/mpy_fuse.py, branch by branch. */
  function ModeOf(flags: bv32): (m: string)
    ensures IsMode(m)
  {
    if flags & (O_RDONLY + O_APPEND) != 0 then "a"
    else if flags == O_RDONLY then "r"
    else if flags & (O_RDWR + O_CREAT) != 0 then "w+"
    else if flags & O_RDWR != 0 then "r+"
    else if flags & (O_WRONLY + O_TRUNC + O_CREAT) != 0 then "w"
    else if flags & O_APPEND != 0 then "a+"
    else "w+"
  }

  /** The chain of src/mpy-fuse.py: identical but for its second test,
      which is `flags & O_RDONLY` instead of `flags == O_RDONLY`. */
  function LegacyModeOf(flags: bv32): (m: string)
    ensures IsMode(m)
  {
    if flags & (O_RDONLY + O_APPEND) != 0 then "a"
    else if flags & O_RDONLY != 0 then "r"
    else if flags & (O_RDWR + O_CREAT) != 0 then "w+"
    else if flags & O_RDWR != 0 then "r+"
    else if flags & (O_WRONLY + O_TRUNC + O_CREAT) != 0 then "w"
    else if flags & O_APPEND != 0 then "a+"
    else "w+"
  }

  /** What the chain comes to once the branches that earlier tests already
      cover are removed. */
  function ModeTable(flags: bv32): string {
    if flags & O_APPEND != 0 then "a"
    else if flags == 0 then "r"
    else if flags & (O_RDWR | O_CREAT) != 0 then "w+"
    else if flags & (O_WRONLY | O_TRUNC) != 0 then "w"
    else "w+"
  }

  lemma {:induction false} ModeOfIsTable(flags: bv32)
    ensures ModeOf(flags) == ModeTable(flags)
  {
  }

  /** Any flag word holding O_APPEND opens for appending. */
  lemma {:induction false} ModeOfAppend(flags: bv32)
    requires flags & O_APPEND != 0
    ensures ModeOf(flags) == "a" && LegacyModeOf(flags) == "a"
  {
  }

  /** A plain read-only open reads. */
  lemma {:induction false} ModeOfReadOnly()
    ensures ModeOf(O_RDONLY) == "r"
  {
  }

  /** `create` passes O_RDWR + O_CREAT, which gives "w+" in both files. */
  lemma {:induction false} ModeOfCreate()
    ensures ModeOf(O_RDWR + O_CREAT) == "w+" && LegacyModeOf(O_RDWR + O_CREAT) == "w+"
  {
  }

  /** The "r+" and "a+" branches are dead: the tests before them already
      take every flag word that could reach them. */
  lemma {:induction false} ModeOfNeverUpdateModes(flags: bv32)
    ensures ModeOf(flags) != "r+" && ModeOf(flags) != "a+"
    ensures LegacyModeOf(flags) != "r+" && LegacyModeOf(flags) != "a+"
  {
  }

  /** With O_RDONLY equal to 0 the legacy second test never holds: the
      legacy chain never opens for reading, and a zero flag word falls
      through to the final "w+"; on every other flag word the two agree. */
  lemma {:induction false} LegacyModeOfDiffersOnlyAtZero(flags: bv32)
    ensures LegacyModeOf(flags) == (if flags == 0 then "w+" else ModeOf(flags))
    ensures LegacyModeOf(flags) != "r"
  {
  }

  /** The legacy truncate opens with O_RDWR alone, which gives "w+". */
  lemma {:induction false} LegacyModeOfReadWrite()
    ensures LegacyModeOf(O_RDWR) == "w+"
  {
  }
}
