/**
 * The slice of `os.path`, `os` and `shutil` the services rely on, over a
 * filesystem seen as the set of paths that exist (files and directories alike).
 */
module PyPath {
  import opened PyText

  /** Every path that `os.path.exists` answers true for. */
  type FileSystem = set<string>

  const Sep: char := '/'

  predicate AllChar(s: string, c: char)
  {
    forall i :: 0 <= i < |s| ==> s[i] == c
  }

  /** `s.rfind(c)` for a one-character needle: the last index of `c`, or -1. */
  function RFind(s: string, c: char): (r: int)
    ensures r == -1 <==> c !in s
    ensures r != -1 ==> 0 <= r < |s| && s[r] == c && c !in s[r + 1..]
  {
    if s == [] then -1
    else if s[|s| - 1] == c then |s| - 1
    else
      var r := RFind(s[..|s| - 1], c);
      assert s == s[..|s| - 1] + [s[|s| - 1]];
      assert r != -1 ==> s[r + 1..] == s[..|s| - 1][r + 1..] + [s[|s| - 1]];
      r
  }

  /** `s.rstrip(c)`: drop every trailing `c`. */
  function RStrip(s: string, c: char): (r: string)
    ensures r <= s
    ensures forall i :: |r| <= i < |s| ==> s[i] == c
    ensures r == [] || r[|r| - 1] != c
  {
    if s != [] && s[|s| - 1] == c then RStrip(s[..|s| - 1], c) else s
  }

  /** `os.path.dirname(p)` on POSIX: the part before the last separator, trailing separators removed unless it is all separators. */
  function DirName(p: string): (r: string)
    ensures r <= p
  {
    var head := p[..RFind(p, Sep) + 1];
    if head != [] && !AllChar(head, Sep) then RStrip(head, Sep) else head
  }

  /** A directory path as `pathlib` prints it: not empty and without a trailing separator. */
  predicate IsDirPath(dir: string)
  {
    dir != [] && dir[|dir| - 1] != Sep
  }

  /** The directory of a path built as `f'{dir}/{tail}'` is `dir`, whenever `tail` has no separator. */
  lemma DirNameOfJoin(dir: string, tail: string)
    requires IsDirPath(dir)
    requires Sep !in tail
    ensures DirName(dir + [Sep] + tail) == dir
  {
    var p := dir + [Sep] + tail;
    var k := RFind(p, Sep);
    assert p[|dir|] == Sep;
    assert p[|dir| + 1..] == tail;
    assert k == |dir|;
    var head := p[..k + 1];
    assert head == dir + [Sep];
    assert !AllChar(head, Sep) by { assert head[|dir| - 1] != Sep; }
    var r := RStrip(head, Sep);
    assert |r| == |dir|;
    assert r == head[..|dir|] == dir;
  }

  /** `p` lies inside directory `dir`, at any depth. */
  predicate IsUnder(p: string, dir: string)
  {
    |p| > |dir| && p[..|dir| + 1] == dir + [Sep]
  }

  /** The paths that `shutil.rmtree(dir)` leaves behind. */
  function RemoveTree(fs: FileSystem, dir: string): FileSystem
  {
    set p | p in fs && p != dir && !IsUnder(p, dir)
  }

  /** The paths a zip archive of `dir` (made with `root_dir=dir`) packs. */
  function EntriesUnder(fs: FileSystem, dir: string): FileSystem
  {
    set p | p in fs && IsUnder(p, dir)
  }

  /**
   * Archiving `dir` and then removing it splits the disk in three: what survives the
   * removal, what the archive holds, and `dir` itself. Nothing is in two parts, and
   * nothing inside `dir` survives except in the archive.
   */
  lemma ArchiveThenRemove(fs: FileSystem, dir: string)
    ensures fs == RemoveTree(fs, dir) + EntriesUnder(fs, dir) + (fs * {dir})
    ensures RemoveTree(fs, dir) * EntriesUnder(fs, dir) == {}
    ensures dir !in RemoveTree(fs, dir) && dir !in EntriesUnder(fs, dir)
  {
    assert !IsUnder(dir, dir);
  }
}
