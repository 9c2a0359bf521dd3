/**
 * An abstract directory tree: a finite map from absolute paths (sequences of
 * path components; the root is the empty path) to nodes. A class holds the
 * map and offers the two operations the organizers perform, `mkdir` with
 * missing parents and `shutil.move`. An operation the operating system
 * refuses for its own reasons (permissions, a full disk) is a
 * nondeterministic failure that leaves the tree as it was, standing for
 * `OSError`.
 */
module FileSystem {

  type Path = seq<string>

  type Bytes = seq<bv8>

  /** A regular file with its bytes, or a directory. */
  datatype Node = File(content: Bytes) | Dir

  type Entries = map<Path, Node>

  predicate IsPrefix(p: Path, q: Path) {
    |p| <= |q| && q[..|p|] == p
  }

  /** Neither path lies inside the other, nor are they equal. */
  predicate Apart(p: Path, q: Path) {
    !IsPrefix(p, q) && !IsPrefix(q, p)
  }

  function Parent(p: Path): Path
    requires p != []
  {
    p[..|p| - 1]
  }

  /** `Path.name`: the last component. */
  function Name(p: Path): string
    requires p != []
  {
    p[|p| - 1]
  }

  /** The root always exists and is a directory. */
  predicate IsDirIn(m: Entries, p: Path) {
    p == [] || (p in m && m[p].Dir?)
  }

  predicate IsFileIn(m: Entries, p: Path) {
    p in m && m[p].File?
  }

  predicate ExistsIn(m: Entries, p: Path) {
    p == [] || p in m
  }

  /** Every entry hangs below a directory: the map is a tree. */
  ghost predicate WellFormed(m: Entries) {
    && (forall p :: p in m ==> p != [])
    && (forall p {:trigger Parent(p)} :: p in m && p != [] ==> IsDirIn(m, Parent(p)))
  }

  /** The names a directory listing (`iterdir`, `glob("*")`, `os.listdir`) yields. */
  function Listing(m: Entries, dir: Path): set<string> {
    set p | p in m && |p| == |dir| + 1 && p[..|dir|] == dir :: p[|dir|]
  }

  lemma ListingMembers(m: Entries, dir: Path)
    ensures forall n :: n in Listing(m, dir) <==> dir + [n] in m
  {
    forall n | n in Listing(m, dir)
      ensures dir + [n] in m
    {
      var p :| p in m && |p| == |dir| + 1 && p[..|dir|] == dir && n == p[|dir|];
      assert p == dir + [n];
    }
    forall n | dir + [n] in m
      ensures n in Listing(m, dir)
    {
      var p := dir + [n];
      assert p[..|dir|] == dir && p[|dir|] == n;
    }
  }

  lemma PrefixesComparable(p: Path, q: Path, r: Path)
    requires IsPrefix(p, r) && IsPrefix(q, r)
    ensures IsPrefix(p, q) || IsPrefix(q, p)
  {
    if |p| <= |q| {
      assert q[..|p|] == r[..|p|];
    } else {
      assert p[..|q|] == r[..|q|];
    }
  }

  lemma PrefixTransitive(p: Path, q: Path, r: Path)
    requires IsPrefix(p, q) && IsPrefix(q, r)
    ensures IsPrefix(p, r)
  {
    assert r[..|p|] == r[..|q|][..|p|];
  }

  /** In a tree, every proper ancestor of an entry is a directory. */
  lemma {:induction false} AncestorIsDir(m: Entries, p: Path, q: Path)
    requires WellFormed(m) && q in m && IsPrefix(p, q) && p != q
    ensures IsDirIn(m, p)
    decreases |q|
  {
    var r := Parent(q);
    if p != r {
      assert q[..|p|] == p;
      assert |p| < |r|;
      assert r[..|p|] == q[..|p|];
      assert r in m;
      AncestorIsDir(m, p, r);
    }
  }

  /** A regular file has no entries below it. */
  lemma FileIsLeaf(m: Entries, f: Path, q: Path)
    requires WellFormed(m) && IsFileIn(m, f) && q in m && IsPrefix(f, q)
    ensures q == f
  {
    if q != f {
      AncestorIsDir(m, f, q);
    }
  }

  // ---------------------------------------------------------------------
  // Directory creation: Path.mkdir(parents=True) and os.makedirs
  // ---------------------------------------------------------------------

  /** The non-root prefixes of `p`, `p` included. */
  function Ancestry(p: Path): (a: set<Path>)
    ensures forall q :: q in a ==> q != [] && IsPrefix(q, p)
  {
    set k | 1 <= k <= |p| :: p[..k]
  }

  /** Creation succeeds unless the path exists (FileExistsError) or one of its ancestors is a regular file. */
  predicate CanMakeDirs(m: Entries, p: Path) {
    && p != []
    && p !in m
    && forall k :: 1 <= k < |p| ==> !IsFileIn(m, p[..k])
  }

  /** The tree after creating `p` and every missing ancestor of it. */
  function WithDirs(m: Entries, p: Path): Entries {
    m + map q | q in Ancestry(p) && q !in m :: Dir
  }

  lemma WithDirsProperties(m: Entries, p: Path)
    requires WellFormed(m) && CanMakeDirs(m, p)
    ensures WellFormed(WithDirs(m, p))
    ensures IsDirIn(WithDirs(m, p), p)
    ensures forall q :: q in m ==> q in WithDirs(m, p) && WithDirs(m, p)[q] == m[q]
    ensures forall q :: q in WithDirs(m, p) && q !in m ==> IsPrefix(q, p)
  {
    var r := WithDirs(m, p);
    assert p == p[..|p|];
    forall q | q in r
      ensures q != [] && IsDirIn(r, Parent(q))
    {
      if q !in m {
        var k :| 1 <= k <= |p| && q == p[..k];
        if k > 1 {
          assert Parent(q) == p[..k - 1];
          assert p[..k - 1] in Ancestry(p);
        }
      }
    }
  }

  /** A prefix of a child path is the child itself or a prefix of its directory. */
  lemma PrefixOfChild(p: Path, dir: Path, n: string)
    requires IsPrefix(p, dir + [n])
    ensures p == dir + [n] || IsPrefix(p, dir)
  {
    if |p| <= |dir| {
      assert dir[..|p|] == (dir + [n])[..|p|];
    } else {
      assert p == (dir + [n])[..|p|];
    }
  }

  /** In a tree, the missing ancestors of `dir + [n]` below an existing directory `dir` are just `dir + [n]`. */
  lemma OnlyChildMissing(m: Entries, dir: Path, n: string, q: Path)
    requires WellFormed(m) && IsDirIn(m, dir)
    requires q in Ancestry(dir + [n]) && q !in m
    ensures q == dir + [n]
  {
    var y := dir + [n];
    if q != y {
      assert |q| <= |dir| by {
        if |q| == |y| {
          assert q == y[..|q|];
        }
      }
      assert IsPrefix(q, dir) by {
        assert dir[..|q|] == y[..|q|];
      }
      if q != dir {
        AncestorIsDir(m, q, dir);
      }
    }
  }

  // ---------------------------------------------------------------------
  // Moving a file or a directory tree: shutil.move / os.rename
  // ---------------------------------------------------------------------

  /**
   * The move succeeds when the source exists, the target's parent is a
   * directory, the target does not lie inside the source, and the target is
   * either absent or a regular file replaced by a regular file (the POSIX
   * rename). Moving onto an existing directory is counted as a failure.
   */
  predicate CanMove(m: Entries, src: Path, dst: Path) {
    && src in m
    && dst != []
    && IsDirIn(m, Parent(dst))
    && !IsPrefix(src, dst)
    && (dst in m ==> m[src].File? && m[dst].File?)
  }

  /** Where an entry below `src` ends up when `src` is moved to `dst`. */
  function Rebase(p: Path, src: Path, dst: Path): Path
    requires IsPrefix(src, p)
  {
    dst + p[|src|..]
  }

  /** The places the entries below `src` take below `dst`. */
  function RebasedKeys(m: Entries, src: Path, dst: Path): set<Path> {
    set p | p in m && IsPrefix(src, p) :: Rebase(p, src, dst)
  }

  /** The entry that lands at `q` when `src` moves to `dst`. */
  function Origin(q: Path, src: Path, dst: Path): Path
    requires IsPrefix(dst, q)
  {
    src + q[|dst|..]
  }

  lemma OriginOfRebase(p: Path, src: Path, dst: Path)
    requires IsPrefix(src, p)
    ensures IsPrefix(dst, Rebase(p, src, dst)) && Origin(Rebase(p, src, dst), src, dst) == p
  {
    var q := Rebase(p, src, dst);
    assert q[..|dst|] == dst;
    assert q[|dst|..] == p[|src|..];
    assert p == src + p[|src|..];
  }

  lemma RebasedKeysOrigin(m: Entries, src: Path, dst: Path, q: Path)
    requires q in RebasedKeys(m, src, dst)
    ensures IsPrefix(dst, q) && Origin(q, src, dst) in m && IsPrefix(src, Origin(q, src, dst))
    ensures Rebase(Origin(q, src, dst), src, dst) == q
  {
    var p :| p in m && IsPrefix(src, p) && q == Rebase(p, src, dst);
    OriginOfRebase(p, src, dst);
  }

  /** The entries below `src`, each at its place below `dst`. */
  function MovedPart(m: Entries, src: Path, dst: Path): Entries {
    assert forall q | q in RebasedKeys(m, src, dst) :: IsPrefix(dst, q) && Origin(q, src, dst) in m by {
      forall q | q in RebasedKeys(m, src, dst)
        ensures IsPrefix(dst, q) && Origin(q, src, dst) in m
      {
        RebasedKeysOrigin(m, src, dst, q);
      }
    }
    map q | q in RebasedKeys(m, src, dst) :: m[Origin(q, src, dst)]
  }

  /** The tree after moving the subtree at `src` to `dst`. */
  function Renamed(m: Entries, src: Path, dst: Path): Entries {
    (map p | p in m && !IsPrefix(src, p) :: m[p]) + MovedPart(m, src, dst)
  }

  lemma InMovedPart(m: Entries, src: Path, dst: Path, q: Path)
    requires q in MovedPart(m, src, dst)
    ensures IsPrefix(dst, q) && Origin(q, src, dst) in m && IsPrefix(src, Origin(q, src, dst))
    ensures Rebase(Origin(q, src, dst), src, dst) == q
    ensures MovedPart(m, src, dst)[q] == m[Origin(q, src, dst)]
  {
    RebasedKeysOrigin(m, src, dst, q);
  }

  lemma RebaseInMovedPart(m: Entries, src: Path, dst: Path, p: Path)
    requires p in m && IsPrefix(src, p)
    ensures Rebase(p, src, dst) in MovedPart(m, src, dst)
    ensures MovedPart(m, src, dst)[Rebase(p, src, dst)] == m[p]
  {
    OriginOfRebase(p, src, dst);
    assert Rebase(p, src, dst) in RebasedKeys(m, src, dst);
  }

  /** An entry outside the moved subtree keeps its node, unless it is the replaced target file. */
  lemma RenamedKeeps(m: Entries, src: Path, dst: Path, q: Path)
    requires WellFormed(m) && CanMove(m, src, dst)
    requires q in m && !IsPrefix(src, q) && q != dst
    ensures q !in MovedPart(m, src, dst)
    ensures q in Renamed(m, src, dst) && Renamed(m, src, dst)[q] == m[q]
  {
    if q in MovedPart(m, src, dst) {
      InMovedPart(m, src, dst, q);
      AncestorIsDir(m, dst, q);
    }
  }

  /** Every entry of the moved subtree reappears below the target. */
  lemma RenamedCarries(m: Entries, src: Path, dst: Path, p: Path)
    requires p in m && IsPrefix(src, p)
    ensures Rebase(p, src, dst) in Renamed(m, src, dst)
    ensures Renamed(m, src, dst)[Rebase(p, src, dst)] == m[p]
  {
    RebaseInMovedPart(m, src, dst, p);
  }

  /** After the move, every entry is an old one outside the source, or lies below the target. */
  lemma RenamedOrigin(m: Entries, src: Path, dst: Path, q: Path)
    requires q in Renamed(m, src, dst)
    ensures (q in m && !IsPrefix(src, q)) || IsPrefix(dst, q)
  {
    if q in MovedPart(m, src, dst) {
      InMovedPart(m, src, dst, q);
    }
  }

  /** Nothing is left at or below the source. */
  lemma RenamedEmptiesSource(m: Entries, src: Path, dst: Path, q: Path)
    requires WellFormed(m) && CanMove(m, src, dst) && IsPrefix(src, q)
    ensures q !in Renamed(m, src, dst)
  {
    if q in MovedPart(m, src, dst) {
      InMovedPart(m, src, dst, q);
      PrefixesComparable(src, dst, q);
      AncestorIsDir(m, dst, src);
    }
  }

  lemma RenamedWellFormed(m: Entries, src: Path, dst: Path)
    requires WellFormed(m) && CanMove(m, src, dst)
    ensures WellFormed(Renamed(m, src, dst))
  {
    var r := Renamed(m, src, dst);
    var part := MovedPart(m, src, dst);
    forall q | q in r
      ensures q != [] && IsDirIn(r, Parent(q))
    {
      if q in part {
        InMovedPart(m, src, dst, q);
        var p := Origin(q, src, dst);
        if p == src {
          assert q == dst;
          MovedTargetParent(m, src, dst);
        } else {
          var pp := Parent(p);
          assert |pp| >= |src| && pp[..|src|] == src;
          assert IsDirIn(m, pp);
          assert Rebase(pp, src, dst) == Parent(q);
          RenamedCarries(m, src, dst, pp);
        }
      } else {
        UntouchedParent(m, src, dst, q);
      }
    }
  }

  lemma MovedTargetParent(m: Entries, src: Path, dst: Path)
    requires WellFormed(m) && CanMove(m, src, dst)
    ensures IsDirIn(Renamed(m, src, dst), Parent(dst))
  {
    var pd := Parent(dst);
    if pd != [] {
      assert !IsPrefix(src, pd) by {
        if IsPrefix(src, pd) {
          PrefixTransitive(src, pd, dst);
        }
      }
      assert pd != dst;
      RenamedKeeps(m, src, dst, pd);
    }
  }

  lemma UntouchedParent(m: Entries, src: Path, dst: Path, q: Path)
    requires WellFormed(m) && CanMove(m, src, dst)
    requires q in Renamed(m, src, dst) && q !in MovedPart(m, src, dst)
    ensures q != [] && IsDirIn(Renamed(m, src, dst), Parent(q))
  {
    assert q in m && !IsPrefix(src, q);
    var pq := Parent(q);
    if pq != [] {
      assert !IsPrefix(src, pq) by {
        if IsPrefix(src, pq) {
          PrefixTransitive(src, pq, q);
        }
      }
      assert pq != dst by {
        if pq == dst {
          AncestorIsDir(m, dst, q);
        }
      }
      RenamedKeeps(m, src, dst, pq);
    }
  }

  /** Moving a regular file changes exactly two entries. */
  lemma RenamedFile(m: Entries, src: Path, dst: Path)
    requires WellFormed(m) && CanMove(m, src, dst) && IsFileIn(m, src)
    ensures Renamed(m, src, dst) == (m - {src})[dst := m[src]]
  {
    var r := Renamed(m, src, dst);
    var e := (m - {src})[dst := m[src]];
    assert Rebase(src, src, dst) == dst;
    RenamedCarries(m, src, dst, src);
    forall q | q in r
      ensures q in e && r[q] == e[q]
    {
      if q != dst {
        RenamedOrigin(m, src, dst, q);
        if q in MovedPart(m, src, dst) {
          InMovedPart(m, src, dst, q);
          FileIsLeaf(m, src, Origin(q, src, dst));
        }
      }
    }
    forall q | q in e
      ensures q in r
    {
      if q != dst {
        assert !IsPrefix(src, q) by {
          if IsPrefix(src, q) {
            FileIsLeaf(m, src, q);
          }
        }
        RenamedKeeps(m, src, dst, q);
      }
    }
  }

  // ---------------------------------------------------------------------
  // The filesystem object
  // ---------------------------------------------------------------------

  class Fs {
    var entries: Entries

    ghost predicate Valid()
      reads this
    {
      WellFormed(entries)
    }

    constructor (initial: Entries)
      requires WellFormed(initial)
      ensures Valid() && entries == initial
    {
      entries := initial;
    }

    /** `Path.exists()` / `os.path.exists`. */
    function Exists(p: Path): bool
      reads this
    {
      ExistsIn(entries, p)
    }

    /** `Path.is_dir()`. */
    function IsDir(p: Path): bool
      reads this
    {
      IsDirIn(entries, p)
    }

    /** `Path.is_file()` / `os.path.isfile`. */
    function IsFile(p: Path): bool
      reads this
    {
      IsFileIn(entries, p)
    }

    /** `p.mkdir(parents=True)` / `os.makedirs(p)`; `ok == false` means OSError. */
    method MakeDirs(p: Path) returns (ok: bool)
      requires Valid()
      modifies this
      ensures Valid()
      ensures ok ==> CanMakeDirs(old(entries), p) && entries == WithDirs(old(entries), p)
      ensures !ok ==> entries == old(entries)
    {
      var refused: bool :| true;
      if CanMakeDirs(entries, p) && !refused {
        WithDirsProperties(entries, p);
        entries := WithDirs(entries, p);
        ok := true;
      } else {
        ok := false;
      }
    }

    /** `shutil.move(src, dst)`; `ok == false` means OSError or shutil.Error. */
    method Move(src: Path, dst: Path) returns (ok: bool)
      requires Valid()
      modifies this
      ensures Valid()
      ensures ok ==> CanMove(old(entries), src, dst) && entries == Renamed(old(entries), src, dst)
      ensures !ok ==> entries == old(entries)
    {
      var refused: bool :| true;
      if CanMove(entries, src, dst) && !refused {
        RenamedWellFormed(entries, src, dst);
        entries := Renamed(entries, src, dst);
        ok := true;
      } else {
        ok := false;
      }
    }
  }
}
