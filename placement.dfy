/**
 * Moving the regular files of one folder, one at a time, into folders below
 * a destination: the effect of one `mkdir`-then-`shutil.move` step, and the
 * facts about the tree that such a loop keeps whatever decides the target
 * folders. Both photo organizers are built on these.
 */
module Placement {
  import opened FileSystem

  /**
   * Moving `src` to `dst` after creating the missing directories up to
   * `dst`'s parent: every other entry is kept, a moved file arrives with its
   * bytes (replacing at most a regular file), a failed move keeps both ends,
   * and what is new is a directory on the way to `dst` or, after a move, `dst`.
   */
  ghost predicate StepEffect(m0: Entries, m: Entries, src: Path, dst: Path, moved: bool)
    requires src in m0 && dst != []
  {
    && (forall p :: p in m0 && p != src && p != dst ==> p in m && m[p] == m0[p])
    && (moved ==> src !in m && dst in m && m[dst] == m0[src] && (dst in m0 ==> m0[dst].File?))
    && (!moved ==> src in m && m[src] == m0[src] && (dst in m0 ==> dst in m && m[dst] == m0[dst]))
    && (forall p :: p in m && p !in m0 ==> (moved && p == dst) || (IsPrefix(p, Parent(dst)) && m[p].Dir?))
  }

  lemma PreparedMove(m0: Entries, m1: Entries, m2: Entries, src: Path, dst: Path, moved: bool)
    requires WellFormed(m0) && IsFileIn(m0, src) && dst != []
    requires m1 == m0 || (CanMakeDirs(m0, Parent(dst)) && m1 == WithDirs(m0, Parent(dst)))
    requires moved ==> CanMove(m1, src, dst) && m2 == Renamed(m1, src, dst)
    requires !moved ==> m2 == m1
    ensures StepEffect(m0, m2, src, dst, moved)
  {
    DirsGrown(m0, m1, Parent(dst));
    if moved {
      RenamedFile(m1, src, dst);
      assert src[..|src|] == src;
      FileMovedAfterDirs(m0, m1, m2, src, dst);
    }
  }

  /** Creating a folder keeps every entry and adds only directories on the way to it. */
  lemma DirsGrown(m0: Entries, m1: Entries, p: Path)
    requires WellFormed(m0)
    requires m1 == m0 || (CanMakeDirs(m0, p) && m1 == WithDirs(m0, p))
    ensures WellFormed(m1)
    ensures forall q :: q in m0 ==> q in m1 && m1[q] == m0[q]
    ensures forall q :: q in m1 && q !in m0 ==> IsPrefix(q, p) && m1[q].Dir?
  {
    if m1 != m0 {
      WithDirsProperties(m0, p);
    }
  }

  lemma FileMovedAfterDirs(m0: Entries, m1: Entries, m2: Entries, src: Path, dst: Path)
    requires IsFileIn(m0, src) && dst != [] && src != dst
    requires forall q :: q in m0 ==> q in m1 && m1[q] == m0[q]
    requires forall q :: q in m1 && q !in m0 ==> IsPrefix(q, Parent(dst)) && m1[q].Dir?
    requires dst in m1 ==> m1[dst].File?
    requires m2 == (m1 - {src})[dst := m1[src]]
    ensures StepEffect(m0, m2, src, dst, true)
  {
  }

  /**
   * Moving a regular file into `folder`, which is created first when it is
   * missing (except in a dry run, which changes nothing).
   */
  method MoveIntoFolder(fs: Fs, src: Path, folder: Path, name: string, dryRun: bool)
    returns (ok: bool, ghost moved: bool)
    requires fs.Valid() && IsFileIn(fs.entries, src)
    modifies fs
    ensures fs.Valid()
    ensures dryRun ==> ok && !moved && fs.entries == old(fs.entries)
    ensures !dryRun ==> ok == moved && StepEffect(old(fs.entries), fs.entries, src, folder + [name], moved)
  {
    ghost var m0 := fs.entries;
    var target := folder + [name];
    assert Parent(target) == folder;
    ok, moved := true, false;
    if !fs.Exists(folder) && !dryRun {
      ok := fs.MakeDirs(folder);
      if !ok {
        return;
      }
    }
    ghost var m1 := fs.entries;
    if !dryRun {
      ok := fs.Move(src, target);
      moved := ok;
      PreparedMove(m0, m1, fs.entries, src, target, moved);
    }
  }

  /** `p` is the path of a file of the source folder that has been moved away. */
  predicate MovedSource(source: Path, moved: set<string>, p: Path) {
    |p| == |source| + 1 && p[..|source|] == source && p[|source|] in moved
  }

  /** A directory is not one of the moved files. */
  lemma NotMovedSource(start: Entries, source: Path, moved: set<string>, p: Path)
    requires p in start && start[p] == Dir
    requires forall n :: n in moved ==> IsFileIn(start, source + [n])
    ensures !MovedSource(source, moved, p)
  {
    if |p| == |source| + 1 && p[..|source|] == source {
      assert p == source + [p[|source|]];
    }
  }

  /** Every entry of `m0` but the moved files is still there, and only regular files at `targets` were replaced. */
  ghost predicate KeptExceptMoved(m0: Entries, m: Entries, source: Path, moved: set<string>, targets: set<Path>) {
    forall p :: p in m0 && !MovedSource(source, moved, p) ==>
      p in m && (m[p] == m0[p] || (p in targets && m0[p].File? && m[p].File?))
  }

  /** Every new entry is one of `targets`, or a directory on the way to `destination` or among `folders`. */
  ghost predicate AddedAlongDestination(m0: Entries, m: Entries, destination: Path, folders: set<Path>,
                                        targets: set<Path>)
  {
    forall p :: p in m && p !in m0 ==> p in targets || (m[p].Dir? && (IsPrefix(p, destination) || p in folders))
  }

  /** The files still to be handled are as they were listed. */
  ghost predicate PendingIntact(start: Entries, m: Entries, source: Path, pending: set<string>) {
    forall n :: n in pending ==> source + [n] in start && source + [n] in m && m[source + [n]] == start[source + [n]]
  }

  /** The files not moved are untouched. */
  ghost predicate UnmovedIntact(start: Entries, m: Entries, source: Path, moved: set<string>) {
    forall n :: IsFileIn(start, source + [n]) && n !in moved ==>
      source + [n] in m && m[source + [n]] == start[source + [n]]
  }

  /** The regular file `src` of `m0` now lies at `t` with its bytes, and `src` holds no file. */
  ghost predicate Arrived(m0: Entries, m: Entries, src: Path, t: Path) {
    IsFileIn(m0, src) && t in m && m[t] == m0[src] && !IsFileIn(m, src)
  }

  /** A later step that touches neither end of an earlier move keeps it in place. */
  lemma ArrivedKept(m0: Entries, before: Entries, after: Entries, s: Path, t: Path,
                    src: Path, dst: Path, moved: bool)
    requires src in before && dst != []
    requires Arrived(m0, before, s, t) && t != src && t != dst && s != src && s != dst
    requires StepEffect(before, after, src, dst, moved)
    ensures Arrived(m0, after, s, t)
  {
    if s in after && s !in before {
      assert after[s].Dir?;
    }
  }

  lemma StepPending(start: Entries, before: Entries, after: Entries, source: Path, pending: set<string>,
                    name: string, dst: Path, movedIt: bool)
    requires source + [name] in before && dst != [] && Name(dst) == name
    requires PendingIntact(start, before, source, pending)
    requires StepEffect(before, after, source + [name], dst, movedIt)
    ensures PendingIntact(start, after, source, pending - {name})
  {
    forall n | n in pending - {name}
      ensures source + [n] in after && after[source + [n]] == start[source + [n]]
    {
      assert Name(source + [n]) == n;
    }
  }

  lemma StepUnmoved(start: Entries, before: Entries, after: Entries, source: Path, moved: set<string>,
                    name: string, dst: Path, movedIt: bool)
    requires source + [name] in start && source + [name] in before
    requires before[source + [name]] == start[source + [name]]
    requires dst != [] && Name(dst) == name
    requires UnmovedIntact(start, before, source, moved)
    requires StepEffect(before, after, source + [name], dst, movedIt)
    ensures UnmovedIntact(start, after, source, if movedIt then moved + {name} else moved)
  {
    var moved' := if movedIt then moved + {name} else moved;
    forall n | IsFileIn(start, source + [n]) && n !in moved'
      ensures source + [n] in after && after[source + [n]] == start[source + [n]]
    {
      if n != name {
        assert Name(source + [n]) == n;
      }
    }
  }

  lemma StepKept(start: Entries, before: Entries, after: Entries, source: Path, moved: set<string>,
                 targets: set<Path>, name: string, dst: Path, movedIt: bool)
    requires IsFileIn(start, source + [name]) && source + [name] in before
    requires before[source + [name]] == start[source + [name]]
    requires dst != []
    requires KeptExceptMoved(start, before, source, moved, targets)
    requires StepEffect(before, after, source + [name], dst, movedIt)
    ensures KeptExceptMoved(start, after, source, if movedIt then moved + {name} else moved,
                            if movedIt then targets + {dst} else targets)
  {
    var src := source + [name];
    var moved' := if movedIt then moved + {name} else moved;
    var targets' := if movedIt then targets + {dst} else targets;
    forall p | p in start && !MovedSource(source, moved', p)
      ensures p in after && (after[p] == start[p] || (p in targets' && start[p].File? && after[p].File?))
    {
      if p == src {
        assert p[..|source|] == source && p[|source|] == name;
      }
    }
  }

  lemma StepAdded(start: Entries, before: Entries, after: Entries, destination: Path, folders: set<Path>,
                  targets: set<Path>, src: Path, dst: Path, folder: string, name: string, movedIt: bool)
    requires src in start && src in before && dst == destination + [folder, name]
    requires AddedAlongDestination(start, before, destination, folders, targets)
    requires StepEffect(before, after, src, dst, movedIt)
    ensures AddedAlongDestination(start, after, destination, folders + {destination + [folder]},
                                  if movedIt then targets + {dst} else targets)
  {
    assert Parent(dst) == destination + [folder];
    var targets' := if movedIt then targets + {dst} else targets;
    forall p | p in after && p !in start
      ensures p in targets' || (after[p].Dir? && (IsPrefix(p, destination) || p in folders + {destination + [folder]}))
    {
      if p !in before && !(movedIt && p == dst) {
        PrefixOfChild(p, destination, folder);
      }
    }
  }

  /** Creating the destination adds directories on the way to it and nothing else. */
  ghost predicate Prepared(m0: Entries, start: Entries, destination: Path) {
    start == m0 || (CanMakeDirs(m0, destination) && start == WithDirs(m0, destination))
  }

  lemma PreparedFiles(m0: Entries, start: Entries, destination: Path)
    requires WellFormed(m0) && Prepared(m0, start, destination)
    ensures WellFormed(start)
    ensures forall p :: p in m0 ==> p in start && start[p] == m0[p]
    ensures forall p :: p in start && p !in m0 ==> start[p] == Dir && IsPrefix(p, destination)
  {
    if start != m0 {
      WithDirsProperties(m0, destination);
    }
  }
}
