/**
 * `image-syncer/main.py`, the earlier script: every regular file of the
 * source folder is moved to `destination/DD-MM-YYYY/<name>`, the date being
 * the file's EXIF DateTimeOriginal or, when it has none, the day the script
 * runs. Nothing catches an OSError: the first failing `makedirs`,
 * `listdir` or `move` ends the script.
 */
module LegacySyncer {
  import opened Wrappers
  import opened Dates
  import opened FileSystem
  import opened Exif
  import opened Placement

  /** The nested `get_image_creation_date`: its `try` turns every exception into `None`. */
  function GetImageCreationDate(read: ExifRead): (r: Option<DateTime>)
    ensures r == MetadataDate(read)
  {
    match ImageCreationDate(read)
    case Raised => None
    case Returned(t) => t
  }

  /** The folder name of lines 40-42 and 54: the photo's day, else today, both as `%d-%m-%Y`. */
  function FolderFor(read: ExifRead, today: Date): string
    requires IsValidDate(today)
  {
    match GetImageCreationDate(read)
    case Some(t) => FormatDayFirst(t.date)
    case None => FormatDayFirst(today)
  }

  /** Two files share a folder exactly when they are of the same day. */
  lemma SameFolderSameDay(read1: ExifRead, read2: ExifRead, today: Date)
    requires IsValidDate(today)
    ensures FolderFor(read1, today) == FolderFor(read2, today) <==>
              (if MetadataDate(read1).Some? then MetadataDate(read1).value.date else today) ==
              (if MetadataDate(read2).Some? then MetadataDate(read2).value.date else today)
  {
    var d1 := if MetadataDate(read1).Some? then MetadataDate(read1).value.date else today;
    var d2 := if MetadataDate(read2).Some? then MetadataDate(read2).value.date else today;
    if FolderFor(read1, today) == FolderFor(read2, today) {
      DayFirstInjective(d1, d2);
    }
  }

  /** `destination/<folder>/<name>` for the regular file `source/n` of `m`. */
  function LegacyTarget(m: Entries, source: Path, destination: Path, n: string, today: Date,
                        readExif: Bytes -> ExifRead): (t: Path)
    requires IsFileIn(m, source + [n]) && IsValidDate(today)
    ensures |t| == |destination| + 2 && IsPrefix(destination, t) && Name(t) == n
  {
    destination + [FolderFor(readExif(m[source + [n]].content), today), n]
  }

  /** Lines 33-62 for one name of the listing: directories are skipped, files always move. */
  method MoveFile(fs: Fs, source: Path, destination: Path, name: string, today: Date, todayFolder: string,
                  readExif: Bytes -> ExifRead)
    returns (ok: bool, ghost moved: bool)
    requires fs.Valid() && IsValidDate(today) && todayFolder == FormatDayFirst(today)
    modifies fs
    ensures fs.Valid()
    ensures !IsFileIn(old(fs.entries), source + [name]) ==> ok && !moved && fs.entries == old(fs.entries)
    ensures IsFileIn(old(fs.entries), source + [name]) ==>
              ok == moved &&
              StepEffect(old(fs.entries), fs.entries, source + [name],
                         LegacyTarget(old(fs.entries), source, destination, name, today, readExif), moved)
  {
    var sourcePath := source + [name];
    ok, moved := true, false;
    if fs.IsFile(sourcePath) {
      var dateTaken := GetImageCreationDate(readExif(fs.entries[sourcePath].content));
      var folder := if dateTaken.Some? then FormatDayFirst(dateTaken.value.date) else todayFolder;
      assert destination + [folder] + [name] == LegacyTarget(fs.entries, source, destination, name, today, readExif);
      ok, moved := MoveIntoFolder(fs, sourcePath, destination + [folder], name, false);
    }
  }

  /** The regular file `source/n` of `m0` lies in its dated folder. */
  ghost predicate LegacyDelivered(m0: Entries, m: Entries, source: Path, destination: Path, n: string,
                                  today: Date, readExif: Bytes -> ExifRead)
    requires IsValidDate(today)
  {
    IsFileIn(m0, source + [n]) && Arrived(m0, m, source + [n], LegacyTarget(m0, source, destination, n, today, readExif))
  }

  ghost predicate AllLegacyDelivered(start: Entries, m: Entries, source: Path, destination: Path, today: Date,
                                     readExif: Bytes -> ExifRead, pending: set<string>, moved: set<string>)
    requires IsValidDate(today)
  {
    forall n :: n in moved ==> n !in pending && LegacyDelivered(start, m, source, destination, n, today, readExif)
  }

  /** `p` is the target of a regular file `source/n` of `m0` that was moved, `n` being `p`'s last name. */
  ghost predicate LegacyMovedTarget(m0: Entries, source: Path, destination: Path, today: Date,
                                    readExif: Bytes -> ExifRead, moved: set<string>, p: Path)
    requires IsValidDate(today)
  {
    && p != []
    && Name(p) in moved
    && IsFileIn(m0, source + [Name(p)])
    && p == LegacyTarget(m0, source, destination, Name(p), today, readExif)
  }

  /** `f` is the dated folder of some regular file of `source` in `m0`. */
  ghost predicate LegacyFolderOf(m0: Entries, source: Path, destination: Path, today: Date,
                                 readExif: Bytes -> ExifRead, f: Path)
    requires IsValidDate(today)
  {
    exists n :: IsFileIn(m0, source + [n]) && f == destination + [FolderFor(readExif(m0[source + [n]].content), today)]
  }

  /** Every entry of `m0` but the moved files is still there; only regular files at moved files' targets were replaced. */
  ghost predicate OnlyLegacyTargetsReplaced(m0: Entries, m: Entries, source: Path, destination: Path, today: Date,
                                            readExif: Bytes -> ExifRead, moved: set<string>)
    requires IsValidDate(today)
  {
    forall p :: p in m0 && !MovedSource(source, moved, p) ==>
      p in m && (m[p] == m0[p] ||
                 (LegacyMovedTarget(m0, source, destination, today, readExif, moved, p) && m0[p].File? && m[p].File?))
  }

  /** Every new entry is a moved file's target, or a directory on the way to `destination` or a dated folder. */
  ghost predicate OnlyLegacyFoldersAdded(m0: Entries, m: Entries, source: Path, destination: Path, today: Date,
                                         readExif: Bytes -> ExifRead, moved: set<string>)
    requires IsValidDate(today)
  {
    forall p :: p in m && p !in m0 ==>
      || LegacyMovedTarget(m0, source, destination, today, readExif, moved, p)
      || (m[p].Dir? && (IsPrefix(p, destination) || LegacyFolderOf(m0, source, destination, today, readExif, p)))
  }

  /** The loop's invariant, over the tree `start` the listing was taken from. */
  ghost predicate LegacyPlaced(start: Entries, m: Entries, source: Path, destination: Path, today: Date,
                               readExif: Bytes -> ExifRead, pending: set<string>, moved: set<string>,
                               targets: set<Path>, folders: set<Path>, completed: bool)
    requires IsValidDate(today)
  {
    && LegacyProgress(start, m, source, destination, today, readExif, pending, moved, completed)
    && LegacyFramed(start, m, source, destination, today, readExif, moved, targets, folders)
  }

  /** The handled files are moved and the others untouched. */
  ghost predicate LegacyProgress(start: Entries, m: Entries, source: Path, destination: Path, today: Date,
                                 readExif: Bytes -> ExifRead, pending: set<string>, moved: set<string>,
                                 completed: bool)
    requires IsValidDate(today)
  {
    && PendingIntact(start, m, source, pending)
    && AllLegacyDelivered(start, m, source, destination, today, readExif, pending, moved)
    && UnmovedIntact(start, m, source, moved)
    && (completed ==> forall n :: n !in pending && IsFileIn(start, source + [n]) ==> n in moved)
  }

  lemma LegacyProgressStep(start: Entries, before: Entries, after: Entries, source: Path, destination: Path,
                           today: Date, readExif: Bytes -> ExifRead, pending: set<string>, moved: set<string>,
                           name: string, ok: bool, movedIt: bool)
    requires IsValidDate(today)
    requires LegacyProgress(start, before, source, destination, today, readExif, pending, moved, true)
    requires name in pending && IsFileIn(start, source + [name])
    requires ok == movedIt
    requires StepEffect(before, after, source + [name],
                        LegacyTarget(start, source, destination, name, today, readExif), movedIt)
    ensures LegacyProgress(start, after, source, destination, today, readExif, pending - {name},
                           if movedIt then moved + {name} else moved, ok)
  {
    var src := source + [name];
    var dst := LegacyTarget(start, source, destination, name, today, readExif);
    StepPending(start, before, after, source, pending, name, dst, movedIt);
    LegacyStepDelivered(start, before, after, source, destination, today, readExif, pending, moved, name, dst, movedIt);
    StepUnmoved(start, before, after, source, moved, name, dst, movedIt);
  }

  /** What the loop has changed outside the moved files, as in `ImageSyncer.Framed`. */
  ghost predicate LegacyFramed(start: Entries, m: Entries, source: Path, destination: Path, today: Date,
                               readExif: Bytes -> ExifRead, moved: set<string>, targets: set<Path>, folders: set<Path>)
    requires IsValidDate(today)
  {
    && KeptExceptMoved(start, m, source, moved, targets)
    && AddedAlongDestination(start, m, destination, folders, targets)
    && (forall t :: t in targets ==> LegacyMovedTarget(start, source, destination, today, readExif, moved, t))
    && (forall f :: f in folders ==> LegacyFolderOf(start, source, destination, today, readExif, f))
  }

  lemma LegacyFrameStep(start: Entries, before: Entries, after: Entries, source: Path, destination: Path,
                        today: Date, readExif: Bytes -> ExifRead, moved: set<string>, targets: set<Path>,
                        folders: set<Path>, name: string, movedIt: bool)
    returns (targets': set<Path>, folders': set<Path>)
    requires IsValidDate(today)
    requires IsFileIn(start, source + [name]) && source + [name] in before
    requires before[source + [name]] == start[source + [name]]
    requires LegacyFramed(start, before, source, destination, today, readExif, moved, targets, folders)
    requires StepEffect(before, after, source + [name],
                        LegacyTarget(start, source, destination, name, today, readExif), movedIt)
    ensures LegacyFramed(start, after, source, destination, today, readExif,
                         if movedIt then moved + {name} else moved, targets', folders')
  {
    var src := source + [name];
    var dst := LegacyTarget(start, source, destination, name, today, readExif);
    var folder := FolderFor(readExif(start[src].content), today);
    StepKept(start, before, after, source, moved, targets, name, dst, movedIt);
    StepAdded(start, before, after, destination, folders, targets, src, dst, folder, name, movedIt);
    folders' := folders + {destination + [folder]};
    LegacyStepRecorded(start, source, destination, today, readExif, moved, targets, folders, name);
    if movedIt {
      targets' := targets + {dst};
    } else {
      targets' := targets;
    }
  }

  /** The file just handled accounts for its target, if it moved, and for its dated folder. */
  lemma LegacyStepRecorded(start: Entries, source: Path, destination: Path, today: Date, readExif: Bytes -> ExifRead,
                           moved: set<string>, targets: set<Path>, folders: set<Path>, name: string)
    requires IsValidDate(today) && IsFileIn(start, source + [name])
    requires forall t :: t in targets ==> LegacyMovedTarget(start, source, destination, today, readExif, moved, t)
    requires forall f :: f in folders ==> LegacyFolderOf(start, source, destination, today, readExif, f)
    ensures forall t :: t in targets ==>
      LegacyMovedTarget(start, source, destination, today, readExif, moved + {name}, t)
    ensures LegacyMovedTarget(start, source, destination, today, readExif, moved + {name},
                              LegacyTarget(start, source, destination, name, today, readExif))
    ensures LegacyFolderOf(start, source, destination, today, readExif,
                           destination + [FolderFor(readExif(start[source + [name]].content), today)])
  {
    assert IsFileIn(start, source + [name]);
  }

  lemma LegacyStepDelivered(start: Entries, before: Entries, after: Entries, source: Path, destination: Path,
                            today: Date, readExif: Bytes -> ExifRead, pending: set<string>, moved: set<string>,
                            name: string, dst: Path, movedIt: bool)
    requires IsValidDate(today)
    requires name in pending && IsFileIn(start, source + [name]) && source + [name] in before
    requires before[source + [name]] == start[source + [name]]
    requires dst == LegacyTarget(start, source, destination, name, today, readExif)
    requires AllLegacyDelivered(start, before, source, destination, today, readExif, pending, moved)
    requires StepEffect(before, after, source + [name], dst, movedIt)
    ensures AllLegacyDelivered(start, after, source, destination, today, readExif, pending - {name},
                               if movedIt then moved + {name} else moved)
  {
    var src := source + [name];
    var moved' := if movedIt then moved + {name} else moved;
    forall n | n in moved'
      ensures LegacyDelivered(start, after, source, destination, n, today, readExif)
    {
      if n != name {
        var t := LegacyTarget(start, source, destination, n, today, readExif);
        var s := source + [n];
        assert t != src && t != dst && s != dst && s != src by {
          assert Name(src) == name && Name(s) == n;
        }
        ArrivedKept(start, before, after, s, t, src, dst, movedIt);
      }
    }
  }

  lemma LegacyStep(start: Entries, before: Entries, after: Entries, source: Path, destination: Path,
                   today: Date, readExif: Bytes -> ExifRead, pending: set<string>, moved: set<string>,
                   targets: set<Path>, folders: set<Path>, name: string, ok: bool, movedIt: bool)
    returns (targets': set<Path>, folders': set<Path>)
    requires IsValidDate(today)
    requires LegacyPlaced(start, before, source, destination, today, readExif, pending, moved, targets, folders, true)
    requires name in pending
    requires !IsFileIn(before, source + [name]) ==> ok && !movedIt && after == before
    requires IsFileIn(before, source + [name]) ==>
               ok == movedIt &&
               StepEffect(before, after, source + [name],
                          LegacyTarget(before, source, destination, name, today, readExif), movedIt)
    ensures LegacyPlaced(start, after, source, destination, today, readExif, pending - {name},
                         if movedIt then moved + {name} else moved, targets', folders', ok)
  {
    targets', folders' := targets, folders;
    var src := source + [name];
    assert before[src] == start[src];
    if IsFileIn(start, src) {
      var dst := LegacyTarget(start, source, destination, name, today, readExif);
      assert dst == LegacyTarget(before, source, destination, name, today, readExif);
      LegacyProgressStep(start, before, after, source, destination, today, readExif, pending, moved, name, ok, movedIt);
      targets', folders' := LegacyFrameStep(start, before, after, source, destination, today, readExif,
                                            moved, targets, folders, name, movedIt);
    } else {
      assert !IsFileIn(before, src);
      LegacySkipped(start, before, source, destination, today, readExif, pending, moved, targets, folders, name);
    }
  }

  /** A name that is not a regular file is passed over. */
  lemma LegacySkipped(start: Entries, m: Entries, source: Path, destination: Path, today: Date,
                      readExif: Bytes -> ExifRead, pending: set<string>, moved: set<string>,
                      targets: set<Path>, folders: set<Path>, name: string)
    requires IsValidDate(today)
    requires LegacyPlaced(start, m, source, destination, today, readExif, pending, moved, targets, folders, true)
    requires name in pending && !IsFileIn(start, source + [name])
    ensures LegacyPlaced(start, m, source, destination, today, readExif, pending - {name}, moved, targets, folders, true)
  {
  }

  /** `main`; `completed == false` means an exception ended the script. */
  method LegacyMain(fs: Fs, source: Path, destination: Path, today: Date, readExif: Bytes -> ExifRead)
    returns (completed: bool, ghost moved: set<string>)
    requires fs.Valid() && IsValidDate(today)
    modifies fs
    ensures fs.Valid()
    ensures !IsDirIn(old(fs.entries), source) && !IsPrefix(source, destination) ==> !completed
    ensures completed ==> forall n :: IsFileIn(old(fs.entries), source + [n]) ==> n in moved
    ensures forall n :: n in moved ==>
              LegacyDelivered(old(fs.entries), fs.entries, source, destination, n, today, readExif)
    ensures forall n :: IsFileIn(old(fs.entries), source + [n]) && n !in moved ==>
              source + [n] in fs.entries && fs.entries[source + [n]] == old(fs.entries)[source + [n]]
    ensures OnlyLegacyTargetsReplaced(old(fs.entries), fs.entries, source, destination, today, readExif, moved)
    ensures OnlyLegacyFoldersAdded(old(fs.entries), fs.entries, source, destination, today, readExif, moved)
    ensures completed ==> ExistsIn(fs.entries, destination)
  {
    ghost var m0 := fs.entries;
    completed, moved := true, {};
    if !fs.Exists(destination) {
      var ok := fs.MakeDirs(destination);
      if !ok {
        completed := false;
        return;
      }
      WithDirsProperties(m0, destination);
    }
    ghost var start := fs.entries;
    PreparedFiles(m0, start, destination);
    var todayFolder := FormatDayFirst(today);
    // `os.listdir` raises on a missing folder or a file
    if !fs.IsDir(source) {
      completed := false;
      return;
    }
    var pending := Listing(fs.entries, source);
    LegacyStart(start, source, destination, today, readExif, pending);
    ghost var targets: set<Path>, folders: set<Path> := {}, {};
    while pending != {} && completed
      invariant fs.Valid()
      invariant LegacyPlaced(start, fs.entries, source, destination, today, readExif, pending, moved,
                             targets, folders, completed)
      decreases |pending|
    {
      var name :| name in pending;
      ghost var before := fs.entries;
      var ok, movedIt := MoveFile(fs, source, destination, name, today, todayFolder, readExif);
      targets, folders := LegacyStep(start, before, fs.entries, source, destination, today, readExif,
                                     pending, moved, targets, folders, name, ok, movedIt);
      pending := pending - {name};
      if movedIt {
        moved := moved + {name};
      }
      completed := ok;
    }
    LegacyEnd(m0, start, fs.entries, source, destination, today, readExif, pending, moved, targets, folders, completed);
    LegacyDestinationStays(start, fs.entries, source, destination, today, readExif, moved, targets);
  }

  /** The destination, once created, is still there, as in `ImageSyncer.DestinationStays`. */
  lemma LegacyDestinationStays(start: Entries, m: Entries, source: Path, destination: Path, today: Date,
                               readExif: Bytes -> ExifRead, moved: set<string>, targets: set<Path>)
    requires IsValidDate(today)
    requires WellFormed(m) && ExistsIn(start, destination)
    requires KeptExceptMoved(start, m, source, moved, targets)
    requires forall n :: n in moved ==> LegacyDelivered(start, m, source, destination, n, today, readExif)
    ensures ExistsIn(m, destination)
  {
    if destination != [] && MovedSource(source, moved, destination) {
      var n := destination[|source|];
      var t := LegacyTarget(start, source, destination, n, today, readExif);
      AncestorIsDir(m, destination, t);
    }
  }

  lemma LegacyStart(start: Entries, source: Path, destination: Path, today: Date,
                    readExif: Bytes -> ExifRead, pending: set<string>)
    requires WellFormed(start) && IsValidDate(today) && pending == Listing(start, source)
    ensures LegacyPlaced(start, start, source, destination, today, readExif, pending, {}, {}, {}, true)
  {
    ListingMembers(start, source);
  }

  lemma LegacyEnd(m0: Entries, start: Entries, m: Entries, source: Path, destination: Path, today: Date,
                  readExif: Bytes -> ExifRead, pending: set<string>, moved: set<string>,
                  targets: set<Path>, folders: set<Path>, completed: bool)
    requires WellFormed(m0) && Prepared(m0, start, destination) && IsValidDate(today)
    requires LegacyPlaced(start, m, source, destination, today, readExif, pending, moved, targets, folders, completed)
    requires pending == {} || !completed
    ensures completed ==> forall n :: IsFileIn(m0, source + [n]) ==> n in moved
    ensures forall n :: n in moved ==> LegacyDelivered(m0, m, source, destination, n, today, readExif)
    ensures forall n :: IsFileIn(m0, source + [n]) && n !in moved ==>
              source + [n] in m && m[source + [n]] == m0[source + [n]]
    ensures OnlyLegacyTargetsReplaced(m0, m, source, destination, today, readExif, moved)
    ensures OnlyLegacyFoldersAdded(m0, m, source, destination, today, readExif, moved)
  {
    PreparedFiles(m0, start, destination);
    assert forall n :: IsFileIn(m0, source + [n]) <==> IsFileIn(start, source + [n]);
    LegacyReplacedAtEnd(m0, start, m, source, destination, today, readExif, moved, targets);
    LegacyAddedAtEnd(m0, start, m, source, destination, today, readExif, moved, targets, folders);
  }

  /** The files of `source` and their targets are the same before and after the destination is created. */
  lemma LegacySameFiles(m0: Entries, start: Entries, source: Path, destination: Path, today: Date,
                        readExif: Bytes -> ExifRead)
    requires IsValidDate(today)
    requires forall p :: p in m0 ==> p in start && start[p] == m0[p]
    requires forall p :: p in start && p !in m0 ==> start[p] == Dir
    ensures forall n :: IsFileIn(start, source + [n]) ==>
      && IsFileIn(m0, source + [n]) && m0[source + [n]] == start[source + [n]]
      && LegacyTarget(m0, source, destination, n, today, readExif) == LegacyTarget(start, source, destination, n, today, readExif)
  {
  }

  lemma LegacyReplacedAtEnd(m0: Entries, start: Entries, m: Entries, source: Path, destination: Path, today: Date,
                            readExif: Bytes -> ExifRead, moved: set<string>, targets: set<Path>)
    requires IsValidDate(today)
    requires forall p :: p in m0 ==> p in start && start[p] == m0[p]
    requires forall p :: p in start && p !in m0 ==> start[p] == Dir
    requires KeptExceptMoved(start, m, source, moved, targets)
    requires forall t :: t in targets ==> LegacyMovedTarget(start, source, destination, today, readExif, moved, t)
    ensures OnlyLegacyTargetsReplaced(m0, m, source, destination, today, readExif, moved)
  {
    LegacySameFiles(m0, start, source, destination, today, readExif);
  }

  lemma LegacyAddedAtEnd(m0: Entries, start: Entries, m: Entries, source: Path, destination: Path, today: Date,
                         readExif: Bytes -> ExifRead, moved: set<string>, targets: set<Path>, folders: set<Path>)
    requires IsValidDate(today)
    requires forall p :: p in m0 ==> p in start && start[p] == m0[p]
    requires forall p :: p in start && p !in m0 ==> start[p] == Dir && IsPrefix(p, destination)
    requires forall n :: n in moved ==> IsFileIn(start, source + [n])
    requires KeptExceptMoved(start, m, source, moved, targets)
    requires AddedAlongDestination(start, m, destination, folders, targets)
    requires forall t :: t in targets ==> LegacyMovedTarget(start, source, destination, today, readExif, moved, t)
    requires forall f :: f in folders ==> LegacyFolderOf(start, source, destination, today, readExif, f)
    ensures OnlyLegacyFoldersAdded(m0, m, source, destination, today, readExif, moved)
  {
    LegacySameFiles(m0, start, source, destination, today, readExif);
    forall p | p in m && p !in m0
      ensures || LegacyMovedTarget(m0, source, destination, today, readExif, moved, p)
              || (m[p].Dir? && (IsPrefix(p, destination) || LegacyFolderOf(m0, source, destination, today, readExif, p)))
    {
      if p in start {
        NotMovedSource(start, source, moved, p);
      } else if p in targets {
        assert LegacyMovedTarget(start, source, destination, today, readExif, moved, p);
      } else if p in folders {
        assert LegacyFolderOf(start, source, destination, today, readExif, p);
        var n :| IsFileIn(start, source + [n]) && p == destination + [FolderFor(readExif(start[source + [n]].content), today)];
        assert IsFileIn(m0, source + [n]);
      }
    }
  }
}
