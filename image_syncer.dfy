/**
 * `image_syncer.organize_images`: every regular file directly inside the
 * source folder whose date is known, from its EXIF block or else from a
 * `YYYY-MM-DD` in its name, is moved to `destination/YYYY-MM-DD/<name>`.
 * Files without a date stay where they are. An OSError from `mkdir` or
 * `shutil.move`, or an impossible date in a file name, ends the run at
 * that file (`main` only logs it); a dry run changes nothing.
 */
module ImageSyncer {
  import opened Wrappers
  import opened Dates
  import opened FileSystem
  import opened Exif
  import opened Placement

  // ---------------------------------------------------------------------
  // Dates in file names: `_DATE_RE` and `_get_date_from_filename`
  // ---------------------------------------------------------------------

  /** The pattern `\d{4}-\d{2}-\d{2}` matches at position `i` of `s`. */
  predicate DateAt(s: string, i: int) {
    0 <= i && i + 10 <= |s| && IsIsoDateShape(s[i..i + 10])
  }

  /** A match starts at `i` and at no earlier position. */
  predicate IsFirstDate(s: string, i: int) {
    DateAt(s, i) && forall j :: 0 <= j < i ==> !DateAt(s, j)
  }

  /** The scan `re.search` performs: the leftmost match at or after `from`. */
  function SearchDate(s: string, from: nat): (r: Option<nat>)
    ensures r.Some? ==> from <= r.value && DateAt(s, r.value)
    ensures r.Some? ==> forall j :: from <= j < r.value ==> !DateAt(s, j)
    ensures r.None? ==> forall j :: from <= j ==> !DateAt(s, j)
    decreases |s| - from
  {
    if from + 10 > |s| then None
    else if IsIsoDateShape(s[from..from + 10]) then Some(from)
    else SearchDate(s, from + 1)
  }

  /**
   * `_get_date_from_filename`: the first `DDDD-DD-DD` of the name read with
   * `%Y-%m-%d`. No match gives `None`; a first match that is no calendar
   * date raises, whatever follows it.
   */
  function DateFromFilename(name: string): (r: Attempt<Option<Date>>)
    ensures r == Returned(None) <==> forall i :: !DateAt(name, i)
    ensures r.Raised? <==> exists i :: IsFirstDate(name, i) && ParseIsoDate(name[i..i + 10]).None?
    ensures r.Returned? && r.value.Some? ==>
              exists i :: IsFirstDate(name, i) && ParseIsoDate(name[i..i + 10]) == r.value
  {
    match SearchDate(name, 0)
    case None => Returned(None)
    case Some(i) =>
      assert IsFirstDate(name, i);
      match ParseIsoDate(name[i..i + 10])
      case None => Raised
      case Some(d) => Returned(Some(d))
  }

  /** There is at most one first match. */
  lemma FirstDateUnique(s: string, i: int, j: int)
    requires IsFirstDate(s, i) && IsFirstDate(s, j)
    ensures i == j
  {
  }

  /** A valid date later in the name does not rescue an impossible first one. */
  lemma LaterDateIgnored(name: string, i: int, j: int)
    requires IsFirstDate(name, i) && ParseIsoDate(name[i..i + 10]).None?
    requires i < j && DateAt(name, j) && ParseIsoDate(name[j..j + 10]).Some?
    ensures DateFromFilename(name).Raised?
  {
  }

  /** A name that starts with a date is dated by it. */
  lemma LeadingDate(name: string, d: Date)
    requires DateAt(name, 0) && ParseIsoDate(name[0..10]) == Some(d)
    ensures DateFromFilename(name) == Returned(Some(d))
  {
  }

  // ---------------------------------------------------------------------
  // `_is_video`
  // ---------------------------------------------------------------------

  /** `str.lower()` on one character, for the ASCII letters. */
  function LowerChar(c: char): (l: char)
    ensures 'A' <= c <= 'Z' ==> 'a' <= l <= 'z'
    ensures !('A' <= c <= 'Z') ==> l == c
  {
    if 'A' <= c <= 'Z' then (c as int + 32) as char else c
  }

  function Lower(s: string): (r: string)
    ensures |r| == |s| && forall i :: 0 <= i < |s| ==> r[i] == LowerChar(s[i])
  {
    seq(|s|, i requires 0 <= i < |s| => LowerChar(s[i]))
  }

  const VideoExtensions: seq<string> := [".mp4", ".mov", ".avi", ".mkv"]

  predicate EndsWith(s: string, suffix: string) {
    |suffix| <= |s| && s[|s| - |suffix|..] == suffix
  }

  /** `filename.lower().endswith(video_extensions)`. */
  function IsVideo(filename: string): bool {
    exists e | e in VideoExtensions :: EndsWith(Lower(filename), e)
  }

  /** A video is recognised by its last four characters, whatever their case. */
  lemma VideoByLastFour(filename: string)
    ensures IsVideo(filename) <==> |filename| >= 4 && Lower(filename[|filename| - 4..]) in VideoExtensions
  {
    if |filename| >= 4 {
      assert Lower(filename)[|filename| - 4..] == Lower(filename[|filename| - 4..]);
    }
  }

  /** Lowering first changes nothing. */
  lemma VideoIgnoresCase(filename: string)
    ensures IsVideo(Lower(filename)) == IsVideo(filename)
  {
    assert Lower(Lower(filename)) == Lower(filename);
  }

  // ---------------------------------------------------------------------
  // The decision for one file
  // ---------------------------------------------------------------------

  /** What happens to one regular file: left in place, moved under a date, or the run aborts. */
  datatype Plan = Undated | Dated(date: Date) | Aborts

  /** The first chance is the metadata, the second the file name (lines 82-88). */
  function PlanFor(name: string, read: ExifRead): (p: Plan)
    ensures p.Dated? ==> IsValidDate(p.date)
    ensures MetadataDate(read).Some? ==> p == Dated(MetadataDate(read).value.date)
    ensures p.Aborts? <==> MetadataDate(read).None? && DateFromFilename(name).Raised?
    ensures p.Undated? <==> MetadataDate(read).None? && forall i :: !DateAt(name, i)
    ensures MetadataDate(read).None? && p.Dated? ==>
              exists i :: IsFirstDate(name, i) && ParseIsoDate(name[i..i + 10]) == Some(p.date)
  {
    match MetadataDate(read)
    case Some(t) => Dated(t.date)
    case None =>
      match DateFromFilename(name)
      case Raised => Aborts
      case Returned(None) => Undated
      case Returned(Some(d)) => Dated(d)
  }

  /** `destination / date.strftime("%Y-%m-%d") / filename`. */
  function Target(destination: Path, d: Date, name: string): (t: Path)
    requires IsValidDate(d)
    ensures |t| == |destination| + 2 && IsPrefix(destination, t) && Name(t) == name
  {
    destination + [FormatIsoDate(d), name]
  }

  /** The plan for the regular file `source/name` of tree `m`. */
  function PlanOf(m: Entries, source: Path, name: string, readExif: Bytes -> ExifRead): Plan
    requires IsFileIn(m, source + [name])
  {
    PlanFor(name, readExif(m[source + [name]].content))
  }

  // ---------------------------------------------------------------------
  // The files of the repository's test
  // ---------------------------------------------------------------------

  /** The test's files carry no EXIF block; the two bookkeeping files have no date in their names. */
  lemma IgnoredFilesStay(read: ExifRead)
    requires MetadataDate(read).None?
    ensures PlanFor(".ignore", read) == Undated
    ensures PlanFor("picasa.ini", read) == Undated
  {
    assert !IsIsoDateShape("picasa.ini");
  }

  lemma PhotoDateParses()
    ensures IsIsoDateShape("2018-05-20") && ParseIsoDate("2018-05-20") == Some(Date(2018, 5, 20))
  {
    var iso := "2018-05-20";
    assert iso[0..4] == "2018";
    assert iso[5..7] == "05";
    assert iso[8..10] == "20";
    assert "2018"[..3] == "201" && "201"[..2] == "20" && "20"[..1] == "2" && "2"[..0] == "";
    assert "05"[..1] == "0" && "0"[..0] == "";
  }

  lemma VideoDateParses()
    ensures IsIsoDateShape("2015-03-26") && ParseIsoDate("2015-03-26") == Some(Date(2015, 3, 26))
  {
    var iso := "2015-03-26";
    assert iso[0..4] == "2015";
    assert iso[5..7] == "03";
    assert iso[8..10] == "26";
    assert "2015"[..3] == "201" && "201"[..2] == "20" && "20"[..1] == "2" && "2"[..0] == "";
    assert "03"[..1] == "0" && "0"[..0] == "" && "26"[..1] == "2";
  }

  /** The photo and the video are dated by their names. */
  lemma MediaFilesDated(read: ExifRead)
    requires MetadataDate(read).None?
    ensures PlanFor("2018-05-20 20.05.24.jpg", read) == Dated(Date(2018, 5, 20))
    ensures PlanFor("2015-03-26 12.46.36.mp4", read) == Dated(Date(2015, 3, 26))
  {
    var photo := "2018-05-20 20.05.24.jpg";
    assert photo[0..10] == "2018-05-20";
    PhotoDateParses();
    LeadingDate(photo, Date(2018, 5, 20));
    var video := "2015-03-26 12.46.36.mp4";
    assert video[0..10] == "2015-03-26";
    VideoDateParses();
    LeadingDate(video, Date(2015, 3, 26));
  }

  // ---------------------------------------------------------------------
  // One file
  // ---------------------------------------------------------------------

  /** What handling `source/name` does, by its plan. */
  ghost predicate PlaceEffect(m0: Entries, m: Entries, source: Path, destination: Path, name: string,
                              dryRun: bool, readExif: Bytes -> ExifRead, ok: bool, moved: bool)
  {
    if !IsFileIn(m0, source + [name]) then ok && !moved && m == m0
    else
      match PlanOf(m0, source, name, readExif)
      case Aborts => !ok && !moved && m == m0
      case Undated => ok && !moved && m == m0
      case Dated(d) =>
        if dryRun then ok && !moved && m == m0
        else ok == moved && StepEffect(m0, m, source + [name], Target(destination, d, name), moved)
  }

  /** Lines 78-105 for one entry of the listing. */
  method PlaceFile(fs: Fs, source: Path, destination: Path, name: string, dryRun: bool,
                   readExif: Bytes -> ExifRead)
    returns (ok: bool, ghost moved: bool)
    requires fs.Valid()
    modifies fs
    ensures fs.Valid()
    ensures PlaceEffect(old(fs.entries), fs.entries, source, destination, name, dryRun, readExif, ok, moved)
  {
    var sourcePath := source + [name];
    ok, moved := true, false;
    // `source_path not in exclude` compares a path with strings and always holds
    if fs.IsFile(sourcePath) {
      var plan := PlanFor(name, readExif(fs.entries[sourcePath].content));
      match plan
      case Aborts =>
        ok := false;
      case Undated =>
      case Dated(d) =>
        // lines 93-105: the folder is `destination / date.strftime("%Y-%m-%d")`
        var folder := destination + [FormatIsoDate(d)];
        assert folder + [name] == Target(destination, d, name);
        ok, moved := MoveIntoFolder(fs, sourcePath, folder, name, dryRun);
    }
  }

  // ---------------------------------------------------------------------
  // The whole run
  // ---------------------------------------------------------------------

  /** The regular file `source/n` of `m0` now lies at its target with its bytes, and is gone from the source. */
  ghost predicate Delivered(m0: Entries, m: Entries, source: Path, destination: Path, n: string,
                            readExif: Bytes -> ExifRead)
  {
    && IsFileIn(m0, source + [n])
    && PlanOf(m0, source, n, readExif).Dated?
    && Arrived(m0, m, source + [n], Target(destination, PlanOf(m0, source, n, readExif).date, n))
  }

  /** The file `source/n` did not stop the run and, outside a dry run, was moved if it had a date. */
  predicate Handled(m0: Entries, source: Path, n: string, readExif: Bytes -> ExifRead, dryRun: bool,
                    moved: set<string>)
    requires IsFileIn(m0, source + [n])
  {
    var plan := PlanOf(m0, source, n, readExif);
    !plan.Aborts? && (!dryRun && plan.Dated? ==> n in moved)
  }

  ghost predicate AllDelivered(start: Entries, m: Entries, source: Path, destination: Path,
                               readExif: Bytes -> ExifRead, pending: set<string>, moved: set<string>)
  {
    forall n :: n in moved ==> n !in pending && Delivered(start, m, source, destination, n, readExif)
  }

  ghost predicate AllHandled(start: Entries, source: Path, readExif: Bytes -> ExifRead,
                             pending: set<string>, moved: set<string>, dryRun: bool)
  {
    forall n :: n !in pending && IsFileIn(start, source + [n]) ==> Handled(start, source, n, readExif, dryRun, moved)
  }

  /** No file handled so far stops the run. */
  ghost predicate NoneAborts(start: Entries, source: Path, readExif: Bytes -> ExifRead, pending: set<string>) {
    forall n :: n !in pending && IsFileIn(start, source + [n]) ==> !PlanOf(start, source, n, readExif).Aborts?
  }

  /** `p` is the target of a dated regular file `source/n` of `m0` that was moved, `n` being `p`'s last name. */
  ghost predicate MovedTarget(m0: Entries, source: Path, destination: Path, readExif: Bytes -> ExifRead,
                              moved: set<string>, p: Path)
  {
    && p != []
    && Name(p) in moved
    && IsFileIn(m0, source + [Name(p)])
    && PlanOf(m0, source, Name(p), readExif).Dated?
    && p == Target(destination, PlanOf(m0, source, Name(p), readExif).date, Name(p))
  }

  /** `f` is the date folder of some dated regular file of `source` in `m0`. */
  ghost predicate DateFolderOf(m0: Entries, source: Path, destination: Path, readExif: Bytes -> ExifRead, f: Path) {
    exists n :: IsFileIn(m0, source + [n]) && PlanOf(m0, source, n, readExif).Dated? &&
      f == destination + [FormatIsoDate(PlanOf(m0, source, n, readExif).date)]
  }

  /** Every entry of `m0` but the moved files is still there; only regular files at moved files' targets were replaced. */
  ghost predicate OnlyTargetsReplaced(m0: Entries, m: Entries, source: Path, destination: Path,
                                      readExif: Bytes -> ExifRead, moved: set<string>)
  {
    forall p :: p in m0 && !MovedSource(source, moved, p) ==>
      p in m && (m[p] == m0[p] || (MovedTarget(m0, source, destination, readExif, moved, p) && m0[p].File? && m[p].File?))
  }

  /** Every new entry is a moved file's target, or a directory on the way to `destination` or a date folder. */
  ghost predicate OnlyFoldersAdded(m0: Entries, m: Entries, source: Path, destination: Path,
                                   readExif: Bytes -> ExifRead, moved: set<string>)
  {
    forall p :: p in m && p !in m0 ==>
      || MovedTarget(m0, source, destination, readExif, moved, p)
      || (m[p].Dir? && (IsPrefix(p, destination) || DateFolderOf(m0, source, destination, readExif, p)))
  }

  /** The loop's invariant, over the tree `start` the listing was taken from. */
  ghost predicate Placed(start: Entries, m: Entries, source: Path, destination: Path,
                         readExif: Bytes -> ExifRead, pending: set<string>, moved: set<string>,
                         targets: set<Path>, folders: set<Path>, completed: bool, dryRun: bool)
  {
    && PendingIntact(start, m, source, pending)
    && AllDelivered(start, m, source, destination, readExif, pending, moved)
    && UnmovedIntact(start, m, source, moved)
    && (completed ==> AllHandled(start, source, readExif, pending, moved, dryRun))
    && (dryRun ==> m == start && moved == {})
    && (dryRun ==> (completed <==> NoneAborts(start, source, readExif, pending)))
    && Framed(start, m, source, destination, readExif, moved, targets, folders)
  }

  /**
   * What the loop has changed outside the moved files: only the regular
   * files at `targets` were replaced, and only `targets` and directories on
   * the way to the destination or among `folders` are new; each of
   * `targets` is a moved file's target, each of `folders` a date folder.
   */
  ghost predicate Framed(start: Entries, m: Entries, source: Path, destination: Path,
                         readExif: Bytes -> ExifRead, moved: set<string>, targets: set<Path>, folders: set<Path>)
  {
    && KeptExceptMoved(start, m, source, moved, targets)
    && AddedAlongDestination(start, m, destination, folders, targets)
    && (forall t :: t in targets ==> MovedTarget(start, source, destination, readExif, moved, t))
    && (forall f :: f in folders ==> DateFolderOf(start, source, destination, readExif, f))
  }

  lemma FrameStep(start: Entries, before: Entries, after: Entries, source: Path, destination: Path,
                  readExif: Bytes -> ExifRead, moved: set<string>, targets: set<Path>, folders: set<Path>,
                  name: string, movedIt: bool)
    returns (targets': set<Path>, folders': set<Path>)
    requires IsFileIn(start, source + [name]) && source + [name] in before
    requires before[source + [name]] == start[source + [name]]
    requires PlanOf(start, source, name, readExif).Dated?
    requires Framed(start, before, source, destination, readExif, moved, targets, folders)
    requires StepEffect(before, after, source + [name],
                        Target(destination, PlanOf(start, source, name, readExif).date, name), movedIt)
    ensures Framed(start, after, source, destination, readExif, if movedIt then moved + {name} else moved,
                   targets', folders')
  {
    var src := source + [name];
    var d := PlanOf(start, source, name, readExif).date;
    var dst := Target(destination, d, name);
    StepKept(start, before, after, source, moved, targets, name, dst, movedIt);
    StepAdded(start, before, after, destination, folders, targets, src, dst, FormatIsoDate(d), name, movedIt);
    folders' := folders + {destination + [FormatIsoDate(d)]};
    StepRecorded(start, source, destination, readExif, moved, targets, folders, name);
    assert forall f :: f in folders' ==> DateFolderOf(start, source, destination, readExif, f);
    if movedIt {
      targets' := targets + {dst};
      assert Framed(start, after, source, destination, readExif, moved + {name}, targets', folders');
    } else {
      targets' := targets;
      assert Framed(start, after, source, destination, readExif, moved, targets', folders');
    }
  }

  lemma PlacedStep(start: Entries, before: Entries, after: Entries, source: Path, destination: Path,
                   readExif: Bytes -> ExifRead, pending: set<string>, moved: set<string>,
                   targets: set<Path>, folders: set<Path>, dryRun: bool, name: string, ok: bool, movedIt: bool)
    returns (targets': set<Path>, folders': set<Path>)
    requires Placed(start, before, source, destination, readExif, pending, moved, targets, folders, true, dryRun)
    requires name in pending
    requires PlaceEffect(before, after, source, destination, name, dryRun, readExif, ok, movedIt)
    ensures Placed(start, after, source, destination, readExif, pending - {name},
                   if movedIt then moved + {name} else moved, targets', folders', ok, dryRun)
  {
    targets', folders' := targets, folders;
    var src := source + [name];
    assert before[src] == start[src];
    if IsFileIn(start, src) {
      assert PlanOf(before, source, name, readExif) == PlanOf(start, source, name, readExif);
    }
    if after == before {
      assert !movedIt;
      UnchangedStep(start, before, source, destination, readExif, pending, moved, targets, folders, dryRun, name, ok);
    } else {
      var d := PlanOf(start, source, name, readExif).date;
      var dst := Target(destination, d, name);
      assert !dryRun && ok == movedIt;
      assert StepEffect(before, after, src, dst, movedIt);
      StepPending(start, before, after, source, pending, name, dst, movedIt);
      StepDelivered(start, before, after, source, destination, readExif, pending, moved, name, dst, movedIt);
      StepUnmoved(start, before, after, source, moved, name, dst, movedIt);
      targets', folders' :=
        FrameStep(start, before, after, source, destination, readExif, moved, targets, folders, name, movedIt);
      assert ok ==> AllHandled(start, source, readExif, pending - {name},
                               if movedIt then moved + {name} else moved, dryRun);
    }
  }

  /** The file just handled accounts for its target, if it moved, and for its date folder. */
  lemma StepRecorded(start: Entries, source: Path, destination: Path, readExif: Bytes -> ExifRead,
                     moved: set<string>, targets: set<Path>, folders: set<Path>, name: string)
    requires IsFileIn(start, source + [name]) && PlanOf(start, source, name, readExif).Dated?
    requires forall t :: t in targets ==> MovedTarget(start, source, destination, readExif, moved, t)
    requires forall f :: f in folders ==> DateFolderOf(start, source, destination, readExif, f)
    ensures forall t :: t in targets ==> MovedTarget(start, source, destination, readExif, moved + {name}, t)
    ensures forall t :: t in targets + {Target(destination, PlanOf(start, source, name, readExif).date, name)} ==>
      MovedTarget(start, source, destination, readExif, moved + {name}, t)
    ensures DateFolderOf(start, source, destination, readExif,
                         destination + [FormatIsoDate(PlanOf(start, source, name, readExif).date)])
  {
    var d := PlanOf(start, source, name, readExif).date;
    assert IsFileIn(start, source + [name]) && PlanOf(start, source, name, readExif).Dated? &&
      destination + [FormatIsoDate(d)] == destination + [FormatIsoDate(PlanOf(start, source, name, readExif).date)];
    var dst := Target(destination, d, name);
    assert Name(dst) == name;
    assert MovedTarget(start, source, destination, readExif, moved + {name}, dst);
  }

  /** A file that was skipped, stopped the run, or failed to move without changing anything. */
  lemma UnchangedStep(start: Entries, m: Entries, source: Path, destination: Path,
                      readExif: Bytes -> ExifRead, pending: set<string>, moved: set<string>,
                      targets: set<Path>, folders: set<Path>, dryRun: bool, name: string, ok: bool)
    requires Placed(start, m, source, destination, readExif, pending, moved, targets, folders, true, dryRun)
    requires name in pending
    requires PlaceEffect(m, m, source, destination, name, dryRun, readExif, ok, false)
    requires IsFileIn(start, source + [name]) ==>
               PlanOf(m, source, name, readExif) == PlanOf(start, source, name, readExif)
    ensures Placed(start, m, source, destination, readExif, pending - {name}, moved, targets, folders, ok, dryRun)
  {
    assert !dryRun && IsFileIn(m, source + [name]) && PlanOf(m, source, name, readExif).Dated? ==> !ok;
    if dryRun && !ok {
      assert !NoneAborts(start, source, readExif, pending - {name}) by {
        assert IsFileIn(start, source + [name]) && PlanOf(start, source, name, readExif).Aborts?;
      }
    }
  }

  lemma StepDelivered(start: Entries, before: Entries, after: Entries, source: Path, destination: Path,
                      readExif: Bytes -> ExifRead, pending: set<string>, moved: set<string>,
                      name: string, dst: Path, movedIt: bool)
    requires name in pending && IsFileIn(start, source + [name]) && source + [name] in before
    requires before[source + [name]] == start[source + [name]]
    requires PlanOf(start, source, name, readExif).Dated?
    requires dst == Target(destination, PlanOf(start, source, name, readExif).date, name)
    requires AllDelivered(start, before, source, destination, readExif, pending, moved)
    requires StepEffect(before, after, source + [name], dst, movedIt)
    ensures AllDelivered(start, after, source, destination, readExif, pending - {name},
                         if movedIt then moved + {name} else moved)
  {
    var src := source + [name];
    var moved' := if movedIt then moved + {name} else moved;
    forall n | n in moved'
      ensures Delivered(start, after, source, destination, n, readExif)
    {
      if n != name {
        var t := Target(destination, PlanOf(start, source, n, readExif).date, n);
        assert t != src && t != dst by {
          assert Name(src) == name;
        }
        var s := source + [n];
        assert s != dst && s != src by {
          assert Name(s) == n;
        }
        ArrivedKept(start, before, after, s, t, src, dst, movedIt);
      }
    }
  }

  lemma PlacedStart(m0: Entries, start: Entries, source: Path, destination: Path,
                    readExif: Bytes -> ExifRead, pending: set<string>, dryRun: bool)
    requires WellFormed(m0) && Prepared(m0, start, destination)
    requires dryRun ==> start == m0
    requires pending == if IsDirIn(start, source) then Listing(start, source) else {}
    ensures Placed(start, start, source, destination, readExif, pending, {}, {}, {}, true, dryRun)
  {
    PreparedFiles(m0, start, destination);
    ListingMembers(start, source);
    forall n | IsFileIn(start, source + [n])
      ensures n in pending
    {
      assert Parent(source + [n]) == source;
    }
  }

  /** `organize_images`; `completed == false` means it raised and `main` logged the exception. */
  method OrganizeImages(fs: Fs, source: Path, destination: Path, dryRun: bool, readExif: Bytes -> ExifRead)
    returns (completed: bool, ghost moved: set<string>)
    requires fs.Valid()
    modifies fs
    ensures fs.Valid()
    ensures dryRun ==> fs.entries == old(fs.entries) && moved == {}
    ensures dryRun ==> (completed <==> forall n :: IsFileIn(old(fs.entries), source + [n]) ==>
              !PlanOf(old(fs.entries), source, n, readExif).Aborts?)
    ensures completed ==> forall n :: IsFileIn(old(fs.entries), source + [n]) ==>
              Handled(old(fs.entries), source, n, readExif, dryRun, moved)
    ensures forall n :: n in moved ==> Delivered(old(fs.entries), fs.entries, source, destination, n, readExif)
    ensures forall n :: IsFileIn(old(fs.entries), source + [n]) && n !in moved ==>
              source + [n] in fs.entries && fs.entries[source + [n]] == old(fs.entries)[source + [n]]
    ensures OnlyTargetsReplaced(old(fs.entries), fs.entries, source, destination, readExif, moved)
    ensures OnlyFoldersAdded(old(fs.entries), fs.entries, source, destination, readExif, moved)
    ensures completed && !dryRun ==> ExistsIn(fs.entries, destination)
  {
    ghost var m0 := fs.entries;
    completed, moved := true, {};
    if !fs.Exists(destination) && !dryRun {
      var ok := fs.MakeDirs(destination);
      if !ok {
        completed := false;
        return;
      }
      WithDirsProperties(m0, destination);
    }
    ghost var start := fs.entries;
    // `glob("*")` lists the folder once, when the loop starts; a missing folder or a file lists nothing
    var pending := if fs.IsDir(source) then Listing(fs.entries, source) else {};
    PlacedStart(m0, start, source, destination, readExif, pending, dryRun);
    ghost var targets: set<Path>, folders: set<Path> := {}, {};
    while pending != {} && completed
      invariant fs.Valid()
      invariant Placed(start, fs.entries, source, destination, readExif, pending, moved, targets, folders,
                       completed, dryRun)
      decreases |pending|
    {
      var name :| name in pending;
      ghost var before := fs.entries;
      var ok, movedIt := PlaceFile(fs, source, destination, name, dryRun, readExif);
      targets, folders := PlacedStep(start, before, fs.entries, source, destination, readExif, pending, moved,
                                     targets, folders, dryRun, name, ok, movedIt);
      pending := pending - {name};
      if movedIt {
        moved := moved + {name};
      }
      completed := ok;
    }
    PlacedEnd(m0, start, fs.entries, source, destination, readExif, pending, moved, targets, folders, completed, dryRun);
    if !dryRun {
      DestinationStays(start, fs.entries, source, destination, readExif, moved, targets);
    }
  }

  /**
   * The destination, once there, is still there: it is kept unless it is
   * itself a moved file of the source, and then the file moved below it.
   */
  lemma DestinationStays(start: Entries, m: Entries, source: Path, destination: Path,
                         readExif: Bytes -> ExifRead, moved: set<string>, targets: set<Path>)
    requires WellFormed(m) && ExistsIn(start, destination)
    requires KeptExceptMoved(start, m, source, moved, targets)
    requires forall n :: n in moved ==> Delivered(start, m, source, destination, n, readExif)
    ensures ExistsIn(m, destination)
  {
    if destination != [] && MovedSource(source, moved, destination) {
      var n := destination[|source|];
      var t := Target(destination, PlanOf(start, source, n, readExif).date, n);
      AncestorIsDir(m, destination, t);
    }
  }

  lemma PlacedEnd(m0: Entries, start: Entries, m: Entries, source: Path, destination: Path,
                  readExif: Bytes -> ExifRead, pending: set<string>, moved: set<string>,
                  targets: set<Path>, folders: set<Path>, completed: bool, dryRun: bool)
    requires WellFormed(m0) && Prepared(m0, start, destination)
    requires dryRun ==> start == m0
    requires Placed(start, m, source, destination, readExif, pending, moved, targets, folders, completed, dryRun)
    requires pending == {} || !completed
    ensures dryRun ==> (completed <==> forall n :: IsFileIn(m0, source + [n]) ==>
              !PlanOf(m0, source, n, readExif).Aborts?)
    ensures completed ==> forall n :: IsFileIn(m0, source + [n]) ==> Handled(m0, source, n, readExif, dryRun, moved)
    ensures forall n :: n in moved ==> Delivered(m0, m, source, destination, n, readExif)
    ensures forall n :: IsFileIn(m0, source + [n]) && n !in moved ==>
              source + [n] in m && m[source + [n]] == m0[source + [n]]
    ensures OnlyTargetsReplaced(m0, m, source, destination, readExif, moved)
    ensures OnlyFoldersAdded(m0, m, source, destination, readExif, moved)
  {
    PreparedFiles(m0, start, destination);
    assert forall n :: IsFileIn(m0, source + [n]) <==> IsFileIn(start, source + [n]);
    if dryRun && !completed {
      var n :| n !in pending && IsFileIn(start, source + [n]) && PlanOf(start, source, n, readExif).Aborts?;
      assert IsFileIn(m0, source + [n]);
    }
    FramedEnd(m0, start, m, source, destination, readExif, moved, targets, folders);
  }

  /** The loop's frame, restated over the tree before the destination was created. */
  lemma FramedEnd(m0: Entries, start: Entries, m: Entries, source: Path, destination: Path,
                  readExif: Bytes -> ExifRead, moved: set<string>, targets: set<Path>, folders: set<Path>)
    requires WellFormed(m0) && Prepared(m0, start, destination)
    requires forall n :: n in moved ==> IsFileIn(start, source + [n])
    requires Framed(start, m, source, destination, readExif, moved, targets, folders)
    ensures OnlyTargetsReplaced(m0, m, source, destination, readExif, moved)
    ensures OnlyFoldersAdded(m0, m, source, destination, readExif, moved)
  {
    PreparedFiles(m0, start, destination);
    ReplacedAtEnd(m0, start, m, source, destination, readExif, moved, targets);
    AddedAtEnd(m0, start, m, source, destination, readExif, moved, targets, folders);
  }

  /** The files of `source` and their plans are the same before and after the destination is created. */
  lemma SameFiles(m0: Entries, start: Entries, source: Path, readExif: Bytes -> ExifRead)
    requires forall p :: p in m0 ==> p in start && start[p] == m0[p]
    requires forall p :: p in start && p !in m0 ==> start[p] == Dir
    ensures forall n :: IsFileIn(start, source + [n]) ==>
      IsFileIn(m0, source + [n]) && PlanOf(m0, source, n, readExif) == PlanOf(start, source, n, readExif)
  {
  }

  lemma ReplacedAtEnd(m0: Entries, start: Entries, m: Entries, source: Path, destination: Path,
                      readExif: Bytes -> ExifRead, moved: set<string>, targets: set<Path>)
    requires forall p :: p in m0 ==> p in start && start[p] == m0[p]
    requires forall p :: p in start && p !in m0 ==> start[p] == Dir
    requires KeptExceptMoved(start, m, source, moved, targets)
    requires forall t :: t in targets ==> MovedTarget(start, source, destination, readExif, moved, t)
    ensures OnlyTargetsReplaced(m0, m, source, destination, readExif, moved)
  {
    SameFiles(m0, start, source, readExif);
  }

  lemma AddedAtEnd(m0: Entries, start: Entries, m: Entries, source: Path, destination: Path,
                   readExif: Bytes -> ExifRead, moved: set<string>, targets: set<Path>, folders: set<Path>)
    requires forall p :: p in m0 ==> p in start && start[p] == m0[p]
    requires forall p :: p in start && p !in m0 ==> start[p] == Dir && IsPrefix(p, destination)
    requires forall n :: n in moved ==> IsFileIn(start, source + [n])
    requires KeptExceptMoved(start, m, source, moved, targets)
    requires AddedAlongDestination(start, m, destination, folders, targets)
    requires forall t :: t in targets ==> MovedTarget(start, source, destination, readExif, moved, t)
    requires forall f :: f in folders ==> DateFolderOf(start, source, destination, readExif, f)
    ensures OnlyFoldersAdded(m0, m, source, destination, readExif, moved)
  {
    SameFiles(m0, start, source, readExif);
    forall p | p in m && p !in m0
      ensures || MovedTarget(m0, source, destination, readExif, moved, p)
              || (m[p].Dir? && (IsPrefix(p, destination) || DateFolderOf(m0, source, destination, readExif, p)))
    {
      if p in start {
        NotMovedSource(start, source, moved, p);
      } else if p in targets {
        assert MovedTarget(start, source, destination, readExif, moved, p);
      } else if p in folders {
        assert DateFolderOf(start, source, destination, readExif, p);
        var n :| IsFileIn(start, source + [n]) && PlanOf(start, source, n, readExif).Dated? &&
          p == destination + [FormatIsoDate(PlanOf(start, source, n, readExif).date)];
        assert IsFileIn(m0, source + [n]);
      }
    }
  }

}
