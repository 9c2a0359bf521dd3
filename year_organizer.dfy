/**
 * Grouping date folders by year: every directory directly inside a target
 * folder whose name starts with a real `YYYY-MM-DD` date moves into a folder
 * named after its year, with a numeric suffix when the name is taken there.
 */
module YearOrganizer {
  import opened Wrappers
  import opened Dates
  import opened FileSystem

  // ---------------------------------------------------------------------
  // Recognising date folders
  // ---------------------------------------------------------------------

  /**
   * `_DATE_FOLDER_RE.match(name)` for `^(\d{4})-(\d{2})-(\d{2})(?:.*)?$`: the
   * name starts with `DDDD-DD-DD`, and the rest holds no line break, except
   * possibly as its very last character (where `$` also matches).
   */
  predicate MatchesDateFolderPattern(name: string) {
    && |name| >= 10
    && IsIsoDateShape(name[..10])
    && forall k :: 10 <= k < |name| - 1 ==> name[k] != '\n'
  }

  datatype FolderError = PatternMismatch | InvalidDate

  /** The triple `(is_valid, year, error_message)`. */
  datatype Validation = Validation(isValid: bool, year: Option<string>, error: Option<FolderError>)

  /** `_validate_date_folder`. */
  function ValidateDateFolder(name: string): (v: Validation)
    ensures v.isValid <==>
      && MatchesDateFolderPattern(name)
      && IsValidDate(IsoDateFields(name[..10]))
    ensures v.isValid ==> v.year == Some(name[..4]) && v.error == None
    ensures !v.isValid ==> v.year == None
    ensures !v.isValid && MatchesDateFolderPattern(name) ==> v.error == Some(InvalidDate)
    ensures !MatchesDateFolderPattern(name) ==> v.error == Some(PatternMismatch)
  {
    if !MatchesDateFolderPattern(name) then Validation(false, None, Some(PatternMismatch))
    else
      match ParseIsoDate(name[..10])
      case None => Validation(false, None, Some(InvalidDate))
      case Some(_) => Validation(true, Some(name[..4]), None)
  }

  /** A year folder such as `2019` is never itself taken for a date folder. */
  lemma YearFolderIsNoDateFolder(year: string)
    requires |year| == 4
    ensures !MatchesDateFolderPattern(year) && !ValidateDateFolder(year).isValid
  {
  }

  /** The directories directly inside `dir`. */
  function ChildDirNames(m: Entries, dir: Path): set<string> {
    set n | n in Listing(m, dir) && IsDirIn(m, dir + [n])
  }

  /** The subfolders that are moved: the valid date folders. */
  function DateFolderNames(m: Entries, dir: Path): set<string> {
    set n | n in ChildDirNames(m, dir) && ValidateDateFolder(n).isValid
  }

  /** The subfolders counted as invalid: they match the pattern but name no real date. */
  function InvalidDateNames(m: Entries, dir: Path): set<string> {
    set n | n in ChildDirNames(m, dir) && MatchesDateFolderPattern(n) && !ValidateDateFolder(n).isValid
  }

  // ---------------------------------------------------------------------
  // Collision suffixes
  // ---------------------------------------------------------------------

  /** `f"{folder_name}_{counter:02d}"`. */
  function SuffixedName(name: string, counter: nat): string {
    name + "_" + ZeroPad(DecimalString(counter), 2)
  }

  /** The place tried with counter `k`; 0 stands for the unsuffixed name. */
  function Candidate(yearFolder: Path, name: string, k: nat): Path {
    yearFolder + [if k == 0 then name else SuffixedName(name, k)]
  }

  /** `k` is the first counter whose place is free. */
  ghost predicate IsFirstFree(m: Entries, yearFolder: Path, name: string, k: nat) {
    && Candidate(yearFolder, name, k) !in m
    && forall j :: 0 <= j < k ==> Candidate(yearFolder, name, j) in m
  }

  /** The suffix reads back as its counter. */
  lemma SuffixValue(counter: nat)
    ensures IsDigits(ZeroPad(DecimalString(counter), 2))
    ensures DecimalValue(ZeroPad(DecimalString(counter), 2)) == counter
    ensures |ZeroPad(DecimalString(counter), 2)| >= 2
  {
    ZeroPadValue(DecimalString(counter), 2);
    DecimalRoundTrip(counter);
  }

  /** Distinct counters name distinct places. */
  lemma SuffixedNameInjective(name: string, a: nat, b: nat)
    requires SuffixedName(name, a) == SuffixedName(name, b)
    ensures a == b
  {
    var s := SuffixedName(name, a);
    assert s[|name| + 1..] == ZeroPad(DecimalString(a), 2);
    assert s[|name| + 1..] == ZeroPad(DecimalString(b), 2);
    SuffixValue(a);
    SuffixValue(b);
  }

  /** Distinct counters name distinct places. */
  lemma CandidateInjective(yearFolder: Path, name: string, k1: nat, k2: nat)
    requires Candidate(yearFolder, name, k1) == Candidate(yearFolder, name, k2)
    ensures k1 == k2
  {
    var c1 := if k1 == 0 then name else SuffixedName(name, k1);
    var c2 := if k2 == 0 then name else SuffixedName(name, k2);
    assert c1 == c2 by {
      assert (yearFolder + [c1])[|yearFolder|] == c1;
      assert (yearFolder + [c2])[|yearFolder|] == c2;
    }
    if k1 != 0 && k2 != 0 {
      SuffixedNameInjective(name, k1, k2);
    }
  }

  /** The values of `f` at the counters below `n`. */
  function Image<T>(f: nat -> T, n: nat): set<T> {
    if n == 0 then {} else Image(f, n - 1) + {f(n - 1)}
  }

  lemma {:induction false} ImageAbsent<T>(f: nat -> T, n: nat, k: nat)
    requires forall a: nat, b: nat :: f(a) == f(b) ==> a == b
    requires k >= n
    ensures f(k) !in Image(f, n)
  {
    if n > 0 {
      ImageAbsent(f, n - 1, k);
    }
  }

  /** An injective `f` takes `n` distinct values below `n`. */
  lemma {:induction false} ImageSize<T>(f: nat -> T, n: nat)
    requires forall a: nat, b: nat :: f(a) == f(b) ==> a == b
    ensures |Image(f, n)| == n
  {
    if n > 0 {
      ImageSize(f, n - 1);
      ImageAbsent(f, n - 1, n - 1);
    }
  }

  lemma {:induction false} ImageWithin<T>(f: nat -> T, n: nat, s: set<T>)
    requires forall j :: 0 <= j < n ==> f(j) in s
    ensures Image(f, n) <= s
  {
    if n > 0 {
      ImageWithin(f, n - 1, s);
    }
  }

  lemma SubsetSize<T>(a: set<T>, b: set<T>)
    requires a <= b
    ensures |a| <= |b|
  {
    assert b == a + (b - a);
  }

  /** A tree holds no more taken places than it has entries. */
  lemma TakenCandidates(m: Entries, yearFolder: Path, name: string, n: nat)
    requires forall j :: 0 <= j < n ==> Candidate(yearFolder, name, j) in m
    ensures n <= |m|
  {
    var f := (k: nat) => Candidate(yearFolder, name, k);
    forall a: nat, b: nat | f(a) == f(b)
      ensures a == b
    {
      CandidateInjective(yearFolder, name, a, b);
    }
    ImageWithin(f, n, m.Keys);
    ImageSize(f, n);
    SubsetSize(Image(f, n), m.Keys);
  }

  /**
   * The renaming loop: starting from the unsuffixed name, try `name_01`,
   * `name_02`, ... until a place is free. It always stops, because the tree
   * is finite and distinct counters name distinct places.
   */
  method ResolveCollision(fs: Fs, yearFolder: Path, name: string) returns (dest: Path, counter: nat)
    ensures dest == Candidate(yearFolder, name, counter)
    ensures IsFirstFree(fs.entries, yearFolder, name, counter)
  {
    dest := yearFolder + [name];
    var next := 1;
    while dest in fs.entries
      invariant next >= 1
      invariant dest == Candidate(yearFolder, name, next - 1)
      invariant forall j :: 0 <= j < next - 1 ==> Candidate(yearFolder, name, j) in fs.entries
      decreases |fs.entries| - (next - 1)
    {
      TakenCandidates(fs.entries, yearFolder, name, next);
      dest := yearFolder + [SuffixedName(name, next)];
      next := next + 1;
    }
    counter := next - 1;
  }

  // ---------------------------------------------------------------------
  // Statistics and the run's record
  // ---------------------------------------------------------------------

  /** The `stats` dictionary. */
  datatype Stats = Stats(processed: nat, moved: nat, invalid: nat, errors: nat, dryRun: bool, years: map<string, nat>)

  /** How `organize_folders_by_year` ends: an exception from `iterdir`, one of its two early returns, or a full run. */
  datatype Run = ListingFailed | NoFolders | NoDateFolders(invalid: nat) | Finished(stats: Stats)

  /** One logged outcome of the moving loop: "Movida carpeta" or "Error moviendo carpeta". */
  datatype Outcome = Moved(name: string, year: string, dest: Path) | Failed(name: string, year: string)

  /** The counter updates of one pass of the moving loop. */
  function Tally(stats: Stats, o: Outcome): (r: Stats)
    ensures r.invalid == stats.invalid && r.dryRun == stats.dryRun
    ensures r.processed + r.errors == stats.processed + stats.errors + 1
    ensures o.Moved? ==> r.moved == stats.moved + 1 && r.errors == stats.errors && o.year in r.years
    ensures o.Failed? ==> r.moved == stats.moved && r.processed == stats.processed && r.years == stats.years
  {
    match o
    case Moved(_, year, _) =>
      stats.(processed := stats.processed + 1, moved := stats.moved + 1,
             years := stats.years[year := (if year in stats.years then stats.years[year] else 0) + 1])
    case Failed(_, _) =>
      stats.(errors := stats.errors + 1)
  }

  /** The statistics after the moving loop has produced `log`. */
  function Tallied(log: seq<Outcome>, invalid: nat, dryRun: bool): (r: Stats)
    ensures r.invalid == invalid && r.dryRun == dryRun
    ensures r.processed + r.errors == |log|
    ensures r.processed == r.moved
  {
    if log == [] then Stats(0, 0, invalid, 0, dryRun, map[])
    else Tally(Tallied(log[..|log| - 1], invalid, dryRun), log[|log| - 1])
  }

  /** The number of successful moves in `log`. */
  function CountMoved(log: seq<Outcome>): (n: nat)
    ensures n <= |log|
  {
    if log == [] then 0 else CountMoved(log[..|log| - 1]) + (if log[|log| - 1].Moved? then 1 else 0)
  }

  /** The number of successful moves in `log` into the folder of `year`. */
  function CountMovedIn(log: seq<Outcome>, year: string): nat {
    if log == [] then 0
    else
      var o := log[|log| - 1];
      CountMovedIn(log[..|log| - 1], year) + (if o.Moved? && o.year == year then 1 else 0)
  }

  /** The sum of a map's values. */
  ghost function Total(m: map<string, nat>): nat {
    SumOver(m, m.Keys)
  }

  ghost function SumOver(m: map<string, nat>, keys: set<string>): nat
    requires keys <= m.Keys
  {
    if keys == {} then 0 else var k :| k in keys; m[k] + SumOver(m, keys - {k})
  }

  lemma {:induction false} SumOverRemove(m: map<string, nat>, keys: set<string>, k: string)
    requires keys <= m.Keys && k in keys
    ensures SumOver(m, keys) == m[k] + SumOver(m, keys - {k})
  {
    var j :| j in keys && SumOver(m, keys) == m[j] + SumOver(m, keys - {j});
    if j != k {
      SumOverRemove(m, keys - {j}, k);
      SumOverRemove(m, keys - {k}, j);
      assert keys - {j} - {k} == keys - {k} - {j};
    }
  }

  lemma {:induction false} SumOverAgree(m: map<string, nat>, m': map<string, nat>, keys: set<string>)
    requires keys <= m.Keys && keys <= m'.Keys
    requires forall k :: k in keys ==> m[k] == m'[k]
    ensures SumOver(m, keys) == SumOver(m', keys)
  {
    if keys != {} {
      var k :| k in keys;
      SumOverRemove(m, keys, k);
      SumOverRemove(m', keys, k);
      SumOverAgree(m, m', keys - {k});
    }
  }

  lemma TotalIncrement(m: map<string, nat>, k: string)
    ensures Total(m[k := (if k in m then m[k] else 0) + 1]) == Total(m) + 1
  {
    var m' := m[k := (if k in m then m[k] else 0) + 1];
    SumOverRemove(m', m'.Keys, k);
    if k in m {
      SumOverRemove(m, m.Keys, k);
      assert m'.Keys - {k} == m.Keys - {k};
      SumOverAgree(m, m', m.Keys - {k});
    } else {
      assert m'.Keys - {k} == m.Keys;
      SumOverAgree(m, m', m.Keys);
    }
  }

  /**
   * What the statistics mean: processed and moved both count the successes,
   * errors count the failures, each year maps to the number of folders moved
   * into it (and only years with a move appear), and so the years' counts
   * add up to the successes.
   */
  lemma {:induction false} TalliedMeaning(log: seq<Outcome>, invalid: nat, dryRun: bool)
    ensures var t := Tallied(log, invalid, dryRun);
      && t.processed == t.moved == CountMoved(log)
      && t.errors == |log| - CountMoved(log)
      && t.invalid == invalid && t.dryRun == dryRun
      && (forall y :: y in t.years <==> CountMovedIn(log, y) > 0)
      && (forall y :: y in t.years ==> t.years[y] == CountMovedIn(log, y))
      && Total(t.years) == CountMoved(log)
  {
    if log != [] {
      var init := log[..|log| - 1];
      TalliedMeaning(init, invalid, dryRun);
      var o := log[|log| - 1];
      if o.Moved? {
        TotalIncrement(Tallied(init, invalid, dryRun).years, o.year);
      }
    }
  }

  lemma TalliedAppend(log: seq<Outcome>, o: Outcome, invalid: nat, dryRun: bool)
    ensures Tallied(log + [o], invalid, dryRun) == Tally(Tallied(log, invalid, dryRun), o)
    ensures CountMoved(log + [o]) == CountMoved(log) + (if o.Moved? then 1 else 0)
  {
    assert (log + [o])[..|log|] == log;
  }

  // ---------------------------------------------------------------------
  // How the tree changes
  // ---------------------------------------------------------------------

  /** Every entry of `m0` at or below `dir` is still in `m`, unchanged. */
  ghost predicate KeptBelow(m0: Entries, m: Entries, dir: Path) {
    forall p :: p in m0 && IsPrefix(dir, p) ==> p in m && m[p] == m0[p]
  }

  /** Every entry of `m0` outside the subtree at `dir` is still in `m`, unchanged. */
  ghost predicate KeptOutside(m0: Entries, m: Entries, dir: Path) {
    forall p :: p in m0 && !IsPrefix(dir, p) ==> p in m && m[p] == m0[p]
  }

  /** What `m` has and `m0` lacks lies at or below `dir`. */
  ghost predicate AddedBelow(m0: Entries, m: Entries, dir: Path) {
    forall p :: p in m && p !in m0 ==> IsPrefix(dir, p)
  }

  /** The tree at `src` in `m0` sits at `dst` in `m`, and nothing is left at `src`. */
  ghost predicate MovedBelow(m0: Entries, m: Entries, src: Path, dst: Path) {
    && src !in m
    && forall p :: p in m0 && IsPrefix(src, p) ==> Rebase(p, src, dst) in m && m[Rebase(p, src, dst)] == m0[p]
  }

  /** `p` is the year folder of outcome `o`, or lies in the place its folder was moved to. */
  predicate GrownFrom(target: Path, o: Outcome, p: Path) {
    p == target + [o.year] || (o.Moved? && IsPrefix(o.dest, p))
  }

  /** An entry that lies inside one of the folders of `target` named in `folders`. */
  ghost predicate InFolderOf(target: Path, folders: set<string>, p: Path) {
    |p| > |target| && p[..|target|] == target && p[|target|] in folders
  }

  /** Everything outside those folders is as it was. */
  ghost predicate KeptOutsideFolders(m0: Entries, m: Entries, target: Path, folders: set<string>) {
    forall p :: p in m0 && !InFolderOf(target, folders, p) ==> p in m && m[p] == m0[p]
  }

  lemma SiblingsApart(target: Path, a: string, b: string)
    requires a != b
    ensures Apart(target + [a], target + [b])
  {
    assert (target + [a])[|target|] == a && (target + [b])[|target|] == b;
  }

  lemma BelowSibling(target: Path, a: string, p: Path)
    requires IsPrefix(target + [a], p)
    ensures |p| > |target| && p[..|target|] == target && p[|target|] == a
  {
    assert p[..|target|] == (target + [a])[..|target|];
    assert p[|target|] == (target + [a])[|target|];
  }

  lemma KeptBelowStep(m0: Entries, m1: Entries, m2: Entries, dir: Path, other: Path)
    requires KeptBelow(m0, m1, dir) && KeptOutside(m1, m2, other) && Apart(dir, other)
    ensures KeptBelow(m0, m2, dir)
  {
    forall p | p in m0 && IsPrefix(dir, p)
      ensures p in m2 && m2[p] == m0[p]
    {
      if IsPrefix(other, p) {
        PrefixesComparable(dir, other, p);
      }
    }
  }

  lemma MovedBelowCompose(m0: Entries, m1: Entries, m2: Entries, src: Path, dst: Path)
    requires KeptBelow(m0, m1, src) && MovedBelow(m1, m2, src, dst)
    ensures MovedBelow(m0, m2, src, dst)
  {
  }

  lemma MovedBelowStep(m0: Entries, m1: Entries, m2: Entries, src: Path, dst: Path, other: Path, area: Path)
    requires MovedBelow(m0, m1, src, dst)
    requires KeptOutside(m1, m2, other) && AddedBelow(m1, m2, area)
    requires Apart(other, dst) && !IsPrefix(area, src)
    ensures MovedBelow(m0, m2, src, dst)
  {
    forall p | p in m0 && IsPrefix(src, p)
      ensures Rebase(p, src, dst) in m2 && m2[Rebase(p, src, dst)] == m0[p]
    {
      var q := Rebase(p, src, dst);
      assert IsPrefix(dst, q) by {
        assert q[..|dst|] == dst;
      }
      if IsPrefix(other, q) {
        PrefixesComparable(other, dst, q);
      }
    }
  }

  // ---------------------------------------------------------------------
  // One date folder
  // ---------------------------------------------------------------------

  /**
   * The body of the moving loop for one folder: create the year folder if
   * it is missing, pick a free name there, move the folder. A failure of
   * the creation or the move ends the attempt with `Failed`; a created year
   * folder stays. A dry run touches nothing and reports the unsuffixed place.
   */
  method MoveToYearFolder(fs: Fs, target: Path, name: string, year: string, dryRun: bool)
    returns (o: Outcome, ghost suffix: nat)
    requires fs.Valid() && fs.IsDir(target)
    requires |name| >= 10 && |year| == 4
    modifies fs
    ensures fs.Valid() && fs.IsDir(target)
    ensures o.name == name && o.year == year
    ensures o.Moved? ==> IsPrefix(target + [year], o.dest) && |o.dest| == |target| + 2
    ensures o.Moved? ==> o.dest == Candidate(target + [year], name, suffix)
    ensures dryRun ==> fs.entries == old(fs.entries) && o == Moved(name, year, target + [year, name])
    ensures !dryRun ==> KeptOutside(old(fs.entries), fs.entries, target + [name])
    ensures !dryRun ==> AddedBelow(old(fs.entries), fs.entries, target + [year])
    ensures !dryRun && o.Moved? ==>
      && o.dest == Candidate(target + [year], name, suffix)
      && IsFirstFree(old(fs.entries), target + [year], name, suffix)
      && MovedBelow(old(fs.entries), fs.entries, target + [name], o.dest)
    ensures !dryRun && o.Failed? ==>
      fs.entries == old(fs.entries) || fs.entries == WithDirs(old(fs.entries), target + [year])
    ensures !dryRun && o.Failed? ==> GrownBy(old(fs.entries), fs.entries, target + [year])
    ensures !dryRun ==> forall p :: p in fs.entries && p !in old(fs.entries) ==> GrownFrom(target, o, p)
  {
    ghost var m0 := fs.entries;
    var yearFolder := target + [year];
    var source := target + [name];
    var dest := yearFolder + [name];
    suffix := 0;
    var ok := true;
    if !fs.Exists(yearFolder) && !dryRun {
      ok := fs.MakeDirs(yearFolder);
      if ok {
        YearFolderMade(m0, target, year);
      }
    }
    ghost var m1 := fs.entries;
    assert GrownBy(m0, m1, yearFolder);
    if ok {
      if fs.Exists(dest) {
        if !dryRun {
          dest, suffix := ResolveCollision(fs, yearFolder, name);
        }
      }
      if !dryRun {
        FirstFreeUnaffected(m0, m1, yearFolder, name, suffix);
        ok := fs.Move(source, dest);
        if ok {
          FolderMoved(m0, m1, target, name, year, dest);
        }
      }
    }
    if ok {
      o := Moved(name, year, dest);
    } else {
      o := Failed(name, year);
    }
  }

  /** `m1` is `m0` with at most the directory `dir` added. */
  ghost predicate GrownBy(m0: Entries, m1: Entries, dir: Path) {
    && (forall p :: p in m0 ==> p in m1 && m1[p] == m0[p])
    && (forall p :: p in m1 && p !in m0 ==> p == dir)
  }

  lemma YearFolderMade(m0: Entries, target: Path, year: string)
    requires WellFormed(m0) && IsDirIn(m0, target) && CanMakeDirs(m0, target + [year])
    ensures GrownBy(m0, WithDirs(m0, target + [year]), target + [year])
    ensures IsDirIn(WithDirs(m0, target + [year]), target)
  {
    WithDirsProperties(m0, target + [year]);
    forall q | q in WithDirs(m0, target + [year]) && q !in m0
      ensures q == target + [year]
    {
      OnlyChildMissing(m0, target, year, q);
    }
  }

  lemma FirstFreeUnaffected(m0: Entries, m1: Entries, yearFolder: Path, name: string, k: nat)
    requires GrownBy(m0, m1, yearFolder)
    ensures IsFirstFree(m1, yearFolder, name, k) ==> IsFirstFree(m0, yearFolder, name, k)
  {
    forall j | 0 <= j
      ensures Candidate(yearFolder, name, j) in m1 <==> Candidate(yearFolder, name, j) in m0
    {
      assert Candidate(yearFolder, name, j) != yearFolder;
    }
  }

  lemma FolderMoved(m0: Entries, m1: Entries, target: Path, name: string, year: string, dest: Path)
    requires WellFormed(m1) && CanMove(m1, target + [name], dest) && IsDirIn(m1, target)
    requires GrownBy(m0, m1, target + [year])
    requires |name| >= 10 && |year| == 4 && dest !in m1 && IsPrefix(target + [year], dest)
    ensures KeptOutside(m0, Renamed(m1, target + [name], dest), target + [name])
    ensures AddedBelow(m0, Renamed(m1, target + [name], dest), target + [year])
    ensures forall q :: q in Renamed(m1, target + [name], dest) && q !in m0 ==>
      q == target + [year] || IsPrefix(dest, q)
    ensures MovedBelow(m0, Renamed(m1, target + [name], dest), target + [name], dest)
    ensures IsDirIn(Renamed(m1, target + [name], dest), target)
  {
    var source := target + [name];
    var m2 := Renamed(m1, source, dest);
    forall p | p in m0 && !IsPrefix(source, p)
      ensures p in m2 && m2[p] == m0[p]
    {
      RenamedKeeps(m1, source, dest, p);
    }
    forall p | p in m0 && IsPrefix(source, p)
      ensures Rebase(p, source, dest) in m2 && m2[Rebase(p, source, dest)] == m0[p]
    {
      RenamedCarries(m1, source, dest, p);
    }
    forall q | q in m2 && q !in m0
      ensures IsPrefix(target + [year], q)
      ensures q == target + [year] || IsPrefix(dest, q)
    {
      RenamedOrigin(m1, source, dest, q);
      if IsPrefix(dest, q) {
        PrefixTransitive(target + [year], dest, q);
      }
    }
    RenamedEmptiesSource(m1, source, dest, source);
    if target != [] {
      RenamedKeeps(m1, source, dest, target);
    }
  }

  // ---------------------------------------------------------------------
  // The whole run
  // ---------------------------------------------------------------------

  function Elements(s: seq<string>): set<string> {
    set x | x in s
  }

  predicate Distinct(s: seq<string>) {
    forall i, j :: 0 <= i < j < |s| ==> s[i] != s[j]
  }

  /** The folder names of `(folder, year)` pairs. */
  function FolderNames(folders: seq<(string, string)>): set<string> {
    set k | 0 <= k < |folders| :: folders[k].0
  }

  function LogNames(log: seq<Outcome>): set<string> {
    set k | 0 <= k < |log| :: log[k].name
  }

  /** `[f for f in target_folder.iterdir() if f.is_dir()]`, in the directory's own (unspecified) order. */
  method ListChildDirs(fs: Fs, target: Path) returns (folders: seq<string>)
    ensures Elements(folders) == ChildDirNames(fs.entries, target)
    ensures Distinct(folders)
  {
    ghost var children := ChildDirNames(fs.entries, target);
    var pending := Listing(fs.entries, target);
    folders := [];
    while pending != {}
      invariant pending <= Listing(fs.entries, target)
      invariant forall x :: x in folders <==> x in children && x !in pending
      invariant Distinct(folders)
      decreases |pending|
    {
      var n :| n in pending;
      if fs.IsDir(target + [n]) {
        assert n in children;
        folders := folders + [n];
      }
      pending := pending - {n};
    }
    assert Elements(folders) == children;
  }

  /** What the filter loop knows after looking at the first `i` folders. */
  ghost predicate Filtered(folders: seq<string>, i: nat, dateFolders: seq<(string, string)>,
                           validSeen: set<string>, invalidSeen: set<string>, invalid: nat)
    requires i <= |folders|
  {
    && validSeen == FolderNames(dateFolders)
    && (forall x :: x in validSeen ==> x in folders[..i] && ValidateDateFolder(x).isValid)
    && (forall x :: x in invalidSeen ==>
          x in folders[..i] && MatchesDateFolderPattern(x) && !ValidateDateFolder(x).isValid)
    && (forall j :: 0 <= j < i ==>
          && (ValidateDateFolder(folders[j]).isValid ==> folders[j] in validSeen)
          && (MatchesDateFolderPattern(folders[j]) && !ValidateDateFolder(folders[j]).isValid ==> folders[j] in invalidSeen))
    && |invalidSeen| == invalid
    && (forall k :: 0 <= k < |dateFolders| ==>
          ValidateDateFolder(dateFolders[k].0).isValid && dateFolders[k].1 == dateFolders[k].0[..4])
    && (forall k, l :: 0 <= k < l < |dateFolders| ==> dateFolders[k].0 != dateFolders[l].0)
  }

  lemma FilteredDate(folders: seq<string>, i: nat, dateFolders: seq<(string, string)>,
                     validSeen: set<string>, invalidSeen: set<string>, invalid: nat)
    requires Distinct(folders) && i < |folders| && ValidateDateFolder(folders[i]).isValid
    requires Filtered(folders, i, dateFolders, validSeen, invalidSeen, invalid)
    ensures Filtered(folders, i + 1, dateFolders + [(folders[i], folders[i][..4])],
                     validSeen + {folders[i]}, invalidSeen, invalid)
  {
    var name := folders[i];
    assert folders[..i + 1] == folders[..i] + [name];
    assert name !in folders[..i];
    FolderNamesAppend(dateFolders, (name, name[..4]));
    assert forall k :: 0 <= k < |dateFolders| ==> dateFolders[k].0 in validSeen;
  }

  lemma FilteredInvalid(folders: seq<string>, i: nat, dateFolders: seq<(string, string)>,
                        validSeen: set<string>, invalidSeen: set<string>, invalid: nat)
    requires Distinct(folders) && i < |folders|
    requires MatchesDateFolderPattern(folders[i]) && !ValidateDateFolder(folders[i]).isValid
    requires Filtered(folders, i, dateFolders, validSeen, invalidSeen, invalid)
    ensures Filtered(folders, i + 1, dateFolders, validSeen, invalidSeen + {folders[i]}, invalid + 1)
  {
    var name := folders[i];
    assert folders[..i + 1] == folders[..i] + [name];
    assert name !in invalidSeen by {
      assert name !in folders[..i];
    }
    forall j | 0 <= j < i + 1
      ensures MatchesDateFolderPattern(folders[j]) && !ValidateDateFolder(folders[j]).isValid ==>
                folders[j] in invalidSeen + {name}
    {
    }
  }

  lemma FilteredSkipped(folders: seq<string>, i: nat, dateFolders: seq<(string, string)>,
                        validSeen: set<string>, invalidSeen: set<string>, invalid: nat)
    requires i < |folders| && !MatchesDateFolderPattern(folders[i])
    requires Filtered(folders, i, dateFolders, validSeen, invalidSeen, invalid)
    ensures Filtered(folders, i + 1, dateFolders, validSeen, invalidSeen, invalid)
  {
    assert folders[..i + 1] == folders[..i] + [folders[i]];
  }

  /**
   * The filter loop: keep each valid date folder with its year, in order,
   * and count the folders that match the pattern but name no real date.
   */
  method SelectDateFolders(folders: seq<string>) returns (dateFolders: seq<(string, string)>, invalid: nat)
    requires Distinct(folders)
    ensures FolderNames(dateFolders) == set n | n in folders && ValidateDateFolder(n).isValid
    ensures invalid == |set n | n in folders && MatchesDateFolderPattern(n) && !ValidateDateFolder(n).isValid|
    ensures forall k :: 0 <= k < |dateFolders| ==>
      ValidateDateFolder(dateFolders[k].0).isValid && dateFolders[k].1 == dateFolders[k].0[..4]
    ensures forall k, l :: 0 <= k < l < |dateFolders| ==> dateFolders[k].0 != dateFolders[l].0
  {
    dateFolders := [];
    invalid := 0;
    ghost var validSeen: set<string> := {};
    ghost var invalidSeen: set<string> := {};
    for i := 0 to |folders|
      invariant Filtered(folders, i, dateFolders, validSeen, invalidSeen, invalid)
    {
      var name := folders[i];
      var v := ValidateDateFolder(name);
      if v.isValid {
        FilteredDate(folders, i, dateFolders, validSeen, invalidSeen, invalid);
        dateFolders := dateFolders + [(name, v.year.value)];
        validSeen := validSeen + {name};
      } else {
        if MatchesDateFolderPattern(name) {
          FilteredInvalid(folders, i, dateFolders, validSeen, invalidSeen, invalid);
          invalid := invalid + 1;
          invalidSeen := invalidSeen + {name};
        } else {
          FilteredSkipped(folders, i, dateFolders, validSeen, invalidSeen, invalid);
        }
      }
    }
    assert folders[..|folders|] == folders;
    assert invalidSeen == set n | n in folders && MatchesDateFolderPattern(n) && !ValidateDateFolder(n).isValid;
  }

  lemma FolderNamesAppend(folders: seq<(string, string)>, f: (string, string))
    ensures FolderNames(folders + [f]) == FolderNames(folders) + {f.0}
  {
    var d := folders + [f];
    assert forall k :: 0 <= k < |folders| ==> d[k] == folders[k];
    assert d[|folders|] == f;
  }

  /** What the moving loop keeps true of the tree after `done` folders, relative to the tree `m0` it started from. */
  ghost predicate Progress(m0: Entries, m: Entries, target: Path, selected: set<string>,
                           dateFolders: seq<(string, string)>, log: seq<Outcome>, dryRun: bool)
    requires |log| <= |dateFolders|
  {
    && KeptOutsideFolders(m0, m, target, selected)
    && (forall j :: |log| <= j < |dateFolders| ==> KeptBelow(m0, m, target + [dateFolders[j].0]))
    && (!dryRun ==> forall k :: 0 <= k < |log| && log[k].Moved? ==>
          MovedBelow(m0, m, target + [log[k].name], log[k].dest))
    && FailedIntact(m0, m, target, log)
    && GrownByLog(m0, m, target, log)
  }

  /** Every folder whose move failed is still in place, unchanged. */
  ghost predicate FailedIntact(m0: Entries, m: Entries, target: Path, log: seq<Outcome>) {
    forall k :: 0 <= k < |log| && log[k].Failed? ==> KeptBelow(m0, m, target + [log[k].name])
  }

  /** Every new entry is a year folder of the log or lies where a logged folder was moved. */
  ghost predicate GrownByLog(m0: Entries, m: Entries, target: Path, log: seq<Outcome>) {
    forall p :: p in m && p !in m0 ==> exists k :: 0 <= k < |log| && GrownFrom(target, log[k], p)
  }

  lemma FailedIntactStep(m0: Entries, before: Entries, after: Entries, target: Path,
                         log: seq<Outcome>, o: Outcome)
    requires forall k :: 0 <= k < |log| ==> log[k].name != o.name
    requires FailedIntact(m0, before, target, log)
    requires KeptOutside(before, after, target + [o.name])
    requires o.Failed? ==> KeptBelow(m0, before, target + [o.name]) && GrownBy(before, after, target + [o.year])
    ensures FailedIntact(m0, after, target, log + [o])
  {
    var log' := log + [o];
    forall k | 0 <= k < |log'| && log'[k].Failed?
      ensures KeptBelow(m0, after, target + [log'[k].name])
    {
      if k < |log| {
        assert log'[k] == log[k];
        SiblingsApart(target, log[k].name, o.name);
        KeptBelowStep(m0, before, after, target + [log[k].name], target + [o.name]);
      }
    }
  }

  lemma GrownByLogStep(m0: Entries, before: Entries, after: Entries, target: Path,
                       log: seq<Outcome>, o: Outcome)
    requires GrownByLog(m0, before, target, log)
    requires forall p :: p in after && p !in before ==> GrownFrom(target, o, p)
    ensures GrownByLog(m0, after, target, log + [o])
  {
    var log' := log + [o];
    forall p | p in after && p !in m0
      ensures exists k :: 0 <= k < |log'| && GrownFrom(target, log'[k], p)
    {
      if p in before {
        var k :| 0 <= k < |log| && GrownFrom(target, log[k], p);
        assert log'[k] == log[k];
      } else {
        assert log'[|log|] == o;
      }
    }
  }

  /** One folder's move keeps `Progress`. */
  lemma ProgressStep(m0: Entries, before: Entries, after: Entries, target: Path, selected: set<string>,
                     dateFolders: seq<(string, string)>, log: seq<Outcome>, o: Outcome)
    requires |log| < |dateFolders|
    requires forall k :: 0 <= k < |dateFolders| ==> dateFolders[k].0 in selected
    requires forall k :: 0 <= k < |dateFolders| ==> |dateFolders[k].0| >= 10
    requires forall k, l :: 0 <= k < l < |dateFolders| ==> dateFolders[k].0 != dateFolders[l].0
    requires forall k :: 0 <= k < |log| ==> log[k].name == dateFolders[k].0 && |log[k].year| == 4
    requires forall k :: 0 <= k < |log| && log[k].Moved? ==>
      IsPrefix(target + [log[k].year], log[k].dest) && |log[k].dest| == |target| + 2
    requires o.name == dateFolders[|log|].0 && |o.year| == 4
    requires Progress(m0, before, target, selected, dateFolders, log, false)
    requires KeptOutside(before, after, target + [o.name])
    requires AddedBelow(before, after, target + [o.year])
    requires o.Moved? ==> MovedBelow(before, after, target + [o.name], o.dest)
    requires o.Failed? ==> GrownBy(before, after, target + [o.year])
    requires forall p :: p in after && p !in before ==> GrownFrom(target, o, p)
    ensures Progress(m0, after, target, selected, dateFolders, log + [o], false)
  {
    var i := |log|;
    var name := o.name;
    var src := target + [name];
    var log' := log + [o];
    assert forall k :: 0 <= k < i ==> log[k].name != name by {
      forall k | 0 <= k < i ensures log[k].name != name {
        assert log[k].name == dateFolders[k].0;
      }
    }
    FailedIntactStep(m0, before, after, target, log, o);
    GrownByLogStep(m0, before, after, target, log, o);
    forall p | p in m0 && !InFolderOf(target, selected, p)
      ensures p in after && after[p] == m0[p]
    {
      if IsPrefix(src, p) {
        BelowSibling(target, name, p);
      }
    }
    forall j | i + 1 <= j < |dateFolders|
      ensures KeptBelow(m0, after, target + [dateFolders[j].0])
    {
      SiblingsApart(target, dateFolders[j].0, name);
      KeptBelowStep(m0, before, after, target + [dateFolders[j].0], src);
    }
    forall k | 0 <= k < i + 1 && log'[k].Moved?
      ensures MovedBelow(m0, after, target + [log'[k].name], log'[k].dest)
    {
      if k == i {
        MovedBelowCompose(m0, before, after, src, o.dest);
      } else {
        assert log'[k] == log[k];
        var dk := log[k].dest;
        assert Apart(src, dk) by {
          if IsPrefix(src, dk) {
            BelowSibling(target, name, dk);
            BelowSibling(target, log[k].year, dk);
          }
        }
        assert !IsPrefix(target + [o.year], target + [log[k].name]) by {
          if IsPrefix(target + [o.year], target + [log[k].name]) {
            BelowSibling(target, o.year, target + [log[k].name]);
          }
        }
        MovedBelowStep(m0, before, after, target + [log[k].name], dk, src, target + [o.year]);
      }
    }
  }

  /**
   * The moving loop: one `MoveToYearFolder` per date folder, counting each
   * success as processed and moved and under its year, each failure as an
   * error.
   */
  method MoveAll(fs: Fs, target: Path, ghost selected: set<string>, dateFolders: seq<(string, string)>,
                 invalid: nat, dryRun: bool)
    returns (stats: Stats, log: seq<Outcome>, ghost suffixes: seq<nat>)
    requires fs.Valid() && fs.IsDir(target)
    requires forall n :: n in selected ==> |n| >= 10
    requires forall k :: 0 <= k < |dateFolders| ==> dateFolders[k].0 in selected
    requires forall k :: 0 <= k < |dateFolders| ==>
      |dateFolders[k].0| >= 10 && dateFolders[k].1 == dateFolders[k].0[..4]
    requires forall k, l :: 0 <= k < l < |dateFolders| ==> dateFolders[k].0 != dateFolders[l].0
    modifies fs
    ensures fs.Valid()
    ensures |log| == |dateFolders|
    ensures forall k :: 0 <= k < |log| ==> log[k].name == dateFolders[k].0 && log[k].year == dateFolders[k].1
    ensures forall k :: 0 <= k < |log| && log[k].Moved? ==>
      IsPrefix(target + [log[k].year], log[k].dest) && |log[k].dest| == |target| + 2
    ensures stats == Tallied(log, invalid, dryRun)
    ensures dryRun ==> fs.entries == old(fs.entries) && CountMoved(log) == |log|
    ensures Progress(old(fs.entries), fs.entries, target, selected, dateFolders, log, dryRun)
    ensures |suffixes| == |log| && AtFreePlaces(old(fs.entries), target, log, suffixes, dryRun)
  {
    ghost var m0 := fs.entries;
    stats := Stats(0, 0, invalid, 0, dryRun, map[]);
    log, suffixes := [], [];
    for i := 0 to |dateFolders|
      invariant fs.Valid() && fs.IsDir(target)
      invariant |log| == i
      invariant MovingLoop(m0, fs.entries, target, selected, dateFolders, invalid, dryRun, stats, log, suffixes)
    {
      var o;
      ghost var suffix;
      stats, o, suffix := MoveNext(fs, target, selected, dateFolders, invalid, dryRun, m0, stats, log, suffixes);
      log := log + [o];
      suffixes := suffixes + [suffix];
    }
  }

  /** What the moving loop keeps true after the folders of `log`. */
  ghost predicate MovingLoop(m0: Entries, m: Entries, target: Path, selected: set<string>,
                             dateFolders: seq<(string, string)>, invalid: nat, dryRun: bool,
                             stats: Stats, log: seq<Outcome>, suffixes: seq<nat>)
  {
    && |log| <= |dateFolders|
    && Logged(target, dateFolders, invalid, dryRun, stats, log)
    && TreeProgress(m0, m, target, selected, dateFolders, dryRun, log, suffixes)
  }

  /** The record of the moving loop: one outcome per folder so far, in order, and its statistics. */
  ghost predicate Logged(target: Path, dateFolders: seq<(string, string)>, invalid: nat, dryRun: bool,
                         stats: Stats, log: seq<Outcome>)
    requires |log| <= |dateFolders|
  {
    && (forall k :: 0 <= k < |log| ==> log[k].name == dateFolders[k].0 && log[k].year == dateFolders[k].1)
    && (forall k :: 0 <= k < |log| && log[k].Moved? ==>
          IsPrefix(target + [log[k].year], log[k].dest) && |log[k].dest| == |target| + 2)
    && stats == Tallied(log, invalid, dryRun)
    && (dryRun ==> CountMoved(log) == |log|)
  }

  /** The tree during the moving loop. */
  ghost predicate TreeProgress(m0: Entries, m: Entries, target: Path, selected: set<string>,
                               dateFolders: seq<(string, string)>, dryRun: bool,
                               log: seq<Outcome>, suffixes: seq<nat>)
    requires |log| <= |dateFolders|
  {
    && (dryRun ==> m == m0)
    && Progress(m0, m, target, selected, dateFolders, log, dryRun)
    && |suffixes| == |log| && AtFreePlaces(m0, target, log, suffixes, dryRun)
  }

  /** One turn of the moving loop: attempt the next date folder and record its outcome. */
  method MoveNext(fs: Fs, target: Path, ghost selected: set<string>, dateFolders: seq<(string, string)>,
                  invalid: nat, dryRun: bool, ghost m0: Entries,
                  stats: Stats, log: seq<Outcome>, ghost suffixes: seq<nat>)
    returns (stats': Stats, o: Outcome, ghost suffix: nat)
    requires fs.Valid() && fs.IsDir(target)
    requires forall n :: n in selected ==> |n| >= 10
    requires forall k :: 0 <= k < |dateFolders| ==> dateFolders[k].0 in selected
    requires forall k :: 0 <= k < |dateFolders| ==>
      |dateFolders[k].0| >= 10 && dateFolders[k].1 == dateFolders[k].0[..4]
    requires forall k, l :: 0 <= k < l < |dateFolders| ==> dateFolders[k].0 != dateFolders[l].0
    requires |log| < |dateFolders|
    requires MovingLoop(m0, fs.entries, target, selected, dateFolders, invalid, dryRun, stats, log, suffixes)
    modifies fs
    ensures fs.Valid() && fs.IsDir(target)
    ensures MovingLoop(m0, fs.entries, target, selected, dateFolders, invalid, dryRun,
                       stats', log + [o], suffixes + [suffix])
  {
    var (name, year) := dateFolders[|log|];
    ghost var before := fs.entries;
    o, suffix := MoveToYearFolder(fs, target, name, year, dryRun);
    stats' := Tally(stats, o);
    MovingLoopStep(m0, before, fs.entries, target, selected, dateFolders, invalid, dryRun,
                   stats, log, suffixes, o, suffix);
  }

  /** One attempt, with the effect `MoveToYearFolder` promises, keeps `MovingLoop`. */
  lemma MovingLoopStep(m0: Entries, before: Entries, after: Entries, target: Path, selected: set<string>,
                       dateFolders: seq<(string, string)>, invalid: nat, dryRun: bool,
                       stats: Stats, log: seq<Outcome>, suffixes: seq<nat>, o: Outcome, suffix: nat)
    requires forall n :: n in selected ==> |n| >= 10
    requires forall k :: 0 <= k < |dateFolders| ==> dateFolders[k].0 in selected
    requires forall k :: 0 <= k < |dateFolders| ==>
      |dateFolders[k].0| >= 10 && dateFolders[k].1 == dateFolders[k].0[..4]
    requires forall k, l :: 0 <= k < l < |dateFolders| ==> dateFolders[k].0 != dateFolders[l].0
    requires |log| < |dateFolders|
    requires MovingLoop(m0, before, target, selected, dateFolders, invalid, dryRun, stats, log, suffixes)
    requires o.name == dateFolders[|log|].0 && o.year == dateFolders[|log|].1
    requires o.Moved? ==> IsPrefix(target + [o.year], o.dest) && |o.dest| == |target| + 2
    requires o.Moved? ==> o.dest == Candidate(target + [o.year], o.name, suffix)
    requires dryRun ==> after == before && o.Moved?
    requires !dryRun ==> KeptOutside(before, after, target + [o.name]) && AddedBelow(before, after, target + [o.year])
    requires !dryRun && o.Moved? ==> MovedBelow(before, after, target + [o.name], o.dest) && o.dest !in before
    requires !dryRun && o.Failed? ==> GrownBy(before, after, target + [o.year])
    requires !dryRun ==> forall p :: p in after && p !in before ==> GrownFrom(target, o, p)
    ensures MovingLoop(m0, after, target, selected, dateFolders, invalid, dryRun,
                       Tally(stats, o), log + [o], suffixes + [suffix])
  {
    LoggedStep(target, dateFolders, invalid, dryRun, stats, log, o);
    LoggedYears(target, dateFolders, invalid, dryRun, stats, log);
    TreeProgressStep(m0, before, after, target, selected, dateFolders, dryRun, log, suffixes, o, suffix);
  }

  /** The years of the record are those of the folder names. */
  lemma LoggedYears(target: Path, dateFolders: seq<(string, string)>, invalid: nat, dryRun: bool,
                    stats: Stats, log: seq<Outcome>)
    requires forall k :: 0 <= k < |dateFolders| ==>
      |dateFolders[k].0| >= 10 && dateFolders[k].1 == dateFolders[k].0[..4]
    requires |log| <= |dateFolders|
    requires Logged(target, dateFolders, invalid, dryRun, stats, log)
    ensures forall k :: 0 <= k < |log| ==> log[k].name == dateFolders[k].0 && |log[k].year| == 4
    ensures forall k :: 0 <= k < |log| && log[k].Moved? ==>
      IsPrefix(target + [log[k].year], log[k].dest) && |log[k].dest| == |target| + 2
  {
  }

  lemma LoggedStep(target: Path, dateFolders: seq<(string, string)>, invalid: nat, dryRun: bool,
                   stats: Stats, log: seq<Outcome>, o: Outcome)
    requires |log| < |dateFolders|
    requires Logged(target, dateFolders, invalid, dryRun, stats, log)
    requires o.name == dateFolders[|log|].0 && o.year == dateFolders[|log|].1
    requires o.Moved? ==> IsPrefix(target + [o.year], o.dest) && |o.dest| == |target| + 2
    requires dryRun ==> o.Moved?
    ensures Logged(target, dateFolders, invalid, dryRun, Tally(stats, o), log + [o])
  {
    TalliedAppend(log, o, invalid, dryRun);
    LogAppend(target, dateFolders, log, o);
  }

  lemma TreeProgressStep(m0: Entries, before: Entries, after: Entries, target: Path, selected: set<string>,
                         dateFolders: seq<(string, string)>, dryRun: bool,
                         log: seq<Outcome>, suffixes: seq<nat>, o: Outcome, suffix: nat)
    requires forall n :: n in selected ==> |n| >= 10
    requires forall k :: 0 <= k < |dateFolders| ==> dateFolders[k].0 in selected
    requires forall k :: 0 <= k < |dateFolders| ==> |dateFolders[k].0| >= 10
    requires forall k, l :: 0 <= k < l < |dateFolders| ==> dateFolders[k].0 != dateFolders[l].0
    requires |log| < |dateFolders|
    requires forall k :: 0 <= k < |log| ==> log[k].name == dateFolders[k].0 && |log[k].year| == 4
    requires forall k :: 0 <= k < |log| && log[k].Moved? ==>
      IsPrefix(target + [log[k].year], log[k].dest) && |log[k].dest| == |target| + 2
    requires TreeProgress(m0, before, target, selected, dateFolders, dryRun, log, suffixes)
    requires o.name == dateFolders[|log|].0 && |o.year| == 4
    requires o.Moved? ==> o.dest == Candidate(target + [o.year], o.name, suffix)
    requires dryRun ==> after == before
    requires !dryRun ==> KeptOutside(before, after, target + [o.name]) && AddedBelow(before, after, target + [o.year])
    requires !dryRun && o.Moved? ==> MovedBelow(before, after, target + [o.name], o.dest) && o.dest !in before
    requires !dryRun && o.Failed? ==> GrownBy(before, after, target + [o.year])
    requires !dryRun ==> forall p :: p in after && p !in before ==> GrownFrom(target, o, p)
    ensures TreeProgress(m0, after, target, selected, dateFolders, dryRun, log + [o], suffixes + [suffix])
  {
    AtFreePlacesStep(m0, before, target, selected, log, suffixes, o, suffix, dryRun);
    if !dryRun {
      ProgressStep(m0, before, after, target, selected, dateFolders, log, o);
    } else {
      ProgressDry(m0, target, selected, dateFolders, log, o);
    }
  }

  /**
   * Each moved folder went to a candidate place of its year folder
   * (`suffixes` records the counter) and, outside a dry run, to a place
   * that was free in the tree `m0` the run started from.
   */
  ghost predicate AtFreePlaces(m0: Entries, target: Path, log: seq<Outcome>, suffixes: seq<nat>, dryRun: bool)
    requires |suffixes| == |log|
  {
    && (forall k :: 0 <= k < |log| && log[k].Moved? ==>
          log[k].dest == Candidate(target + [log[k].year], log[k].name, suffixes[k]))
    && (!dryRun ==> forall k :: 0 <= k < |log| && log[k].Moved? ==> log[k].dest !in m0)
  }

  /**
   * A place free just before a move was free at the start: year folders lie
   * outside the date folders, whose names are longer than a year.
   */
  lemma AtFreePlacesStep(m0: Entries, before: Entries, target: Path, selected: set<string>,
                         log: seq<Outcome>, suffixes: seq<nat>, o: Outcome, suffix: nat, dryRun: bool)
    requires forall n :: n in selected ==> |n| >= 10
    requires |o.year| == 4
    requires |suffixes| == |log| && AtFreePlaces(m0, target, log, suffixes, dryRun)
    requires !dryRun ==> KeptOutsideFolders(m0, before, target, selected)
    requires o.Moved? ==> o.dest == Candidate(target + [o.year], o.name, suffix)
    requires !dryRun && o.Moved? ==> o.dest !in before
    ensures AtFreePlaces(m0, target, log + [o], suffixes + [suffix], dryRun)
  {
    var log', suffixes' := log + [o], suffixes + [suffix];
    forall k | 0 <= k < |log'| && log'[k].Moved?
      ensures log'[k].dest == Candidate(target + [log'[k].year], log'[k].name, suffixes'[k])
      ensures !dryRun ==> log'[k].dest !in m0
    {
      if k < |log| {
        assert log'[k] == log[k] && suffixes'[k] == suffixes[k];
      } else if !dryRun {
        assert o.dest[|target|] == o.year;
        assert !InFolderOf(target, selected, o.dest);
      }
    }
  }

  /** The per-outcome facts of the log extend to one more outcome. */
  lemma LogAppend(target: Path, dateFolders: seq<(string, string)>, log: seq<Outcome>, o: Outcome)
    requires |log| < |dateFolders|
    requires forall k :: 0 <= k < |log| ==> log[k].name == dateFolders[k].0 && log[k].year == dateFolders[k].1
    requires forall k :: 0 <= k < |log| && log[k].Moved? ==>
      IsPrefix(target + [log[k].year], log[k].dest) && |log[k].dest| == |target| + 2
    requires o.name == dateFolders[|log|].0 && o.year == dateFolders[|log|].1
    requires o.Moved? ==> IsPrefix(target + [o.year], o.dest) && |o.dest| == |target| + 2
    ensures forall k :: 0 <= k < |log| + 1 ==>
      (log + [o])[k].name == dateFolders[k].0 && (log + [o])[k].year == dateFolders[k].1
    ensures forall k :: 0 <= k < |log| + 1 && (log + [o])[k].Moved? ==>
      IsPrefix(target + [(log + [o])[k].year], (log + [o])[k].dest) && |(log + [o])[k].dest| == |target| + 2
  {
    assert forall k :: 0 <= k < |log| ==> (log + [o])[k] == log[k];
  }

  /** A dry run leaves the tree alone, so `Progress` holds trivially. */
  lemma ProgressDry(m0: Entries, target: Path, selected: set<string>, dateFolders: seq<(string, string)>,
                    log: seq<Outcome>, o: Outcome)
    requires |log| < |dateFolders|
    requires Progress(m0, m0, target, selected, dateFolders, log, true)
    ensures Progress(m0, m0, target, selected, dateFolders, log + [o], true)
  {
  }

  lemma SelectionMeaning(folders: seq<string>, m: Entries, target: Path)
    requires Elements(folders) == ChildDirNames(m, target)
    ensures (set n | n in folders && ValidateDateFolder(n).isValid) == DateFolderNames(m, target)
    ensures (set n | n in folders && MatchesDateFolderPattern(n) && !ValidateDateFolder(n).isValid)
         == InvalidDateNames(m, target)
  {
    forall n: string
      ensures n in folders <==> n in ChildDirNames(m, target)
    {
      assert n in folders <==> n in Elements(folders);
    }
  }

  lemma FolderNamesMembers(dateFolders: seq<(string, string)>)
    ensures forall k :: 0 <= k < |dateFolders| ==> dateFolders[k].0 in FolderNames(dateFolders)
  {
  }

  /** The facts about the moving loop's record, restated over its outcomes. */
  lemma RunLog(m0: Entries, m: Entries, target: Path, selected: set<string>,
               dateFolders: seq<(string, string)>, log: seq<Outcome>, dryRun: bool)
    requires |log| == |dateFolders|
    requires forall k :: 0 <= k < |log| ==> log[k].name == dateFolders[k].0 && log[k].year == dateFolders[k].1
    requires forall k :: 0 <= k < |dateFolders| ==>
      |dateFolders[k].0| >= 10 && dateFolders[k].1 == dateFolders[k].0[..4]
    requires forall k, l :: 0 <= k < l < |dateFolders| ==> dateFolders[k].0 != dateFolders[l].0
    requires forall k :: 0 <= k < |log| && log[k].Moved? ==>
      IsPrefix(target + [log[k].year], log[k].dest) && |log[k].dest| == |target| + 2
    requires Progress(m0, m, target, selected, dateFolders, log, dryRun)
    ensures LogNames(log) == FolderNames(dateFolders)
    ensures forall k, l :: 0 <= k < l < |log| ==> log[k].name != log[l].name
    ensures forall o :: o in log ==> |o.name| >= 10 && o.year == o.name[..4]
    ensures forall o :: o in log && o.Moved? ==> IsPrefix(target + [o.year], o.dest) && |o.dest| == |target| + 2
    ensures KeptOutsideFolders(m0, m, target, selected)
    ensures !dryRun ==> forall o :: o in log && o.Moved? ==> MovedBelow(m0, m, target + [o.name], o.dest)
    ensures forall o :: o in log && o.Failed? ==> KeptBelow(m0, m, target + [o.name])
    ensures forall p :: p in m && p !in m0 ==> exists o :: o in log && GrownFrom(target, o, p)
  {
    forall p | p in m && p !in m0
      ensures exists o :: o in log && GrownFrom(target, o, p)
    {
      var k :| 0 <= k < |log| && GrownFrom(target, log[k], p);
      assert log[k] in log;
    }
    forall k | 0 <= k < |log|
      ensures log[k].name in FolderNames(dateFolders)
    {
    }
    forall k | 0 <= k < |dateFolders|
      ensures dateFolders[k].0 in LogNames(log)
    {
    }
    forall o | o in log
      ensures |o.name| >= 10 && o.year == o.name[..4]
      ensures o.Moved? ==> IsPrefix(target + [o.year], o.dest) && |o.dest| == |target| + 2
      ensures o.Moved? && !dryRun ==> MovedBelow(m0, m, target + [o.name], o.dest)
      ensures o.Failed? ==> KeptBelow(m0, m, target + [o.name])
    {
      var k :| 0 <= k < |log| && log[k] == o;
    }
  }

  /**
   * `organize_folders_by_year`: list the subdirectories, keep the valid date
   * folders (counting the ones that match the pattern with an impossible
   * date), then move each into its year folder.
   */
  method OrganizeFoldersByYear(fs: Fs, target: Path, dryRun: bool) returns (run: Run, log: seq<Outcome>)
    requires fs.Valid()
    modifies fs
    ensures fs.Valid()
    ensures run.ListingFailed? <==> !IsDirIn(old(fs.entries), target)
    ensures run.NoFolders? <==> IsDirIn(old(fs.entries), target) && ChildDirNames(old(fs.entries), target) == {}
    ensures run.NoDateFolders? <==>
      && IsDirIn(old(fs.entries), target)
      && ChildDirNames(old(fs.entries), target) != {}
      && DateFolderNames(old(fs.entries), target) == {}
    ensures run.NoDateFolders? ==> run.invalid == |InvalidDateNames(old(fs.entries), target)|
    ensures !run.Finished? ==> fs.entries == old(fs.entries) && log == []
    ensures run.Finished? ==> run.stats.dryRun == dryRun
    ensures run.Finished? ==> run.stats.invalid == |InvalidDateNames(old(fs.entries), target)|
    ensures run.Finished? ==>
      && run.stats == Tallied(log, run.stats.invalid, dryRun)
      && run.stats.processed == run.stats.moved == CountMoved(log) == Total(run.stats.years)
      && run.stats.errors == |log| - CountMoved(log)
    ensures run.Finished? ==> LogNames(log) == DateFolderNames(old(fs.entries), target)
    ensures forall k, l :: 0 <= k < l < |log| ==> log[k].name != log[l].name
    ensures forall o :: o in log ==> |o.name| >= 10 && o.year == o.name[..4]
    ensures forall o :: o in log && o.Moved? ==> IsPrefix(target + [o.year], o.dest) && |o.dest| == |target| + 2
    ensures dryRun ==> fs.entries == old(fs.entries) && CountMoved(log) == |log|
    ensures KeptOutsideFolders(old(fs.entries), fs.entries, target, DateFolderNames(old(fs.entries), target))
    ensures !dryRun ==> forall o :: o in log && o.Moved? ==>
      MovedBelow(old(fs.entries), fs.entries, target + [o.name], o.dest)
    ensures forall o :: o in log && o.Failed? ==> KeptBelow(old(fs.entries), fs.entries, target + [o.name])
    ensures forall p :: p in fs.entries && p !in old(fs.entries) ==>
      exists o :: o in log && GrownFrom(target, o, p)
    ensures forall o :: o in log && o.Moved? ==> exists k: nat :: o.dest == Candidate(target + [o.year], o.name, k)
    ensures !dryRun ==> forall o :: o in log && o.Moved? ==> o.dest !in old(fs.entries)
  {
    ghost var m0 := fs.entries;
    log := [];
    if !fs.IsDir(target) {
      return ListingFailed, log;
    }
    var allFolders := ListChildDirs(fs, target);
    if |allFolders| == 0 {
      return NoFolders, log;
    }
    assert allFolders[0] in Elements(allFolders);
    var dateFolders, invalid := SelectDateFolders(allFolders);
    SelectionMeaning(allFolders, m0, target);
    if |dateFolders| == 0 {
      assert FolderNames(dateFolders) == {};
      return NoDateFolders(invalid), log;
    }
    FolderNamesMembers(dateFolders);
    var stats;
    ghost var suffixes;
    stats, log, suffixes := MoveAll(fs, target, DateFolderNames(m0, target), dateFolders, invalid, dryRun);
    RunLog(m0, fs.entries, target, DateFolderNames(m0, target), dateFolders, log, dryRun);
    forall o | o in log && o.Moved?
      ensures exists k: nat :: o.dest == Candidate(target + [o.year], o.name, k)
      ensures !dryRun ==> o.dest !in m0
    {
      var k :| 0 <= k < |log| && log[k] == o;
      assert o.dest == Candidate(target + [o.year], o.name, suffixes[k]);
    }
    TalliedMeaning(log, invalid, dryRun);
    run := Finished(stats);
  }
}
