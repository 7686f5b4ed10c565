/**
 * src/utils.rs: conversion of git timestamps into date-times with a fixed
 * UTC offset, the proleptic Gregorian calendar those date-times are shown
 * in, and the search for the `.repo` folder of a multi-repository checkout,
 * over an abstract view of the file system.
 */
module Utils {
  import opened Wrappers

  // ---------------------------------------------------------------------
  // Paths: a path is its list of components below the root; the root
  // itself is the empty list.
  // ---------------------------------------------------------------------

  type Path = seq<string>

  /** `Path::parent` applied repeatedly: the path itself, its parent, ..., the root. */
  function Ancestors(p: Path): (r: seq<Path>)
    ensures |r| == |p| + 1
    ensures forall k :: 0 <= k < |r| ==> r[k] == p[..|p| - k]
    decreases |p|
  {
    if p == [] then [p] else [p] + Ancestors(p[..|p| - 1])
  }

  /** `Path::file_name`: the last component, absent for the root. */
  function FileName(p: Path): (r: Option<string>)
    ensures r.Some? <==> p != []
    ensures r.Some? ==> p == p[..|p| - 1] + [r.value]
  {
    if p == [] then None else Some(p[|p| - 1])
  }

  // ---------------------------------------------------------------------
  // Time stamps (git2's `Time`: seconds since the epoch and the author's
  // UTC offset in minutes) and chrono's `DateTime<FixedOffset>`.
  // ---------------------------------------------------------------------

  datatype Time = Time(seconds: int, offsetMinutes: int)

  /** An instant (UTC seconds since the epoch) shown at a fixed offset east of UTC. */
  datatype DateTime = DateTime(utcSeconds: int, offsetSeconds: int)

  const SecondsPerDay := 86400

  /**
   * `FixedOffset::east` panics unless the offset is strictly within one day,
   * so every conversion requires this of its time.
   */
  predicate ValidOffset(t: Time) {
    -SecondsPerDay < t.offsetMinutes * 60 < SecondsPerDay
  }

  /** Wall-clock seconds at the date-time's own offset. */
  function LocalSeconds(dt: DateTime): int {
    dt.utcSeconds + dt.offsetSeconds
  }

  /** `as_datetime`: a fixed offset of `offset_minutes * 60` seconds, the instant unchanged. */
  function AsDateTime(t: Time): (dt: DateTime)
    requires ValidOffset(t)
    ensures dt.utcSeconds == t.seconds
    ensures LocalSeconds(dt) - dt.utcSeconds == 60 * t.offsetMinutes
    ensures -SecondsPerDay < dt.offsetSeconds < SecondsPerDay
  {
    DateTime(t.seconds, t.offsetMinutes * 60)
  }

  /** `as_datetime_utc`: the same instant shown at offset 0. */
  function AsDateTimeUtc(t: Time): (dt: DateTime)
    requires ValidOffset(t)
    ensures dt.utcSeconds == AsDateTime(t).utcSeconds
    ensures dt.offsetSeconds == 0 && LocalSeconds(dt) == t.seconds
  {
    var local := AsDateTime(t);
    DateTime(local.utcSeconds, 0)
  }

  /** The offset only changes how an instant is displayed, never which instant it is. */
  lemma UtcIgnoresOffset(t: Time, u: Time)
    requires ValidOffset(t) && ValidOffset(u) && t.seconds == u.seconds
    ensures AsDateTimeUtc(t) == AsDateTimeUtc(u)
    ensures LocalSeconds(AsDateTime(t)) - LocalSeconds(AsDateTime(u)) == 60 * (t.offsetMinutes - u.offsetMinutes)
  {
  }

  // ---------------------------------------------------------------------
  // The proleptic Gregorian calendar, counted in days from 1970-01-01.
  // ---------------------------------------------------------------------

  datatype Date = Date(year: int, month: int, day: int)

  predicate IsLeap(y: int) {
    y % 4 == 0 && (y % 100 != 0 || y % 400 == 0)
  }

  function DaysInYear(y: int): nat {
    if IsLeap(y) then 366 else 365
  }

  function DaysInMonth(y: int, m: int): nat
    requires 1 <= m <= 12
  {
    if m == 2 then (if IsLeap(y) then 29 else 28)
    else if m == 4 || m == 6 || m == 9 || m == 11 then 30
    else 31
  }

  /** Days of year `y` before the first of month `m`. */
  function DaysBeforeMonth(y: int, m: int): (r: nat)
    requires 1 <= m <= 12
    ensures m == 12 ==> r + DaysInMonth(y, m) == DaysInYear(y)
  {
    var common := [0, 31, 59, 90, 120, 151, 181, 212, 243, 273, 304, 334][m - 1];
    if m > 2 && IsLeap(y) then common + 1 else common
  }

  lemma DaysBeforeNextMonth(y: int, m: int)
    requires 1 <= m < 12
    ensures DaysBeforeMonth(y, m + 1) == DaysBeforeMonth(y, m) + DaysInMonth(y, m)
  {
  }

  predicate ValidDate(d: Date) {
    1 <= d.month <= 12 && 1 <= d.day <= DaysInMonth(d.year, d.month)
  }

  /** Days from 1970-01-01 to the first of January of year `y`. */
  function DaysBeforeYear(y: int): int
    decreases if y >= 1970 then y - 1970 else 1970 - y
  {
    if y == 1970 then 0
    else if y > 1970 then DaysBeforeYear(y - 1) + DaysInYear(y - 1)
    else DaysBeforeYear(y + 1) - DaysInYear(y)
  }

  lemma DaysBeforeNextYear(y: int)
    ensures DaysBeforeYear(y + 1) == DaysBeforeYear(y) + DaysInYear(y)
  {
  }

  function DaysFromCivil(d: Date): int
    requires ValidDate(d)
  {
    DaysBeforeYear(d.year) + DaysBeforeMonth(d.year, d.month) + d.day - 1
  }

  /** The date `r` days after the first of month `m` of year `y`, within that year. */
  function MonthDay(y: int, m: int, r: nat): (d: Date)
    requires 1 <= m <= 12 && DaysBeforeMonth(y, m) + r < DaysInYear(y)
    ensures ValidDate(d) && d.year == y
    ensures DaysFromCivil(d) == DaysBeforeYear(y) + DaysBeforeMonth(y, m) + r
    decreases 12 - m
  {
    if r < DaysInMonth(y, m) then Date(y, m, r + 1)
    else
      DaysBeforeNextMonth(y, m);
      MonthDay(y, m + 1, r - DaysInMonth(y, m))
  }

  /** The date `z` days after the first of January of year `y`. */
  function Forward(y: int, z: nat): (d: Date)
    ensures ValidDate(d)
    ensures DaysFromCivil(d) == DaysBeforeYear(y) + z
    decreases z
  {
    if z < DaysInYear(y) then MonthDay(y, 1, z)
    else
      DaysBeforeNextYear(y);
      Forward(y + 1, z - DaysInYear(y))
  }

  /** The date `-z` days before the first of January of year `y`. */
  function Backward(y: int, z: int): (d: Date)
    requires z < 0
    ensures ValidDate(d)
    ensures DaysFromCivil(d) == DaysBeforeYear(y) + z
    decreases -z
  {
    var z' := z + DaysInYear(y - 1);
    DaysBeforeNextYear(y - 1);
    if z' >= 0 then Forward(y - 1, z') else Backward(y - 1, z')
  }

  /** The calendar date of day `z`, counted from 1970-01-01 (day 0). */
  function CivilFromDays(z: int): (d: Date)
    ensures ValidDate(d)
    ensures DaysFromCivil(d) == z
  {
    if z >= 0 then Forward(1970, z) else Backward(1970, z)
  }

  lemma {:induction false} DaysBeforeYearMonotone(a: int, b: int)
    requires a <= b
    ensures DaysBeforeYear(a) + (b - a) * 365 <= DaysBeforeYear(b)
    decreases b - a
  {
    if a < b {
      DaysBeforeYearMonotone(a, b - 1);
      DaysBeforeNextYear(b - 1);
    }
  }

  /** A valid date's day number lies within its own year. */
  lemma DayWithinYear(d: Date)
    requires ValidDate(d)
    ensures DaysBeforeYear(d.year) <= DaysFromCivil(d) < DaysBeforeYear(d.year + 1)
  {
    DaysBeforeNextYear(d.year);
  }

  /** Distinct valid dates have distinct day numbers. */
  lemma DaysFromCivilInjective(d1: Date, d2: Date)
    requires ValidDate(d1) && ValidDate(d2)
    requires DaysFromCivil(d1) == DaysFromCivil(d2)
    ensures d1 == d2
  {
    DayWithinYear(d1);
    DayWithinYear(d2);
    if d1.year < d2.year {
      DaysBeforeYearMonotone(d1.year + 1, d2.year);
      assert false;
    } else if d2.year < d1.year {
      DaysBeforeYearMonotone(d2.year + 1, d1.year);
      assert false;
    }
  }

  /** Every valid date is the calendar date of its own day number. */
  lemma CivilFromDaysFromCivil(d: Date)
    requires ValidDate(d)
    ensures CivilFromDays(DaysFromCivil(d)) == d
  {
    DaysFromCivilInjective(CivilFromDays(DaysFromCivil(d)), d);
  }

  /** Calendar date, hour and minute of a date-time at its own offset. */
  datatype LocalFields = LocalFields(date: Date, hour: int, minute: int)

  function Fields(dt: DateTime): (f: LocalFields)
    ensures ValidDate(f.date)
    ensures 0 <= f.hour < 24 && 0 <= f.minute < 60
    ensures DaysFromCivil(f.date) * SecondsPerDay + f.hour * 3600 + f.minute * 60
              <= LocalSeconds(dt)
              < DaysFromCivil(f.date) * SecondsPerDay + f.hour * 3600 + f.minute * 60 + 60
  {
    var local := LocalSeconds(dt);
    var day := local / SecondsPerDay;
    var secondOfDay := local % SecondsPerDay;
    LocalFields(CivilFromDays(day), secondOfDay / 3600, secondOfDay % 3600 / 60)
  }

  // ---------------------------------------------------------------------
  // The `.repo` search (`find_repo_base_folder`, `find_repo_folder`,
  // `find_project_file`) over an abstract file system.
  // ---------------------------------------------------------------------

  datatype IoError = IoError(message: string)

  /** One entry of a directory listing: its name and whether it is a directory. */
  datatype DirEntry = DirEntry(name: string, isDir: bool)

  /** The outcome of `fs::read_dir`: a failure, or entries each of which may fail to read. */
  datatype Listing = ReadDirFailed(error: IoError) | Entries(entries: seq<Result<DirEntry, IoError>>)

  const RepoDirName := ".repo"
  const ProjectFileName := "project.list"
  const NoRepoFolder := IoError("no .repo folder found")
  const NoProjectList := IoError("no project.list in .repo found")

  predicate IsRepoDir(e: DirEntry) {
    e.isDir && e.name == RepoDirName
  }

  /**
   * Scanning one listing: `Ok(true)` once a `.repo` directory is seen,
   * the first failing entry before that as an error, `Ok(false)` otherwise.
   */
  function ScanListing(l: Listing): Result<bool, IoError> {
    match l
    case ReadDirFailed(e) => Err(e)
    case Entries(es) => ScanEntries(es)
  }

  function ScanEntries(es: seq<Result<DirEntry, IoError>>): Result<bool, IoError>
    decreases |es|
  {
    if es == [] then Ok(false)
    else match es[0]
      case Err(e) => Err(e)
      case Ok(entry) => if IsRepoDir(entry) then Ok(true) else ScanEntries(es[1..])
  }

  /** The search over a list of candidate folders, nearest first. */
  function SearchFolders(candidates: seq<Path>, readDir: Path -> Listing): Result<Path, IoError>
    decreases |candidates|
  {
    if candidates == [] then Err(NoRepoFolder)
    else match ScanListing(readDir(candidates[0]))
      case Err(e) => Err(e)
      case Ok(found) => if found then Ok(candidates[0]) else SearchFolders(candidates[1..], readDir)
  }

  function RepoBaseFolder(cwd: Result<Path, IoError>, readDir: Path -> Listing): Result<Path, IoError> {
    match cwd
    case Err(e) => Err(e)
    case Ok(p) => SearchFolders(Ancestors(p), readDir)
  }

  /**
   * A found folder is the nearest ancestor of the working directory holding
   * a `.repo` directory: every nearer ancestor was read without error and
   * holds none.
   */
  lemma {:induction false} SearchFindsNearest(candidates: seq<Path>, readDir: Path -> Listing)
    requires SearchFolders(candidates, readDir).Ok?
    ensures exists k :: 0 <= k < |candidates|
              && candidates[k] == SearchFolders(candidates, readDir).value
              && ScanListing(readDir(candidates[k])) == Ok(true)
              && forall j :: 0 <= j < k ==> ScanListing(readDir(candidates[j])) == Ok(false)
    decreases |candidates|
  {
    var r := SearchFolders(candidates, readDir);
    if ScanListing(readDir(candidates[0])) == Ok(true) {
      assert candidates[0] == r.value;
    } else {
      var rest := candidates[1..];
      SearchFindsNearest(rest, readDir);
      var k :| 0 <= k < |rest| && rest[k] == r.value
                 && ScanListing(readDir(rest[k])) == Ok(true)
                 && forall j :: 0 <= j < k ==> ScanListing(readDir(rest[j])) == Ok(false);
      assert candidates[k + 1] == rest[k];
      forall j | 0 <= j < k + 1 ensures ScanListing(readDir(candidates[j])) == Ok(false) {
        if j > 0 { assert candidates[j] == rest[j - 1]; }
      }
    }
  }

  /**
   * The search result is decided by the first candidate whose listing is not
   * an error-free "no `.repo` here": found there, or that candidate's error.
   * When there is no such candidate the search fails with "no .repo folder found".
   */
  lemma {:induction false} SearchDecidedByFirst(candidates: seq<Path>, readDir: Path -> Listing, k: nat)
    requires k <= |candidates|
    requires forall j :: 0 <= j < k ==> ScanListing(readDir(candidates[j])) == Ok(false)
    ensures SearchFolders(candidates, readDir) == SearchFolders(candidates[k..], readDir)
    decreases k
  {
    if k > 0 {
      SearchDecidedByFirst(candidates[1..], readDir, k - 1);
      assert candidates[1..][k - 1..] == candidates[k..];
    } else {
      assert candidates[0..] == candidates;
    }
  }

  /** A read error on an ancestor ends the search with that error instead of skipping it. */
  lemma ReadErrorAborts(candidates: seq<Path>, readDir: Path -> Listing, k: nat)
    requires k < |candidates|
    requires forall j :: 0 <= j < k ==> ScanListing(readDir(candidates[j])) == Ok(false)
    requires ScanListing(readDir(candidates[k])).Err?
    ensures SearchFolders(candidates, readDir) == Err(ScanListing(readDir(candidates[k])).error)
  {
    SearchDecidedByFirst(candidates, readDir, k);
  }

  /** With no `.repo` anywhere and no read error the search fails with its own error. */
  lemma NothingFound(candidates: seq<Path>, readDir: Path -> Listing)
    requires forall j :: 0 <= j < |candidates| ==> ScanListing(readDir(candidates[j])) == Ok(false)
    ensures SearchFolders(candidates, readDir) == Err(NoRepoFolder)
  {
    SearchDecidedByFirst(candidates, readDir, |candidates|);
  }

  /** `find_repo_base_folder`: nested loops over the ancestors and their entries, returning early. */
  method FindRepoBaseFolder(cwd: Result<Path, IoError>, readDir: Path -> Listing)
    returns (r: Result<Path, IoError>)
    ensures r == RepoBaseFolder(cwd, readDir)
  {
    if cwd.Err? {
      return Err(cwd.error);
    }
    var ancestors := Ancestors(cwd.value);
    var i := 0;
    while i < |ancestors|
      invariant 0 <= i <= |ancestors|
      invariant SearchFolders(ancestors, readDir) == SearchFolders(ancestors[i..], readDir)
    {
      var parent := ancestors[i];
      assert ancestors[i..][1..] == ancestors[i + 1..];
      var listing := readDir(parent);
      if listing.ReadDirFailed? {
        return Err(listing.error);
      }
      var es := listing.entries;
      var j := 0;
      while j < |es|
        invariant 0 <= j <= |es|
        invariant ScanEntries(es) == ScanEntries(es[j..])
      {
        assert es[j..][1..] == es[j + 1..];
        var entry := es[j];
        if entry.Err? {
          return Err(entry.error);
        }
        if IsRepoDir(entry.value) {
          return Ok(parent);
        }
        j := j + 1;
      }
      i := i + 1;
    }
    return Err(NoRepoFolder);
  }

  /** `find_repo_folder`: the `.repo` folder inside the base folder. */
  method FindRepoFolder(cwd: Result<Path, IoError>, readDir: Path -> Listing)
    returns (r: Result<Path, IoError>)
    ensures RepoBaseFolder(cwd, readDir).Err? ==> r == Err(RepoBaseFolder(cwd, readDir).error)
    ensures RepoBaseFolder(cwd, readDir).Ok? ==> r == Ok(RepoBaseFolder(cwd, readDir).value + [RepoDirName])
  {
    var base := FindRepoBaseFolder(cwd, readDir);
    if base.Err? {
      return Err(base.error);
    }
    return Ok(base.value + [RepoDirName]);
  }

  /** `find_project_file`: `.repo/project.list`, which must be a regular file. */
  method FindProjectFile(cwd: Result<Path, IoError>, readDir: Path -> Listing, isFile: Path -> bool)
    returns (r: Result<Path, IoError>)
    ensures RepoBaseFolder(cwd, readDir).Err? ==> r == Err(RepoBaseFolder(cwd, readDir).error)
    ensures RepoBaseFolder(cwd, readDir).Ok? ==>
              var file := RepoBaseFolder(cwd, readDir).value + [RepoDirName, ProjectFileName];
              r == if isFile(file) then Ok(file) else Err(NoProjectList)
  {
    var folder := FindRepoFolder(cwd, readDir);
    if folder.Err? {
      return Err(folder.error);
    }
    var file := folder.value + [ProjectFileName];
    assert file == RepoBaseFolder(cwd, readDir).value + [RepoDirName, ProjectFileName];
    if isFile(file) {
      return Ok(file);
    }
    return Err(NoProjectList);
  }
}
