/** `rename-photos.rb`: every photo given is moved into
    `PHOTO_DIR/YYYY/YYYY-MM-DD/` under the name `YYYY-MM-DD HH.MM.SS` plus its
    downcased extension, with a letter appended after the timestamp when that
    name is taken. The spec functions (`SearchFrom`, `Process`, `ProcessAll`,
    `Rename`) say what one step and the whole run do to a `Disk`; the methods
    (`FindFreeName`, `ArchivePhoto`, `RenamePhotos`) do it step by step on a
    `FileSystem`, as the script does, and are proved to agree with them. */
module RenamePhotos {
  import opened Wrappers
  import opened Text
  import opened Paths
  import opened PhotoDates
  import opened Naming
  import opened FileSystems

  /** `PHOTO_DIR`, and whether `TEST` is set (no file is moved). */
  datatype Config = Config(photoDir: Path, test: bool)

  /** The lines the script prints for a photo: "File does not exist: ..." or "photo -> newpath". */
  datatype Event = Missing(photo: Path) | Moved(photo: Path, dest: Path)

  /** Why the script stops: `abort "Missing image dir"`, an exception from
      `mkdir_p` (a regular file where a directory must go), or the
      `RangeError` of `chr` when every suffix is taken. */
  datatype Failure = MissingImageDir(dir: Path) | MkdirFailed(dir: Path) | SuffixOutOfRange(photo: Path)

  datatype Result = Logged(event: Event) | Crashed(failure: Failure)

  /** The filesystem after one photo, and what became of it. */
  datatype Transition = Transition(disk: Disk, result: Result)

  datatype Outcome = Finished | Aborted(failure: Failure)

  /** The filesystem after a run, the lines printed, and how the run ended. */
  datatype Report = Report(disk: Disk, log: seq<Event>, outcome: Outcome)

  /** The end of the collision search: the `index`-th candidate is free, or no suffix is left. */
  datatype Search = Found(index: nat, path: Path) | OutOfCharRange

  /** Candidates `lo` up to but excluding `hi` are all occupied. */
  ghost predicate AllTaken(disk: Disk, outdir: Path, base: string, extension: string, lo: nat, hi: nat)
    requires hi <= LastCandidate + 1
  {
    forall j :: lo <= j < hi ==> disk.Occupied(Candidate(outdir, base, extension, j))
  }

  /** The collision search from candidate `k` on: the first free candidate. */
  function SearchFrom(disk: Disk, outdir: Path, base: string, extension: string, k: nat): (r: Search)
    requires k <= LastCandidate + 1
    ensures r.Found? ==> k <= r.index <= LastCandidate && r.path == Candidate(outdir, base, extension, r.index)
    ensures r.Found? ==> !disk.Occupied(r.path) && AllTaken(disk, outdir, base, extension, k, r.index)
    ensures r.OutOfCharRange? ==> AllTaken(disk, outdir, base, extension, k, LastCandidate + 1)
    decreases LastCandidate + 1 - k
  {
    if k > LastCandidate then OutOfCharRange
    else if !disk.Occupied(Candidate(outdir, base, extension, k)) then Found(k, Candidate(outdir, base, extension, k))
    else SearchFrom(disk, outdir, base, extension, k + 1)
  }

  /** The search result is determined by which candidates are occupied: a free
      candidate with every earlier one taken is the one it finds. */
  lemma SearchFindsFirstFree(disk: Disk, outdir: Path, base: string, extension: string, k: nat)
    requires k <= LastCandidate
    requires !disk.Occupied(Candidate(outdir, base, extension, k)) && AllTaken(disk, outdir, base, extension, 0, k)
    ensures SearchFrom(disk, outdir, base, extension, 0) == Found(k, Candidate(outdir, base, extension, k))
  {
  }

  /** The candidates `0 .. n - 1` as a set. */
  ghost function CandidateSet(outdir: Path, base: string, extension: string, n: nat): (s: set<Path>)
    requires n <= LastCandidate + 1
    ensures forall j :: 0 <= j < n ==> Candidate(outdir, base, extension, j) in s
  {
    if n == 0 then {} else CandidateSet(outdir, base, extension, n - 1) + {Candidate(outdir, base, extension, n - 1)}
  }

  lemma {:induction false} CandidateSetSize(outdir: Path, base: string, extension: string, n: nat)
    requires n <= LastCandidate + 1
    ensures |CandidateSet(outdir, base, extension, n)| == n
  {
    if n > 0 {
      CandidateSetSize(outdir, base, extension, n - 1);
      var c := Candidate(outdir, base, extension, n - 1);
      if c in CandidateSet(outdir, base, extension, n - 1) {
        CandidateSetMembers(outdir, base, extension, n - 1);
        var j :| 0 <= j < n - 1 && c == Candidate(outdir, base, extension, j);
        CandidatesDistinct(outdir, base, extension, j, n - 1);
      }
    }
  }

  /** The first `n` candidates are all the set holds. */
  lemma {:induction false} CandidateSetMembers(outdir: Path, base: string, extension: string, n: nat)
    requires n <= LastCandidate + 1
    ensures forall p :: p in CandidateSet(outdir, base, extension, n) ==>
      exists j :: 0 <= j < n && p == Candidate(outdir, base, extension, j)
  {
    if n > 0 {
      CandidateSetMembers(outdir, base, extension, n - 1);
    }
  }

  lemma SubsetSize<T>(a: set<T>, b: set<T>)
    requires a <= b
    ensures |a| <= |b|
  {
    assert b == a + (b - a);
  }

  /** The search can only run out of suffixes when at least 159 paths are
      taken: the candidates are pairwise distinct, so with fewer occupied
      paths one of them is free. */
  lemma SearchSucceedsWhenFewPathsTaken(disk: Disk, outdir: Path, base: string, extension: string)
    requires |disk.files + disk.dirs| <= LastCandidate
    ensures SearchFrom(disk, outdir, base, extension, 0).Found?
  {
    var all := CandidateSet(outdir, base, extension, LastCandidate + 1);
    CandidateSetSize(outdir, base, extension, LastCandidate + 1);
    CandidateSetMembers(outdir, base, extension, LastCandidate + 1);
    if SearchFrom(disk, outdir, base, extension, 0).OutOfCharRange? {
      forall p | p in all ensures p in disk.files + disk.dirs {
        var j :| 0 <= j < LastCandidate + 1 && p == Candidate(outdir, base, extension, j);
      }
      SubsetSize(all, disk.files + disk.dirs);
      assert false;
    }
  }

  /** `FileUtils.mkdir_p(outdir) unless File.directory?(outdir)`: the
      directory of the photo's day is there afterwards, and nothing changes
      when it already was; otherwise the day's directory and its year
      directory are both made. `None` where `mkdir_p` raises. */
  function MakeOutDir(disk: Disk, photoDir: Path, date: Date): (r: Option<Disk>)
    ensures r.None? <==> OutDir(photoDir, date) !in disk.dirs
                         && (YearDir(photoDir, date) in disk.files || OutDir(photoDir, date) in disk.files)
    ensures r.Some? ==> r.value.files == disk.files && disk.dirs <= r.value.dirs && OutDir(photoDir, date) in r.value.dirs
    ensures r.Some? ==> r.value.dirs <= disk.dirs + {YearDir(photoDir, date), OutDir(photoDir, date)}
    ensures OutDir(photoDir, date) in disk.dirs ==> r == Some(disk)
    ensures r.Some? && OutDir(photoDir, date) !in disk.dirs ==>
      r.value.dirs == disk.dirs + {YearDir(photoDir, date), OutDir(photoDir, date)}
  {
    var outdir := OutDir(photoDir, date);
    if outdir in disk.dirs then Some(disk)
    else
      var chain := {YearDir(photoDir, date), outdir};
      if chain !! disk.files then Some(Disk(disk.files, disk.dirs + chain)) else None
  }

  /** One pass of the `for photo in photos` loop, with `date` what
      `photo_date` gives for the photo. */
  function Process(disk: Disk, cfg: Config, photo: Path, date: Date): Transition {
    if photo !in disk.files then Transition(disk, Logged(Missing(photo)))
    else
      var outdir := OutDir(cfg.photoDir, date);
      match MakeOutDir(disk, cfg.photoDir, date)
      case None => Transition(disk, Crashed(MkdirFailed(outdir)))
      case Some(made) =>
        match SearchFrom(made, outdir, FileName(date), ExtName(photo), 0)
        case OutOfCharRange => Transition(made, Crashed(SuffixOutOfRange(photo)))
        case Found(_, dest) =>
          var after := if cfg.test then made else Disk(made.files - {photo} + {dest}, made.dirs);
          Transition(after, Logged(Moved(photo, dest)))
  }

  function Prepend(log: seq<Event>, r: Report): Report {
    Report(r.disk, log + r.log, r.outcome)
  }

  /** The loop over all photos, in order; it stops at the first failure. */
  function ProcessAll(disk: Disk, cfg: Config, photos: seq<Path>, sips: Path -> Option<string>, mtime: Path -> Date): Report
    decreases |photos|
  {
    if photos == [] then Report(disk, [], Finished)
    else
      var t := Process(disk, cfg, photos[0], PhotoDate(sips(photos[0]), mtime(photos[0])));
      match t.result
      case Crashed(f) => Report(t.disk, [], Aborted(f))
      case Logged(e) => Prepend([e], ProcessAll(t.disk, cfg, photos[1..], sips, mtime))
  }

  /** The whole script: the `PHOTO_DIR` check first, then the photos named on
      the command line or, when there are none, the entries of `UPLOAD_DIR`. */
  function Rename(disk: Disk, cfg: Config, argv: seq<Path>, staged: seq<Path>,
                  sips: Path -> Option<string>, mtime: Path -> Date): Report
  {
    if cfg.photoDir !in disk.dirs then Report(disk, [], Aborted(MissingImageDir(cfg.photoDir)))
    else ProcessAll(disk, cfg, if |argv| > 0 then argv else staged, sips, mtime)
  }

  /** The `while File.exists?(newpath)` loop. */
  method FindFreeName(fs: FileSystem, outdir: Path, date: Date, extension: string) returns (r: Search)
    ensures r == SearchFrom(fs.Snapshot(), outdir, FileName(date), extension, 0)
    ensures r.Found? ==> !fs.Exists(r.path)
  {
    ghost var base := FileName(date);
    var newname := FileName(date);
    var newpath := MakePath(outdir, newname, extension);
    var suffix := 'a' as int;
    while fs.Exists(newpath)
      invariant 'a' as int <= suffix <= 255
      invariant newpath == Candidate(outdir, base, extension, suffix - 'a' as int)
      invariant AllTaken(fs.Snapshot(), outdir, base, extension, 0, suffix - 'a' as int)
      decreases 255 - suffix
    {
      newname := FileName(date) + [suffix as char];
      if suffix + 1 > 255 {
        // `(suffix.ord+1).chr` raises RangeError
        return OutOfCharRange;
      }
      suffix := suffix + 1;
      newpath := MakePath(outdir, newname, extension);
    }
    SearchFindsFirstFree(fs.Snapshot(), outdir, base, extension, suffix - 'a' as int);
    return Found(suffix - 'a' as int, newpath);
  }

  /** The body of the `for photo in photos` loop. */
  method ArchivePhoto(fs: FileSystem, cfg: Config, photo: Path, sips: Option<string>, mtime: Date) returns (r: Result)
    requires fs.Valid()
    modifies fs
    ensures fs.Valid()
    ensures Transition(fs.Snapshot(), r) == Process(old(fs.Snapshot()), cfg, photo, PhotoDate(sips, mtime))
  {
    if !fs.IsFile(photo) {
      return Logged(Missing(photo));
    }
    var date := PhotoDate(sips, mtime);
    var extension := ExtName(photo);
    var outdir := OutDir(cfg.photoDir, date);
    if !fs.IsDirectory(outdir) {
      var ok := fs.MakeDirs({YearDir(cfg.photoDir, date), outdir});
      if !ok {
        return Crashed(MkdirFailed(outdir));
      }
    }
    var found := FindFreeName(fs, outdir, date, extension);
    if found.OutOfCharRange? {
      return Crashed(SuffixOutOfRange(photo));
    }
    var newpath := found.path;
    // The guard `abort "File exists somehow"` never fires: the search has just found the path free.
    assert !fs.Exists(newpath);
    if !cfg.test {
      fs.Move(photo, newpath);
    }
    return Logged(Moved(photo, newpath));
  }

  /** The script from its sanity check on. */
  method RenamePhotos(fs: FileSystem, cfg: Config, argv: seq<Path>, staged: seq<Path>,
                      sips: Path -> Option<string>, mtime: Path -> Date)
    returns (log: seq<Event>, outcome: Outcome)
    requires fs.Valid()
    modifies fs
    ensures fs.Valid()
    ensures Report(fs.Snapshot(), log, outcome) == Rename(old(fs.Snapshot()), cfg, argv, staged, sips, mtime)
  {
    if !fs.IsDirectory(cfg.photoDir) {
      return [], Aborted(MissingImageDir(cfg.photoDir));
    }
    var photos := if |argv| > 0 then argv else staged;
    ghost var start := fs.Snapshot();
    log := [];
    var i := 0;
    while i < |photos|
      invariant 0 <= i <= |photos|
      invariant fs.Valid()
      invariant ProcessAll(start, cfg, photos, sips, mtime) == Prepend(log, ProcessAll(fs.Snapshot(), cfg, photos[i..], sips, mtime))
    {
      var r := ArchivePhoto(fs, cfg, photos[i], sips(photos[i]), mtime(photos[i]));
      assert photos[i..][1..] == photos[i + 1..];
      if r.Crashed? {
        return log, Aborted(r.failure);
      }
      log := log + [r.event];
      i := i + 1;
    }
    return log, Finished;
  }

  /** A path that is not a regular file is reported missing and the
      filesystem is left as it is ... */
  lemma MissingPhotoIsSkipped(disk: Disk, cfg: Config, photo: Path, date: Date)
    requires photo !in disk.files
    ensures Process(disk, cfg, photo, date) == Transition(disk, Logged(Missing(photo)))
  {
  }

  /** ... and the run goes on with the next photo. */
  lemma RunContinuesAfterMissing(disk: Disk, cfg: Config, photos: seq<Path>, sips: Path -> Option<string>, mtime: Path -> Date)
    requires photos != [] && photos[0] !in disk.files
    ensures ProcessAll(disk, cfg, photos, sips, mtime) == Prepend([Missing(photos[0])], ProcessAll(disk, cfg, photos[1..], sips, mtime))
  {
  }

  /** Without `PHOTO_DIR` the script stops before it looks at any photo: no
      line is printed and nothing on disk changes. */
  lemma RenameNeedsPhotoDir(disk: Disk, cfg: Config, argv: seq<Path>, staged: seq<Path>,
                            sips: Path -> Option<string>, mtime: Path -> Date)
    requires cfg.photoDir !in disk.dirs
    ensures Rename(disk, cfg, argv, staged, sips, mtime) == Report(disk, [], Aborted(MissingImageDir(cfg.photoDir)))
  {
  }

  /** The photos named on the command line are the ones processed; the
      entries of `UPLOAD_DIR` are read only when there are none. */
  lemma ArgvBeforeStaged(disk: Disk, cfg: Config, argv: seq<Path>, s1: seq<Path>, s2: seq<Path>,
                         sips: Path -> Option<string>, mtime: Path -> Date)
    ensures |argv| > 0 ==> Rename(disk, cfg, argv, s1, sips, mtime) == Rename(disk, cfg, argv, s2, sips, mtime)
    ensures Rename(disk, cfg, [], s1, sips, mtime) == Rename(disk, cfg, s1, s2, sips, mtime) || s1 == []
  {
  }

  /** A candidate is longer than the directories `mkdir_p` makes for it, so
      making them never occupies a candidate. */
  lemma CandidateIsNotMadeDir(photoDir: Path, date: Date, extension: string, j: nat)
    requires j <= LastCandidate
    ensures var c := Candidate(OutDir(photoDir, date), FileName(date), extension, j);
      c != OutDir(photoDir, date) && c != YearDir(photoDir, date)
  {
    MakePathParts(OutDir(photoDir, date), CandidateName(FileName(date), j), extension);
  }

  /** A photo that is moved goes to the first free candidate in the directory
      of its day: the path was free before the step (so no file is
      overwritten) and every earlier candidate was taken. */
  lemma MovedToFirstFreeName(disk: Disk, cfg: Config, photo: Path, date: Date)
    requires Process(disk, cfg, photo, date).result.Logged?
    requires Process(disk, cfg, photo, date).result.event.Moved?
    ensures var e := Process(disk, cfg, photo, date).result.event;
      && e.photo == photo && photo in disk.files && !disk.Occupied(e.dest) && e.dest != photo
      && exists k :: 0 <= k <= LastCandidate
                     && e.dest == Candidate(OutDir(cfg.photoDir, date), FileName(date), ExtName(photo), k)
                     && AllTaken(disk, OutDir(cfg.photoDir, date), FileName(date), ExtName(photo), 0, k)
  {
    var outdir, base, ext := OutDir(cfg.photoDir, date), FileName(date), ExtName(photo);
    var made := MakeOutDir(disk, cfg.photoDir, date).value;
    var r := SearchFrom(made, outdir, base, ext, 0);
    MadeDirsAreNoCandidates(disk, cfg.photoDir, date, ext);
    assert AllTaken(disk, outdir, base, ext, 0, r.index);
  }

  /** What `mkdir_p` makes is never one of the candidates, so it does not
      change which of them are taken. */
  lemma MadeDirsAreNoCandidates(disk: Disk, photoDir: Path, date: Date, extension: string)
    requires MakeOutDir(disk, photoDir, date).Some?
    ensures forall j :: 0 <= j <= LastCandidate ==>
      var c := Candidate(OutDir(photoDir, date), FileName(date), extension, j);
      MakeOutDir(disk, photoDir, date).value.Occupied(c) == disk.Occupied(c)
  {
    forall j | 0 <= j <= LastCandidate {
      CandidateIsNotMadeDir(photoDir, date, extension, j);
    }
  }

  /** The converse: a photo whose directory can be made, and whose `k`-th
      candidate is the first free one, is moved to that candidate. */
  lemma MovedToFreeCandidate(disk: Disk, cfg: Config, photo: Path, date: Date, k: nat)
    requires photo in disk.files && MakeOutDir(disk, cfg.photoDir, date).Some? && k <= LastCandidate
    requires !disk.Occupied(Candidate(OutDir(cfg.photoDir, date), FileName(date), ExtName(photo), k))
    requires AllTaken(disk, OutDir(cfg.photoDir, date), FileName(date), ExtName(photo), 0, k)
    ensures var dest := Candidate(OutDir(cfg.photoDir, date), FileName(date), ExtName(photo), k);
      Process(disk, cfg, photo, date) == Transition(
        Disk(if cfg.test then disk.files else disk.files - {photo} + {dest}, MakeOutDir(disk, cfg.photoDir, date).value.dirs),
        Logged(Moved(photo, dest)))
  {
    var outdir, base, ext := OutDir(cfg.photoDir, date), FileName(date), ExtName(photo);
    var made := MakeOutDir(disk, cfg.photoDir, date).value;
    MadeDirsAreNoCandidates(disk, cfg.photoDir, date, ext);
    assert AllTaken(made, outdir, base, ext, 0, k);
    SearchFindsFirstFree(made, outdir, base, ext, k);
  }

  /** After a move, the day's directory exists, no directory has gone, and
      the only change to the files is the move itself (none at all under
      `TEST`). */
  lemma MoveChangesOnlyThePhoto(disk: Disk, cfg: Config, photo: Path, date: Date)
    requires Process(disk, cfg, photo, date).result.Logged?
    requires Process(disk, cfg, photo, date).result.event.Moved?
    ensures var t := Process(disk, cfg, photo, date);
      && disk.dirs <= t.disk.dirs && OutDir(cfg.photoDir, date) in t.disk.dirs
      && t.disk.files == (if cfg.test then disk.files else disk.files - {photo} + {t.result.event.dest})
  {
    var m := MakeOutDir(disk, cfg.photoDir, date);
    assert m.Some?;
  }

  /** Where the day's directory is already there, no directory is made. */
  lemma ExistingOutDirIsReused(disk: Disk, cfg: Config, photo: Path, date: Date)
    requires OutDir(cfg.photoDir, date) in disk.dirs
    ensures Process(disk, cfg, photo, date).disk.dirs == disk.dirs
  {
  }

  /** A step keeps files and directories apart. */
  lemma ProcessKeepsValid(disk: Disk, cfg: Config, photo: Path, date: Date)
    requires disk.Valid()
    ensures Process(disk, cfg, photo, date).disk.Valid()
  {
    if photo in disk.files {
      var outdir := OutDir(cfg.photoDir, date);
      var m := MakeOutDir(disk, cfg.photoDir, date);
      if m.Some? {
        var made := m.value;
        assert made.Valid();
        var r := SearchFrom(made, outdir, FileName(date), ExtName(photo), 0);
        if r.Found? {
          assert !made.Occupied(r.path);
        }
      }
    }
  }

  lemma MoveKeepsSize<T>(s: set<T>, x: T, y: T)
    requires x in s && y !in s
    ensures |s - {x} + {y}| == |s|
  {
    assert s == (s - {x}) + {x};
  }

  /** A step never changes the number of files: nothing is overwritten and nothing is lost. */
  lemma ProcessKeepsFileCount(disk: Disk, cfg: Config, photo: Path, date: Date)
    ensures |Process(disk, cfg, photo, date).disk.files| == |disk.files|
  {
    var t := Process(disk, cfg, photo, date);
    if t.result.Logged? && t.result.event.Moved? && !cfg.test {
      MovedToFirstFreeName(disk, cfg, photo, date);
      MoveKeepsSize(disk.files, photo, t.result.event.dest);
    }
  }

  /** Over a whole run the number of files stays the same. */
  lemma {:induction false} RunKeepsFileCount(disk: Disk, cfg: Config, photos: seq<Path>, sips: Path -> Option<string>, mtime: Path -> Date)
    ensures |ProcessAll(disk, cfg, photos, sips, mtime).disk.files| == |disk.files|
    decreases |photos|
  {
    if photos != [] {
      var t := Process(disk, cfg, photos[0], PhotoDate(sips(photos[0]), mtime(photos[0])));
      ProcessKeepsFileCount(disk, cfg, photos[0], PhotoDate(sips(photos[0]), mtime(photos[0])));
      RunKeepsFileCount(t.disk, cfg, photos[1..], sips, mtime);
    }
  }

  /** Under `TEST` no file is moved, however many photos there are. */
  lemma {:induction false} TestRunMovesNothing(disk: Disk, cfg: Config, photos: seq<Path>, sips: Path -> Option<string>, mtime: Path -> Date)
    requires cfg.test
    ensures ProcessAll(disk, cfg, photos, sips, mtime).disk.files == disk.files
    decreases |photos|
  {
    if photos != [] {
      var t := Process(disk, cfg, photos[0], PhotoDate(sips(photos[0]), mtime(photos[0])));
      TestRunMovesNothing(t.disk, cfg, photos[1..], sips, mtime);
    }
  }

  /** Directories are only ever added, and files and directories stay apart. */
  lemma {:induction false} RunOnlyAddsDirectories(disk: Disk, cfg: Config, photos: seq<Path>, sips: Path -> Option<string>, mtime: Path -> Date)
    requires disk.Valid()
    ensures disk.dirs <= ProcessAll(disk, cfg, photos, sips, mtime).disk.dirs
    ensures ProcessAll(disk, cfg, photos, sips, mtime).disk.Valid()
    decreases |photos|
  {
    if photos != [] {
      var t := Process(disk, cfg, photos[0], PhotoDate(sips(photos[0]), mtime(photos[0])));
      ProcessKeepsValid(disk, cfg, photos[0], PhotoDate(sips(photos[0]), mtime(photos[0])));
      RunOnlyAddsDirectories(t.disk, cfg, photos[1..], sips, mtime);
    }
  }

  /** The first candidate for a `.png` photo, whatever the case of its extension. */
  lemma FirstPngCandidate(photoDir: Path, d: Date, p: Path, first: Path)
    requires Lower(ExtName(p)) == ".png" && first == OutDir(photoDir, d) + "/" + FileName(d) + ".png"
    ensures Candidate(OutDir(photoDir, d), FileName(d), ExtName(p), 0) == first
    ensures first != OutDir(photoDir, d) && first != YearDir(photoDir, d)
  {
    CandidateIsNotMadeDir(photoDir, d, ExtName(p), 0);
  }

  /** The second candidate for a `.png` photo carries the suffix `a`. */
  lemma SecondPngIsNext(outdir: Path, base: string, extension: string, second: Path)
    requires Lower(extension) == ".png" && second == outdir + "/" + base + "a.png"
    ensures Candidate(outdir, base, extension, 1) == second
    ensures Candidate(outdir, base, extension, 0) != second
  {
    assert SuffixChar(1) == 'a';
    assert outdir + "/" + (base + ['a']) + ".png" == second;
    CandidatesDistinct(outdir, base, extension, 0, 1);
  }

  /** A `.png` shot of a new day goes to the day's first candidate, and its
      directories are made. */
  lemma FirstShotOfTheDay(disk: Disk, cfg: Config, photo: Path, d: Date, first: Path)
    requires !cfg.test && photo in disk.files && Lower(ExtName(photo)) == ".png"
    requires YearDir(cfg.photoDir, d) !in disk.files && !disk.Occupied(OutDir(cfg.photoDir, d))
    requires first == OutDir(cfg.photoDir, d) + "/" + FileName(d) + ".png" && !disk.Occupied(first)
    ensures Process(disk, cfg, photo, d) == Transition(
      Disk(disk.files - {photo} + {first}, disk.dirs + {YearDir(cfg.photoDir, d), OutDir(cfg.photoDir, d)}),
      Logged(Moved(photo, first)))
  {
    FirstPngCandidate(cfg.photoDir, d, photo, first);
    assert MakeOutDir(disk, cfg.photoDir, d) == Some(Disk(disk.files, disk.dirs + {YearDir(cfg.photoDir, d), OutDir(cfg.photoDir, d)}));
    MovedToFreeCandidate(disk, cfg, photo, d, 0);
  }

  /** A second `.png` shot of the same second, once the first has taken the
      plain name, goes to the name with suffix `a`. */
  lemma SecondShotOfTheSecond(disk: Disk, cfg: Config, photo: Path, d: Date, first: Path, second: Path)
    requires !cfg.test && photo in disk.files && Lower(ExtName(photo)) == ".png"
    requires OutDir(cfg.photoDir, d) in disk.dirs
    requires first == OutDir(cfg.photoDir, d) + "/" + FileName(d) + ".png" && first in disk.files
    requires second == OutDir(cfg.photoDir, d) + "/" + FileName(d) + "a.png" && !disk.Occupied(second)
    ensures Process(disk, cfg, photo, d) == Transition(Disk(disk.files - {photo} + {second}, disk.dirs), Logged(Moved(photo, second)))
  {
    var outdir, base := OutDir(cfg.photoDir, d), FileName(d);
    FirstPngCandidate(cfg.photoDir, d, photo, first);
    SecondPngIsNext(outdir, base, ExtName(photo), second);
    assert AllTaken(disk, outdir, base, ExtName(photo), 0, 1) by {
      assert disk.Occupied(Candidate(outdir, base, ExtName(photo), 0));
    }
    MovedToFreeCandidate(disk, cfg, photo, d, 1);
  }

  /** Candidates depend on the extension only up to case. */
  lemma CandidateFoldsCase(outdir: Path, base: string, e1: string, e2: string, j: nat)
    requires j <= LastCandidate && Lower(e1) == Lower(e2)
    ensures Candidate(outdir, base, e1, j) == Candidate(outdir, base, e2, j)
  {
  }

  /** A photo of a batch whose first `k` candidates are taken and whose
      `k`-th is free is moved to the `k`-th. */
  lemma BatchStep(disk: Disk, cfg: Config, p: Path, d: Date, ext: string, k: nat)
    requires !cfg.test && p in disk.files && k <= LastCandidate && Lower(ExtName(p)) == Lower(ext)
    requires MakeOutDir(disk, cfg.photoDir, d).Some?
    requires AllTaken(disk, OutDir(cfg.photoDir, d), FileName(d), ext, 0, k)
    requires !disk.Occupied(Candidate(OutDir(cfg.photoDir, d), FileName(d), ext, k))
    ensures var c := Candidate(OutDir(cfg.photoDir, d), FileName(d), ext, k);
      Process(disk, cfg, p, d) == Transition(
        Disk(disk.files - {p} + {c}, MakeOutDir(disk, cfg.photoDir, d).value.dirs), Logged(Moved(p, c)))
  {
    var outdir, base := OutDir(cfg.photoDir, d), FileName(d);
    forall j | 0 <= j <= k
      ensures Candidate(outdir, base, ExtName(p), j) == Candidate(outdir, base, ext, j)
    {
      CandidateFoldsCase(outdir, base, ExtName(p), ext, j);
    }
    MovedToFreeCandidate(disk, cfg, p, d, k);
  }

  /** A run of steps that each log an event: the loop goes through all of
      them and finishes. */
  lemma {:induction false} ProcessAllChain(disks: seq<Disk>, cfg: Config, ps: seq<Path>, sips: Path -> Option<string>,
                                           mtime: Path -> Date, log: seq<Event>)
    requires |disks| == |ps| + 1 && |log| == |ps|
    requires forall i :: 0 <= i < |ps| ==>
      Process(disks[i], cfg, ps[i], PhotoDate(sips(ps[i]), mtime(ps[i]))) == Transition(disks[i + 1], Logged(log[i]))
    ensures ProcessAll(disks[0], cfg, ps, sips, mtime) == Report(disks[|ps|], log, Finished)
    decreases |ps|
  {
    if ps != [] {
      var ds, rest, more := disks[1..], ps[1..], log[1..];
      forall i | 0 <= i < |rest|
        ensures Process(ds[i], cfg, rest[i], PhotoDate(sips(rest[i]), mtime(rest[i]))) == Transition(ds[i + 1], Logged(more[i]))
      {
        assert ds[i] == disks[i + 1] && ds[i + 1] == disks[i + 2] && rest[i] == ps[i + 1] && more[i] == log[i + 1];
      }
      ProcessAllChain(ds, cfg, rest, sips, mtime, more);
      assert log == [log[0]] + more;
    }
  }

  /** The disk once the first `i` photos of a batch are moved: they are gone,
      candidates `0 .. i - 1` are there, and from the first move on the
      day's directory is made. */
  ghost function BatchDisk(disk: Disk, photoDir: Path, d: Date, ext: string, ps: seq<Path>, i: nat): Disk
    requires i <= |ps| <= LastCandidate + 1 && MakeOutDir(disk, photoDir, d).Some?
  {
    Disk(disk.files - (set j | 0 <= j < i :: ps[j]) + CandidateSet(OutDir(photoDir, d), FileName(d), ext, i),
         if i == 0 then disk.dirs else MakeOutDir(disk, photoDir, d).value.dirs)
  }

  /** What a batch of shots of one second asks of the disk: at most
      `LastCandidate + 1` distinct photos, all there, of date `d` and of
      extension `ext` up to case, the day's directory can be made, and the
      first `|ps|` candidates are free. */
  ghost predicate Batch(disk: Disk, photoDir: Path, ps: seq<Path>, sips: Path -> Option<string>, mtime: Path -> Date,
                        d: Date, ext: string)
  {
    && |ps| <= LastCandidate + 1
    && MakeOutDir(disk, photoDir, d).Some?
    && (forall i :: 0 <= i < |ps| ==>
          ps[i] in disk.files && PhotoDate(sips(ps[i]), mtime(ps[i])) == d && Lower(ExtName(ps[i])) == Lower(ext))
    && (forall i, j :: 0 <= i < j < |ps| ==> ps[i] != ps[j])
    && (forall j :: 0 <= j < |ps| ==> !disk.Occupied(Candidate(OutDir(photoDir, d), FileName(d), ext, j)))
  }

  /** The elements of `ps[..i + 1]` are those of `ps[..i]` and `ps[i]`. */
  lemma PrefixSetStep<T>(ps: seq<T>, i: nat)
    requires i < |ps|
    ensures (set j | 0 <= j < i + 1 :: ps[j]) == (set j | 0 <= j < i :: ps[j]) + {ps[i]}
  {
  }

  /** The `i`-th photo of a batch goes to the `i`-th candidate. */
  lemma BatchStepAt(disk: Disk, cfg: Config, ps: seq<Path>, sips: Path -> Option<string>, mtime: Path -> Date,
                    d: Date, ext: string, i: nat)
    requires !cfg.test && Batch(disk, cfg.photoDir, ps, sips, mtime, d, ext) && i < |ps|
    ensures Process(BatchDisk(disk, cfg.photoDir, d, ext, ps, i), cfg, ps[i], d)
         == Transition(BatchDisk(disk, cfg.photoDir, d, ext, ps, i + 1),
                       Logged(Moved(ps[i], Candidate(OutDir(cfg.photoDir, d), FileName(d), ext, i))))
  {
    var outdir, base := OutDir(cfg.photoDir, d), FileName(d);
    var made := MakeOutDir(disk, cfg.photoDir, d).value;
    var cur := BatchDisk(disk, cfg.photoDir, d, ext, ps, i);
    var p, c := ps[i], Candidate(outdir, base, ext, i);
    var done := set j | 0 <= j < i :: ps[j];
    assert p !in done;
    CandidateSetMembers(outdir, base, ext, i);
    assert p !in CandidateSet(outdir, base, ext, i);
    assert c !in CandidateSet(outdir, base, ext, i) by {
      if c in CandidateSet(outdir, base, ext, i) {
        var j :| 0 <= j < i && c == Candidate(outdir, base, ext, j);
        CandidatesDistinct(outdir, base, ext, j, i);
      }
    }
    CandidateIsNotMadeDir(cfg.photoDir, d, ext, i);
    if i == 0 {
      assert cur == disk;
    } else {
      assert MakeOutDir(cur, cfg.photoDir, d) == Some(cur);
    }
    assert MakeOutDir(cur, cfg.photoDir, d).value.dirs == made.dirs;
    assert !cur.Occupied(c);
    BatchStep(cur, cfg, p, d, ext, i);
    PrefixSetStep(ps, i);
    assert CandidateSet(outdir, base, ext, i + 1) == CandidateSet(outdir, base, ext, i) + {c};
  }

  /** The loop over a batch moves photo after photo, along `BatchDisk`. */
  lemma BatchRun(disk: Disk, cfg: Config, ps: seq<Path>, sips: Path -> Option<string>, mtime: Path -> Date,
                 d: Date, ext: string)
    requires !cfg.test && Batch(disk, cfg.photoDir, ps, sips, mtime, d, ext)
    ensures var r := ProcessAll(disk, cfg, ps, sips, mtime);
      && r.outcome == Finished && r.disk == BatchDisk(disk, cfg.photoDir, d, ext, ps, |ps|) && |r.log| == |ps|
      && forall i :: 0 <= i < |ps| ==> r.log[i] == Moved(ps[i], Candidate(OutDir(cfg.photoDir, d), FileName(d), ext, i))
  {
    var photoDir := cfg.photoDir;
    var disks := seq(|ps| + 1, i requires 0 <= i <= |ps| => BatchDisk(disk, photoDir, d, ext, ps, i));
    var log := seq(|ps|, i requires 0 <= i < |ps| => Moved(ps[i], Candidate(OutDir(photoDir, d), FileName(d), ext, i)));
    forall i | 0 <= i < |ps|
      ensures Process(disks[i], cfg, ps[i], PhotoDate(sips(ps[i]), mtime(ps[i]))) == Transition(disks[i + 1], Logged(log[i]))
    {
      BatchStepAt(disk, cfg, ps, sips, mtime, d, ext, i);
    }
    assert disks[0] == disk;
    ProcessAllChain(disks, cfg, ps, sips, mtime, log);
  }

  /** A batch of shots of one second, whose extensions agree ignoring case,
      all land in the day's directory in input order: the `i`-th is moved to
      candidate `i` (the plain name first, then the suffixes `a`, `b`, ...),
      the run finishes, and the files change by exactly these moves. */
  lemma ShotsOfOneSecond(disk: Disk, cfg: Config, ps: seq<Path>, sips: Path -> Option<string>, mtime: Path -> Date,
                         d: Date, ext: string)
    requires !cfg.test && cfg.photoDir in disk.dirs && |ps| <= LastCandidate + 1
    requires OutDir(cfg.photoDir, d) in disk.dirs
          || (YearDir(cfg.photoDir, d) !in disk.files && OutDir(cfg.photoDir, d) !in disk.files)
    requires forall i :: 0 <= i < |ps| ==>
      ps[i] in disk.files && PhotoDate(sips(ps[i]), mtime(ps[i])) == d && Lower(ExtName(ps[i])) == Lower(ext)
    requires forall i, j :: 0 <= i < j < |ps| ==> ps[i] != ps[j]
    requires forall j :: 0 <= j < |ps| ==> !disk.Occupied(Candidate(OutDir(cfg.photoDir, d), FileName(d), ext, j))
    ensures var r := Rename(disk, cfg, ps, [], sips, mtime);
      && r.outcome == Finished && |r.log| == |ps|
      && (forall i :: 0 <= i < |ps| ==> r.log[i] == Moved(ps[i], Candidate(OutDir(cfg.photoDir, d), FileName(d), ext, i)))
      && r.disk.files == disk.files - (set q | q in ps) + CandidateSet(OutDir(cfg.photoDir, d), FileName(d), ext, |ps|)
      && r.disk.dirs == if ps == [] || OutDir(cfg.photoDir, d) in disk.dirs then disk.dirs
                        else disk.dirs + {YearDir(cfg.photoDir, d), OutDir(cfg.photoDir, d)}
  {
    assert Batch(disk, cfg.photoDir, ps, sips, mtime, d, ext);
    BatchRun(disk, cfg, ps, sips, mtime, d, ext);
    assert (set j | 0 <= j < |ps| :: ps[j]) == (set q | q in ps);
  }

  lemma PairElements<T>(a: T, b: T)
    ensures (set q | q in [a, b]) == {a, b}
  {
  }

  lemma PairOf<T>(s: seq<T>, a: T, b: T)
    requires |s| == 2 && s[0] == a && s[1] == b
    ensures s == [a, b]
  {
  }

  /** The first two candidates for a `.png` shot: the plain name and the one with suffix `a`. */
  lemma PngCandidates(photoDir: Path, d: Date, first: Path, second: Path)
    requires first == OutDir(photoDir, d) + "/" + FileName(d) + ".png"
    requires second == OutDir(photoDir, d) + "/" + FileName(d) + "a.png"
    ensures Candidate(OutDir(photoDir, d), FileName(d), ".png", 0) == first
    ensures Candidate(OutDir(photoDir, d), FileName(d), ".png", 1) == second
    ensures CandidateSet(OutDir(photoDir, d), FileName(d), ".png", 2) == {first, second}
  {
    var outdir, base := OutDir(photoDir, d), FileName(d);
    assert Lower(".png") == ".png";
    assert Candidate(outdir, base, ".png", 0) == first;
    SecondPngIsNext(outdir, base, ".png", second);
    assert CandidateSet(outdir, base, ".png", 1) == {first};
  }

  /** Two shots of the same second with the same extension, in either case,
      are moved in input order to `... HH.MM.SS.png` and `... HH.MM.SSa.png`,
      whether or not the day's directory is there yet. */
  lemma SameSecondShots(disk: Disk, cfg: Config, p1: Path, p2: Path, sips: Path -> Option<string>, mtime: Path -> Date, d: Date)
    requires !cfg.test && cfg.photoDir in disk.dirs
    requires p1 in disk.files && p2 in disk.files && p1 != p2
    requires PhotoDate(sips(p1), mtime(p1)) == d && PhotoDate(sips(p2), mtime(p2)) == d
    requires Lower(ExtName(p1)) == ".png" && Lower(ExtName(p2)) == ".png"
    requires OutDir(cfg.photoDir, d) in disk.dirs
          || (YearDir(cfg.photoDir, d) !in disk.files && OutDir(cfg.photoDir, d) !in disk.files)
    requires !disk.Occupied(OutDir(cfg.photoDir, d) + "/" + FileName(d) + ".png")
    requires !disk.Occupied(OutDir(cfg.photoDir, d) + "/" + FileName(d) + "a.png")
    ensures Rename(disk, cfg, [p1, p2], [], sips, mtime) == Report(
      Disk(disk.files - {p1, p2} + {OutDir(cfg.photoDir, d) + "/" + FileName(d) + ".png",
                                    OutDir(cfg.photoDir, d) + "/" + FileName(d) + "a.png"},
           if OutDir(cfg.photoDir, d) in disk.dirs then disk.dirs
           else disk.dirs + {YearDir(cfg.photoDir, d), OutDir(cfg.photoDir, d)}),
      [Moved(p1, OutDir(cfg.photoDir, d) + "/" + FileName(d) + ".png"),
       Moved(p2, OutDir(cfg.photoDir, d) + "/" + FileName(d) + "a.png")],
      Finished)
  {
    var outdir, base := OutDir(cfg.photoDir, d), FileName(d);
    var first, second := outdir + "/" + base + ".png", outdir + "/" + base + "a.png";
    var ps := [p1, p2];
    PngCandidates(cfg.photoDir, d, first, second);
    ShotsOfOneSecond(disk, cfg, ps, sips, mtime, d, ".png");
    PairElements(p1, p2);
    var r := Rename(disk, cfg, ps, [], sips, mtime);
    PairOf(r.log, Moved(p1, first), Moved(p2, second));
  }
}
