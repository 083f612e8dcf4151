/** The names `rename-photos.rb` gives: the dated output directory
    (`DATE_SUBDIR`), the timestamp file name (`FILE_FORMAT`), `make_path`, and
    the sequence of candidate destinations its collision search tries. */
module Naming {
  import opened Text
  import opened Paths
  import opened PhotoDates

  /** `%Y-%m-%d`, the day part of both formats. */
  function DayStamp(d: Date): string {
    Pad(d.year, 4) + "-" + Pad(d.month, 2) + "-" + Pad(d.day, 2)
  }

  /** `%H.%M.%S`, the time part of `FILE_FORMAT`. */
  function TimeStamp(d: Date): string {
    Pad(d.hour, 2) + "." + Pad(d.minute, 2) + "." + Pad(d.second, 2)
  }

  /** `date.strftime("%Y/%Y-%m-%d")`. */
  function DateSubdir(d: Date): string {
    Pad(d.year, 4) + "/" + DayStamp(d)
  }

  /** `date.strftime("%Y-%m-%d %H.%M.%S")`. */
  function FileName(d: Date): string {
    DayStamp(d) + " " + TimeStamp(d)
  }

  /** `"#{PHOTO_DIR}/#{subdir}"`, the directory a photo of date `d` goes to. */
  function OutDir(photoDir: Path, d: Date): Path {
    photoDir + "/" + DateSubdir(d)
  }

  /** The year directory `mkdir_p` creates above the output directory. */
  function YearDir(photoDir: Path, d: Date): (y: Path)
    ensures |y| < |OutDir(photoDir, d)| && OutDir(photoDir, d)[..|y|] == y && OutDir(photoDir, d)[|y|] == '/'
  {
    var y := photoDir + "/" + Pad(d.year, 4);
    assert OutDir(photoDir, d) == y + "/" + DayStamp(d);
    y
  }

  lemma PaddedYear()
    ensures Pad(2024, 4) == "2024"
  {
    assert DigitChar(0) == '0' && DigitChar(2) == '2' && DigitChar(4) == '4';
    assert Pad(2, 1) == "2";
    assert Pad(20, 2) == "20";
    assert Pad(202, 3) == "202";
  }

  lemma PaddedFields()
    ensures Pad(3, 2) == "03" && Pad(5, 2) == "05" && Pad(14, 2) == "14" && Pad(30, 2) == "30" && Pad(0, 2) == "00"
  {
    assert DigitChar(0) == '0' && DigitChar(1) == '1' && DigitChar(3) == '3';
    assert DigitChar(4) == '4' && DigitChar(5) == '5';
    assert Pad(0, 1) == "0" && Pad(1, 1) == "1" && Pad(3, 1) == "3";
  }

  /** A shot of 5 March 2024 at 14:30:00 goes to `2024/2024-03-05` under the
      name `2024-03-05 14.30.00`. */
  lemma NamesOfOneShot()
    ensures DateSubdir(Date(2024, 3, 5, 14, 30, 0)) == "2024/2024-03-05"
    ensures FileName(Date(2024, 3, 5, 14, 30, 0)) == "2024-03-05 14.30.00"
  {
    PaddedYear();
    DayOfOneShot();
    TimeOfOneShot();
  }

  lemma DayOfOneShot()
    ensures DayStamp(Date(2024, 3, 5, 14, 30, 0)) == "2024-03-05"
  {
    PaddedYear();
    PaddedFields();
  }

  lemma TimeOfOneShot()
    ensures TimeStamp(Date(2024, 3, 5, 14, 30, 0)) == "14.30.00"
  {
    PaddedFields();
  }

  /** The day stamp determines the day. */
  lemma DayStampSame(a: Date, b: Date)
    requires DayStamp(a) == DayStamp(b)
    ensures a.year == b.year && a.month == b.month && a.day == b.day
  {
    PadLength(a.month, 2); PadLength(a.day, 2); PadLength(b.month, 2); PadLength(b.day, 2);
    SplitEq(Pad(a.year, 4) + "-" + Pad(a.month, 2) + "-", Pad(a.day, 2), Pad(b.year, 4) + "-" + Pad(b.month, 2) + "-", Pad(b.day, 2));
    PadInjective(a.day, b.day, 2);
    SplitEq(Pad(a.year, 4) + "-" + Pad(a.month, 2), "-", Pad(b.year, 4) + "-" + Pad(b.month, 2), "-");
    SplitEq(Pad(a.year, 4) + "-", Pad(a.month, 2), Pad(b.year, 4) + "-", Pad(b.month, 2));
    PadInjective(a.month, b.month, 2);
    SplitEq(Pad(a.year, 4), "-", Pad(b.year, 4), "-");
    PadInjective(a.year, b.year, 4);
  }

  /** The time stamp is eight characters and determines the time of day. */
  lemma TimeStampSame(a: Date, b: Date)
    ensures |TimeStamp(a)| == 8
    ensures TimeStamp(a) == TimeStamp(b) ==> a.hour == b.hour && a.minute == b.minute && a.second == b.second
  {
    PadLength(a.hour, 2); PadLength(a.minute, 2); PadLength(a.second, 2);
    if TimeStamp(a) == TimeStamp(b) {
      PadLength(b.hour, 2); PadLength(b.minute, 2); PadLength(b.second, 2);
      SplitEq(Pad(a.hour, 2) + "." + Pad(a.minute, 2) + ".", Pad(a.second, 2), Pad(b.hour, 2) + "." + Pad(b.minute, 2) + ".", Pad(b.second, 2));
      PadInjective(a.second, b.second, 2);
      SplitEq(Pad(a.hour, 2) + "." + Pad(a.minute, 2), ".", Pad(b.hour, 2) + "." + Pad(b.minute, 2), ".");
      SplitEq(Pad(a.hour, 2) + ".", Pad(a.minute, 2), Pad(b.hour, 2) + ".", Pad(b.minute, 2));
      PadInjective(a.minute, b.minute, 2);
      SplitEq(Pad(a.hour, 2), ".", Pad(b.hour, 2), ".");
      PadInjective(a.hour, b.hour, 2);
    }
  }

  /** Two dates share an output directory exactly when they fall on the same day. */
  lemma SameDirSameDay(a: Date, b: Date)
    ensures DateSubdir(a) == DateSubdir(b) <==> (a.year == b.year && a.month == b.month && a.day == b.day)
  {
    if DateSubdir(a) == DateSubdir(b) {
      PadLength(a.month, 2); PadLength(a.day, 2); PadLength(b.month, 2); PadLength(b.day, 2);
      assert |Pad(a.year, 4)| == |Pad(b.year, 4)|;
      SplitEq(Pad(a.year, 4) + "/", DayStamp(a), Pad(b.year, 4) + "/", DayStamp(b));
      DayStampSame(a, b);
    }
  }

  /** Two dates share a base file name exactly when they are the same second. */
  lemma SameNameSameSecond(a: Date, b: Date)
    ensures FileName(a) == FileName(b) <==> a == b
  {
    if FileName(a) == FileName(b) {
      TimeStampSame(a, b);
      TimeStampSame(b, a);
      SplitEq(DayStamp(a) + " ", TimeStamp(a), DayStamp(b) + " ", TimeStamp(b));
      TimeStampSame(a, b);
      SplitEq(DayStamp(a), " ", DayStamp(b), " ");
      DayStampSame(a, b);
    }
  }

  /** `make_path(outdir, newname, extension)`: the file `newname` in `outdir`,
      with the extension downcased. */
  function MakePath(outdir: Path, newname: string, extension: string): Path {
    outdir + "/" + newname + Lower(extension)
  }

  /** A made path is `outdir`, a separator, `newname`, and the extension with no
      upper-case letter left but otherwise equal to it ignoring case. */
  lemma MakePathParts(outdir: Path, newname: string, extension: string)
    ensures var p := MakePath(outdir, newname, extension);
      && |p| == |outdir| + 1 + |newname| + |extension|
      && p[..|outdir|] == outdir && p[|outdir|] == '/'
      && p[|outdir| + 1..|outdir| + 1 + |newname|] == newname
      && EqualFold(p[|outdir| + 1 + |newname|..], extension)
      && forall i :: |outdir| + 1 + |newname| <= i < |p| ==> !IsUpper(p[i])
  {
    var p := MakePath(outdir, newname, extension);
    LowerIsLower(extension);
    assert p[|outdir| + 1 + |newname|..] == Lower(extension);
  }

  /** The case of the extension never survives: two extensions give the same
      path exactly when they agree ignoring case. */
  lemma MakePathFoldsCase(outdir: Path, newname: string, e1: string, e2: string)
    ensures MakePath(outdir, newname, e1) == MakePath(outdir, newname, e2) <==> EqualFold(e1, e2)
  {
    var n := |outdir| + 1 + |newname|;
    if MakePath(outdir, newname, e1) == MakePath(outdir, newname, e2) {
      assert MakePath(outdir, newname, e1)[n..] == Lower(e1);
      assert MakePath(outdir, newname, e2)[n..] == Lower(e2);
    }
  }

  /** The last candidate the search can try. Ruby's `Integer#chr` raises past
      code 255, and `(suffix.ord+1).chr` is evaluated before the name with
      suffix code 255 is tried, so the suffixes run from 'a' (97) to code 254. */
  const LastCandidate: nat := 158

  /** The suffix of the `k`-th retry: 'a', 'b', ... */
  function SuffixChar(k: nat): (c: char)
    requires 1 <= k <= LastCandidate
    ensures 'a' <= c && c as int <= 254
  {
    (96 + k) as char
  }

  /** The name tried at step `k`: the timestamp, then the timestamp with the `k`-th suffix. */
  function CandidateName(base: string, k: nat): string
    requires k <= LastCandidate
  {
    if k == 0 then base else base + [SuffixChar(k)]
  }

  function Candidate(outdir: Path, base: string, extension: string, k: nat): Path
    requires k <= LastCandidate
  {
    MakePath(outdir, CandidateName(base, k), extension)
  }

  /** No two steps of the search try the same path. */
  lemma CandidatesDistinct(outdir: Path, base: string, extension: string, j: nat, k: nat)
    requires j < k <= LastCandidate
    ensures Candidate(outdir, base, extension, j) != Candidate(outdir, base, extension, k)
  {
    var pj, pk := Candidate(outdir, base, extension, j), Candidate(outdir, base, extension, k);
    MakePathParts(outdir, CandidateName(base, j), extension);
    MakePathParts(outdir, CandidateName(base, k), extension);
    if j > 0 {
      var i := |outdir| + 1 + |base|;
      assert pj[i] == CandidateName(base, j)[|base|] == SuffixChar(j);
      assert pk[i] == CandidateName(base, k)[|base|] == SuffixChar(k);
    } else {
      assert |pj| < |pk|;
    }
  }
}
