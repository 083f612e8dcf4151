/** The capture date of a photo (`photo_date`): the second line of the
    output of `sips -g creation`, stripped of its `creation:` label and
    parsed as `%Y:%m:%d %H:%M:%S`, or the file's modification time whenever
    any of that fails. Both the `sips` output and the modification time are
    inputs of the model. */
module PhotoDates {
  import opened Wrappers
  import opened Text

  type TwoDigit = n: nat | n < 100

  /** A calendar date and time of day. Every field but the year is printed in two digits. */
  datatype Date = Date(year: nat, month: TwoDigit, day: TwoDigit, hour: TwoDigit, minute: TwoDigit, second: TwoDigit)

  /** Ruby's `chomp`: one trailing "\r\n", "\n" or "\r" is removed. */
  function Chomp(s: string): (r: string)
    ensures |s| - 2 <= |r| <= |s| && r == s[..|r|]
    ensures r == s || s == r + "\n" || s == r + "\r" || s == r + "\r\n"
    ensures (s == [] || (s[|s| - 1] != '\n' && s[|s| - 1] != '\r')) ==> r == s
    ensures |s| >= 2 && s[|s| - 2..] == "\r\n" ==> |r| == |s| - 2
    ensures |s| >= 1 && (s[|s| - 1] == '\n' || s[|s| - 1] == '\r') ==> |r| < |s|
  {
    if |s| >= 2 && s[|s| - 2..] == "\r\n" then s[..|s| - 2]
    else if |s| >= 1 && (s[|s| - 1] == '\n' || s[|s| - 1] == '\r') then s[..|s| - 1]
    else s
  }

  /** The fields between the newlines of `s`, empty ones included. */
  function SplitNewlines(s: string): (r: seq<string>)
    ensures |r| >= 1
    ensures forall i :: 0 <= i < |r| ==> '\n' !in r[i]
  {
    if s == [] then [[]]
    else
      var rest := SplitNewlines(s[1..]);
      if s[0] == '\n' then [[]] + rest else [[s[0]] + rest[0]] + rest[1..]
  }

  /** The fields joined back with newlines. */
  function JoinLines(fields: seq<string>): string
    requires |fields| >= 1
  {
    if |fields| == 1 then fields[0] else fields[0] + "\n" + JoinLines(fields[1..])
  }

  /** Splitting at the newlines loses nothing. */
  lemma {:induction false} JoinSplit(s: string)
    ensures JoinLines(SplitNewlines(s)) == s
  {
    if s != [] {
      JoinSplit(s[1..]);
      var rest := SplitNewlines(s[1..]);
      if s[0] != '\n' && |rest| > 1 {
        assert SplitNewlines(s)[1..] == rest[1..];
      }
    }
  }

  /** A line without newline followed by one is the first field. */
  lemma {:induction false} SplitAfterLine(a: string, b: string)
    requires '\n' !in a
    ensures SplitNewlines(a + "\n" + b) == [a] + SplitNewlines(b)
  {
    if a == [] {
      assert a + "\n" + b == "\n" + b;
      assert ("\n" + b)[1..] == b;
    } else {
      assert (a + "\n" + b)[1..] == a[1..] + "\n" + b;
      SplitAfterLine(a[1..], b);
      assert [a[0]] + a[1..] == a;
    }
  }

  /** A string without newline is one field. */
  lemma {:induction false} SplitNoNewline(a: string)
    requires '\n' !in a
    ensures SplitNewlines(a) == [a]
  {
    if a != [] {
      SplitNoNewline(a[1..]);
      assert [a[0]] + a[1..] == a;
    }
  }

  /** Ruby's `split` drops the empty fields at the end. */
  function DropTrailingEmpty(fields: seq<string>): (r: seq<string>)
    ensures |r| <= |fields| && r == fields[..|r|]
    ensures r == [] || r[|r| - 1] != []
    ensures forall i :: |r| <= i < |fields| ==> fields[i] == []
  {
    if fields == [] then []
    else if fields[|fields| - 1] == [] then DropTrailingEmpty(fields[..|fields| - 1])
    else fields
  }

  /** `output.chomp.split(/\n/)`. */
  function Lines(output: string): seq<string> {
    DropTrailingEmpty(SplitNewlines(Chomp(output)))
  }

  /** `split(...)[1]`: `None` for a failed `sips` call and for an output of fewer than two lines. */
  function SecondLine(output: Option<string>): Option<string> {
    match output
    case None => None
    case Some(o) => var lines := Lines(o); if |lines| >= 2 then Some(lines[1]) else None
  }

  /** `/error|<nil>/i`. */
  predicate HasErrorMarker(line: string) {
    ContainsFold(line, "error") || ContainsFold(line, "<nil>")
  }

  // The `sub` of rename-photos.rb:35: optional white space, the label
  // `creation:` and more optional white space are removed, but only where the
  // label stands first on the line; otherwise the line is left as it is.
  function StripCreation(line: string): string {
    var t := SkipSpaces(line);
    if |t| >= |Label| && t[..|Label|] == Label then SkipSpaces(t[|Label|..]) else line
  }

  const Label := "creation:"

  /** Text after the label and its blanks is what remains. */
  lemma StripAfterLabel(line: string, rest: string)
    requires SkipSpaces(line) == Label + rest
    ensures StripCreation(line) == SkipSpaces(rest)
  {
    assert (Label + rest)[..|Label|] == Label;
    assert (Label + rest)[|Label|..] == rest;
  }

  /** The layout `%Y:%m:%d %H:%M:%S` accepts: four digits, then five two-digit
      fields, separated by ':' and one space. */
  predicate IsStamp(s: string) {
    && |s| == 19
    && AllDigits(s[0..4]) && s[4] == ':' && AllDigits(s[5..7]) && s[7] == ':' && AllDigits(s[8..10])
    && s[10] == ' '
    && AllDigits(s[11..13]) && s[13] == ':' && AllDigits(s[14..16]) && s[16] == ':' && AllDigits(s[17..19])
  }

  function TwoDigits(s: string): TwoDigit
    requires AllDigits(s) && |s| == 2
  {
    assert Pow10(2) == 100;
    Value(s)
  }

  /** `DateTime.strptime(date, "%Y:%m:%d %H:%M:%S")`, `None` where it raises. */
  function ParseStamp(s: string): (r: Option<Date>)
    ensures r.Some? <==> IsStamp(s)
    ensures r.Some? ==> r.value.year < 10000
  {
    if IsStamp(s) then
      assert Pow10(4) == 10000;
      Some(Date(Value(s[0..4]), TwoDigits(s[5..7]), TwoDigits(s[8..10]),
                TwoDigits(s[11..13]), TwoDigits(s[14..16]), TwoDigits(s[17..19])))
    else None
  }

  /** A date in the layout `sips` prints. */
  function FormatStamp(d: Date): string {
    StampDay(d) + " " + StampTime(d)
  }

  function StampDay(d: Date): string {
    Pad(d.year, 4) + ":" + Pad(d.month, 2) + ":" + Pad(d.day, 2)
  }

  function StampTime(d: Date): string {
    Pad(d.hour, 2) + ":" + Pad(d.minute, 2) + ":" + Pad(d.second, 2)
  }

  /** Where each field of a formatted date sits. */
  lemma StampFields(d: Date)
    requires d.year < 10000
    ensures var s := FormatStamp(d);
      && |s| == 19 && s[4] == ':' && s[7] == ':' && s[10] == ' ' && s[13] == ':' && s[16] == ':'
      && s[0..4] == Pad(d.year, 4) && s[5..7] == Pad(d.month, 2) && s[8..10] == Pad(d.day, 2)
      && s[11..13] == Pad(d.hour, 2) && s[14..16] == Pad(d.minute, 2) && s[17..19] == Pad(d.second, 2)
  {
    var day, time := StampDay(d), StampTime(d);
    StampDayFields(d);
    StampTimeFields(d);
    var s := FormatStamp(d);
    assert s[..10] == day && s[11..] == time;
    assert s[0..4] == day[0..4] && s[5..7] == day[5..7] && s[8..10] == day[8..10];
    assert s[11..13] == time[0..2] && s[14..16] == time[3..5] && s[17..19] == time[6..8];
  }

  lemma StampDayFields(d: Date)
    requires d.year < 10000
    ensures var t := StampDay(d);
      && |t| == 10 && t[4] == ':' && t[7] == ':'
      && t[0..4] == Pad(d.year, 4) && t[5..7] == Pad(d.month, 2) && t[8..10] == Pad(d.day, 2)
  {
    assert Pow10(2) == 100 && Pow10(4) == 10000;
    PadLength(d.year, 4); PadLength(d.month, 2); PadLength(d.day, 2);
  }

  lemma StampTimeFields(d: Date)
    ensures var t := StampTime(d);
      && |t| == 8 && t[2] == ':' && t[5] == ':'
      && t[0..2] == Pad(d.hour, 2) && t[3..5] == Pad(d.minute, 2) && t[6..8] == Pad(d.second, 2)
  {
    assert Pow10(2) == 100;
    PadLength(d.hour, 2); PadLength(d.minute, 2); PadLength(d.second, 2);
  }

  /** Parsing undoes formatting for every date with a four-digit year ... */
  lemma StampRoundTrip(d: Date)
    requires d.year < 10000
    ensures ParseStamp(FormatStamp(d)) == Some(d)
  {
    StampFields(d);
    PadValue(d.year, 4); PadValue(d.month, 2); PadValue(d.day, 2);
    PadValue(d.hour, 2); PadValue(d.minute, 2); PadValue(d.second, 2);
  }

  /** ... and formatting undoes parsing: the accepted strings and those dates are in one-to-one correspondence. */
  lemma StampCanonical(s: string)
    requires ParseStamp(s).Some?
    ensures FormatStamp(ParseStamp(s).value) == s
  {
    PadOfDigits(s[0..4]); PadOfDigits(s[5..7]); PadOfDigits(s[8..10]);
    PadOfDigits(s[11..13]); PadOfDigits(s[14..16]); PadOfDigits(s[17..19]);
    assert s == s[0..4] + ":" + s[5..7] + ":" + s[8..10] + " " + s[11..13] + ":" + s[14..16] + ":" + s[17..19];
  }

  /** `photo_date(file)`: the creation date `sips` reports, or `mtime`. The
      `rescue` clause is the `None` branches: no input makes it fail. */
  function PhotoDate(sips: Option<string>, mtime: Date): (d: Date)
    ensures d == mtime || d.year < 10000
  {
    match SecondLine(sips)
    case None => mtime
    case Some(line) =>
      if HasErrorMarker(line) then mtime
      else match ParseStamp(StripCreation(line))
        case Some(d) => d
        case None => mtime
  }

  /** The second line of a two-line report is what `photo_date` examines. */
  lemma SecondLineOfReport(header: string, line: string)
    requires '\n' !in header && '\n' !in line
    requires line != [] && line[|line| - 1] != '\r'
    ensures SecondLine(Some(header + "\n" + line + "\n")) == Some(line)
  {
    var o := header + "\n" + line + "\n";
    assert o[|o| - 2..] == [line[|line| - 1], '\n'];
    assert Chomp(o) == header + "\n" + line;
    SplitAfterLine(header, line);
    SplitNoNewline(line);
    assert SplitNewlines(Chomp(o)) == [header, line];
  }

  /** A report whose second line is an error, shows `<nil>` in any case, or
      does not hold a well-formed creation date yields the modification time. */
  lemma PhotoDateFallsBack(header: string, line: string, mtime: Date)
    requires '\n' !in header && '\n' !in line
    requires line != [] && line[|line| - 1] != '\r'
    requires HasErrorMarker(line) || !IsStamp(StripCreation(line))
    ensures PhotoDate(Some(header + "\n" + line + "\n"), mtime) == mtime
  {
    SecondLineOfReport(header, line);
  }

  /** A line with no '<' and no two neighbouring r's, in any case, holds
      neither marker: "error" has "rr" and "<nil>" has '<'. */
  lemma NoMarkerWithoutRr(line: string)
    requires forall i | 0 <= i < |line| :: LowerChar(line[i]) != '<'
    requires forall i | 0 <= i < |line| - 1 :: LowerChar(line[i]) != 'r' || LowerChar(line[i + 1]) != 'r'
    ensures !HasErrorMarker(line)
  {
    forall i | 0 <= i <= |line|
      ensures !FoldAt(line, "error", i) && !FoldAt(line, "<nil>", i)
    {
      if i + 5 <= |line| {
        assert Lower(line[i..i + 5])[0] == LowerChar(line[i]);
        assert Lower(line[i..i + 5])[1] == LowerChar(line[i + 1]);
        assert Lower(line[i..i + 5])[2] == LowerChar(line[i + 2]);
      }
    }
  }

  /** No window of the creation line spells "error" or "<nil>", whatever the date. */
  lemma CreationLineHasNoMarker(d: Date)
    ensures !HasErrorMarker("  creation: " + FormatStamp(d))
  {
    var line := "  creation: " + FormatStamp(d);
    var stamp := FormatStamp(d);
    forall i | 12 <= i < |line|
      ensures LowerChar(line[i]) != 'r' && LowerChar(line[i]) != '<'
    {
      assert line[i] == stamp[i - 12];
      assert IsDigit(line[i]) || line[i] == ':' || line[i] == ' ';
    }
    forall i | 0 <= i < 12
      ensures LowerChar(line[i]) == 'r' <==> i == 3
      ensures LowerChar(line[i]) != '<'
    {
    }
    NoMarkerWithoutRr(line);
  }

  /** One leading blank makes no difference to `\s*`. */
  lemma SkipBlank(t: string)
    ensures SkipSpaces(" " + t) == SkipSpaces(t)
  {
    assert (" " + t)[1..] == t;
  }

  /** The label and the blanks around it are stripped from a creation line. */
  lemma StripLabel(stamp: string)
    requires stamp != [] && !IsSpace(stamp[0])
    ensures StripCreation("  creation: " + stamp) == stamp
  {
    var line := "  creation: " + stamp;
    assert line == " " + (" " + (Label + (" " + stamp)));
    SkipBlank(" " + (Label + (" " + stamp)));
    SkipBlank(Label + (" " + stamp));
    assert (Label + (" " + stamp))[0] == 'c';
    StripAfterLabel(line, " " + stamp);
    SkipBlank(stamp);
  }

  lemma CreationLineIsOneLine(d: Date)
    ensures '\n' !in "  creation: " + FormatStamp(d)
    ensures var line := "  creation: " + FormatStamp(d); line[|line| - 1] != '\r'
  {
    var stamp := FormatStamp(d);
    var line := "  creation: " + stamp;
    forall i | 0 <= i < |line| ensures line[i] != '\n' {
      if i >= 12 { assert line[i] == stamp[i - 12]; }
    }
    assert line[|line| - 1] == stamp[|stamp| - 1];
  }

  /** A report of the shape `sips -g creation` prints yields the date it shows:
      the path on the first line, `  creation: YYYY:MM:DD HH:MM:SS` on the second. */
  lemma PhotoDateReadsCreation(header: string, d: Date, mtime: Date)
    requires '\n' !in header && d.year < 10000
    ensures PhotoDate(Some(header + "\n  creation: " + FormatStamp(d) + "\n"), mtime) == d
  {
    CreationReport(header, d);
    CreationLineParses(d);
  }

  /** The second line of such a report is the creation line. */
  lemma CreationReport(header: string, d: Date)
    requires '\n' !in header
    ensures SecondLine(Some(header + "\n  creation: " + FormatStamp(d) + "\n")) == Some("  creation: " + FormatStamp(d))
  {
    var line := "  creation: " + FormatStamp(d);
    CreationLineIsOneLine(d);
    assert header + "\n  creation: " + FormatStamp(d) + "\n" == header + "\n" + line + "\n";
    SecondLineOfReport(header, line);
  }

  /** The creation line holds no marker, and the stamp on it parses back to the date. */
  lemma CreationLineParses(d: Date)
    requires d.year < 10000
    ensures !HasErrorMarker("  creation: " + FormatStamp(d))
    ensures ParseStamp(StripCreation("  creation: " + FormatStamp(d))) == Some(d)
  {
    var stamp := FormatStamp(d);
    StampRoundTrip(d);
    assert |stamp| == 19 && IsDigit(stamp[0]);
    StripLabel(stamp);
    CreationLineHasNoMarker(d);
  }
}
