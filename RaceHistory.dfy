/** The race history of the packaged program (src/main.py): one
    tab-separated line appended per finished race, and a listing that
    shows the lines newest first. The history file is an `Option<string>`:
    `None` when it does not exist, otherwise its content. */
module RaceHistory {
  import opened Text
  import Keys
  import T = TermRacer

  // ---------------------------------------------------------------------
  // Writing

  /** The content of a file, the empty text when it is missing. */
  function Content(file: Option<string>): string
  {
    if file.Some? then file.value else ""
  }

  /** `getRacesFromFile`: the lines of the file opened in text mode, none
      when it does not exist. */
  function GetRacesFromFile(file: Option<string>): (lines: seq<string>)
    ensures file.None? ==> lines == []
    ensures Concat(lines) == UniversalNewlines(Content(file))
    ensures forall k :: 0 <= k < |lines| ==> IsLine(lines[k])
  {
    if file.None? then []
    else
      var text := UniversalNewlines(file.value);
      ReadLinesAreLines(text);
      ReadLines(text)
  }

  /** The five fields of one history record in the order they are written. */
  function RecordFields(id: string, speed: int, elapsed: int, accuracy: int, passage: string): seq<string>
  {
    [id, IntToString(speed) + "WPM", IntToString(elapsed) + "s", IntToString(accuracy) + "%", passage]
  }

  /** The line `writeResultsToFile` writes: the fields joined by tabs and a
      newline. */
  function Record(id: string, speed: int, elapsed: int, accuracy: int, passage: string): string
  {
    Join(RecordFields(id, speed, elapsed, accuracy, passage), '\t') + "\n"
  }

  /** Append `line` when the race is over; otherwise leave the file alone
      (a missing file stays missing). */
  function AppendIfOver(over: bool, line: string, file: Option<string>): (r: Option<string>)
    ensures !over ==> r == file
    ensures over ==> r == Some(Content(file) + line)
  {
    if !over then file else Some(Content(file) + line)
  }

  /** `writeResultsToFile(client)`, with the clock-based speed and elapsed
      seconds of `statistics()` given as parameters. */
  function WriteResultsToFile(c: T.RaceClient, speed: int, elapsed: int, file: Option<string>): (r: Option<string>)
    reads c
    ensures !c.IsOver() ==> r == file
    ensures c.IsOver() ==>
              r == Some(Content(file) + Record(c.id, speed, elapsed,
                                               Keys.AccuracyPercent(c.total, c.totalErrors), c.passage))
  {
    AppendIfOver(c.IsOver(),
                 Record(c.id, speed, elapsed, Keys.AccuracyPercent(c.total, c.totalErrors), c.passage),
                 file)
  }

  /** No field other than the id and the passage can hold a tab or a newline. */
  lemma NumberFieldAvoids(i: int, suffix: string, c: char)
    requires c !in suffix && !IsDigit(c) && c != '-'
    ensures c !in IntToString(i) + suffix
  {
    var s := IntToString(i);
    if i < 0 {
      assert s == "-" + NatToString(-i);
      assert forall k :: 1 <= k < |s| ==> s[k] == NatToString(-i)[k - 1];
    }
  }

  /** Fields free of newlines, joined by tabs with a newline after them,
      make one line. */
  lemma FieldsMakeLine(fields: seq<string>)
    requires forall k :: 0 <= k < |fields| ==> '\n' !in fields[k]
    ensures var line := Join(fields, '\t') + "\n";
            IsLine(line) && line[|line| - 1] == '\n'
  {
    var body := Join(fields, '\t');
    var line := body + "\n";
    JoinAvoids(fields, '\t', '\n');
    assert forall j :: 0 <= j < |line| - 1 ==> line[j] == body[j];
  }

  /** Fields free of tabs and newlines, joined by tabs with a newline
      after them, make one line that splits back on tabs into those fields,
      the last one carrying the newline. */
  lemma FieldsLineSplits(fields: seq<string>)
    requires |fields| >= 1
    requires forall k :: 0 <= k < |fields| ==> '\t' !in fields[k] && '\n' !in fields[k]
    ensures var line := Join(fields, '\t') + "\n";
            && IsLine(line) && line[|line| - 1] == '\n'
            && Split(line, '\t') == fields[|fields| - 1 := fields[|fields| - 1] + "\n"]
  {
    FieldsMakeLine(fields);
    var n := |fields|;
    var withNewline := fields[..n - 1] + [fields[n - 1] + "\n"];
    assert withNewline == fields[n - 1 := fields[n - 1] + "\n"];
    JoinSnoc(fields, '\t', "\n");
    assert forall k :: 0 <= k < |withNewline| ==> '\t' !in withNewline[k] by {
      assert forall k :: 0 <= k < n - 1 ==> withNewline[k] == fields[k];
      assert withNewline[n - 1] == fields[n - 1] + "\n";
    }
    SplitJoin(withNewline, '\t');
  }

  /** A record whose id and passage hold no tab and no newline is one line
      that splits back on tabs into exactly its five fields, with the
      passage field carrying the newline. */
  lemma RecordSplits(id: string, speed: int, elapsed: int, accuracy: int, passage: string)
    requires '\t' !in id && '\t' !in passage && '\n' !in id && '\n' !in passage
    ensures var line := Record(id, speed, elapsed, accuracy, passage);
            && IsLine(line) && line[|line| - 1] == '\n'
            && Split(line, '\t') == RecordFields(id, speed, elapsed, accuracy, passage)[4 := passage + "\n"]
  {
    NumberFieldAvoids(speed, "WPM", '\t');
    NumberFieldAvoids(elapsed, "s", '\t');
    NumberFieldAvoids(accuracy, "%", '\t');
    NumberFieldAvoids(speed, "WPM", '\n');
    NumberFieldAvoids(elapsed, "s", '\n');
    NumberFieldAvoids(accuracy, "%", '\n');
    FieldsLineSplits(RecordFields(id, speed, elapsed, accuracy, passage));
  }

  /** Such a record is a well-formed history line whose id is the player's
      and whose speed reads back exactly. */
  lemma RecordReadsBack(id: string, speed: int, elapsed: int, accuracy: int, passage: string)
    requires '\t' !in id && '\t' !in passage && '\n' !in id && '\n' !in passage
    ensures var line := Record(id, speed, elapsed, accuracy, passage);
            WellFormed(line) && Id(line) == id && Speed(line) == speed
  {
    RecordSplits(id, speed, elapsed, accuracy, passage);
    SpeedRoundTrip(speed);
  }

  /** Nor can a record hold a carriage return unless its id or passage does. */
  lemma RecordHasNoReturn(id: string, speed: int, elapsed: int, accuracy: int, passage: string)
    requires '\r' !in id && '\r' !in passage
    ensures '\r' !in Record(id, speed, elapsed, accuracy, passage)
  {
    var fields := RecordFields(id, speed, elapsed, accuracy, passage);
    NumberFieldAvoids(speed, "WPM", '\r');
    NumberFieldAvoids(elapsed, "s", '\r');
    NumberFieldAvoids(accuracy, "%", '\r');
    JoinAvoids(fields, '\t', '\r');
  }

  /** A line as `readlines()` yields it, with its newline and without a
      carriage return that reading would turn into a line end. */
  predicate WholeLine(line: string)
  {
    IsLine(line) && line[|line| - 1] == '\n' && '\r' !in line
  }

  /** Appending a whole line to a file that ends with a newline (or is
      missing or empty) keeps every earlier line and adds that line. */
  lemma AppendLine(file: Option<string>, line: string)
    requires WholeLine(line) && EndsLine(Content(file))
    ensures EndsLine(Content(AppendIfOver(true, line, file)))
    ensures GetRacesFromFile(AppendIfOver(true, line, file)) == GetRacesFromFile(file) + [line]
  {
    var earlier := Content(file);
    UniversalKeeps(line);
    UniversalAppend(earlier, line);
    UniversalEndsLine(earlier);
    ReadLinesAppend(UniversalNewlines(earlier), line);
    WholeLineReads(line);
  }

  lemma WholeLineReads(line: string)
    requires IsLine(line) && line[|line| - 1] == '\n'
    ensures ReadLines(line) == [line]
  {
    var body := line[..|line| - 1];
    assert line == body + "\n";
    ReadOneLine(body);
  }

  /** A record whose id and passage hold no tab, newline or carriage
      return is appended as exactly one more line. A carriage return in
      either would be read back as a line end. */
  lemma AppendKeepsLines(file: Option<string>, id: string, speed: int, elapsed: int, accuracy: int, passage: string)
    requires '\t' !in id && '\t' !in passage && '\n' !in id && '\n' !in passage
    requires '\r' !in id && '\r' !in passage
    requires EndsLine(Content(file))
    ensures var line := Record(id, speed, elapsed, accuracy, passage);
            GetRacesFromFile(AppendIfOver(true, line, file)) == GetRacesFromFile(file) + [line]
  {
    RecordSplits(id, speed, elapsed, accuracy, passage);
    RecordHasNoReturn(id, speed, elapsed, accuracy, passage);
    AppendLine(file, Record(id, speed, elapsed, accuracy, passage));
  }

  lemma SnocAssoc<X>(a: seq<X>, xs: seq<X>)
    requires |xs| > 0
    ensures (a + xs[..|xs| - 1]) + [xs[|xs| - 1]] == a + xs
  {
    assert xs == xs[..|xs| - 1] + [xs[|xs| - 1]];
  }

  lemma AppendNothing<X>(a: seq<X>, b: seq<X>)
    requires |b| == 0
    ensures a + b == a
  {
  }

  /** The file after appending each line in turn. */
  function AppendAll(lines: seq<string>, file: Option<string>): Option<string>
    decreases |lines|
  {
    if |lines| == 0 then file
    else AppendIfOver(true, lines[|lines| - 1], AppendAll(lines[..|lines| - 1], file))
  }

  lemma {:induction false} AppendLines(lines: seq<string>, file: Option<string>)
    requires forall k :: 0 <= k < |lines| ==> WholeLine(lines[k])
    requires EndsLine(Content(file))
    ensures EndsLine(Content(AppendAll(lines, file)))
    ensures GetRacesFromFile(AppendAll(lines, file)) == GetRacesFromFile(file) + lines
    decreases |lines|
  {
    if |lines| > 0 {
      var front, line := lines[..|lines| - 1], lines[|lines| - 1];
      assert forall k :: 0 <= k < |front| ==> front[k] == lines[k];
      AppendLines(front, file);
      var before := AppendAll(front, file);
      AppendLine(before, line);
      var after := AppendIfOver(true, line, before);
      assert AppendAll(lines, file) == after;
      var start := GetRacesFromFile(file);
      assert GetRacesFromFile(after) == (start + front) + [line];
      SnocAssoc(start, lines);
    } else {
      AppendNothing(GetRacesFromFile(file), lines);
    }
  }

  /** One finished race as `writeResultsToFile` records it. */
  datatype Race = Race(id: string, speed: int, elapsed: int, accuracy: int, passage: string)

  function RaceRecord(r: Race): string
  {
    Record(r.id, r.speed, r.elapsed, r.accuracy, r.passage)
  }

  /** An id and a passage with no tab, newline or carriage return. */
  predicate Plain(r: Race)
  {
    && '\t' !in r.id && '\n' !in r.id && '\r' !in r.id
    && '\t' !in r.passage && '\n' !in r.passage && '\r' !in r.passage
  }

  function Records(races: seq<Race>): (r: seq<string>)
    ensures |r| == |races| && forall k :: 0 <= k < |races| ==> r[k] == RaceRecord(races[k])
  {
    seq(|races|, k requires 0 <= k < |races| => RaceRecord(races[k]))
  }

  /** The file after one `writeResultsToFile` per race, in order. */
  function WriteAll(races: seq<Race>, file: Option<string>): Option<string>
  {
    AppendAll(Records(races), file)
  }

  /** Each write adds exactly its own record as one more line, even though
      the speed and the seconds differ from one write to the next. */
  lemma WritesMakeLines(races: seq<Race>, file: Option<string>)
    requires forall k :: 0 <= k < |races| ==> Plain(races[k])
    requires EndsLine(Content(file))
    ensures GetRacesFromFile(WriteAll(races, file)) == GetRacesFromFile(file) + Records(races)
  {
    var lines := Records(races);
    forall k | 0 <= k < |lines|
      ensures WholeLine(lines[k])
    {
      var r := races[k];
      RecordSplits(r.id, r.speed, r.elapsed, r.accuracy, r.passage);
      RecordHasNoReturn(r.id, r.speed, r.elapsed, r.accuracy, r.passage);
    }
    AppendLines(lines, file);
  }

  /** A carriage return in the id (a `--name` may hold one) is read back
      as a line end: the record comes back as two lines, and the first,
      holding no tab, is not one the listing can show. */
  lemma ReturnSplitsRecord(head: string, tail: string, speed: int, elapsed: int, accuracy: int, passage: string)
    requires '\t' !in head && '\n' !in head && '\r' !in head
    requires '\t' !in tail && '\n' !in tail && '\r' !in tail
    requires '\t' !in passage && '\n' !in passage && '\r' !in passage
    ensures var lines := GetRacesFromFile(Some(Record(head + "\r" + tail, speed, elapsed, accuracy, passage)));
            |lines| == 2 && lines[0] == head + "\n" && !WellFormed(lines[0])
  {
    var rest := AfterReturn(tail, speed, elapsed, accuracy, passage);
    RecordAroundReturn(head, tail, speed, elapsed, accuracy, passage);
    RestIsPlainLine(tail, speed, elapsed, accuracy, passage);
    ReturnSplitsText(head, rest);
    IndexOfIs(head + "\n", '\t', |head| + 1);
  }

  /** The part of such a record after the carriage return. */
  function AfterReturn(tail: string, speed: int, elapsed: int, accuracy: int, passage: string): string
  {
    tail + "\t" + Join(RecordFields("", speed, elapsed, accuracy, passage)[1..], '\t') + "\n"
  }

  lemma RecordAroundReturn(head: string, tail: string, speed: int, elapsed: int, accuracy: int, passage: string)
    ensures Record(head + "\r" + tail, speed, elapsed, accuracy, passage) ==
            head + ("\r" + AfterReturn(tail, speed, elapsed, accuracy, passage))
  {
    var fields := RecordFields(head + "\r" + tail, speed, elapsed, accuracy, passage);
    var later := Join(fields[1..], '\t');
    assert Join(fields, '\t') == fields[0] + "\t" + later;
    assert fields[1..] == RecordFields("", speed, elapsed, accuracy, passage)[1..];
    Regroup(head, tail, later);
  }

  lemma Regroup(head: string, tail: string, later: string)
    ensures head + "\r" + tail + "\t" + later + "\n" == head + ("\r" + (tail + "\t" + later + "\n"))
  {
  }

  /** A carriage return between a line's start and a whole line reads as
      a newline, giving two lines. */
  lemma ReturnSplitsText(head: string, rest: string)
    requires '\n' !in head && '\r' !in head
    requires WholeLine(rest) && rest[0] != '\n'
    ensures ReadLines(UniversalNewlines(head + ("\r" + rest))) == [head + "\n", rest]
  {
    UniversalAppend(head, "\r" + rest);
    UniversalKeeps(head);
    UniversalLoneReturn(rest);
    AppendAssoc(head, "\n", rest);
    ReadLinesAppend(head + "\n", rest);
    ReadOneLine(head);
    WholeLineReads(rest);
  }

  /** What follows the carriage return in such a record: one line with no
      carriage return, not starting with a newline. */
  lemma RestIsPlainLine(tail: string, speed: int, elapsed: int, accuracy: int, passage: string)
    requires '\t' !in tail && '\n' !in tail && '\r' !in tail
    requires '\t' !in passage && '\n' !in passage && '\r' !in passage
    ensures var rest := AfterReturn(tail, speed, elapsed, accuracy, passage);
            IsLine(rest) && rest[|rest| - 1] == '\n' && '\r' !in rest && rest[0] != '\n'
  {
    var fields := RecordFields("", speed, elapsed, accuracy, passage);
    var later := fields[1..];
    NumberFieldAvoids(speed, "WPM", '\n');
    NumberFieldAvoids(elapsed, "s", '\n');
    NumberFieldAvoids(accuracy, "%", '\n');
    NumberFieldAvoids(speed, "WPM", '\r');
    NumberFieldAvoids(elapsed, "s", '\r');
    NumberFieldAvoids(accuracy, "%", '\r');
    JoinAvoids(later, '\t', '\n');
    JoinAvoids(later, '\t', '\r');
    var body := tail + "\t" + Join(later, '\t');
    var rest := body + "\n";
    assert '\n' !in body && '\r' !in body;
    assert forall j :: 0 <= j < |rest| - 1 ==> rest[j] == body[j];
  }

  // ---------------------------------------------------------------------
  // Reading

  function Fields(line: string): (f: seq<string>)
    ensures |f| >= 1
  {
    Split(line, '\t')
  }

  /** The raw id of a line: its first field. */
  function Id(line: string): string
  {
    Fields(line)[0]
  }

  /** A line the listing can show: five fields and a readable speed. */
  predicate WellFormed(line: string)
  {
    |Fields(line)| == 5 && SpeedOf(Fields(line)[1]).Some?
  }

  function Speed(line: string): int
    requires WellFormed(line)
  {
    SpeedOf(Fields(line)[1]).value
  }

  /** The `i`-th line the listing processes: lines are read newest first. */
  function Newest(lines: seq<string>, i: nat): string
    requires i < |lines|
  {
    lines[|lines| - 1 - i]
  }

  /** The table rows of the history listing: one per line, newest first,
      each the line's five fields, with the id cell blank exactly when the
      line's raw id repeats the raw id of the line listed just before. */
  ghost predicate ListsNewestFirst(lines: seq<string>, rows: seq<seq<string>>)
  {
    |rows| == |lines| && forall i :: 0 <= i < |lines| ==> ShowsLine(lines, i, rows[i])
  }

  ghost predicate ShowsLine(lines: seq<string>, i: nat, row: seq<string>)
    requires i < |lines|
  {
    && WellFormed(Newest(lines, i))
    && |row| == 5
    && row[1..] == Fields(Newest(lines, i))[1..]
    && row[0] ==
         (if i > 0 && Id(Newest(lines, i - 1)) == Id(Newest(lines, i)) then ""
          else Id(Newest(lines, i)))
  }

  /** What the history loop produces: the table rows and the speeds in
      processing order, or the first line it processed that it could not
      unpack (Python raises there). */
  datatype Collected = Rows(rows: seq<seq<string>>, speeds: seq<int>) | Malformed(line: string)

  /** The first `n` lines in processing order have been shown and their
      speeds collected. */
  ghost predicate Shown(lines: seq<string>, n: nat, rows: seq<seq<string>>, speeds: seq<int>)
    requires n <= |lines|
  {
    && |rows| == n && |speeds| == n
    && forall i :: 0 <= i < n ==> ShowsLine(lines, i, rows[i]) && speeds[i] == Speed(Newest(lines, i))
  }

  /** The row the loop builds for the `n`-th line processed. */
  lemma BuildRow(lines: seq<string>, n: nat, previousId: Option<string>)
    requires n < |lines| && WellFormed(Newest(lines, n))
    requires previousId == if n == 0 then None else Some(Id(Newest(lines, n - 1)))
    ensures var row := Fields(Newest(lines, n));
            ShowsLine(lines, n, if previousId == Some(row[0]) then row[0 := ""] else row)
  {
    var row := Fields(Newest(lines, n));
    assert row[0 := ""][1..] == row[1..];
  }

  lemma ShownExtend(lines: seq<string>, n: nat, rows: seq<seq<string>>, speeds: seq<int>, row: seq<string>)
    requires n < |lines| && Shown(lines, n, rows, speeds) && ShowsLine(lines, n, row)
    ensures Shown(lines, n + 1, rows + [row], speeds + [Speed(Newest(lines, n))])
  {
  }

  /** The loop stops at the first line it cannot unpack. */
  lemma FirstBad(lines: seq<string>, n: nat, rows: seq<seq<string>>, speeds: seq<int>)
    requires n < |lines| && Shown(lines, n, rows, speeds) && !WellFormed(Newest(lines, n))
    ensures exists i :: 0 <= i < |lines| && !WellFormed(lines[i])
    ensures exists i :: 0 <= i < |lines| && Newest(lines, i) == Newest(lines, n) && !WellFormed(Newest(lines, n))
                        && forall j :: 0 <= j < i ==> WellFormed(Newest(lines, j))
  {
    assert !WellFormed(lines[|lines| - 1 - n]);
    assert forall j :: 0 <= j < n ==> WellFormed(Newest(lines, j)) by {
      forall j | 0 <= j < n ensures WellFormed(Newest(lines, j)) {
        assert ShowsLine(lines, j, rows[j]);
      }
    }
  }

  /** Every line shown: every line is well-formed. */
  lemma AllShown(lines: seq<string>, rows: seq<seq<string>>, speeds: seq<int>)
    requires Shown(lines, |lines|, rows, speeds)
    ensures forall i :: 0 <= i < |lines| ==> WellFormed(lines[i])
  {
    forall i | 0 <= i < |lines| ensures WellFormed(lines[i]) {
      assert lines[i] == Newest(lines, |lines| - 1 - i);
      assert ShowsLine(lines, |lines| - 1 - i, rows[|lines| - 1 - i]);
    }
  }

  /** The history loop of `displayHistory`: each line newest first is split
      on tabs, its speed read, and its id cell blanked when it repeats the
      raw id of the line processed just before. */
  method CollectHistory(lines: seq<string>) returns (out: Collected)
    ensures out.Malformed? <==> exists i :: 0 <= i < |lines| && !WellFormed(lines[i])
    ensures out.Malformed? ==>
              exists i :: 0 <= i < |lines| && Newest(lines, i) == out.line && !WellFormed(out.line)
                          && forall j :: 0 <= j < i ==> WellFormed(Newest(lines, j))
    ensures out.Rows? ==>
              && ListsNewestFirst(lines, out.rows)
              && |out.speeds| == |lines|
              && forall i :: 0 <= i < |lines| ==> out.speeds[i] == Speed(Newest(lines, i))
  {
    var rows: seq<seq<string>> := [];
    var speeds: seq<int> := [];
    var previousId: Option<string> := None;
    var n := 0;
    while n < |lines|
      invariant 0 <= n <= |lines|
      invariant previousId == if n == 0 then None else Some(Id(Newest(lines, n - 1)))
      invariant Shown(lines, n, rows, speeds)
    {
      var line := lines[|lines| - 1 - n];
      var row := Split(line, '\t');
      if |row| != 5 {
        FirstBad(lines, n, rows, speeds);
        return Malformed(line);
      }
      var id := row[0];
      var speed := SpeedOf(row[1]);
      if speed.None? {
        FirstBad(lines, n, rows, speeds);
        return Malformed(line);
      }
      BuildRow(lines, n, previousId);
      if previousId == Some(id) {
        row := row[0 := ""];
      }
      ShownExtend(lines, n, rows, speeds, row);
      speeds := speeds + [speed.value];
      previousId := Some(id);
      rows := rows + [row];
      n := n + 1;
    }
    AllShown(lines, rows, speeds);
    return Rows(rows, speeds);
  }

  lemma {:induction false} SumBounds(xs: seq<int>, lo: int, hi: int)
    requires forall k :: 0 <= k < |xs| ==> lo <= xs[k] <= hi
    ensures |xs| * lo <= T.Sum(xs) <= |xs| * hi
    decreases |xs|
  {
    if |xs| > 0 {
      SumBounds(xs[1..], lo, hi);
    }
  }

  function Slowest(xs: seq<int>): (m: int)
    requires |xs| > 0
    ensures m in xs && forall k :: 0 <= k < |xs| ==> m <= xs[k]
  {
    if |xs| == 1 then xs[0]
    else var rest := Slowest(xs[1..]); if xs[0] <= rest then xs[0] else rest
  }

  function Fastest(xs: seq<int>): (m: int)
    requires |xs| > 0
    ensures m in xs && forall k :: 0 <= k < |xs| ==> xs[k] <= m
  {
    if |xs| == 1 then xs[0]
    else var rest := Fastest(xs[1..]); if xs[0] >= rest then xs[0] else rest
  }

  lemma DivBetween(s: int, n: int, lo: int, hi: int)
    requires n > 0 && n * lo <= s <= n * hi
    ensures lo <= s / n <= hi
  {
    var q, r := s / n, s % n;
    assert s == q * n + r && 0 <= r < n;
    MulMonotone(q, lo - 1, n);
    MulMonotone(hi + 1, q, n);
    assert (lo - 1) * n == lo * n - n;
    assert (hi + 1) * n == hi * n + n;
  }

  lemma MulMonotone(a: int, b: int, n: int)
    requires n >= 0
    ensures a <= b ==> a * n <= b * n
  {
    var d := b - a;
    assert b * n == a * n + d * n;
    assert d >= 0 ==> d * n >= 0;
  }

  /** `sum(speeds) // len(speeds)`: Python's floor division, which for a
      positive divisor is Dafny's `/`. The average lies between the slowest
      and the fastest race. */
  function Average(speeds: seq<int>): (a: int)
    requires |speeds| > 0
    ensures Slowest(speeds) <= a <= Fastest(speeds)
  {
    SumBounds(speeds, Slowest(speeds), Fastest(speeds));
    DivBetween(T.Sum(speeds), |speeds|, Slowest(speeds), Fastest(speeds));
    T.Sum(speeds) / |speeds|
  }

  /** The speeds of every line, newest first. */
  function NewestSpeeds(lines: seq<string>): (r: seq<int>)
    requires forall k :: 0 <= k < |lines| ==> WellFormed(lines[k])
  {
    seq(|lines|, i requires 0 <= i < |lines| => Speed(Newest(lines, i)))
  }

  /** What the history view shows: nothing played yet, the table with the
      average speed, or the line the reader failed on. */
  datatype HistoryView = NoGames | Table(averageSpeed: int, rows: seq<seq<string>>) | BadRecord(line: string)

  /** `displayHistory`: the rows newest first and the average speed, or
      "no games" when the file is missing or empty. The number of races
      completed that it prints is the number of rows. */
  method DisplayHistory(file: Option<string>) returns (v: HistoryView)
    ensures v.NoGames? <==> |Content(file)| == 0
    ensures v.BadRecord? <==>
              exists k :: 0 <= k < |GetRacesFromFile(file)| && !WellFormed(GetRacesFromFile(file)[k])
    ensures v.BadRecord? ==> v.line in GetRacesFromFile(file) && !WellFormed(v.line)
    ensures v.Table? ==>
              var lines := GetRacesFromFile(file);
              && |lines| > 0
              && (forall k :: 0 <= k < |lines| ==> WellFormed(lines[k]))
              && ListsNewestFirst(lines, v.rows)
              && v.averageSpeed == Average(NewestSpeeds(lines))
  {
    var lines := GetRacesFromFile(file);
    if |lines| > 0 {
      var collected := CollectHistory(lines);
      match collected
      case Malformed(line) =>
        v := BadRecord(line);
      case Rows(rows, speeds) =>
        assert speeds == NewestSpeeds(lines);
        v := Table(Average(speeds), rows);
    } else {
      v := NoGames;
    }
  }
}
