/** The first client (python/main.py): a cursor, an error count and a flag
    for "the last key was wrong"; its history record and history listing. */
module LegacyMain {
  import opened Text
  import Keys
  import H = RaceHistory

  /** Keys typed, wrong keys, the cursor, and whether the last key was wrong. */
  datatype Counters = Counters(total: int, errors: int, lastCorrect: int, isWrong: bool)

  const Start: Counters := Counters(0, 0, 0, false)

  /** Every key typed is either a correct character or an error. */
  predicate Consistent(passage: string, p: Counters)
  {
    0 <= p.lastCorrect <= |passage| && 0 <= p.errors && p.total == p.lastCorrect + p.errors
  }

  /** The counters after `typeCharacter(c)`; the passage is indexed at the
      cursor, so the cursor must be short of its end. */
  function Next(passage: string, p: Counters, c: char): (r: Counters)
    requires 0 <= p.lastCorrect < |passage|
    ensures r.total == p.total + 1
    ensures Consistent(passage, p) ==> Consistent(passage, r)
    ensures r.isWrong <==> c != passage[p.lastCorrect]
    ensures r.lastCorrect == p.lastCorrect + (if r.isWrong then 0 else 1)
    ensures r.errors == p.errors + (if r.isWrong then 1 else 0)
  {
    var q := if passage[p.lastCorrect] == c then p.(isWrong := false, lastCorrect := p.lastCorrect + 1)
             else p.(isWrong := true, errors := p.errors + 1);
    q.(total := q.total + 1)
  }

  /** This client has no abort key of its own: ^X is compared with the
      passage like any key, so unless the passage expects it, it counts as
      an error before the caller's loop ends the race. */
  lemma AbortCountsAsError(passage: string, p: Counters)
    requires 0 <= p.lastCorrect < |passage| && passage[p.lastCorrect] != Keys.CTRLX
    ensures Next(passage, p, Keys.CTRLX).errors == p.errors + 1
    ensures Next(passage, p, Keys.CTRLX).lastCorrect == p.lastCorrect
  {
  }

  /** What `serialize` sends: the speed text, progress as the pair
      cursor / passage length, accuracy and the id. This is also what
      `setState` receives from the other player. */
  datatype Snapshot = Snapshot(speed: string, typed: int, length: int, acc: int, id: string)

  class Client {
    const passage: string
    var total: int
    var errors: int
    var lastCorrectCharacter: int
    var isWrong: bool
    var id: string
    var state: Option<Snapshot>

    function Counts(): Counters
      reads this
    {
      Counters(total, errors, lastCorrectCharacter, isWrong)
    }

    ghost predicate Valid()
      reads this
    {
      Consistent(passage, Counts())
    }

    /** A client for `passage`, named `player<n>` for the drawn `n`. */
    constructor (passage: string, n: int)
      requires 1 <= n <= 1000
      ensures this.passage == passage && id == "player" + IntToString(n) && state == None
      ensures Counts() == Start && Valid()
    {
      this.passage := passage;
      state := None;
      total, errors := 0, 0;
      lastCorrectCharacter := 0;
      isWrong := false;
      id := "player" + IntToString(n);
    }

    function IsOver(): bool
      reads this
    {
      |passage| == lastCorrectCharacter
    }

    /** One keystroke; the result is `isOver()` afterwards. */
    method TypeCharacter(c: char) returns (over: bool)
      requires Valid() && lastCorrectCharacter < |passage|
      modifies this
      ensures Valid() && id == old(id) && state == old(state)
      ensures Counts() == Next(passage, old(Counts()), c)
      ensures over == IsOver()
    {
      if passage[lastCorrectCharacter] == c {
        isWrong := false;
        lastCorrectCharacter := lastCorrectCharacter + 1;
      } else {
        isWrong := true;
        errors := errors + 1;
      }
      total := total + 1;
      return IsOver();
    }

    /** The other player's snapshot replaces whatever was stored. */
    method SetState(data: Snapshot)
      modifies this
      ensures state == Some(data)
      ensures Counts() == old(Counts()) && id == old(id)
    {
      state := Some(data);
    }

    /** The accuracy of `printStatus`, `serialize` and `writeResults`. */
    function Accuracy(): (a: int)
      reads this
      requires Valid()
      ensures 0 <= a <= 100
      ensures a == 100 <==> errors == 0
    {
      Keys.AccuracyBounds(total, errors);
      Keys.AccuracyPercent(total, errors)
    }

    /** `serialize`, with the clock-based speed given as a parameter: the
        client's own cursor and accuracy, or nothing for an empty passage,
        where the progress quotient `cursor / len(passage)` raises
        ZeroDivisionError. */
    function Serialize(speed: int): (r: Option<Snapshot>)
      reads this
      requires Valid()
      ensures r.None? <==> |passage| == 0
      ensures r.Some? ==>
                var s := r.value;
                && SpeedOf(s.speed) == Some(speed)
                && s.typed == lastCorrectCharacter && s.length == |passage|
                && s.acc == Accuracy() && s.id == id
      ensures r.Some? ==>
                var s := r.value;
                && 0 <= s.typed <= s.length
                && (s.typed == s.length <==> IsOver())
                && 0 <= s.acc <= 100 && (s.acc == 100 <==> errors == 0)
    {
      SpeedRoundTrip(speed);
      if |passage| == 0 then None
      else Some(Snapshot(IntToString(speed) + "WPM", lastCorrectCharacter, |passage|, Accuracy(), id))
    }
  }

  /** The fields `writeResults` joins: the id, the two strings of
      `statistics()`, the accuracy (without a percent sign) and the passage. */
  function RecordFields(id: string, speed: int, elapsed: int, accuracy: int, passage: string): seq<string>
  {
    [id, IntToString(speed) + "WPM", IntToString(elapsed) + "s", IntToString(accuracy), passage]
  }

  function Record(id: string, speed: int, elapsed: int, accuracy: int, passage: string): string
  {
    Join(RecordFields(id, speed, elapsed, accuracy, passage), '\t') + "\n"
  }

  /** `writeResults(client)`: nothing unless the race is over; otherwise
      the old content as read in text mode (empty when the file is
      missing), followed by the record, replaces the file. Speed and
      elapsed seconds are given as parameters. */
  function WriteResults(c: Client, speed: int, elapsed: int, file: Option<string>): (r: Option<string>)
    reads c
    ensures !c.IsOver() ==> r == file
    ensures c.IsOver() ==>
              r == Some(UniversalNewlines(H.Content(file)) +
                        Record(c.id, speed, elapsed, Keys.AccuracyPercent(c.total, c.errors), c.passage))
  {
    if !c.IsOver() then file
    else Some(UniversalNewlines(H.Content(file)) +
              Record(c.id, speed, elapsed, Keys.AccuracyPercent(c.total, c.errors), c.passage))
  }

  /** A record whose id and passage hold no tab and no newline is one line
      that splits on tabs into its five fields, the passage carrying the
      newline. */
  lemma RecordSplits(id: string, speed: int, elapsed: int, accuracy: int, passage: string)
    requires '\t' !in id && '\t' !in passage && '\n' !in id && '\n' !in passage
    ensures var line := Record(id, speed, elapsed, accuracy, passage);
            && IsLine(line) && line[|line| - 1] == '\n'
            && Split(line, '\t') == RecordFields(id, speed, elapsed, accuracy, passage)[4 := passage + "\n"]
  {
    H.NumberFieldAvoids(speed, "WPM", '\t');
    H.NumberFieldAvoids(elapsed, "s", '\t');
    H.NumberFieldAvoids(accuracy, "", '\t');
    H.NumberFieldAvoids(speed, "WPM", '\n');
    H.NumberFieldAvoids(elapsed, "s", '\n');
    H.NumberFieldAvoids(accuracy, "", '\n');
    assert IntToString(accuracy) + "" == IntToString(accuracy);
    H.FieldsLineSplits(RecordFields(id, speed, elapsed, accuracy, passage));
  }

  /** Nor does a record hold a carriage return unless its id or passage does. */
  lemma RecordHasNoReturn(id: string, speed: int, elapsed: int, accuracy: int, passage: string)
    requires '\r' !in id && '\r' !in passage
    ensures '\r' !in Record(id, speed, elapsed, accuracy, passage)
  {
    H.NumberFieldAvoids(speed, "WPM", '\r');
    H.NumberFieldAvoids(elapsed, "s", '\r');
    H.NumberFieldAvoids(accuracy, "", '\r');
    assert IntToString(accuracy) + "" == IntToString(accuracy);
    JoinAvoids(RecordFields(id, speed, elapsed, accuracy, passage), '\t', '\r');
  }

  /** Rewriting the file with its content as read followed by a whole line
      keeps every line read before and adds that line. */
  lemma RewriteAddsLine(file: Option<string>, line: string)
    requires H.WholeLine(line) && EndsLine(H.Content(file))
    ensures H.GetRacesFromFile(Some(UniversalNewlines(H.Content(file)) + line)) == H.GetRacesFromFile(file) + [line]
  {
    var read := Some(UniversalNewlines(H.Content(file)));
    UniversalEndsLine(H.Content(file));
    H.AppendLine(read, line);
    UniversalIdempotent(H.Content(file));
    assert H.GetRacesFromFile(read) == H.GetRacesFromFile(file);
  }

  /** The record is read back by the history listing: a well-formed line
      with the player's id and speed, added after every earlier line. A
      carriage return in the id or passage would be read as a line end. */
  lemma RecordReadsBack(file: Option<string>, id: string, speed: int, elapsed: int, accuracy: int, passage: string)
    requires '\t' !in id && '\t' !in passage && '\n' !in id && '\n' !in passage
    requires '\r' !in id && '\r' !in passage
    requires EndsLine(H.Content(file))
    ensures var line := Record(id, speed, elapsed, accuracy, passage);
            && H.WellFormed(line) && H.Id(line) == id && H.Speed(line) == speed
            && H.GetRacesFromFile(Some(UniversalNewlines(H.Content(file)) + line)) == H.GetRacesFromFile(file) + [line]
  {
    RecordSplits(id, speed, elapsed, accuracy, passage);
    RecordHasNoReturn(id, speed, elapsed, accuracy, passage);
    SpeedRoundTrip(speed);
    RewriteAddsLine(file, Record(id, speed, elapsed, accuracy, passage));
  }

  /** What the history view of this version shows. An existing file with
      no lines reaches `sum(speeds) // len(speeds)` with no speeds. */
  datatype HistoryView = NotPlayed | Listing(averageSpeed: int, rows: seq<seq<string>>)
                       | BadRecord(line: string) | DivisionByZero

  /** The `--history` branch: "not played" without a file, otherwise the
      rows newest first and the average speed. */
  method ShowHistory(file: Option<string>) returns (v: HistoryView)
    ensures v.NotPlayed? <==> file.None?
    ensures v.DivisionByZero? <==> file == Some("")
    ensures v.BadRecord? ==>
              exists k :: 0 <= k < |H.GetRacesFromFile(file)| && !H.WellFormed(H.GetRacesFromFile(file)[k])
    ensures (exists k :: 0 <= k < |H.GetRacesFromFile(file)| && !H.WellFormed(H.GetRacesFromFile(file)[k])) ==>
              v.BadRecord?
    ensures v.BadRecord? ==> v.line in H.GetRacesFromFile(file) && !H.WellFormed(v.line)
    ensures v.Listing? ==>
              var lines := H.GetRacesFromFile(file);
              && |lines| > 0
              && (forall k :: 0 <= k < |lines| ==> H.WellFormed(lines[k]))
              && H.ListsNewestFirst(lines, v.rows)
              && v.averageSpeed == H.Average(H.NewestSpeeds(lines))
  {
    if file.None? {
      return NotPlayed;
    }
    var lines := H.GetRacesFromFile(file);
    var collected := H.CollectHistory(lines);
    if collected.Malformed? {
      v := BadRecord(collected.line);
      assert exists k :: 0 <= k < |lines| && !H.WellFormed(lines[k]);
    } else if |collected.speeds| == 0 {
      v := DivisionByZero;
    } else {
      assert collected.speeds == H.NewestSpeeds(lines);
      v := Listing(H.Average(collected.speeds), collected.rows);
    }
  }
}
