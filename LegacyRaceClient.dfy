/** The earlier race client (python/RaceClient.py): the same four counters,
    ^X as the only abort key, no ^W, and no guard for a finished passage. */
module LegacyRaceClient {
  import opened Keys
  import Text
  import T = TermRacer

  /** What the method demands of its caller: the cursor is inside the
      passage, and short of its end unless the key is ^X (the passage is
      indexed at the cursor before anything else is checked). */
  predicate Callable(passage: string, p: T.Progress, c: char)
  {
    0 <= p.lastCorrect <= |passage| && (c == CTRLX || p.lastCorrect < |passage|)
  }

  /** The counters after `typeCharacter(c)`. */
  function Next(passage: string, p: T.Progress, c: char): (r: T.Progress)
    requires Callable(passage, p, c)
    ensures T.Consistent(passage, p) ==> T.Consistent(passage, r)
    ensures r.lastCorrect >= p.lastCorrect && r.totalErrors >= p.totalErrors
    ensures r.total - r.lastCorrect - r.totalErrors == p.total - p.lastCorrect - p.totalErrors
    ensures T.Finished(passage, r) && !T.Finished(passage, p) ==>
              c != CTRLX && T.Matches(passage, p, c) && r.lastCorrect == p.lastCorrect + 1
  {
    if c == CTRLX then p
    else if T.Matches(passage, p, c) then
      p.(lastCorrect := p.lastCorrect + 1, total := p.total + 1)
    else if c == BACKSPACE then
      p.(undeletedErrors := T.Max(p.undeletedErrors - 1, 0), total := p.total - 1 + 1)
    else
      p.(undeletedErrors := T.Min(p.undeletedErrors + 1, |passage| - p.lastCorrect),
         totalErrors := p.totalErrors + 1,
         total := p.total + 1)
  }

  /** The value `typeCharacter(c)` returns. */
  function Reports(passage: string, p: T.Progress, c: char): bool
    requires Callable(passage, p, c)
  {
    if c == CTRLX then true else T.Finished(passage, Next(passage, p, c))
  }

  /** ^X reports true and changes nothing. */
  lemma AbortIsNoOp(passage: string, p: T.Progress)
    requires 0 <= p.lastCorrect <= |passage|
    ensures Next(passage, p, CTRLX) == p && Reports(passage, p, CTRLX)
  {
  }

  /** Any other key reports whether the passage is now complete. */
  lemma ReportsOver(passage: string, p: T.Progress, c: char)
    requires Callable(passage, p, c) && c != CTRLX
    ensures Reports(passage, p, c) <==> Next(passage, p, c).lastCorrect == |passage|
  {
  }

  /** The expected character with nothing pending advances the cursor by
      one, counts one key and no error. */
  lemma CorrectKey(passage: string, p: T.Progress, c: char)
    requires 0 <= p.lastCorrect < |passage| && c != CTRLX && T.Matches(passage, p, c)
    ensures Next(passage, p, c) == p.(lastCorrect := p.lastCorrect + 1, total := p.total + 1)
  {
  }

  /** A backspace that is not itself the expected character removes one
      pending error (never below zero) and leaves the tally unchanged. */
  lemma BackspaceKey(passage: string, p: T.Progress)
    requires 0 <= p.lastCorrect < |passage| && !T.Matches(passage, p, BACKSPACE)
    ensures Next(passage, p, BACKSPACE) == p.(undeletedErrors := T.Max(p.undeletedErrors - 1, 0))
  {
  }

  /** Any other key is an error: pending errors grow by one up to what is
      left of the passage; ^C and ^W are ordinary keys here. */
  lemma WrongKey(passage: string, p: T.Progress, c: char)
    requires 0 <= p.lastCorrect < |passage| && c != CTRLX && c != BACKSPACE
    requires !T.Matches(passage, p, c)
    ensures Next(passage, p, c) ==
              p.(undeletedErrors := T.Min(p.undeletedErrors + 1, |passage| - p.lastCorrect),
                 totalErrors := p.totalErrors + 1, total := p.total + 1)
  {
  }

  /** What `serialize` reports: the speed text, progress as the pair
      cursor / passage length, accuracy and the id. */
  datatype Snapshot = Snapshot(speed: string, typed: int, length: int, acc: int, id: string)

  class RaceClient {
    const passage: string
    var total: int
    var totalErrors: int
    var undeletedErrors: int
    var lastCorrectCharacter: int
    var id: string

    function State(): T.Progress
      reads this
    {
      T.Progress(total, totalErrors, undeletedErrors, lastCorrectCharacter)
    }

    ghost predicate Valid()
      reads this
    {
      T.Consistent(passage, State())
    }

    /** A client for `passage`, named `player<n>` for the drawn `n`. */
    constructor (passage: string, n: int)
      requires 1 <= n <= 1000
      ensures this.passage == passage && id == "player" + Text.IntToString(n)
      ensures State() == T.Start && Valid()
    {
      this.passage := passage;
      total, totalErrors := 0, 0;
      undeletedErrors := 0;
      lastCorrectCharacter := 0;
      id := "player" + Text.IntToString(n);
    }

    function IsOver(): bool
      reads this
    {
      T.Finished(passage, State())
    }

    /** One keystroke; the result says whether the race has ended. */
    method TypeCharacter(c: char) returns (over: bool)
      requires Valid() && Callable(passage, State(), c)
      modifies this
      ensures Valid() && id == old(id)
      ensures State() == Next(passage, old(State()), c)
      ensures over == Reports(passage, old(State()), c)
      ensures c != CTRLX ==> over == IsOver()
    {
      if c == CTRLX {
        return true;
      }
      if passage[lastCorrectCharacter] == c && undeletedErrors == 0 {
        lastCorrectCharacter := lastCorrectCharacter + 1;
      } else if c == BACKSPACE {
        undeletedErrors := T.Max(undeletedErrors - 1, 0);
        total := total - 1;
      } else {
        undeletedErrors := T.Min(undeletedErrors + 1, |passage| - lastCorrectCharacter);
        totalErrors := totalErrors + 1;
      }
      total := total + 1;
      return IsOver();
    }

    /** The accuracy shown by `printStatus` and sent by `serialize`. */
    function Accuracy(): (a: int)
      reads this
      requires Valid()
      ensures 0 <= a <= 100
      ensures a == 100 <==> totalErrors == 0
    {
      AccuracyBounds(total, totalErrors);
      AccuracyPercent(total, totalErrors)
    }

    /** `serialize`, with the clock-based speed given as a parameter: the
        client's own cursor and accuracy, or nothing for an empty passage,
        where the progress quotient `cursor / len(passage)` raises
        ZeroDivisionError. */
    function Serialize(speed: int): (r: Text.Option<Snapshot>)
      reads this
      requires Valid()
      ensures r.None? <==> |passage| == 0
      ensures r.Some? ==>
                var s := r.value;
                && Text.SpeedOf(s.speed) == Text.Some(speed)
                && s.typed == lastCorrectCharacter && s.length == |passage|
                && s.acc == Accuracy() && s.id == id
      ensures r.Some? ==>
                var s := r.value;
                && 0 <= s.typed <= s.length
                && (s.typed == s.length <==> IsOver())
                && 0 <= s.acc <= 100 && (s.acc == 100 <==> totalErrors == 0)
    {
      Text.SpeedRoundTrip(speed);
      if |passage| == 0 then Text.None
      else Text.Some(Snapshot(Text.IntToString(speed) + "WPM", lastCorrectCharacter, |passage|, Accuracy(), id))
    }
  }
}
