/** The race client of the packaged program (src/termracer/RaceClient.py):
    four counters updated one keystroke at a time against a fixed passage. */
module TermRacer {
  import opened Keys
  import Text

  /** The counters of one client: keys counted toward the typed tally,
      wrong keys ever typed, wrong keys not yet deleted, and the cursor
      (the number of passage characters typed correctly). */
  datatype Progress = Progress(total: int, totalErrors: int, undeletedErrors: int, lastCorrect: int)

  /** The counters of a freshly constructed client. */
  const Start: Progress := Progress(0, 0, 0, 0)

  /** The bookkeeping every call keeps: the cursor inside the passage,
      pending errors within what is left of it, and each counted key either
      a correct character or an error. */
  predicate Consistent(passage: string, p: Progress)
  {
    && 0 <= p.lastCorrect <= |passage|
    && 0 <= p.undeletedErrors <= |passage| - p.lastCorrect
    && 0 <= p.totalErrors
    && p.total == p.lastCorrect + p.totalErrors
  }

  /** `isOver`: the whole passage has been typed. */
  predicate Finished(passage: string, p: Progress)
  {
    |passage| == p.lastCorrect
  }

  /** The key is the expected next character and nothing is pending. */
  predicate Matches(passage: string, p: Progress, c: char)
    requires 0 <= p.lastCorrect < |passage|
  {
    passage[p.lastCorrect] == c && p.undeletedErrors == 0
  }

  function Max(a: int, b: int): int { if a >= b then a else b }
  function Min(a: int, b: int): int { if a <= b then a else b }

  /** The counters after `typeCharacter(c)`. */
  function Next(passage: string, p: Progress, c: char): (r: Progress)
    requires 0 <= p.lastCorrect <= |passage|
    ensures Consistent(passage, p) ==> Consistent(passage, r)
    ensures r.lastCorrect >= p.lastCorrect && r.totalErrors >= p.totalErrors
    ensures r.total - r.lastCorrect - r.totalErrors == p.total - p.lastCorrect - p.totalErrors
    ensures Finished(passage, r) && !Finished(passage, p) ==>
              c != CTRLC && Matches(passage, p, c) && r.lastCorrect == p.lastCorrect + 1
  {
    if Finished(passage, p) then p
    else if c == CTRLC then p
    else if Matches(passage, p, c) then
      p.(lastCorrect := p.lastCorrect + 1, total := p.total + 1)
    else if c == BACKSPACE then
      p.(undeletedErrors := Max(p.undeletedErrors - 1, 0), total := p.total - 1 + 1)
    else if c == CTRLW then
      p.(undeletedErrors := 0, total := p.total - 1 + 1)
    else
      p.(undeletedErrors := Min(p.undeletedErrors + 1, |passage| - p.lastCorrect),
         totalErrors := p.totalErrors + 1,
         total := p.total + 1)
  }

  /** The value `typeCharacter(c)` returns. */
  function Reports(passage: string, p: Progress, c: char): bool
    requires 0 <= p.lastCorrect <= |passage|
  {
    if Finished(passage, p) then true
    else if c == CTRLC then true
    else Finished(passage, Next(passage, p, c))
  }

  /** The call reports true exactly when the race is over afterwards or
      the key was ^C. */
  lemma ReportsOverOrAbort(passage: string, p: Progress, c: char)
    requires 0 <= p.lastCorrect <= |passage|
    ensures Reports(passage, p, c) <==> c == CTRLC || Finished(passage, Next(passage, p, c))
  {
  }

  /** A finished passage absorbs every key: true, nothing changes. */
  lemma OverIsNoOp(passage: string, p: Progress, c: char)
    requires 0 <= p.lastCorrect <= |passage| && Finished(passage, p)
    ensures Next(passage, p, c) == p && Reports(passage, p, c)
  {
  }

  /** ^C reports true and changes nothing, even mid-passage. */
  lemma AbortIsNoOp(passage: string, p: Progress)
    requires 0 <= p.lastCorrect <= |passage|
    ensures Next(passage, p, CTRLC) == p && Reports(passage, p, CTRLC)
  {
  }

  /** The expected character with nothing pending advances the cursor by
      one and counts one key, no error. */
  lemma CorrectKey(passage: string, p: Progress, c: char)
    requires 0 <= p.lastCorrect < |passage| && c != CTRLC && Matches(passage, p, c)
    ensures Next(passage, p, c) == p.(lastCorrect := p.lastCorrect + 1, total := p.total + 1)
  {
  }

  /** While errors are pending, any other key, the expected one included,
      is one more error and the cursor stays. */
  lemma PendingMakesWrong(passage: string, p: Progress, c: char)
    requires 0 <= p.lastCorrect < |passage| && p.undeletedErrors > 0
    requires c != CTRLC && c != BACKSPACE && c != CTRLW
    ensures Next(passage, p, c) ==
              p.(undeletedErrors := Min(p.undeletedErrors + 1, |passage| - p.lastCorrect),
                 totalErrors := p.totalErrors + 1, total := p.total + 1)
  {
  }

  /** A backspace that is not itself the expected character removes one
      pending error (never below zero); the tally, errors and cursor stay. */
  lemma BackspaceKey(passage: string, p: Progress)
    requires 0 <= p.lastCorrect < |passage| && !Matches(passage, p, BACKSPACE)
    ensures Next(passage, p, BACKSPACE) == p.(undeletedErrors := Max(p.undeletedErrors - 1, 0))
  {
  }

  /** ^W that is not itself the expected character clears every pending
      error; the tally, errors and cursor stay. */
  lemma ClearKey(passage: string, p: Progress)
    requires 0 <= p.lastCorrect < |passage| && !Matches(passage, p, CTRLW)
    ensures Next(passage, p, CTRLW) == p.(undeletedErrors := 0)
  {
  }

  // ---------------------------------------------------------------------
  // Sequences of keys

  /** The counters after each key of `keys` in turn. */
  function Run(passage: string, p: Progress, keys: seq<char>): (r: Progress)
    requires 0 <= p.lastCorrect <= |passage|
    ensures p.lastCorrect <= r.lastCorrect <= |passage|
    decreases |keys|
  {
    if |keys| == 0 then p else Run(passage, Next(passage, p, keys[0]), keys[1..])
  }

  lemma {:induction false} RunAppend(passage: string, p: Progress, a: seq<char>, b: seq<char>)
    requires 0 <= p.lastCorrect <= |passage|
    ensures Run(passage, p, a + b) == Run(passage, Run(passage, p, a), b)
    decreases |a|
  {
    if |a| > 0 {
      assert (a + b)[0] == a[0];
      assert (a + b)[1..] == a[1..] + b;
      RunAppend(passage, Next(passage, p, a[0]), a[1..], b);
    } else {
      assert a + b == b;
    }
  }

  /** No sequence of keys breaks the bookkeeping: pending errors stay in
      [0, len(passage) - cursor] and the tally is cursor plus errors. */
  lemma {:induction false} RunConsistent(passage: string, p: Progress, keys: seq<char>)
    requires Consistent(passage, p)
    ensures Consistent(passage, Run(passage, p, keys))
    decreases |keys|
  {
    if |keys| > 0 {
      RunConsistent(passage, Next(passage, p, keys[0]), keys[1..]);
    }
  }

  /** Typing the rest of the passage exactly, with nothing pending, ends
      the race, adds one key per character and no error. */
  lemma {:induction false} TypeRest(passage: string, p: Progress)
    requires Consistent(passage, p) && p.undeletedErrors == 0
    requires forall k :: p.lastCorrect <= k < |passage| ==> passage[k] != CTRLC
    ensures Run(passage, p, passage[p.lastCorrect..]) ==
              p.(lastCorrect := |passage|, total := p.total + |passage| - p.lastCorrect)
    decreases |passage| - p.lastCorrect
  {
    var rest := passage[p.lastCorrect..];
    if |rest| > 0 {
      var q := Next(passage, p, rest[0]);
      assert q == p.(lastCorrect := p.lastCorrect + 1, total := p.total + 1);
      assert rest[1..] == passage[q.lastCorrect..];
      TypeRest(passage, q);
    }
  }

  /** The whole race typed without a mistake: over, no error, the tally is
      the passage length and accuracy is 100. */
  lemma CleanRace(passage: string)
    requires CTRLC !in passage
    ensures var r := Run(passage, Start, passage);
            Finished(passage, r) && r.totalErrors == 0 && r.total == |passage|
            && AccuracyPercent(r.total, r.totalErrors) == 100
  {
    assert passage[0..] == passage;
    TypeRest(passage, Start);
    AccuracyBounds(|passage|, 0);
  }

  /** `m` repetitions of a wrong key followed by a backspace. */
  function Corrections(wrong: char, m: nat): (keys: seq<char>)
    ensures |keys| == 2 * m
  {
    if m == 0 then [] else [wrong, BACKSPACE] + Corrections(wrong, m - 1)
  }

  /** Each wrong key deleted at once adds one error and one counted key and
      leaves the cursor and the pending count where they were. */
  lemma {:induction false} CorrectionsCost(passage: string, p: Progress, wrong: char, m: nat)
    requires Consistent(passage, p) && p.undeletedErrors == 0 && !Finished(passage, p)
    requires wrong != passage[p.lastCorrect]
    requires wrong != CTRLC && wrong != BACKSPACE && wrong != CTRLW
    ensures Run(passage, p, Corrections(wrong, m)) ==
              p.(total := p.total + m, totalErrors := p.totalErrors + m)
    decreases m
  {
    if m > 0 {
      var q1 := Next(passage, p, wrong);
      assert q1 == p.(undeletedErrors := 1, totalErrors := p.totalErrors + 1, total := p.total + 1);
      var q2 := Next(passage, q1, BACKSPACE);
      assert q2 == q1.(undeletedErrors := 0);
      RunAppend(passage, p, [wrong, BACKSPACE], Corrections(wrong, m - 1));
      assert Run(passage, p, [wrong, BACKSPACE]) == q2 by {
        assert [wrong, BACKSPACE][1..] == [BACKSPACE];
        assert [BACKSPACE][1..] == [];
        assert Run(passage, q2, []) == q2;
        assert Run(passage, q1, [BACKSPACE]) == Run(passage, q2, []);
      }
      CorrectionsCost(passage, q2, wrong, m - 1);
    }
  }

  /** The sum of a list of numbers (`sum(xs)`). */
  function Sum(xs: seq<int>): int
  {
    if |xs| == 0 then 0 else xs[0] + Sum(xs[1..])
  }

  lemma {:induction false} SumOfCounts(counts: seq<nat>)
    ensures Sum(counts) >= 0
    decreases |counts|
  {
    if |counts| > 0 {
      SumOfCounts(counts[1..]);
    }
  }

  /** Each character of `text` followed by `counts[k]` wrong-key and
      backspace pairs. */
  function Drill(text: string, wrong: char, counts: seq<nat>): (keys: seq<char>)
    requires |counts| == |text|
  {
    if |text| == 0 then [] else [text[0]] + Corrections(wrong, counts[0]) + Drill(text[1..], wrong, counts[1..])
  }

  /** Typing the rest of the passage with immediately deleted mistakes
      after any character but the last: over, one error and one counted key
      per mistake, one counted key per character. */
  lemma {:induction false} DrillCost(passage: string, p: Progress, wrong: char, counts: seq<nat>)
    requires Consistent(passage, p) && p.undeletedErrors == 0
    requires |counts| == |passage| - p.lastCorrect
    requires |counts| > 0 ==> counts[|counts| - 1] == 0
    requires forall k :: p.lastCorrect <= k < |passage| ==> passage[k] != CTRLC && passage[k] != wrong
    requires wrong != CTRLC && wrong != BACKSPACE && wrong != CTRLW
    ensures Run(passage, p, Drill(passage[p.lastCorrect..], wrong, counts)) ==
              p.(lastCorrect := |passage|,
                 total := p.total + |passage| - p.lastCorrect + Sum(counts),
                 totalErrors := p.totalErrors + Sum(counts))
    decreases |counts|
  {
    var rest := passage[p.lastCorrect..];
    if |rest| > 0 {
      var c := rest[0];
      var q := Next(passage, p, c);
      assert q == p.(lastCorrect := p.lastCorrect + 1, total := p.total + 1);
      assert Run(passage, p, [c]) == q by {
        assert Run(passage, p, [c]) == Run(passage, q, []);
      }
      var fix := Corrections(wrong, counts[0]);
      var r := q.(total := q.total + counts[0], totalErrors := q.totalErrors + counts[0]);
      if Finished(passage, q) {
        assert fix == [];
      } else {
        CorrectionsCost(passage, q, wrong, counts[0]);
      }
      assert Run(passage, q, fix) == r;
      assert rest[1..] == passage[r.lastCorrect..];
      DrillCost(passage, r, wrong, counts[1..]);
      var tail := Drill(rest[1..], wrong, counts[1..]);
      assert Drill(rest, wrong, counts) == [c] + (fix + tail);
      RunAppend(passage, p, [c], fix + tail);
      RunAppend(passage, q, fix, tail);
    }
  }

  /** The whole race typed with immediately deleted mistakes: the tally is
      the passage length plus the number of mistakes, and accuracy is
      floor(len * 100 / (len + mistakes)). */
  lemma DrillRace(passage: string, wrong: char, counts: seq<nat>)
    requires |counts| == |passage|
    requires |counts| > 0 ==> counts[|counts| - 1] == 0
    requires CTRLC !in passage && wrong !in passage
    requires wrong != CTRLC && wrong != BACKSPACE && wrong != CTRLW
    ensures var r := Run(passage, Start, Drill(passage, wrong, counts));
            && Finished(passage, r)
            && r.totalErrors == Sum(counts)
            && r.total == |passage| + Sum(counts)
            && (r.total > 0 ==> AccuracyPercent(r.total, r.totalErrors) == |passage| * 100 / r.total)
  {
    assert passage[0..] == passage;
    DrillCost(passage, Start, wrong, counts);
    SumOfCounts(counts);
    AccuracyBounds(|passage| + Sum(counts), Sum(counts));
  }

  // ---------------------------------------------------------------------
  // The client object

  /** What `serialize` reports: the clock-based speed and seconds, the
      error and typed counts, accuracy, progress as the pair cursor /
      passage length, and the id. */
  datatype Snapshot = Snapshot(speed: int, timeElapsed: int, totalErrors: int, totalCharactersTyped: int,
                               accuracy: int, typed: int, length: int, id: string)

  class RaceClient {
    const passage: string
    var total: int
    var totalErrors: int
    var undeletedErrors: int
    var lastCorrectCharacter: int
    var id: string

    function State(): Progress
      reads this
    {
      Progress(total, totalErrors, undeletedErrors, lastCorrectCharacter)
    }

    ghost predicate Valid()
      reads this
    {
      Consistent(passage, State())
    }

    /** A client for `passage`, named `player<n>` for the drawn `n`. */
    constructor (passage: string, n: int)
      requires 1 <= n <= 1000
      ensures this.passage == passage && id == "player" + Text.IntToString(n)
      ensures State() == Start && Valid()
    {
      this.passage := passage;
      total, totalErrors := 0, 0;
      undeletedErrors := 0;
      lastCorrectCharacter := 0;
      id := "player" + Text.IntToString(n);
    }

    function IsOver(): bool
      reads this
    {
      Finished(passage, State())
    }

    /** One keystroke; the result says whether the race has ended. */
    method TypeCharacter(c: char) returns (over: bool)
      requires Valid()
      modifies this
      ensures Valid() && id == old(id)
      ensures State() == Next(passage, old(State()), c)
      ensures over == Reports(passage, old(State()), c)
    {
      if IsOver() {
        return true;
      }
      if c == CTRLC {
        return true;
      }
      if passage[lastCorrectCharacter] == c && undeletedErrors == 0 {
        lastCorrectCharacter := lastCorrectCharacter + 1;
      } else if c == BACKSPACE {
        undeletedErrors := Max(undeletedErrors - 1, 0);
        total := total - 1;
      } else if c == CTRLW {
        undeletedErrors := 0;
        total := total - 1;
      } else {
        undeletedErrors := Min(undeletedErrors + 1, |passage| - lastCorrectCharacter);
        totalErrors := totalErrors + 1;
      }
      total := total + 1;
      return IsOver();
    }

    /** The accuracy figure of `statistics`. */
    function Accuracy(): (a: int)
      reads this
      requires Valid()
      ensures 0 <= a <= 100
      ensures a == 100 <==> totalErrors == 0
      ensures total == 0 ==> a == 100
    {
      AccuracyBounds(total, totalErrors);
      AccuracyPercent(total, totalErrors)
    }

    /** `serialize`, with the clock-based speed and seconds as parameters:
        the client's own counters, or nothing for an empty passage, where
        the progress quotient `cursor / len(passage)` raises
        ZeroDivisionError. */
    function Serialize(speed: int, elapsed: int): (r: Text.Option<Snapshot>)
      reads this
      requires Valid()
      ensures r.None? <==> |passage| == 0
      ensures r.Some? ==>
                var s := r.value;
                && s.speed == speed && s.timeElapsed == elapsed && s.id == id
                && s.typed == lastCorrectCharacter && s.length == |passage|
                && s.totalErrors == totalErrors && s.totalCharactersTyped == total
                && s.accuracy == Accuracy()
      ensures r.Some? ==>
                var s := r.value;
                && 0 <= s.typed <= s.length
                && (s.typed == s.length <==> IsOver())
                && s.totalCharactersTyped == s.typed + s.totalErrors
                && 0 <= s.accuracy <= 100 && (s.accuracy == 100 <==> s.totalErrors == 0)
    {
      if |passage| == 0 then Text.None
      else Text.Some(Snapshot(speed, elapsed, totalErrors, total, Accuracy(), lastCorrectCharacter, |passage|, id))
    }
  }
}
