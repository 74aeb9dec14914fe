# termracer in Dafny

termracer is a terminal typing race. A client shows a passage and checks
each key the player presses, one at a time, against the next passage
character. It keeps four counters: keys counted toward the tally, wrong
keys ever typed, wrong keys not yet deleted, and a cursor (the number of
passage characters typed correctly). A finished race is appended to a
history file as one tab-separated line; the history view lists those lines
newest first with the average speed. In multiplayer mode a small broker
admits two players, announces the start, relays each player's snapshot to
everyone and announces the end once both have finished.

This project models three generations of the client and the pieces around
them:

- `Keys.dfy` — the raw-mode key codes (delete, ^W, ^C, ^X) and the
  accuracy percentage `int((total - errors) * 100 / total)`, or 100 when
  nothing was typed. Python's `int` of a float truncates toward zero;
  `TruncDiv` writes that out.
- `TermRacer.dfy` — the packaged client (`src/termracer/RaceClient.py`). A
  pure transition function `Next` gives the counters after one key, with
  the source's branch order. The class `RaceClient` has the four counters
  as fields. Its `TypeCharacter` method updates them step by step, as the
  source does, and is proved to agree with `Next`. Lemmas over `Run` (a
  sequence of keys) cover whole races. They prove that typing the passage
  exactly gives accuracy 100, and that every wrong key deleted at once
  costs one error and one counted key.
- `LegacyRaceClient.dfy` — the earlier client (`python/RaceClient.py`).
  ^X aborts, there is no ^W, and there is no guard for a finished passage.
  So a call needs the cursor short of the end unless the key is ^X.
- `LegacyMain.dfy` — the first client (`python/main.py`). It has a cursor,
  an error count and a "last key was wrong" flag. It also has its
  history record, which is written by rewriting the whole file, and its
  history view.
- `RaceHistory.dfy` — the history record and listing of `src/main.py`. The
  file is an `Option<string>`, where `None` means the file does not exist.
  `readlines`, `split("\t")` and `"\t".join` are pure functions from
  `Text.dfy`, with round-trip lemmas. Files are read in text mode, where
  "\r\n" and a lone "\r" both read as "\n"; `Text.UniversalNewlines`
  models that translation. `CollectHistory` is the listing loop:
  it walks the lines newest first, blanks an id equal to the previous
  line's raw id, and collects the speeds.
- `Server.dfy` — the broker handlers (`python/server.py`). They are a
  generic class over the relayed data type. Its methods append each
  broadcast to a log. Three call sequences are proved end to end.

Some behaviours of the code that the model keeps as written:

- `force_stop` announces the end but does not stop the broker
  (`Server.ForcedThenFinished`).
- In `python/main.py` the client compares ^X with the passage like any
  other key, so ^X counts as an error before the caller's loop ends the
  race (`LegacyMain.AbortCountsAsError`).
- The `python/main.py` history view divides by the number of speeds. An
  existing but empty history file reaches that division with no speeds,
  and the model returns `DivisionByZero` for it.
- A carriage return in the player's id or in the passage is read back as
  a line end, so the record comes back as two lines and the history view
  reports a bad record (`RaceHistory.ReturnSplitsRecord`). The round-trip
  lemmas therefore require fields without carriage returns.
- A passage character equal to a control key is matched as a correct key
  before the control branches are reached. In the packaged client, ^C is
  checked before the match. So the whole-race lemmas require a passage
  free of ^C.

## Model

| member | source | states |
|---|---|---|
| Keys.TruncDiv | src/termracer/RaceClient.py:107 | `int(a / b)` equals floor division whenever the numerator is non-negative and the divisor positive |
| Keys.AccuracyBounds | src/termracer/RaceClient.py:106-109 | with 0 <= errors <= total, accuracy is in [0, 100], it is 100 exactly when errors is 0, and for total > 0 it is floor((total - errors) * 100 / total) |
| Text.Split | src/main.py:134 | `split` returns at least one piece, no piece holds the separator, and joining the pieces gives back the line |
| Text.SplitJoin | src/main.py:102 | fields without the separator, once joined, split back into exactly those fields |
| Text.ReadLines | src/main.py:77 | `readlines` loses nothing: the lines concatenate to the text read, and there are no lines exactly when that text is empty |
| Text.ReadLinesAreLines | src/main.py:77 | every line `readlines` yields is non-empty with a newline only at its end, and all but the last end in a newline |
| Text.ReadLinesAppend | src/main.py:101-102 | appending to content that ends a line appends lines: the lines of the new content are the old lines followed by the lines of the appended text |
| Text.UniversalHasNoReturn | src/main.py:76-77 | text read from a file opened in text mode never holds a carriage return: "\r\n" and a lone "\r" are both read as "\n" |
| Text.UniversalKeeps | src/main.py:76-77 | content without carriage returns is read back unchanged |
| Text.UniversalIdempotent | python/main.py:256-267 | reading content that was already read (and written back) changes nothing |
| Text.UniversalAppend | src/main.py:100-102 | content appended after a part that does not end in "\r" is read independently of that part |
| Text.UniversalEndsLine | src/main.py:100-102 | content that ends a line still ends a line once read |
| Text.IntRoundTrip | src/main.py:136 | `int(str(i)) == i` for every integer |
| Text.SpeedRoundTrip | src/main.py:136 | a speed written as `<n>WPM` is read back as n |
| TermRacer.Next | src/termracer/RaceClient.py:42-88 | one key keeps the bookkeeping (cursor in the passage, pending errors in [0, len - cursor], total == cursor + errors), never moves the cursor back or lowers the error count, and leaves total - cursor - errors fixed; the race can only become over by typing the expected character with nothing pending |
| TermRacer.ReportsOverOrAbort | src/termracer/RaceClient.py:49-88 | the call returns true exactly when the key was ^C or the race is over afterwards |
| TermRacer.OverIsNoOp | src/termracer/RaceClient.py:50-51 | on a completed passage every key returns true and changes nothing |
| TermRacer.AbortIsNoOp | src/termracer/RaceClient.py:54-55 | ^C returns true and changes no counter, even mid-passage |
| TermRacer.CorrectKey | src/termracer/RaceClient.py:58-59 | the expected character with nothing pending advances the cursor by one and raises total by one (line 86), errors unchanged |
| TermRacer.PendingMakesWrong | src/termracer/RaceClient.py:75-83 | with errors pending, any non-control key, the expected one included, is an error: pending grows by one up to what is left, errors and total grow by one, the cursor stays |
| TermRacer.BackspaceKey | src/termracer/RaceClient.py:63-67 | backspace lowers pending errors by one, never below 0, and leaves total, errors and cursor unchanged |
| TermRacer.ClearKey | src/termracer/RaceClient.py:70-72 | ^W sets pending errors to 0 and leaves total, errors and cursor unchanged |
| TermRacer.Run | src/main.py:52-63 | a sequence of keys never moves the cursor back or past the end of the passage |
| TermRacer.RunConsistent | src/termracer/RaceClient.py:64-86 | after any sequence of keys the bookkeeping still holds, pending-error bound included |
| TermRacer.TypeRest | src/termracer/RaceClient.py:58-59 | typing the rest of the passage exactly, with nothing pending, ends the race and adds one counted key per character and no error |
| TermRacer.CleanRace | src/tests.py:11-19 | typing the passage exactly: the race is over, accuracy is 100 and total equals the passage length |
| TermRacer.CorrectionsCost | src/tests.py:34-40 | each wrong key followed by a backspace adds one error and one counted key and leaves cursor and pending count unchanged |
| TermRacer.DrillCost | src/tests.py:28-40 | typing the rest of the passage with immediately deleted mistakes ends the race; errors grow by the number of mistakes and total by characters plus mistakes |
| TermRacer.DrillRace | src/tests.py:28-51 | a whole race typed that way is over, has as many errors as mistakes, total = length + mistakes, and accuracy = floor(length * 100 / total) |
| TermRacer.RaceClient.constructor | src/termracer/RaceClient.py:26-35 | a new client has the passage, all counters 0 and the id `player<n>` |
| TermRacer.RaceClient.TypeCharacter | src/termracer/RaceClient.py:42-88 | the fields change exactly as `Next` says, the bookkeeping invariant is kept, and the result is the value `ReportsOverOrAbort` characterises |
| TermRacer.RaceClient.Accuracy | src/termracer/RaceClient.py:106-109 | accuracy is in [0, 100], 100 exactly when no error was typed, and 100 when nothing was typed |
| TermRacer.RaceClient.Serialize | src/termracer/RaceClient.py:240-261 | an empty passage raises (no snapshot) exactly when the passage is empty; otherwise the snapshot carries the given speed and seconds and the client's own cursor, passage length, error count, typed count, accuracy and id, so progress reaches the length exactly when the race is over, the typed count is cursor plus errors, and accuracy is 100 exactly when no error was typed |
| LegacyRaceClient.Next | python/RaceClient.py:30-65 | one key keeps the bookkeeping, never moves the cursor back or lowers errors, keeps total - cursor - errors fixed, and completes the race only by the expected character with nothing pending |
| LegacyRaceClient.AbortIsNoOp | python/RaceClient.py:38-39 | ^X returns true and changes nothing |
| LegacyRaceClient.ReportsOver | python/RaceClient.py:63-65 | any other key returns whether the cursor has reached the end of the passage |
| LegacyRaceClient.CorrectKey | python/RaceClient.py:42-43 | the expected character with nothing pending advances the cursor by one and raises total by one, errors unchanged |
| LegacyRaceClient.BackspaceKey | python/RaceClient.py:47-51 | backspace lowers pending errors by one, never below 0, with total unchanged net |
| LegacyRaceClient.WrongKey | python/RaceClient.py:54-60 | any other key sets pending to min(pending + 1, len - cursor) and raises errors and total by one; ^C and ^W are ordinary keys |
| LegacyRaceClient.RaceClient.constructor | python/RaceClient.py:14-23 | a new client has the passage, all counters 0 and the id `player<n>` |
| LegacyRaceClient.RaceClient.TypeCharacter | python/RaceClient.py:30-65 | callable only with the cursor short of the end unless the key is ^X (the passage is indexed first); the fields change as `Next` says; the result is true for ^X and otherwise equals `isOver()` |
| LegacyRaceClient.RaceClient.Accuracy | python/RaceClient.py:87-88 | accuracy is in [0, 100] and 100 exactly when no error was typed |
| LegacyRaceClient.RaceClient.Serialize | python/RaceClient.py:180-189 | no snapshot (the progress quotient raises) exactly when the passage is empty; otherwise the speed text reads back as the given speed and the snapshot carries the client's own cursor, passage length, accuracy and id, so progress reaches the length exactly when the race is over |
| LegacyMain.Next | python/main.py:39-59 | every key raises total by exactly one; the flag is set exactly when the key differs from the next passage character; a match advances the cursor, anything else adds one error; total == cursor + errors is kept |
| LegacyMain.AbortCountsAsError | python/main.py:232-245 | ^X, unless the passage expects it there, is counted as an error before the caller's loop ends the race |
| LegacyMain.Client.constructor | python/main.py:23-33 | a new client has the passage, no state, all counters 0 and the id `player<n>` |
| LegacyMain.Client.TypeCharacter | python/main.py:39-59 | needs the cursor short of the end; the fields change as `Next` says; the result equals `isOver()` |
| LegacyMain.Client.SetState | python/main.py:179-182 | the stored state is the received snapshot, whatever it was before; the counters are untouched |
| LegacyMain.Client.Accuracy | python/main.py:81 | accuracy is in [0, 100] and 100 exactly when no error was typed |
| LegacyMain.Client.Serialize | python/main.py:171-177 | no snapshot (the progress quotient raises) exactly when the passage is empty; otherwise the speed text reads back as the given speed and the snapshot carries the client's own cursor, passage length, accuracy and id, so progress reaches the length exactly when the race is over |
| LegacyMain.WriteResults | python/main.py:251-267 | nothing changes unless the race is over; otherwise the file becomes the old content as read in text mode (empty if missing) followed by the tab-joined 5-field record and a newline |
| LegacyMain.RecordSplits | python/main.py:261-267 | with a tab- and newline-free id and passage, the record is one line that splits on tabs into the five fields, the newline staying on the passage |
| LegacyMain.RecordHasNoReturn | python/main.py:261-267 | the record holds a carriage return only if the id or the passage does |
| LegacyMain.RewriteAddsLine | python/main.py:256-267 | rewriting the file as its content read in text mode followed by a whole line keeps every line read before and adds that line |
| LegacyMain.RecordReadsBack | python/main.py:261-267 | with an id and passage free of tabs, newlines and carriage returns, the record is a well-formed history line carrying the id and speed, and `writeResults` adds exactly that line after the old ones |
| LegacyMain.ShowHistory | python/main.py:331-354 | "not played" exactly when the file is missing; the division by zero exactly for an existing empty file; a bad record exactly when some line is malformed; otherwise the rows are the lines newest first with repeated ids blanked and the average is the integer mean speed |
| RaceHistory.GetRacesFromFile | src/main.py:69-78 | a missing file gives no lines; otherwise the lines are the file's content, as read in text mode, split after each newline |
| RaceHistory.AppendIfOver | src/main.py:98-105 | appending (or creating) leaves the old content as a prefix of the new |
| RaceHistory.WriteResultsToFile | src/main.py:81-105 | nothing changes unless the race is over; otherwise the record is appended to the old content, or the file is created with it |
| RaceHistory.RecordSplits | src/main.py:90-102 | with a tab- and newline-free id and passage, the record is one line that splits on tabs into the five fields, the newline staying on the passage |
| RaceHistory.RecordReadsBack | src/main.py:134-136 | such a record is well-formed for the listing, and its id and speed fields read back as the written id and speed |
| RaceHistory.RecordHasNoReturn | src/main.py:90-102 | the record holds a carriage return only if the id or the passage does |
| RaceHistory.AppendLine | src/main.py:100-102 | appending a whole line without carriage returns to a file that ends a line keeps every earlier line and adds exactly that one, and the file still ends a line |
| RaceHistory.AppendKeepsLines | src/main.py:81-102 | appending a record whose id and passage hold no tab, newline or carriage return keeps every earlier line and adds exactly one, the record |
| RaceHistory.AppendLines | src/main.py:100-102 | appending whole lines one by one adds exactly those lines, in order, after the earlier ones |
| RaceHistory.WritesMakeLines | src/tests.py:65-75 | one write per finished race, each with its own speed and seconds, gives exactly one line per write: the earlier lines followed by the records in the order written |
| RaceHistory.ReturnSplitsRecord | src/main.py:76-77 | a record whose id holds a carriage return (a `--name` may) is read back as two lines, the first ending at the carriage return and too short for the listing, which then reports a bad record |
| RaceHistory.CollectHistory | src/main.py:131-142 | the lines are walked newest first; a malformed line is reported exactly when one exists, and it is the first met in that order; otherwise row i is the i-th newest line split on tabs with its id blanked exactly when it equals the previous line's raw id, and speeds[i] is that line's speed |
| RaceHistory.Average | src/main.py:145 | the floored mean speed lies between the slowest and the fastest speed |
| RaceHistory.DisplayHistory | src/main.py:108-153 | "no games" exactly when the file has no content; a bad record exactly when some line is malformed; otherwise the table lists every line newest first with repeated ids blanked, and the average is the floored mean of the speeds |
| Server.Broker.constructor | python/server.py:7-8 | no player online, no finish recorded, nothing broadcast |
| Server.Broker.Connect | python/server.py:12-19 | a connect at two players is refused and changes nothing; otherwise the count rises by one, and the start is broadcast exactly when it reaches two, so at most two players and at most one start |
| Server.Broker.Message | python/server.py:25-26 | the data is broadcast unchanged and no state changes |
| Server.Broker.RaceOver | python/server.py:30-34 | the id joins the set of finishes; the end is broadcast and the broker stops exactly when the set is as large as the number of online players |
| Server.Broker.ForceStop | python/server.py:38-39 | the end is broadcast; the players, the finishes and the running broker are unchanged |
| Server.TwoPlayerRace | python/server.py:12-34 | two connects, one message, a refused third connect and two distinct finishes broadcast exactly start, the message and the end, and stop the broker |
| Server.SameFinishTwice | python/server.py:30-32 | the same id finishing twice does not end a two-player race |
| Server.ForcedThenFinished | python/server.py:29-39 | after a forced stop the broker still runs, and the two finishes announce the end a second time |

## Left out

- Terminal I/O: curses rendering (`printStatus`, `initWindow`, the
  progress bar and the highlighted error slice), PrettyTable layout, and
  the `echo` and `less` pipes. The history models return the rows and the
  average instead of printing them.
- Speed and elapsed time in `statistics()`: they come from the wall clock
  and float division, so they are parameters of `Serialize`, `WriteResults`
  and `WriteResultsToFile`.
- The float progress `cursor / len(passage)`: it is kept as the integer
  pair (cursor, length). The `ZeroDivisionError` it raises for an empty
  passage is modelled: `Serialize` then returns no snapshot.
- Keys.AccuracyBounds: the model takes `int` of a float quotient as exact
  truncation of the rational quotient; the two agree only while the counts
  are far below 2^46, where float rounding cannot reach the next integer.
- The socket transport: socketio client and server, Flask, gevent and
  `server.run`, and the socket callbacks of the multiplayer `main` loop.
  Only the broker's handler logic is modelled.
- Server.Broker.Connect: the refusal is modelled as a `false` result with
  no change; returning the `ConnectionRefusedError` object to the
  transport is not modelled.
- Server.Broker: handlers after `server.stop()` are not modelled (each
  handler requires a running broker), and the disconnect handler is
  commented out in the source, so nothing lowers the player count.
- python/recur.py (timer and thread plumbing) and src/server/src/index.ts
  (an endpoint with no logic) are not part of this model.
- `getRandomLine`, the random player number (it is a constructor
  parameter in 1..1000), argparse, and `session.json` persistence.
- The `setSocket`, `dumpDataToServer` and `sendTerminationMessage` stubs and
  the empty host and client branches of `src/main.py`.
- The race loop `startRace` in `src/main.py` is not a separate method: it
  is `Run` over the keys up to and including the first one for which
  `typeCharacter` returns true (`Run` itself keeps applying keys after
  that), and its `curses.error` retry is I/O.
- Text.SpeedRoundTrip, Text.IntRoundTrip: `int()` also accepts surrounding
  whitespace, underscores between digits and non-ASCII digits; the model
  reads only an optional sign followed by ASCII digits, which is all that
  `str` of an integer writes.
- Text.UniversalNewlines: only the reading side of text mode is modelled.
  Writing in text mode turns "\n" into `os.linesep`; the model writes
  "\n", as on POSIX systems. The platform's text encoding is not
  modelled: characters are read back as they were written.
- LegacyMain.Client.SetState: the transient `[data]` assignment made
  when no state was stored is overwritten at once and is not modelled.
