/** Key codes read from the terminal in raw mode, and the accuracy figure
    that every client version reports. */
module Keys {

  /** The delete key as curses reports it in raw mode. */
  const BACKSPACE: char := '\U{7F}'
  /** ^W: clear every pending error. */
  const CTRLW: char := '\U{17}'
  /** ^C: leave the race. */
  const CTRLC: char := '\U{3}'
  /** ^X: leave the race in the older clients. */
  const CTRLX: char := '\U{18}'

  /** Python's `int(a / b)` for integers: the float quotient truncated
      toward zero (Dafny's own `/` is Euclidean). */
  function TruncDiv(a: int, b: int): (q: int)
    requires b != 0
    ensures a >= 0 && b > 0 ==> q == a / b
  {
    var n := if a < 0 then -a else a;
    var d := if b < 0 then -b else b;
    if (a < 0) != (b < 0) then -(n / d) else n / d
  }

  /** `int((total - errors) * 100 / total) if total else 100`. */
  function AccuracyPercent(total: int, errors: int): int
  {
    if total != 0 then TruncDiv((total - errors) * 100, total) else 100
  }

  /** With the error count within the typed count, accuracy is a
      percentage, and it is 100 exactly when nothing was mistyped. */
  lemma AccuracyBounds(total: int, errors: int)
    requires 0 <= errors <= total
    ensures 0 <= AccuracyPercent(total, errors) <= 100
    ensures AccuracyPercent(total, errors) == 100 <==> errors == 0
    ensures total > 0 ==> AccuracyPercent(total, errors) == (total - errors) * 100 / total
  {
    if total > 0 {
      var good := total - errors;
      assert good * 100 <= total * 100;
      DivBelow(good * 100, total, 100);
      if errors == 0 {
        assert good * 100 / total == 100;
      } else {
        assert good * 100 < total * 100;
        DivStrictlyBelow(good * 100, total, 100);
      }
    }
  }

  lemma DivBelow(a: nat, b: nat, c: nat)
    requires b > 0 && a <= b * c
    ensures a / b <= c
  {
  }

  lemma DivStrictlyBelow(a: nat, b: nat, c: nat)
    requires b > 0 && a < b * c
    ensures a / b < c
  {
  }
}
