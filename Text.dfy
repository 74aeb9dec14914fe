/** String helpers shared by the history writer and reader: Python's
    `sep.join`, `str.split(sep)`, `readlines()`, text-mode newline
    translation, `str(int)` and `int(str)`,
    each with the round trip that the history format relies on. */
module Text {

  datatype Option<T> = None | Some(value: T)

  /** `sep.join(fields)`. */
  function Join(fields: seq<string>, sep: char): string
  {
    if |fields| == 0 then ""
    else if |fields| == 1 then fields[0]
    else fields[0] + [sep] + Join(fields[1..], sep)
  }

  /** Index of the first `c` in `s`, or `|s|` when there is none. */
  function IndexOf(s: string, c: char): (i: nat)
    ensures i <= |s|
    ensures i < |s| ==> s[i] == c
    ensures forall j :: 0 <= j < i ==> s[j] != c
  {
    if |s| == 0 then 0
    else if s[0] == c then 0
    else 1 + IndexOf(s[1..], c)
  }

  /** The first `c` is at `i` when no earlier character is `c`. */
  lemma IndexOfIs(s: string, c: char, i: nat)
    requires i <= |s|
    requires i < |s| ==> s[i] == c
    requires forall j :: 0 <= j < i ==> s[j] != c
    ensures IndexOf(s, c) == i
  {
  }

  /** `s.split(sep)` for a one-character separator: the pieces between
      separators, at least one piece, none containing `sep`. */
  function Split(s: string, sep: char): (r: seq<string>)
    ensures |r| >= 1
    ensures forall k :: 0 <= k < |r| ==> sep !in r[k]
    ensures Join(r, sep) == s
    decreases |s|
  {
    var i := IndexOf(s, sep);
    if i == |s| then [s]
    else
      var rest := Split(s[i + 1..], sep);
      assert s == s[..i] + [sep] + s[i + 1..];
      [s[..i]] + rest
  }

  /** Splitting undoes joining when no field contains the separator. */
  lemma {:induction false} SplitJoin(fields: seq<string>, sep: char)
    requires |fields| >= 1
    requires forall k :: 0 <= k < |fields| ==> sep !in fields[k]
    ensures Split(Join(fields, sep), sep) == fields
    decreases |fields|
  {
    var f := fields[0];
    if |fields| == 1 {
      assert IndexOf(f, sep) == |f|;
    } else {
      var rest := Join(fields[1..], sep);
      var s := f + [sep] + rest;
      assert forall j :: 0 <= j < |f| ==> s[j] == f[j];
      IndexOfIs(s, sep, |f|);
      assert s[..|f|] == f;
      assert s[|f| + 1..] == rest;
      SplitJoin(fields[1..], sep);
      assert Split(s, sep) == [f] + fields[1..];
    }
  }

  /** Text appended after the last field ends up in the last field. */
  lemma {:induction false} JoinSnoc(fields: seq<string>, sep: char, x: string)
    requires |fields| >= 1
    ensures Join(fields, sep) + x == Join(fields[..|fields| - 1] + [fields[|fields| - 1] + x], sep)
    decreases |fields|
  {
    var n := |fields|;
    var last := fields[n - 1] + x;
    if n > 1 {
      var tail := fields[1..];
      var init := fields[..n - 1] + [last];
      assert |init| == n && init[0] == fields[0];
      assert init[1..] == tail[..|tail| - 1] + [tail[|tail| - 1] + x];
      JoinSnoc(tail, sep, x);
      calc {
        Join(fields, sep) + x;
        fields[0] + [sep] + Join(tail, sep) + x;
        fields[0] + [sep] + (Join(tail, sep) + x);
        fields[0] + [sep] + Join(init[1..], sep);
        Join(init, sep);
      }
    } else {
      assert fields[..n - 1] + [last] == [last];
    }
  }

  /** Joining introduces no character other than the separator. */
  lemma {:induction false} JoinAvoids(fields: seq<string>, sep: char, c: char)
    requires c != sep
    requires forall k :: 0 <= k < |fields| ==> c !in fields[k]
    ensures c !in Join(fields, sep)
    decreases |fields|
  {
    if |fields| > 1 {
      JoinAvoids(fields[1..], sep, c);
    }
  }

  /** Concatenation of a list of strings (`"".join(lines)`). */
  function Concat(lines: seq<string>): string
  {
    if |lines| == 0 then "" else lines[0] + Concat(lines[1..])
  }

  lemma ConcatCons(x: string, rest: seq<string>)
    ensures Concat([x] + rest) == x + Concat(rest)
  {
    assert ([x] + rest)[1..] == rest;
  }

  /** A line as `readlines()` yields it: non-empty, and a newline can only
      be its last character. */
  predicate IsLine(line: string)
  {
    |line| > 0 && forall j :: 0 <= j < |line| - 1 ==> line[j] != '\n'
  }

  /** A text that `readlines()` cuts at its end: empty or newline-terminated. */
  predicate EndsLine(s: string)
  {
    |s| == 0 || s[|s| - 1] == '\n'
  }

  /** The lines of `[c] + s` from the lines `rest` of `s`: `c` starts a
      line of its own when it is a newline or `s` is empty, and otherwise
      joins the front of the first line. */
  function PushChar(c: char, rest: seq<string>): seq<string>
  {
    if c == '\n' || |rest| == 0 then [[c]] + rest else [[c] + rest[0]] + rest[1..]
  }

  lemma ConcatPush(c: char, rest: seq<string>)
    ensures Concat(PushChar(c, rest)) == [c] + Concat(rest)
  {
    if c == '\n' || |rest| == 0 {
      ConcatCons([c], rest);
    } else {
      ConcatCons([c] + rest[0], rest[1..]);
      ConcatCons(rest[0], rest[1..]);
      assert [rest[0]] + rest[1..] == rest;
    }
  }

  /** Lines appended after a newline or after a non-empty text do not
      change how a character is pushed in front. */
  lemma PushCharAppend(c: char, ra: seq<string>, rb: seq<string>)
    requires c == '\n' || |ra| > 0
    ensures PushChar(c, ra + rb) == PushChar(c, ra) + rb
  {
    if c == '\n' {
      assert [[c]] + (ra + rb) == ([[c]] + ra) + rb;
    } else {
      assert (ra + rb)[0] == ra[0];
      assert (ra + rb)[1..] == ra[1..] + rb;
      assert [[c] + ra[0]] + (ra[1..] + rb) == ([[c] + ra[0]] + ra[1..]) + rb;
    }
  }

  /** `f.readlines()` once the text `s` has been read (see
      `UniversalNewlines`): the text cut after every newline, each piece
      keeping its newline; a last piece without one is kept too. */
  function ReadLines(s: string): (r: seq<string>)
    ensures Concat(r) == s
    ensures |r| == 0 <==> |s| == 0
    decreases |s|
  {
    if |s| == 0 then []
    else
      var rest := ReadLines(s[1..]);
      ConcatPush(s[0], rest);
      assert s == [s[0]] + s[1..];
      PushChar(s[0], rest)
  }

  /** Every piece `readlines()` yields is a line, and all but the last end
      in a newline. */
  lemma {:induction false} ReadLinesAreLines(s: string)
    ensures forall k :: 0 <= k < |ReadLines(s)| ==> IsLine(ReadLines(s)[k])
    ensures forall k :: 0 <= k < |ReadLines(s)| - 1 ==>
              IsLine(ReadLines(s)[k]) && ReadLines(s)[k][|ReadLines(s)[k]| - 1] == '\n'
    decreases |s|
  {
    if |s| > 0 {
      ReadLinesAreLines(s[1..]);
      var rest := ReadLines(s[1..]);
      if s[0] != '\n' && |rest| > 0 {
        var head := [s[0]] + rest[0];
        assert forall j :: 1 <= j < |head| ==> head[j] == rest[0][j - 1];
        assert IsLine(head);
        assert |rest| > 1 ==> head[|head| - 1] == '\n';
      }
    }
  }

  /** Appending newline-terminated text appends its lines. */
  lemma {:induction false} ReadLinesAppend(a: string, b: string)
    requires EndsLine(a)
    ensures ReadLines(a + b) == ReadLines(a) + ReadLines(b)
    decreases |a|
  {
    if |a| == 0 {
      assert a + b == b;
    } else {
      assert EndsLine(a[1..]);
      ReadLinesAppend(a[1..], b);
      ReadLinesAppendStep(a, b);
    }
  }

  /** The step of `ReadLinesAppend`, from `a[1..]` to `a`. */
  lemma ReadLinesAppendStep(a: string, b: string)
    requires |a| > 0 && EndsLine(a)
    requires ReadLines(a[1..] + b) == ReadLines(a[1..]) + ReadLines(b)
    ensures ReadLines(a + b) == ReadLines(a) + ReadLines(b)
  {
    assert (a + b)[0] == a[0] && (a + b)[1..] == a[1..] + b;
    assert a[0] != '\n' ==> |a[1..]| > 0;
    PushCharAppend(a[0], ReadLines(a[1..]), ReadLines(b));
  }

  /** A single newline-terminated line reads back as itself. */
  lemma {:induction false} ReadOneLine(line: string)
    requires '\n' !in line
    ensures ReadLines(line + "\n") == [line + "\n"]
    decreases |line|
  {
    var s := line + "\n";
    if |line| == 0 {
      assert s == "\n";
      assert ReadLines(s[1..]) == [];
    } else {
      assert s[0] == line[0];
      assert s[1..] == line[1..] + "\n";
      ReadOneLine(line[1..]);
      assert [line[0]] + (line[1..] + "\n") == s;
    }
  }

  // ---------------------------------------------------------------------
  // Universal newlines

  /** What a file opened in text mode yields for the bytes `s`: "\r\n" and
      a lone "\r" both read as "\n", every other character as itself. */
  function UniversalNewlines(s: string): (r: string)
    ensures |r| == 0 <==> |s| == 0
    decreases |s|
  {
    if |s| == 0 then ""
    else if s[0] == '\r' && |s| > 1 && s[1] == '\n' then "\n" + UniversalNewlines(s[2..])
    else if s[0] == '\r' then "\n" + UniversalNewlines(s[1..])
    else [s[0]] + UniversalNewlines(s[1..])
  }

  /** Text read in text mode never holds a carriage return. */
  lemma {:induction false} UniversalHasNoReturn(s: string)
    ensures '\r' !in UniversalNewlines(s)
    decreases |s|
  {
    if |s| > 0 {
      if s[0] == '\r' && |s| > 1 && s[1] == '\n' {
        UniversalHasNoReturn(s[2..]);
      } else {
        UniversalHasNoReturn(s[1..]);
      }
    }
  }

  /** Text without carriage returns reads back unchanged. */
  lemma {:induction false} UniversalKeeps(s: string)
    requires '\r' !in s
    ensures UniversalNewlines(s) == s
    decreases |s|
  {
    if |s| > 0 {
      assert s[0] != '\r' && '\r' !in s[1..];
      UniversalKeeps(s[1..]);
      assert s == [s[0]] + s[1..];
    }
  }

  /** Reading text that was already read changes nothing. */
  lemma UniversalIdempotent(s: string)
    ensures UniversalNewlines(UniversalNewlines(s)) == UniversalNewlines(s)
  {
    UniversalHasNoReturn(s);
    UniversalKeeps(UniversalNewlines(s));
  }

  /** Reading translates the two parts of a text separately, unless the
      first ends with a carriage return the second could pair with. */
  lemma {:induction false} UniversalAppend(a: string, b: string)
    requires |a| == 0 || a[|a| - 1] != '\r'
    ensures UniversalNewlines(a + b) == UniversalNewlines(a) + UniversalNewlines(b)
    decreases |a|
  {
    if |a| == 0 {
      assert a + b == b;
    } else {
      var k := if a[0] == '\r' && |a| > 1 && a[1] == '\n' then 2 else 1;
      UniversalAppend(a[k..], b);
      UniversalAppendStep(a, b, k);
    }
  }

  /** The step of `UniversalAppend`: the first `k` characters of `a` are
      read the same way with `b` after them. */
  lemma UniversalAppendStep(a: string, b: string, k: nat)
    requires 0 < k <= |a| && a[|a| - 1] != '\r'
    requires k == (if a[0] == '\r' && |a| > 1 && a[1] == '\n' then 2 else 1)
    requires UniversalNewlines(a[k..] + b) == UniversalNewlines(a[k..]) + UniversalNewlines(b)
    ensures UniversalNewlines(a + b) == UniversalNewlines(a) + UniversalNewlines(b)
  {
    var s := a + b;
    assert s[0] == a[0] && s[k..] == a[k..] + b;
    assert k == 1 && a[0] == '\r' ==> s[1] == a[1];
    UniversalFront(a, k);
    UniversalFront(s, k);
    AppendAssoc([if a[0] == '\r' then '\n' else a[0]], UniversalNewlines(a[k..]), UniversalNewlines(b));
  }

  lemma AppendAssoc(x: string, y: string, z: string)
    ensures x + (y + z) == (x + y) + z
  {
  }

  /** Reading consumes the first `k` characters at once: a pair "\r\n"
      or a single character. */
  lemma UniversalFront(s: string, k: nat)
    requires 0 < k <= |s|
    requires k == (if s[0] == '\r' && |s| > 1 && s[1] == '\n' then 2 else 1)
    ensures UniversalNewlines(s) == [if s[0] == '\r' then '\n' else s[0]] + UniversalNewlines(s[k..])
  {
  }

  /** A carriage return not followed by a newline reads as one. */
  lemma UniversalLoneReturn(rest: string)
    requires '\r' !in rest && (|rest| == 0 || rest[0] != '\n')
    ensures UniversalNewlines("\r" + rest) == "\n" + rest
  {
    UniversalFront("\r" + rest, 1);
    assert ("\r" + rest)[1..] == rest;
    UniversalKeeps(rest);
  }

  /** A text ending in a newline or carriage return reads as one ending in
      a newline. */
  lemma {:induction false} UniversalLast(s: string)
    requires |s| > 0 && (s[|s| - 1] == '\n' || s[|s| - 1] == '\r')
    ensures var r := UniversalNewlines(s); |r| > 0 && r[|r| - 1] == '\n'
    decreases |s|
  {
    if s[0] == '\r' && |s| > 1 && s[1] == '\n' {
      if |s| > 2 {
        UniversalLast(s[2..]);
      }
    } else if |s| > 1 {
      UniversalLast(s[1..]);
    }
  }

  /** Text cut at a line end still ends a line once read. */
  lemma UniversalEndsLine(s: string)
    requires EndsLine(s)
    ensures EndsLine(UniversalNewlines(s))
  {
    if |s| > 0 {
      UniversalLast(s);
    }
  }

  // ---------------------------------------------------------------------
  // Decimal numbers

  predicate IsDigit(c: char) { '0' <= c <= '9' }

  function DigitChar(d: nat): (c: char)
    requires d < 10
    ensures IsDigit(c)
  {
    "0123456789"[d]
  }

  function DigitValue(c: char): (d: nat)
    requires IsDigit(c)
    ensures d < 10
  {
    (c as int - '0' as int) as nat
  }

  lemma DigitRoundTrip(d: nat)
    requires d < 10
    ensures DigitValue(DigitChar(d)) == d
  {
  }

  /** Python `str(n)` for a non-negative integer. */
  function NatToString(n: nat): (s: string)
    ensures |s| >= 1
    ensures forall k :: 0 <= k < |s| ==> IsDigit(s[k])
  {
    if n < 10 then [DigitChar(n)] else NatToString(n / 10) + [DigitChar(n % 10)]
  }

  /** Value of a string of decimal digits. */
  function DigitsValue(s: string): nat
    requires forall k :: 0 <= k < |s| ==> IsDigit(s[k])
  {
    if |s| == 0 then 0 else DigitsValue(s[..|s| - 1]) * 10 + DigitValue(s[|s| - 1])
  }

  lemma {:induction false} DigitsOfNat(n: nat)
    ensures DigitsValue(NatToString(n)) == n
  {
    var s := NatToString(n);
    if n < 10 {
      DigitRoundTrip(n);
    } else {
      assert s[..|s| - 1] == NatToString(n / 10);
      DigitsOfNat(n / 10);
      DigitRoundTrip(n % 10);
    }
  }

  /** Python `str(i)` for any integer. */
  function IntToString(i: int): (s: string)
  {
    if i < 0 then "-" + NatToString(-i) else NatToString(i)
  }

  predicate AllDigits(s: string)
  {
    |s| > 0 && forall k :: 0 <= k < |s| ==> IsDigit(s[k])
  }

  /** Python `int(s)` on a decimal literal: an optional sign followed by at
      least one ASCII digit; anything else is `None` (Python raises). */
  function ParseInt(s: string): Option<int>
  {
    if AllDigits(s) then Some(DigitsValue(s))
    else if |s| > 0 && s[0] == '-' && AllDigits(s[1..]) then Some(0 - DigitsValue(s[1..]))
    else if |s| > 0 && s[0] == '+' && AllDigits(s[1..]) then Some(DigitsValue(s[1..]))
    else None
  }

  lemma ParseDigits(s: string)
    requires AllDigits(s)
    ensures ParseInt(s) == Some(DigitsValue(s))
  {
  }

  lemma ParseNegative(s: string)
    requires |s| > 0 && s[0] == '-' && AllDigits(s[1..])
    ensures ParseInt(s) == Some(0 - DigitsValue(s[1..]))
  {
    assert !IsDigit(s[0]);
  }

  /** Every integer written by `str` is read back by `int`. */
  lemma IntRoundTrip(i: int)
    ensures ParseInt(IntToString(i)) == Some(i)
  {
    if i < 0 {
      var s := "-" + NatToString(-i);
      NegativeRoundTrip(-i);
      assert IntToString(i) == s && ParseInt(s) == Some(i);
    } else {
      var s := NatToString(i);
      DigitsOfNat(i);
      ParseDigits(s);
      assert IntToString(i) == s;
    }
  }

  lemma NegativeRoundTrip(n: nat)
    ensures ParseInt("-" + NatToString(n)) == Some(0 - n)
  {
    var d := NatToString(n);
    var s := "-" + d;
    assert s[1..] == d;
    DigitsOfNat(n);
    ParseNegative(s);
  }

  predicate EndsWith(s: string, suffix: string)
  {
    |suffix| <= |s| && s[|s| - |suffix|..] == suffix
  }

  /** `int(re.split("WPM$", speed)[0])`: the field with one trailing
      "WPM" removed, read as an integer. */
  function SpeedOf(field: string): Option<int>
  {
    if EndsWith(field, "WPM") then ParseInt(field[..|field| - 3]) else ParseInt(field)
  }

  lemma SpeedRoundTrip(speed: int)
    ensures SpeedOf(IntToString(speed) + "WPM") == Some(speed)
  {
    var f := IntToString(speed) + "WPM";
    assert f[..|f| - 3] == IntToString(speed);
    assert EndsWith(f, "WPM");
    IntRoundTrip(speed);
  }
}
