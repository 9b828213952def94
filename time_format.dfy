/**
 * The position/length text that `NowPlaying::dataUpdated` publishes under the
 * "Time" metadata key: `m:ss / m:ss`, minutes and seconds computed with C++'s
 * truncating `/` and `%`, each number printed in decimal and the seconds
 * right-justified to two characters with '0'.
 *
 * A reference decoder (`ParseTimeText`) is the partner of the serialiser: for
 * every position and every non-zero length, negative ones included, it
 * recovers the position and the length exactly.
 */
module TimeFormat {
  import opened Wrappers

  // ---------------------------------------------------------------------------
  // C++ integer division by 60 (truncation toward zero)
  // ---------------------------------------------------------------------------

  /** C++ `t / 60`: the quotient rounded toward zero (Dafny's `/` is Euclidean). */
  function MinutesPart(t: int): (m: int)
    ensures 0 <= t ==> 0 <= m && m * 60 <= t < m * 60 + 60
    ensures t < 0 ==> m <= 0 && m * 60 - 60 < t <= m * 60
  {
    if t >= 0 then t / 60 else -((-t) / 60)
  }

  /** C++ `t % 60`: the remainder that goes with `MinutesPart`, carrying the sign of `t`. */
  function SecondsPart(t: int): (s: int)
    ensures MinutesPart(t) * 60 + s == t
    ensures 0 <= t ==> 0 <= s < 60
    ensures t < 0 ==> -60 < s <= 0
  {
    t - MinutesPart(t) * 60
  }

  /** For non-negative operands C++ and Dafny division agree. */
  lemma TruncationAgreesOnNaturals(t: int)
    requires 0 <= t
    ensures MinutesPart(t) == t / 60 && SecondsPart(t) == t % 60
  {
  }

  // ---------------------------------------------------------------------------
  // Decimal digits: QString::number on int
  // ---------------------------------------------------------------------------

  predicate IsDigit(c: char) { '0' <= c <= '9' }

  predicate AllDigits(s: string) { forall i :: 0 <= i < |s| ==> IsDigit(s[i]) }

  function DigitValue(c: char): (d: nat)
    requires IsDigit(c)
    ensures d < 10
  {
    c as int - '0' as int
  }

  function DigitChar(d: nat): (c: char)
    requires d < 10
    ensures IsDigit(c) && DigitValue(c) == d
  {
    ('0' as int + d) as char
  }

  /** The shortest decimal spelling of `n`: at least one digit, no leading zero. */
  function Digits(n: nat): (s: string)
    ensures 1 <= |s| && AllDigits(s)
    ensures (|s| == 1) == (n < 10)
    ensures s[0] == '0' ==> n == 0
    decreases n
  {
    if n < 10 then [DigitChar(n)] else Digits(n / 10) + [DigitChar(n % 10)]
  }

  /** The value of a string of decimal digits (the empty string reads as 0). */
  function DigitsValue(s: string): nat
    requires AllDigits(s)
  {
    if s == [] then 0 else DigitsValue(s[..|s| - 1]) * 10 + DigitValue(s[|s| - 1])
  }

  lemma {:induction false} DigitsRoundTrip(n: nat)
    ensures DigitsValue(Digits(n)) == n
    decreases n
  {
    var s := Digits(n);
    if n >= 10 {
      DigitsRoundTrip(n / 10);
      assert s[..|s| - 1] == Digits(n / 10);
    }
  }

  /** QString::number(n): decimal, with a leading '-' for a negative value. */
  function NumberText(n: int): (s: string)
    ensures 1 <= |s|
    ensures 0 <= n ==> AllDigits(s)
    ensures n < 0 ==> s[0] == '-' && s[1..] == Digits(-n)
  {
    if n < 0 then "-" + Digits(-n) else Digits(n)
  }

  /** Reads back what `NumberText` writes. */
  function ParseNumber(s: string): Option<int>
  {
    if |s| >= 2 && s[0] == '-' && AllDigits(s[1..]) then Some(0 - DigitsValue(s[1..]) as int)
    else if |s| >= 1 && AllDigits(s) then Some(DigitsValue(s))
    else None
  }

  lemma NumberTextRoundTrip(n: int)
    ensures ParseNumber(NumberText(n)) == Some(n)
  {
    if n < 0 {
      NegativeNumberRoundTrip(n);
    } else {
      var d := Digits(n);
      DigitsRoundTrip(n);
      ParseNonNegative(d);
    }
  }

  lemma NegativeNumberRoundTrip(n: int)
    requires n < 0
    ensures ParseNumber(NumberText(n)) == Some(n)
  {
    var d := Digits(-n);
    DigitsRoundTrip(-n);
    ParseNegative(d);
    assert NumberText(n) == "-" + d;
  }

  lemma ParseNonNegative(d: string)
    requires 1 <= |d| && AllDigits(d)
    ensures ParseNumber(d) == Some(DigitsValue(d))
  {
    assert IsDigit(d[0]);
  }

  lemma ParseNegative(d: string)
    requires 1 <= |d| && AllDigits(d)
    ensures ParseNumber("-" + d) == Some(0 - DigitsValue(d) as int)
  {
    assert ("-" + d)[1..] == d;
  }

  // ---------------------------------------------------------------------------
  // QString::rightJustified(width, fill) with truncation off
  // ---------------------------------------------------------------------------

  /** `s` padded on the left with `fill` up to `width` characters; a longer `s` is left as it is. */
  function RightJustified(s: string, width: nat, fill: char): (r: string)
    ensures |r| == if |s| >= width then |s| else width
    ensures r[|r| - |s|..] == s
    ensures forall i :: 0 <= i < |r| - |s| ==> r[i] == fill
  {
    if |s| >= width then s else seq(width - |s|, _ => fill) + s
  }

  /** `s` holds no `c`. */
  predicate Avoids(s: string, c: char) { forall i :: 0 <= i < |s| ==> s[i] != c }

  lemma AvoidsAppend(a: string, b: string, c: char)
    requires Avoids(a, c) && Avoids(b, c)
    ensures Avoids(a + b, c)
  {
    assert forall i :: |a| <= i < |a + b| ==> (a + b)[i] == b[i - |a|];
  }

  /** Printed numbers are made of digits and '-' only. */
  lemma NumberTextAvoids(n: int, c: char)
    requires c != '-' && !IsDigit(c)
    ensures Avoids(NumberText(n), c)
  {
    if n < 0 {
      AvoidsAppend("-", Digits(-n), c);
    }
  }

  /** A printed number padded to two characters with '0' reads back as the number. */
  lemma JustifiedNumberReads(n: int)
    ensures ParseNumber(RightJustified(NumberText(n), 2, '0')) == Some(n)
  {
    var digits := NumberText(n);
    var r := RightJustified(digits, 2, '0');
    NumberTextRoundTrip(n);
    if |digits| < 2 {
      OneDigitPadded(n);
    }
  }

  /** A single digit padded with '0' is two digits of the same value. */
  lemma OneDigitPadded(n: int)
    requires |NumberText(n)| < 2
    ensures var r := RightJustified(NumberText(n), 2, '0');
      0 <= n < 10 && |r| == 2 && AllDigits(r) && DigitsValue(r) == n && ParseNumber(r) == Some(n)
  {
    var r := RightJustified(NumberText(n), 2, '0');
    assert r == ['0', DigitChar(n)];
    assert r[..1] == ['0'] && ['0'][..0] == [];
    assert DigitsValue(r) == n;
  }

  /** A seconds value in [0, 60) is printed as exactly two digits of its value. */
  lemma JustifiedSeconds(n: int)
    requires 0 <= n < 60
    ensures var r := RightJustified(NumberText(n), 2, '0');
      |r| == 2 && AllDigits(r) && DigitsValue(r) == n
  {
    if n < 10 {
      OneDigitPadded(n);
    } else {
      assert NumberText(n) == Digits(n / 10) + [DigitChar(n % 10)];
      assert |Digits(n / 10)| == 1;
      DigitsRoundTrip(n);
    }
  }

  /** Padding adds only '0', so neither a space nor a colon appears. */
  lemma JustifiedAvoids(n: int, c: char)
    requires c != '-' && !IsDigit(c)
    ensures Avoids(RightJustified(NumberText(n), 2, '0'), c)
  {
    var digits := NumberText(n);
    NumberTextAvoids(n, c);
    if |digits| < 2 {
      AvoidsAppend(seq(2 - |digits|, _ => '0'), digits, c);
    }
  }

  /**
   * The seconds field: the number right-justified to two characters with '0'.
   * It reads back as the number; below 60 and not negative it is exactly two digits.
   */
  function Pad2(n: int): (r: string)
    ensures 2 <= |r| && ParseNumber(r) == Some(n)
    ensures 0 <= n < 60 ==> |r| == 2 && AllDigits(r) && DigitsValue(r) == n
    ensures Avoids(r, ' ') && Avoids(r, ':')
  {
    JustifiedNumberReads(n);
    JustifiedAvoids(n, ' ');
    JustifiedAvoids(n, ':');
    if 0 <= n < 60 then JustifiedSeconds(n); RightJustified(NumberText(n), 2, '0')
    else RightJustified(NumberText(n), 2, '0')
  }

  // ---------------------------------------------------------------------------
  // The time text
  // ---------------------------------------------------------------------------

  /**
   * One `m:ss` clock reading of a number of seconds, negative ones included.
   * It has no space in it and reads back as the number it was made from.
   */
  function Clock(t: int): (r: string)
    ensures Avoids(r, ' ')
    ensures ParseClock(r) == Some(t)
  {
    ClockReads(t);
    NumberText(MinutesPart(t)) + ":" + Pad2(SecondsPart(t))
  }

  lemma ClockReads(t: int)
    ensures var r := NumberText(MinutesPart(t)) + ":" + Pad2(SecondsPart(t));
      Avoids(r, ' ') && ParseClock(r) == Some(t)
  {
    var m, s := MinutesPart(t), SecondsPart(t);
    NumberTextRoundTrip(m);
    NumberTextAvoids(m, ':');
    NumberTextAvoids(m, ' ');
    JoinedClockReads(NumberText(m), Pad2(s), m, s);
    assert 60 * m + s == t;
  }

  /**
   * The "Time" metadata value for a track position and length, both in seconds.
   * It is empty exactly when the length is zero (the position is then not read).
   */
  function TimeText(position: int, length: int): (r: string)
    ensures r == "" <==> length == 0
  {
    if length == 0 then "" else Clock(position) + " / " + Clock(length)
  }

  /**
   * For a non-negative number of seconds the clock is the decimal minutes, a
   * colon, and a seconds field of exactly two digits whose value is below 60;
   * minutes * 60 + seconds gives back `t`.
   */
  lemma ClockFields(t: int)
    requires 0 <= t
    ensures Clock(t) == Digits(t / 60) + ":" + Pad2(t % 60)
    ensures |Pad2(t % 60)| == 2 && AllDigits(Pad2(t % 60))
    ensures DigitsValue(Pad2(t % 60)) == t % 60 < 60
    ensures 60 * DigitsValue(Digits(t / 60)) + DigitsValue(Pad2(t % 60)) == t
  {
    var m, sec := t / 60, t % 60;
    TruncationAgreesOnNaturals(t);
    assert NumberText(MinutesPart(t)) == Digits(m);
    assert Pad2(SecondsPart(t)) == Pad2(sec);
    DigitsRoundTrip(m);
    assert 60 * m + sec == t;
  }

  /**
   * With a negative position the C++ operators give a negative quotient and
   * remainder, each printed with its own sign: -75 seconds reads "-1:-15".
   */
  lemma NegativeMinuteClock()
    ensures Clock(-75) == "-1:-15"
  {
    assert MinutesPart(-75) == -1 && SecondsPart(-75) == -15;
    assert Digits(1) == "1";
    assert Digits(15) == Digits(1) + "5";
    assert NumberText(-15) == "-15";
    assert Pad2(-15) == "-15";
  }

  // ---------------------------------------------------------------------------
  // Reference decoder
  // ---------------------------------------------------------------------------

  /** The index of the first `c` in `s`, or `|s|` when there is none. */
  function IndexOf(s: string, c: char): (k: nat)
    ensures k <= |s|
    ensures k < |s| ==> s[k] == c
    ensures forall i :: 0 <= i < k ==> s[i] != c
  {
    if s == [] then 0 else if s[0] == c then 0 else 1 + IndexOf(s[1..], c)
  }

  /** In `a + [c] + b` with no `c` in `a`, the first `c` is the one after `a`. */
  lemma IndexOfJoin(a: string, c: char, b: string)
    requires Avoids(a, c)
    ensures IndexOf(a + [c] + b, c) == |a|
  {
    var s := a + [c] + b;
    assert s[|a|] == c;
    assert forall i :: 0 <= i < |a| ==> s[i] == a[i];
  }

  /**
   * Reads one `m:ss` clock back into seconds: a signed minutes number, a colon,
   * and a signed seconds number between -60 and 60 exclusive.
   */
  function ParseClock(c: string): Option<int>
  {
    var k := IndexOf(c, ':');
    if k == |c| then None
    else
      match (ParseNumber(c[..k]), ParseNumber(c[k + 1..]))
      case (Some(m), Some(s)) => if -60 < s < 60 then Some(60 * m + s) else None
      case _ => None
  }

  /** Reads a time text back into (position, length). */
  function ParseTimeText(s: string): Option<(int, int)>
  {
    var k := IndexOf(s, ' ');
    if k + 3 > |s| || s[k..k + 3] != " / " then None
    else
      match (ParseClock(s[..k]), ParseClock(s[k + 3..]))
      case (Some(p), Some(l)) => Some((p, l))
      case _ => None
  }

  /** A minutes field and a seconds field joined by ':' read back as 60 * minutes + seconds. */
  lemma JoinedClockReads(minutes: string, seconds: string, m: int, s: int)
    requires ParseNumber(minutes) == Some(m) && ParseNumber(seconds) == Some(s) && -60 < s < 60
    requires Avoids(minutes, ':') && Avoids(minutes, ' ') && Avoids(seconds, ' ')
    ensures ParseClock(minutes + ":" + seconds) == Some(60 * m + s)
    ensures Avoids(minutes + ":" + seconds, ' ')
  {
    var c := minutes + ":" + seconds;
    IndexOfJoin(minutes, ':', seconds);
    assert c[..|minutes|] == minutes;
    assert c[|minutes| + 1..] == seconds;
    AvoidsAppend(minutes, ":", ' ');
    AvoidsAppend(minutes + ":", seconds, ' ');
  }

  /** Two readable clocks joined by " / " read back as the pair. */
  lemma ParseJoined(a: string, b: string, x: int, y: int)
    requires Avoids(a, ' ') && ParseClock(a) == Some(x) && ParseClock(b) == Some(y)
    ensures ParseTimeText(a + " / " + b) == Some((x, y))
  {
    var s := a + " / " + b;
    assert s == a + [' '] + ("/ " + b);
    IndexOfJoin(a, ' ', "/ " + b);
    SeparatorSplit(a, b);
  }

  /** Where the " / " separator and the two clocks sit in a time text. */
  lemma SeparatorSplit(a: string, b: string)
    ensures var s := a + " / " + b;
      s[|a|..|a| + 3] == " / " && s[..|a|] == a && s[|a| + 3..] == b
  {
    var s := a + " / " + b;
    assert s[..|a|] == a;
    assert s[|a| + 3..] == b;
  }

  /**
   * The decoder inverts the serialiser for every position and every non-zero
   * length, negative ones included; the empty text of a zero length is not read.
   */
  lemma TimeTextRoundTrip(position: int, length: int)
    ensures ParseTimeText(TimeText(position, length)) == if length == 0 then None else Some((position, length))
  {
    if length != 0 {
      ParseJoined(Clock(position), Clock(length), position, length);
    }
  }
}
