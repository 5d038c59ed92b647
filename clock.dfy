/** The "MM:SS" rendering of the remaining seconds (formatTime in
    js/pomodoro.js), with JavaScript's Number.toString, String.padStart and
    `%` written out, and a reader that recovers the seconds from the text. */
module Clock {
  import opened Wrappers

  predicate IsDigit(c: char) { '0' <= c <= '9' }

  predicate AllDigits(s: string) {
    forall i :: 0 <= i < |s| ==> IsDigit(s[i])
  }

  function DigitChar(d: nat): (c: char)
    requires d < 10
    ensures IsDigit(c) && c as int - '0' as int == d
  {
    ('0' as int + d) as char
  }

  function DigitValue(c: char): nat
    requires IsDigit(c)
  {
    c as int - '0' as int
  }

  /** Number.prototype.toString() of a non-negative integer, in base 10: a
      non-empty digit string whose value is n, one digit below 10 and two
      below 100, with no leading zero. */
  function NatToString(n: nat): (r: string)
    ensures 1 <= |r| && AllDigits(r) && DigitsValue(r) == n
    ensures n < 10 ==> |r| == 1
    ensures 10 <= n < 100 ==> |r| == 2
    ensures n >= 1 ==> r[0] != '0'
    decreases n
  {
    if n < 10 then [DigitChar(n)]
    else
      var s := NatToString(n / 10);
      var t := s + [DigitChar(n % 10)];
      assert t[..|t| - 1] == s;
      t
  }

  /** Number.prototype.toString() of any integer: a leading '-' when negative
      (and "0" for JavaScript's -0, which is the integer 0 here). */
  function IntToString(n: int): (r: string)
    ensures 1 <= |r|
    ensures r[0] == '-' <==> n < 0
    ensures n >= 0 ==> AllDigits(r) && DigitsValue(r) == n
    ensures n < 0 ==> AllDigits(r[1..]) && DigitsValue(r[1..]) == -n
    ensures 0 <= n < 100 ==> |r| <= 2
    ensures n >= 1 ==> r[0] != '0'
    ensures n < 0 ==> r[1] != '0'
  {
    if n < 0 then
      var d := NatToString(-n);
      assert ("-" + d)[1..] == d;
      "-" + d
    else NatToString(n)
  }

  /** String.prototype.padStart(2, '0'). */
  function PadStart2(s: string): (r: string)
    ensures |r| == if |s| >= 2 then |s| else 2
    ensures r[|r| - |s|..] == s
    ensures forall i :: 0 <= i < |r| - |s| ==> r[i] == '0'
  {
    if |s| >= 2 then s else seq(2 - |s|, _ => '0') + s
  }

  /** JavaScript's `a % 60`: the remainder takes the sign of the dividend
      (truncated division), unlike Dafny's Euclidean `%`. */
  function JsRem60(a: int): (r: int)
    ensures -60 < r < 60
    ensures (a - r) % 60 == 0
    ensures a >= 0 ==> r >= 0
    ensures a <= 0 ==> r <= 0
  {
    if a >= 0 then a % 60 else -((-a) % 60)
  }

  /** formatTime(seconds): `Math.floor(seconds / 60)` and `seconds % 60`, each
      padded to two characters, joined by ':'. For a positive divisor Dafny's
      `/` is floor division, which is what Math.floor of the quotient gives. */
  function FormatTime(seconds: int): (r: string)
    ensures seconds >= 0 ==> 5 <= |r| && r[|r| - 3] == ':'
    ensures 0 <= seconds < 6000 ==> |r| == 5
    ensures seconds >= 600 ==> r[0] != '0'
  {
    var minutes := PadStart2(IntToString(seconds / 60));
    var secs := PadStart2(IntToString(JsRem60(seconds)));
    assert 0 <= seconds < 6000 ==> |minutes| == 2 by {
      if 0 <= seconds < 6000 {
        assert 0 <= seconds / 60 < 100;
      }
    }
    assert seconds >= 0 ==> |secs| == 2;
    minutes + ":" + secs
  }

  /** The value of a string of decimal digits (leading zeros allowed). */
  function DigitsValue(s: string): nat
    requires AllDigits(s)
    decreases |s|
  {
    if s == [] then 0 else DigitsValue(s[..|s| - 1]) * 10 + DigitValue(s[|s| - 1])
  }

  /** Reads a clock text back into its two fields (minutes, seconds):
      digits, ':', exactly two digits. */
  function ReadClock(t: string): Option<(nat, nat)> {
    if |t| >= 4 && t[|t| - 3] == ':' && AllDigits(t[..|t| - 3]) && AllDigits(t[|t| - 2..])
    then Some((DigitsValue(t[..|t| - 3]), DigitsValue(t[|t| - 2..])))
    else None
  }

  /** A leading '0' does not change the value of a digit string. */
  lemma {:induction false} LeadingZero(s: string)
    requires AllDigits(s)
    ensures AllDigits(['0'] + s) && DigitsValue(['0'] + s) == DigitsValue(s)
    decreases |s|
  {
    var z := ['0'] + s;
    if s != [] {
      LeadingZero(s[..|s| - 1]);
      assert z[..|z| - 1] == ['0'] + s[..|s| - 1];
    } else {
      assert z[..|z| - 1] == [];
    }
  }

  /** Padding a digit string keeps its digits and its value. */
  lemma PadKeepsValue(s: string)
    requires AllDigits(s) && 1 <= |s|
    ensures AllDigits(PadStart2(s)) && DigitsValue(PadStart2(s)) == DigitsValue(s)
  {
    if |s| < 2 {
      assert PadStart2(s) == ['0'] + s;
      LeadingZero(s);
    }
  }

  /** ReadClock splits a joined text back into its two fields. */
  lemma ReadClockJoin(mm: string, ss: string)
    requires AllDigits(mm) && 1 <= |mm| && AllDigits(ss) && |ss| == 2
    ensures ReadClock(mm + ":" + ss) == Some((DigitsValue(mm), DigitsValue(ss)))
  {
    var t := mm + ":" + ss;
    assert |t| == |mm| + 3 && t[|t| - 3] == ':';
    var minutes, secs := t[..|t| - 3], t[|t| - 2..];
    assert minutes == mm;
    assert secs == ss;
    assert AllDigits(minutes) && AllDigits(secs);
  }

  /** The padded decimal text of a non-negative number: digits, at least
      two of them, with the number's value. */
  lemma PaddedDigits(n: nat)
    ensures AllDigits(PadStart2(NatToString(n))) && 2 <= |PadStart2(NatToString(n))|
    ensures DigitsValue(PadStart2(NatToString(n))) == n
    ensures n < 100 ==> |PadStart2(NatToString(n))| == 2
  {
    PadKeepsValue(NatToString(n));
  }

  /** For every non-negative number of seconds, the minutes field reads
      back as seconds / 60 and the seconds field as seconds % 60: a field
      below 60 that, with the minutes, gives back the input. */
  lemma FormatTimeRoundTrip(seconds: int)
    requires seconds >= 0
    ensures ReadClock(FormatTime(seconds)) == Some((seconds / 60, seconds % 60))
    ensures var (m, sec) := ReadClock(FormatTime(seconds)).value;
      sec < 60 && m * 60 + sec == seconds
  {
    var m, r := seconds / 60, JsRem60(seconds);
    assert r == seconds % 60 && m * 60 + r == seconds;
    PaddedDigits(m);
    PaddedDigits(r);
    ReadClockJoin(PadStart2(NatToString(m)), PadStart2(NatToString(r)));
  }

  /** A 25-minute session renders as "25:00". */
  lemma FormatTimeSessionSample()
    ensures FormatTime(1500) == "25:00"
  {
    assert 1500 / 60 == 25 && JsRem60(1500) == 0;
    assert NatToString(2) == "2";
    assert IntToString(25) == "25";
    assert IntToString(0) == "0";
  }

  /** Under a minute the minutes field is zero-padded: 59 renders as "00:59". */
  lemma FormatTimeUnderMinuteSample()
    ensures FormatTime(59) == "00:59"
  {
    assert 59 / 60 == 0 && JsRem60(59) == 59;
    assert NatToString(5) == "5";
    assert IntToString(59) == "59";
    assert IntToString(0) == "0";
  }

  /** From 100 minutes on the minutes field is wider: 6000 renders as "100:00". */
  lemma FormatTimeWideSample()
    ensures FormatTime(6000) == "100:00"
  {
    assert 6000 / 60 == 100 && JsRem60(6000) == 0;
    assert NatToString(10) == "10";
    assert IntToString(100) == "100";
    assert IntToString(0) == "0";
  }

  /** The negative values a negative duration setting produces: -60 seconds
      render as "-1:00" and -61 as "-2:-1". */
  lemma FormatTimeNegativeSamples()
    ensures FormatTime(-60) == "-1:00"
    ensures FormatTime(-61) == "-2:-1"
  {
    assert JsRem60(-60) == 0 && JsRem60(-61) == -1;
    assert IntToString(-1) == "-1" && IntToString(-2) == "-2" && IntToString(0) == "0";
  }
}
