/**
 * The time line of the player: `parseSecondsToReadableFormat`, which renders a
 * playback position as minutes, a colon and two second digits, and the
 * composition in `displayTime`, which shows "loading..." until the duration is
 * known and "<position> of <duration>" afterwards.
 */
module TimeFormat {
  import opened Wrappers
  import opened Strings

  /** JavaScript `Math.round` on a non-negative number: the nearest integer, halves upwards. */
  function Round(x: real): (r: nat)
    requires x >= 0.0
    ensures r as real - 0.5 <= x < r as real + 0.5
  {
    (x + 0.5).Floor
  }

  /** Only one integer lies within half a unit of `x`, from below-inclusive. */
  lemma RoundUnique(x: real, n: int)
    requires x >= 0.0
    requires n as real - 0.5 <= x < n as real + 0.5
    ensures Round(x) == n
  {
  }

  /** Whole minutes and seconds of an integer count are unique. */
  lemma DivMod60(t: int, m: int, ss: int)
    requires 0 <= ss < 60 && t == 60 * m + ss
    ensures t / 60 == m && t % 60 == ss
  {
  }

  /** JavaScript `x % 60` on a non-negative number. */
  function Mod60(x: real): (r: real)
    requires x >= 0.0
    ensures 0.0 <= r < 60.0
  {
    x - 60.0 * (x / 60.0).Floor as real
  }

  /** Any split of `x` into whole minutes and a remainder below 60 is the one `%` and `/` give. */
  lemma Mod60Unique(x: real, k: int, f: real)
    requires x >= 0.0 && 0.0 <= f < 60.0 && x == 60.0 * k as real + f
    ensures Mod60(x) == f && (x / 60.0).Floor == k
  {
  }

  /** `('0' + n).slice(-2)`: the last two characters of "0" followed by the digits of `n`. */
  function Pad2(n: nat): (p: string)
    ensures |p| == 2
    ensures n < 100 ==> ParseDecimal(p) == n
  {
    var t := "0" + Digits(n);
    var p := t[|t| - 2..];
    if n < 10 then
      assert p == ['0'] + Digits(n);
      assert p[..1] == "0" && "0"[..0] == "";
      assert ParseDecimal(p[..1]) == 0;
      p
    else if n < 100 then
      assert Digits(n) == Digits(n / 10) + [DigitChar(n % 10)];
      assert p == Digits(n);
      ParseDigits(n);
      p
    else
      p
  }

  /** The padded seconds are two decimal digits. */
  lemma Pad2AreDigits(n: nat)
    ensures AllDigits(Pad2(n))
  {
    DigitsAreDigits(n);
    var t := "0" + Digits(n);
    assert forall i :: 0 <= i < |t| ==> IsDigit(t[i]) by {
      assert forall i :: 1 <= i < |t| ==> t[i] == Digits(n)[i - 1];
    }
  }

  /** The display of `m` minutes and `ss` seconds, as the three branches build it. */
  function Clock(m: nat, ss: nat): string
  {
    Digits(m) + ":" + Pad2(ss)
  }

  /** A display starts with a digit and holds only digits and one colon; no space. */
  lemma ClockCharacters(m: nat, ss: nat)
    ensures var c := Clock(m, ss);
      |c| >= 4 && IsDigit(c[0]) && ' ' !in c && forall i :: 0 <= i < |c| ==> IsDigit(c[i]) || c[i] == ':'
  {
    DigitsAreDigits(m);
    Pad2AreDigits(ss);
  }

  /** The reading of a display: the minutes before the colon and the two digits after it. */
  function ParseClock(display: string): Option<(int, int)>
  {
    var parts := Split(display, ':');
    if |parts| == 2 && |parts[0]| >= 1 && |parts[1]| == 2 && AllDigits(parts[0]) && AllDigits(parts[1])
    then Some((ParseDecimal(parts[0]), ParseDecimal(parts[1])))
    else None
  }

  /** Every display reads back as the minutes and seconds it was built from. */
  lemma ClockRoundTrip(m: nat, ss: nat)
    requires ss < 100
    ensures ParseClock(Clock(m, ss)) == Some((m, ss))
  {
    var d, p := Digits(m), Pad2(ss);
    DigitsAreDigits(m);
    Pad2AreDigits(ss);
    assert ':' !in d && ':' !in p;
    var parts := [d, p];
    assert parts[1..] == [p];
    assert Join(parts, ':') == Clock(m, ss);
    SplitJoin(parts, ':');
    assert Split(Clock(m, ss), ':') == parts;
    ParseDigits(m);
  }

  /**
   * The minute the third branch of `parseSecondsToReadableFormat` adds by
   * rounding `seconds / 60` instead of flooring it: 1 when the rounded
   * position is past a minute and not on a whole minute, and the UNROUNDED
   * remainder `seconds % 60` is 30 or more. A shown remainder of 30 that comes
   * from 29.5 <= `seconds % 60` < 30 carries nothing (89.5 shows "1:30").
   */
  function Carry(seconds: real): (r: nat)
    requires seconds >= 0.0
    ensures r <= 1
    ensures r == 1 ==> Round(seconds) >= 60 && Round(seconds) % 60 != 0
    ensures Round(seconds) >= 60 && Round(seconds) % 60 != 0 ==> Round(seconds / 60.0) == Round(seconds) / 60 + r
  {
    var t := Round(seconds);
    if t >= 60 && t % 60 != 0 then
      MinutesOfThirdBranch(seconds);
      if Mod60(seconds) >= 30.0 then 1 else 0
    else
      0
  }

  /**
   * `parseSecondsToReadableFormat`. For the rounded position `t` the display
   * shows the seconds `t % 60` and the whole minutes `t / 60`, plus the
   * `Carry` minute of the third branch.
   */
  function FormatSeconds(seconds: real): (r: string)
    requires seconds >= 0.0
    ensures r == Clock(Round(seconds) / 60 + Carry(seconds), Round(seconds) % 60)
  {
    var trimmed := Round(seconds);
    if trimmed < 60 then
      FirstBranchIsClock(seconds);
      "0:" + Pad2(trimmed)
    else if trimmed % 60 == 0 then
      SecondBranchIsClock(seconds);
      Digits(trimmed / 60) + ":00"
    else
      ThirdBranchIsClock(seconds);
      Digits(Round(seconds / 60.0)) + ":" + Pad2(Round(Mod60(seconds)))
  }

  /** Under a minute the display is zero minutes and the padded seconds. */
  lemma FirstBranchIsClock(seconds: real)
    requires seconds >= 0.0 && Round(seconds) < 60
    ensures "0:" + Pad2(Round(seconds)) == Clock(Round(seconds) / 60 + Carry(seconds), Round(seconds) % 60)
  {
    var t := Round(seconds);
    assert Carry(seconds) == 0;
    DivMod60(t, 0, t);
    ZeroMinutes(t);
  }

  /** With no whole minutes the display is "0:" and the padded seconds. */
  lemma ZeroMinutes(ss: nat)
    ensures Clock(0, ss) == "0:" + Pad2(ss)
  {
    assert Digits(0) == "0";
  }

  /** On a whole minute the display is the minutes and "00". */
  lemma SecondBranchIsClock(seconds: real)
    requires seconds >= 0.0 && Round(seconds) >= 60 && Round(seconds) % 60 == 0
    ensures Digits(Round(seconds) / 60) + ":00" == Clock(Round(seconds) / 60 + Carry(seconds), Round(seconds) % 60)
  {
    assert Carry(seconds) == 0;
    ZeroSeconds(Round(seconds) / 60);
  }

  /** With no seconds the display is the minutes and ":00". */
  lemma ZeroSeconds(m: nat)
    ensures Clock(m, 0) == Digits(m) + ":00"
  {
    PadZero();
  }

  /** A zero seconds field is "00". */
  lemma PadZero()
    ensures Pad2(0) == "00"
  {
    assert Digits(0) == "0";
  }

  /** Otherwise the rounded remainder is `t % 60` and the rounded minutes carry. */
  lemma ThirdBranchIsClock(seconds: real)
    requires seconds >= 0.0 && Round(seconds) >= 60 && Round(seconds) % 60 != 0
    ensures Digits(Round(seconds / 60.0)) + ":" + Pad2(Round(Mod60(seconds)))
      == Clock(Round(seconds) / 60 + Carry(seconds), Round(seconds) % 60)
  {
    RemainderOfRounded(seconds);
    MinutesOfThirdBranch(seconds);
  }

  /** The three branches as the source writes them. */
  lemma FormatSecondsBranches(seconds: real)
    requires seconds >= 0.0
    ensures var t, r := Round(seconds), FormatSeconds(seconds);
      && (t < 60 ==> r == "0:" + Pad2(t))
      && (t >= 60 && t % 60 == 0 ==> r == Digits(t / 60) + ":00")
      && (t >= 60 && t % 60 != 0 ==> 1 <= t % 60 <= 59 && r == Digits(Round(seconds / 60.0)) + ":" + Pad2(t % 60))
  {
    var t := Round(seconds);
    if t < 60 {
      assert Digits(0) == "0";
    } else if t % 60 == 0 {
      assert Pad2(0) == "00";
    } else {
      MinutesOfThirdBranch(seconds);
    }
  }

  /**
   * Rounding commutes with taking whole minutes off: the rounded position is
   * the whole minutes plus the rounded remainder, and the rounded remainder is
   * `t % 60` unless that is 0.
   */
  lemma RemainderOfRounded(seconds: real)
    requires seconds >= 0.0
    ensures var t, k, f := Round(seconds), (seconds / 60.0).Floor, Mod60(seconds);
      t == 60 * k + Round(f) && (t % 60 != 0 ==> Round(f) == t % 60 && t / 60 == k)
  {
    var k, f := (seconds / 60.0).Floor, Mod60(seconds);
    RoundUnique(seconds, 60 * k + Round(f));
  }

  /** `Math.round(seconds / 60)` is the whole minutes plus one exactly when the unrounded remainder `seconds % 60` is at least 30. */
  lemma RoundedMinutes(seconds: real)
    requires seconds >= 0.0
    ensures Round(seconds / 60.0) == (seconds / 60.0).Floor + (if Mod60(seconds) >= 30.0 then 1 else 0)
  {
    var k, f := (seconds / 60.0).Floor, Mod60(seconds);
    RoundUnique(seconds / 60.0, k + (if f >= 30.0 then 1 else 0));
  }

  /** In the third branch the rounded minutes are the whole minutes of `t`, plus one when the unrounded `seconds % 60` is 30 or more. */
  lemma MinutesOfThirdBranch(seconds: real)
    requires seconds >= 0.0 && Round(seconds) % 60 != 0
    ensures Round(seconds / 60.0) == Round(seconds) / 60 + (if Mod60(seconds) >= 30.0 then 1 else 0)
  {
    RemainderOfRounded(seconds);
    RoundedMinutes(seconds);
  }

  /**
   * What the display means: it always reads back as minutes and seconds, the
   * seconds are always `t % 60` for the rounded position `t`, and the minutes
   * are `t / 60` except in the third branch when the unrounded remainder
   * `seconds % 60` is 30 or more, where they are one more.
   */
  lemma FormatSecondsReading(seconds: real)
    requires seconds >= 0.0
    ensures ParseClock(FormatSeconds(seconds)) == Some((Round(seconds) / 60 + Carry(seconds), Round(seconds) % 60))
  {
    ClockRoundTrip(Round(seconds) / 60 + Carry(seconds), Round(seconds) % 60);
  }

  /**
   * The display is an exact reading of the rounded position `t` (minutes * 60
   * + seconds == t) if and only if another branch applies or the unrounded
   * remainder `seconds % 60` is under 30; otherwise it is exactly a minute ahead.
   */
  lemma ExactIffNoCarry(seconds: real)
    requires seconds >= 0.0
    ensures var t := Round(seconds);
      var shown := ParseClock(FormatSeconds(seconds));
      && shown.Some? && shown.value.1 < 60
      && (shown.value.0 * 60 + shown.value.1 == t <==> !(t >= 60 && t % 60 != 0 && Mod60(seconds) >= 30.0))
      && (shown.value.0 * 60 + shown.value.1 == t || shown.value.0 * 60 + shown.value.1 == t + 60)
  {
    FormatSecondsReading(seconds);
  }

  /** Displays under a minute, spelled out. */
  lemma ClockSecondsExamples()
    ensures Clock(0, 5) == "0:05" && Clock(0, 7) == "0:07"
  {
    assert Digits(0) == "0";
  }

  /** Displays of whole minutes, spelled out. */
  lemma ClockMinutesExamples()
    ensures Clock(1, 0) == "1:00" && Clock(2, 0) == "2:00"
  {
    PadZero();
  }

  /** Displays of minutes and seconds, spelled out. */
  lemma ClockMixedExamples()
    ensures Clock(2, 30) == "2:30" && Clock(2, 5) == "2:05"
  {
    assert Digits(30) == "30";
  }

  /** A position that rounds to `m` minutes and `ss` seconds shows them, plus the carried minute. */
  lemma FormatSecondsOf(seconds: real, m: nat, ss: nat)
    requires seconds >= 0.0 && ss < 60 && Round(seconds) == 60 * m + ss
    ensures FormatSeconds(seconds) == Clock(m + Carry(seconds), ss)
  {
    DivMod60(Round(seconds), m, ss);
  }

  /** First branch: under a minute, zero-padded seconds. */
  lemma UnderAMinuteExamples()
    ensures FormatSeconds(5.0) == "0:05"
    ensures FormatSeconds(7.0) == "0:07"
  {
    RoundUnique(5.0, 5);
    RoundUnique(7.0, 7);
    FormatSecondsOf(5.0, 0, 5);
    FormatSecondsOf(7.0, 0, 7);
    ClockSecondsExamples();
  }

  /** Second branch: 59.5 rounds up to a whole minute. */
  lemma RoundsUpToAMinute()
    ensures FormatSeconds(59.5) == "1:00"
  {
    RoundUnique(59.5, 60);
    FormatSecondsOf(59.5, 1, 0);
    ClockMinutesExamples();
  }

  /** Second branch: one and two whole minutes. */
  lemma WholeMinuteExamples()
    ensures FormatSeconds(60.0) == "1:00"
    ensures FormatSeconds(120.0) == "2:00"
  {
    RoundUnique(60.0, 60);
    RoundUnique(120.0, 120);
    FormatSecondsOf(60.0, 1, 0);
    FormatSecondsOf(120.0, 2, 0);
    ClockMinutesExamples();
  }

  /** Third branch: 90 seconds shows the rounded minutes "2:30". */
  lemma RoundedMinutesExample()
    ensures FormatSeconds(90.0) == "2:30"
  {
    RoundUnique(90.0, 90);
    Mod60Unique(90.0, 1, 30.0);
    FormatSecondsOf(90.0, 1, 30);
    ClockMixedExamples();
  }

  /** Third branch with an unrounded remainder under 30: 125 seconds shows "2:05". */
  lemma TwoMinutesFiveExample()
    ensures FormatSeconds(125.0) == "2:05"
  {
    RoundUnique(125.0, 125);
    Mod60Unique(125.0, 2, 5.0);
    FormatSecondsOf(125.0, 2, 5);
    ClockMixedExamples();
  }

  /** A display of one minute and 30 seconds, spelled out. */
  lemma ClockBoundaryExample()
    ensures Clock(1, 30) == "1:30"
  {
    assert Digits(30) == "30";
  }

  /**
   * Third branch at the carry's boundary: 89.5 seconds rounds to 90, whose
   * remainder is 30, but the unrounded remainder 29.5 carries nothing, so it
   * shows "1:30".
   */
  lemma BoundaryRemainderExample()
    ensures Round(89.5) % 60 == 30 && Carry(89.5) == 0
    ensures FormatSeconds(89.5) == "1:30"
  {
    RoundUnique(89.5, 90);
    Mod60Unique(89.5, 1, 29.5);
    FormatSecondsOf(89.5, 1, 30);
    ClockBoundaryExample();
  }

  /** Whether `duration` is truthy: NaN (None, duration unknown) and 0 are not. */
  predicate Known(duration: Option<real>)
  {
    duration.Some? && duration.value != 0.0
  }

  /** The string `displayTime` writes into the time element. */
  function TimeString(currentTime: real, duration: Option<real>): (r: string)
    requires currentTime >= 0.0
    requires duration.Some? ==> duration.value >= 0.0
    ensures r == "loading..." <==> (duration == None || duration == Some(0.0))
    ensures Known(duration) ==> |r| > 4 && IsDigit(r[0])
  {
    if Known(duration) then
      var x, y := FormatSeconds(currentTime), FormatSeconds(duration.value);
      FormatSecondsCharacters(currentTime);
      FormatSecondsCharacters(duration.value);
      var r := x + " of " + y;
      assert r[0] == x[0];
      StartsWithDigit(r);
      r
    else "loading..."
  }

  /** A string starting with a digit is not the loading message. */
  lemma StartsWithDigit(r: string)
    requires |r| > 0 && IsDigit(r[0])
    ensures r != "loading..."
  {
    assert "loading..."[0] == 'l';
  }

  /** The two formatted halves of a "<position> of <duration>" display, if it has that shape. */
  function Halves(display: string): Option<(string, string)>
  {
    var parts := Split(display, ' ');
    if |parts| == 3 && parts[1] == "of" then Some((parts[0], parts[2])) else None
  }

  /** A formatted time never contains a space, and starts with a digit. */
  lemma FormatSecondsCharacters(seconds: real)
    requires seconds >= 0.0
    ensures var x := FormatSeconds(seconds); ' ' !in x && |x| > 0 && IsDigit(x[0])
  {
    ClockCharacters(Round(seconds) / 60 + Carry(seconds), Round(seconds) % 60);
  }

  /** Two space-free halves joined by " of " split back into those halves. */
  lemma HalvesOfJoined(x: string, y: string)
    requires ' ' !in x && ' ' !in y
    ensures Halves(x + " of " + y) == Some((x, y))
  {
    assert x + " of " + y == x + [' '] + ("of" + [' '] + y);
    SplitAppend(x, ' ', "of" + [' '] + y);
    SplitAppend("of", ' ', y);
    SplitWithoutSeparator(x, ' ');
    SplitWithoutSeparator("of", ' ');
    SplitWithoutSeparator(y, ' ');
  }

  /**
   * `displayTime` read back: with the duration known the display splits into
   * the formatted position and the formatted duration around "of"; with it
   * unknown there are no such halves.
   */
  lemma TimeStringReading(currentTime: real, duration: Option<real>)
    requires currentTime >= 0.0
    requires duration.Some? ==> duration.value >= 0.0
    ensures Halves(TimeString(currentTime, duration)) ==
      if Known(duration) then Some((FormatSeconds(currentTime), FormatSeconds(duration.value))) else None
  {
    var r := TimeString(currentTime, duration);
    if Known(duration) {
      var x, y := FormatSeconds(currentTime), FormatSeconds(duration.value);
      FormatSecondsCharacters(currentTime);
      FormatSecondsCharacters(duration.value);
      HalvesOfJoined(x, y);
    } else {
      SplitWithoutSeparator(r, ' ');
    }
  }

  /** Position and duration that are equal numbers are shown as equal halves. */
  lemma SamePositionAndDuration(seconds: real)
    requires seconds > 0.0
    ensures var h := Halves(TimeString(seconds, Some(seconds)));
      h.Some? && h.value.0 == h.value.1
  {
    TimeStringReading(seconds, Some(seconds));
  }

  /** Without a truthy duration the position is discarded. */
  lemma LoadingExamples()
    ensures TimeString(5.0, None) == "loading..."
    ensures TimeString(5.0, Some(0.0)) == "loading..."
  {
  }

  /** A position under a minute against a duration of two minutes and five seconds. */
  lemma DisplayUnderAMinute()
    ensures TimeString(5.0, Some(125.0)) == "0:05" + " of " + "2:05"
  {
    UnderAMinuteExamples();
    TwoMinutesFiveExample();
  }

  /** Whole minutes on both sides. */
  lemma DisplayWholeMinutes()
    ensures TimeString(60.0, Some(120.0)) == "1:00" + " of " + "2:00"
  {
    WholeMinuteExamples();
  }

  /** The minutes quirk as it shows: 90 seconds of a 125-second track read "2:30". */
  lemma DisplayRoundedMinutes()
    ensures TimeString(90.0, Some(125.0)) == "2:30" + " of " + "2:05"
  {
    RoundedMinutesExample();
    TwoMinutesFiveExample();
  }
}
