/**
 * The time formatter and the trick mapper of utils.ts: rendering a millisecond
 * count as a stopwatch face, and the two deliberate digit-position puns that
 * turn a clock reading or an entered MM:SS into a stopwatch value.
 */
module Utils {
  import opened Wrappers
  import opened Types
  import opened Digits

  /** An hour of the day, as `Date.prototype.getHours` returns it. */
  type Hour = h: nat | h < 24

  /** A minute of the hour, as `Date.prototype.getMinutes` returns it. */
  type Minute = m: nat | m < 60

  /** A rendered stopwatch face: `main` is "MM:SS" and `centis` is ".cc". */
  datatype Face = Face(main: string, centis: string)

  /** `Math.max(0, ms)`. */
  function Clamp(ms: int): nat {
    if ms < 0 then 0 else ms
  }

  /** The clamp is the maximum of 0 and ms: an upper bound of both that is one of them. */
  lemma ClampIsMax(ms: int)
    ensures Clamp(ms) >= 0 && Clamp(ms) >= ms
    ensures Clamp(ms) == 0 || Clamp(ms) == ms
  {
  }

  /** `formatStopwatch`: minutes are not wrapped, seconds and centiseconds are. */
  function FormatStopwatch(ms: int): (f: Face)
    ensures |f.centis| == 3 && f.centis[0] == '.'
  {
    var t := Clamp(ms);
    var totalSeconds := t / 1000;
    var m := totalSeconds / 60;
    var s := totalSeconds % 60;
    var centis := (t % 1000) / 10;
    Face(Pad2(m) + ":" + Pad2(s), CentisText(centis))
  }

  /** The centiseconds field: a dot and two digits. */
  function CentisText(c: nat): (r: string)
    requires c < 100
    ensures |r| == 3 && r[0] == '.'
  {
    Pad2TwoDigits(c);
    "." + Pad2(c)
  }

  /** `formatTimeValue`: both fields zero-padded, separated by a colon. */
  function FormatTimeValue(v: TimeValue): (r: string)
    ensures |r| >= 5 && |Pad2(v.minutes)| < |r| && r[|Pad2(v.minutes)|] == ':'
  {
    Pad2Numeral(v.minutes);
    Pad2Numeral(v.seconds);
    Pad2(v.minutes) + ":" + Pad2(v.seconds)
  }

  /** `getTrickTimeMs` with the clock reading as parameters: hours become seconds, minutes centiseconds. */
  function TrickTimeMs(hour: Hour, minute: Minute): (ms: nat)
    ensures ms / 1000 == hour && ms % 1000 == minute * 10
  {
    PlaceBelowThousand(hour, minute * 10);
    hour * 1000 + minute * 10
  }

  /** A value below 1000 added to a multiple of 1000 is its remainder, and the multiple its quotient. */
  lemma PlaceBelowThousand(q: nat, r: nat)
    requires r < 1000
    ensures (q * 1000 + r) / 1000 == q && (q * 1000 + r) % 1000 == r
  {
  }

  /**
   * `getFixedTimeMs`: the Numpad's total seconds are split back into entered
   * minutes and seconds, which become stopwatch seconds and centiseconds.
   */
  function FixedTimeMs(totalSecondsFromNumpad: nat): (ms: nat)
    ensures ms / 1000 == totalSecondsFromNumpad / 60
    ensures ms % 1000 == totalSecondsFromNumpad % 60 * 10
  {
    var inputM := totalSecondsFromNumpad / 60;
    var inputS := totalSecondsFromNumpad % 60;
    PlaceBelowThousand(inputM, inputS * 10);
    inputM * 1000 + inputS * 10
  }

  // Readers of rendered text: the inverses the properties below are stated against.

  /** Reads "<digits>:<digits>" back into its two numbers. */
  function ParseMinSec(s: string): Option<(nat, nat)> {
    match IndexOf(s, ':')
    case None => None
    case Some(k) =>
      if 0 < k && k + 1 < |s| && IsDigits(s[..k]) && IsDigits(s[k + 1..])
      then Some((ParseDecimal(s[..k]), ParseDecimal(s[k + 1..])))
      else None
  }

  /** Reads ".<two digits>" back into its number. */
  function ParseCentis(s: string): Option<nat> {
    if |s| == 3 && s[0] == '.' && IsDigits(s[1..]) then Some(ParseDecimal(s[1..])) else None
  }

  lemma ParseMinSecOfNumerals(x: string, y: string)
    requires IsDigits(x) && IsDigits(y) && |x| > 0 && |y| > 0
    ensures ParseMinSec(x + ":" + y) == Some((ParseDecimal(x), ParseDecimal(y)))
  {
    var s := x + [':'] + y;
    IndexOfColonAfterDigits(x, y);
    assert s[..|x|] == x;
    assert s[|x| + 1..] == y;
  }

  lemma ParseMinSecOfPadded(a: nat, b: nat)
    ensures ParseMinSec(Pad2(a) + ":" + Pad2(b)) == Some((a, b))
  {
    Pad2Numeral(a);
    Pad2Numeral(b);
    ParseMinSecOfNumerals(Pad2(a), Pad2(b));
  }

  lemma DivideInStages(t: nat)
    ensures t / 1000 / 60 == t / 60000
    ensures t / 1000 % 60 == (t % 60000) / 1000
  {
    var q, r := t / 60000, t % 60000;
    assert t == 60000 * q + r;
    assert t == 1000 * (60 * q + r / 1000) + r % 1000;
    assert t / 1000 == 60 * q + r / 1000;
  }

  /** The three fields of the face, with the minutes computed in one step. */
  lemma FormatStopwatchFields(ms: int)
    ensures var t := Clamp(ms);
      FormatStopwatch(ms) == Face(Pad2(t / 60000) + ":" + Pad2(t / 1000 % 60), "." + Pad2(t % 1000 / 10))
  {
    DivideInStages(Clamp(ms));
  }

  lemma FormatStopwatchFieldsAt(ms: int, m: nat, s: nat, c: nat)
    requires m == Clamp(ms) / 60000 && s == Clamp(ms) / 1000 % 60 && c == Clamp(ms) % 1000 / 10
    ensures FormatStopwatch(ms) == Face(Pad2(m) + ":" + Pad2(s), "." + Pad2(c))
  {
    FormatStopwatchFields(ms);
  }

  lemma FormatStopwatchOfZero()
    ensures FormatStopwatch(0) == Face("00:00", ".00")
  {
    FormatStopwatchFieldsAt(0, 0, 0, 0);
    Pad2Zero();
    assert "00" + ":" + "00" == "00:00" && "." + "00" == ".00";
  }

  /** Negative counts are clamped: they render exactly as zero does. */
  lemma FormatStopwatchNegative(ms: int)
    requires ms < 0
    ensures FormatStopwatch(ms) == FormatStopwatch(0) == Face("00:00", ".00")
  {
    FormatStopwatchOfZero();
  }

  lemma CentisShape(c: nat)
    requires c < 100
    ensures "." + Pad2(c) == ['.', DigitChar(c / 10), DigitChar(c % 10)]
    ensures ParseCentis("." + Pad2(c)) == Some(c)
  {
    var p := Pad2(c);
    Pad2TwoDigits(c);
    Pad2Numeral(c);
    assert p == [DigitChar(c / 10), DigitChar(c % 10)];
    DotBefore(p);
    DotThenNumeral(p);
  }

  lemma DotBefore(p: string)
    requires |p| == 2
    ensures "." + p == ['.', p[0], p[1]]
  {
  }

  lemma DotThenNumeral(p: string)
    requires IsDigits(p) && |p| == 2
    ensures ParseCentis("." + p) == Some(ParseDecimal(p))
  {
    assert ("." + p)[1..] == p;
  }

  /**
   * The centiseconds are `Clamp(ms) % 1000 / 10`, in 0..99, rendered as a dot
   * and exactly two digits.
   */
  lemma FormatStopwatchCentis(ms: int)
    ensures var c := Clamp(ms) % 1000 / 10;
      c < 100 &&
      FormatStopwatch(ms).centis == ['.', DigitChar(c / 10), DigitChar(c % 10)] &&
      ParseCentis(FormatStopwatch(ms).centis) == Some(c)
  {
    FormatStopwatchFields(ms);
    CentisShape(Clamp(ms) % 1000 / 10);
  }

  /**
   * The seconds field is `Clamp(ms) / 1000 % 60`, in 0..59, rendered as the
   * last two characters after the colon; the minutes field before the colon
   * is `Clamp(ms) / 60000`, unwrapped, zero-padded to at least two digits.
   */
  lemma FormatStopwatchMain(ms: int)
    ensures var t := Clamp(ms); var s := t / 1000 % 60; var main := FormatStopwatch(ms).main;
      s < 60 &&
      |main| >= 5 &&
      main[|main| - 3..] == [':', DigitChar(s / 10), DigitChar(s % 10)] &&
      main[..|main| - 3] == Pad2(t / 60000) &&
      ParseMinSec(main) == Some((t / 60000, s))
  {
    var t := Clamp(ms);
    var m, s := t / 60000, t / 1000 % 60;
    FormatStopwatchFieldsAt(ms, m, s, t % 1000 / 10);
    assert FormatStopwatch(ms).main == Pad2(m) + ":" + Pad2(s);
    MainShape(m, s);
    ParseMinSecOfPadded(m, s);
  }

  lemma MainShape(m: nat, s: nat)
    requires s < 100
    ensures var main := Pad2(m) + ":" + Pad2(s);
      |main| >= 5 &&
      main[|main| - 3..] == [':', DigitChar(s / 10), DigitChar(s % 10)] &&
      main[..|main| - 3] == Pad2(m)
  {
    Pad2Numeral(m);
    Pad2TwoDigits(s);
    SplitAtColon(Pad2(m), DigitChar(s / 10), DigitChar(s % 10));
  }

  lemma SplitAtColon(a: string, lo: char, hi: char)
    ensures var main := a + ":" + [lo, hi];
      main[|main| - 3..] == [':', lo, hi] && main[..|main| - 3] == a
  {
  }

  /** The face's three fields, weighted by their units, give back the count without its last digit. */
  lemma FieldsRecombine(t: nat)
    ensures t / 60000 * 60000 + t / 1000 % 60 * 1000 + t % 1000 / 10 * 10 == t - t % 10
  {
    DivideInStages(t);
    var q, r := t / 60000, t % 60000;
    assert t == 60000 * q + r;
    assert r == 1000 * (r / 1000) + r % 1000;
    assert t % 1000 == r % 1000;
    assert t % 10 == r % 1000 % 10;
  }

  /**
   * Reading the face back recovers the count up to its last millisecond
   * digit: minutes * 60000 + seconds * 1000 + centiseconds * 10 == ms - ms % 10.
   */
  lemma FormatStopwatchRoundTrip(ms: nat)
    ensures var face := FormatStopwatch(ms);
      ParseMinSec(face.main).Some? && ParseCentis(face.centis).Some? &&
      var (m, s) := ParseMinSec(face.main).value;
      var c := ParseCentis(face.centis).value;
      m * 60000 + s * 1000 + c * 10 == ms - ms % 10
  {
    FormatStopwatchMain(ms);
    FormatStopwatchCentis(ms);
    FieldsRecombine(ms);
  }

  /** `formatTimeValue` reads back as the pair it rendered, each field at least two digits wide. */
  lemma FormatTimeValueRoundTrip(v: TimeValue)
    ensures ParseMinSec(FormatTimeValue(v)) == Some((v.minutes, v.seconds))
    ensures |FormatTimeValue(v)| >= 5
    ensures var r, k := FormatTimeValue(v), |Pad2(v.minutes)|;
      k < |r| && r[..k] == Pad2(v.minutes) && r[k] == ':' && r[k + 1..] == Pad2(v.seconds)
    ensures |FormatTimeValue(v)| == 5 <==> v.minutes < 100 && v.seconds < 100
  {
    ParseMinSecOfPadded(v.minutes, v.seconds);
    Pad2Numeral(v.minutes);
    Pad2Numeral(v.seconds);
    Pad2Width(v.minutes);
    Pad2Width(v.seconds);
    ColonJoin(Pad2(v.minutes), Pad2(v.seconds));
  }

  lemma Pad2Width(n: nat)
    ensures |Pad2(n)| == 2 <==> n < 100
  {
    Pad2TwoDigits(n);
  }

  lemma ColonJoin(a: string, b: string)
    ensures var r := a + ":" + b;
      |r| == |a| + 1 + |b| && r[..|a|] == a && r[|a|] == ':' && r[|a| + 1..] == b
  {
  }

  /**
   * The digit pun: a = seconds below a minute and b = centiseconds below 100
   * render as "00:aa" and ".bb".
   */
  lemma FormatOfPun(a: nat, b: nat)
    requires a < 60 && b < 100
    ensures FormatStopwatch(a * 1000 + b * 10) == Face("00:" + Pad2(a), "." + Pad2(b))
  {
    var t := a * 1000 + b * 10;
    PunFields(a, b);
    FormatStopwatchFieldsAt(t, 0, a, b);
    ZeroMinutesText(Pad2(a));
  }

  lemma ZeroMinutesText(x: string)
    ensures Pad2(0) + ":" + x == "00:" + x
  {
    Pad2Zero();
  }

  lemma PunFields(a: nat, b: nat)
    requires a < 60 && b < 100
    ensures var t := a * 1000 + b * 10;
      t / 60000 == 0 && t / 1000 % 60 == a && t % 1000 / 10 == b
  {
    var t := a * 1000 + b * 10;
    assert t / 1000 == a && t % 1000 == b * 10;
  }

  /** The clock pun: at hh:mm the face shows "00:hh" and ".mm". */
  lemma ClockPun(hour: Hour, minute: Minute)
    ensures FormatStopwatch(TrickTimeMs(hour, minute)) == Face("00:" + Pad2(hour), "." + Pad2(minute))
  {
    FormatOfPun(hour, minute);
  }

  /**
   * Entered seconds of 60 or more carry into the minutes when the Numpad's total
   * is split again: MM:SS maps to (MM + SS / 60) * 1000 + (SS % 60) * 10.
   */
  lemma FixedTimeOfEntry(minutes: nat, seconds: nat)
    ensures FixedTimeMs(minutes * 60 + seconds) == (minutes + seconds / 60) * 1000 + (seconds % 60) * 10
    ensures seconds < 60 ==> FixedTimeMs(minutes * 60 + seconds) == minutes * 1000 + seconds * 10
  {
    var total := minutes * 60 + seconds;
    assert total == 60 * (minutes + seconds / 60) + seconds % 60;
    assert total / 60 == minutes + seconds / 60;
    assert total % 60 == seconds % 60;
  }

  /** An entry of 01:99 is confirmed as 159 seconds, which re-splits as 02:39 and becomes 2390 ms. */
  lemma FixedTimeCarryExample()
    ensures FixedTimeMs(1 * 60 + 99) == 2 * 1000 + 39 * 10
  {
    FixedTimeOfEntry(1, 99);
  }

  /** A stored total below an hour shows its minutes as seconds and its seconds as centiseconds. */
  lemma FixedTimePunOfTotal(total: nat)
    requires total < 3600
    ensures FormatStopwatch(FixedTimeMs(total)) == Face("00:" + Pad2(total / 60), "." + Pad2(total % 60))
  {
    FormatOfPun(total / 60, total % 60);
  }

  /** The fixed-time pun: an entry of MM:SS, both below 60, shows "00:MM" and ".SS". */
  lemma FixedTimePun(minutes: nat, seconds: nat)
    requires minutes < 60 && seconds < 60
    ensures FormatStopwatch(FixedTimeMs(minutes * 60 + seconds)) == Face("00:" + Pad2(minutes), "." + Pad2(seconds))
  {
    FixedTimeOfEntry(minutes, seconds);
    FormatOfPun(minutes, seconds);
  }

  /**
   * Two-digit numerals of small numbers, spelled out. This and the two
   * helpers below only serve the worked examples: they keep the literal
   * text apart from the formatting facts, which the solver handles poorly
   * together.
   */
  lemma Pad2Literal(n: nat, text: string)
    requires n < 100 && text == [DigitChar(n / 10), DigitChar(n % 10)]
    ensures Pad2(n) == text
  {
    Pad2TwoDigits(n);
  }

  /** Helper for the worked examples: the minute/second split of a total given in closed form. */
  lemma SplitSeconds(total: nat, m: nat, s: nat)
    requires s < 60 && total == m * 60 + s
    ensures total / 60 == m && total % 60 == s
  {
  }

  /** Helper for the worked examples: the texts of a pun face whose two fields are given as spelled-out numerals. */
  lemma PunText(a: nat, b: nat, aa: string, bb: string)
    requires a < 100 && aa == [DigitChar(a / 10), DigitChar(a % 10)]
    requires b < 100 && bb == [DigitChar(b / 10), DigitChar(b % 10)]
    ensures Face("00:" + Pad2(a), "." + Pad2(b)) == Face("00:" + aa, "." + bb)
  {
    Pad2Literal(a, aa);
    Pad2Literal(b, bb);
  }

  /**
   * An entry of 01:15 (75 seconds) shows as "00:01" ".15". The total is a
   * parameter pinned to 75 only so that the literal stays out of the
   * solver's unfolding of the formatter.
   */
  lemma FixedTimeExample(total: nat)
    requires total == 75
    ensures FixedTimeMs(total) == 1150 && FormatStopwatch(FixedTimeMs(total)) == Face("00:01", ".15")
  {
    PunText(1, 15, "01", "15");
    assert "00:" + "01" == "00:01" && "." + "15" == ".15";
    SplitSeconds(total, 1, 15);
    FixedTimePunOfTotal(total);
  }

  /** An entry of 05:30 (330 seconds) shows as "00:05" ".30"; the parameter is pinned to 330 as above. */
  lemma FixedTimeExample2(total: nat)
    requires total == 330
    ensures FixedTimeMs(total) == 5300 && FormatStopwatch(FixedTimeMs(total)) == Face("00:05", ".30")
  {
    PunText(5, 30, "05", "30");
    assert "00:" + "05" == "00:05" && "." + "30" == ".30";
    SplitSeconds(total, 5, 30);
    FixedTimePunOfTotal(total);
  }
}
