/** DurationTicks.Ticks: relabel the axis ticks of detection time (in hours)
    as HH:MM:SS. */
module Ticks {
  import opened GoInt

  /** plot.Tick: a position on the axis and its label; an empty label marks a
      minor tick, which is drawn without text. */
  datatype Tick = Tick(value: real, text: string)

  /** A count of seconds split into hours, minutes and seconds. */
  datatype Clock = Clock(hours: int, minutes: int, seconds: int)

  function TotalSeconds(c: Clock): int
  {
    c.hours * 3600 + c.minutes * 60 + c.seconds
  }

  /** n = 3600 h + 60 m + s with 0 <= m, s < 60, by two Euclidean divisions. */
  lemma SplitNat(n: nat)
    ensures n == (n / 3600) * 3600 + (n % 3600 / 60) * 60 + n % 3600 % 60
    ensures 0 <= n / 3600 && 0 <= n % 3600 / 60 < 60 && 0 <= n % 3600 % 60 < 60
  {
    var r := n % 3600;
    assert n == (n / 3600) * 3600 + r && 0 <= r < 3600;
    assert r == (r / 60) * 60 + r % 60 && 0 <= r % 60 < 60;
  }

  /** The clock reading of a signed count of seconds: the usual one for a
      non-negative count, its mirror image (every field negated) for a
      negative one, as truncating division gives. */
  function ClockOf(s: int): (c: Clock)
    ensures TotalSeconds(c) == s
    ensures s >= 0 ==> c.hours >= 0 && 0 <= c.minutes < 60 && 0 <= c.seconds < 60
    ensures s < 0 ==> c.hours <= 0 && -60 < c.minutes <= 0 && -60 < c.seconds <= 0
  {
    if s >= 0 then
      SplitNat(s);
      Clock(s / 3600, s % 3600 / 60, s % 3600 % 60)
    else
      SplitNat(-s);
      Clock(-((-s) / 3600), -((-s) % 3600 / 60), -((-s) % 3600 % 60))
  }

  /** For a non-negative count the split is the only one with minutes and
      seconds in 0..59. */
  lemma ClockUnique(s: int, c: Clock)
    requires s >= 0 && TotalSeconds(c) == s
    requires c.hours >= 0 && 0 <= c.minutes < 60 && 0 <= c.seconds < 60
    ensures c == ClockOf(s)
  {
    var d := ClockOf(s);
    var r, r' := c.minutes * 60 + c.seconds, d.minutes * 60 + d.seconds;
    assert 0 <= r < 3600 && 0 <= r' < 3600;
    assert (c.hours - d.hours) * 3600 == r' - r;
    assert c.hours == d.hours;
    assert (c.minutes - d.minutes) * 60 == d.seconds - c.seconds;
  }

  /** The body of the label loop: hours, minutes and seconds by truncating
      division and subtraction, updating the remaining seconds step by step. */
  method SplitSeconds(secondsToConvert: int) returns (hours: int, minutes: int, seconds: int)
    ensures Clock(hours, minutes, seconds) == ClockOf(secondsToConvert)
  {
    var rest := secondsToConvert;
    hours := Quo(rest, 3600);
    rest := rest - hours * 3600;
    minutes := Quo(rest, 60);
    rest := rest - minutes * 60;
    seconds := rest;
    if secondsToConvert >= 0 {
      ClockUnique(secondsToConvert, Clock(hours, minutes, seconds));
    } else {
      ClockUnique(-secondsToConvert, Clock(-hours, -minutes, -seconds));
    }
  }

  // ---- fmt's %02d and its inverse ----

  predicate IsDigit(ch: char)
  {
    '0' <= ch <= '9'
  }

  function DigitChar(d: int): char
    requires 0 <= d < 10
  {
    ('0' as int + d) as char
  }

  function DigitValue(ch: char): int
  {
    ch as int - '0' as int
  }

  /** The decimal digits of n, most significant first, without leading zeros. */
  function Decimal(n: nat): string
  {
    if n < 10 then [DigitChar(n)] else Decimal(n / 10) + [DigitChar(n % 10)]
  }

  /** n prints as digits only: one digit below 10, two from 10 to 99. */
  lemma {:induction false} DecimalShape(n: nat)
    ensures |Decimal(n)| >= 1
    ensures forall i :: 0 <= i < |Decimal(n)| ==> IsDigit(Decimal(n)[i])
    ensures n < 10 <==> |Decimal(n)| == 1
    ensures 10 <= n < 100 ==> |Decimal(n)| == 2
  {
    if n >= 10 {
      DecimalShape(n / 10);
    }
  }

  /** `%02d`: the decimal digits, a leading '-' for a negative number, padded
      with zeros (after the sign) to at least two characters. */
  function Pad2(n: int): string
  {
    if 0 <= n < 10 then "0" + Decimal(n)
    else if n >= 0 then Decimal(n)
    else "-" + Decimal(-n)
  }

  /** `fmt.Sprintf("%02d:%02d:%02d", hours, minutes, seconds)` */
  function FormatClock(c: Clock): string
  {
    Pad2(c.hours) + ":" + Pad2(c.minutes) + ":" + Pad2(c.seconds)
  }

  /** Reads a string of decimal digits. */
  function ParseDecimal(s: string): int
  {
    if s == [] then 0 else ParseDecimal(s[..|s| - 1]) * 10 + DigitValue(s[|s| - 1])
  }

  /** Reads an HH:MM:SS label back: the last two characters are the seconds,
      the two before the last colon the minutes, everything before that the
      hours. */
  function ParseClock(lbl: string): Clock
    requires |lbl| >= 6
  {
    var n := |lbl|;
    Clock(ParseDecimal(lbl[..n - 6]), ParseDecimal(lbl[n - 5..n - 3]), ParseDecimal(lbl[n - 2..]))
  }

  lemma {:induction false} DecimalRoundTrip(n: nat)
    ensures ParseDecimal(Decimal(n)) == n
  {
    if n >= 10 {
      var s := Decimal(n);
      assert s[..|s| - 1] == Decimal(n / 10);
      DecimalRoundTrip(n / 10);
    }
  }

  /** A leading zero does not change the value read. */
  lemma {:induction false} LeadingZero(s: string)
    ensures ParseDecimal("0" + s) == ParseDecimal(s)
  {
    if s != [] {
      assert ("0" + s)[..|s|] == "0" + s[..|s| - 1];
      LeadingZero(s[..|s| - 1]);
    }
  }

  /** A non-negative field prints as digits only, reads back as itself, and
      takes exactly two characters when below 100. */
  lemma Pad2RoundTrip(n: nat)
    ensures ParseDecimal(Pad2(n)) == n
    ensures |Pad2(n)| >= 2 && forall i :: 0 <= i < |Pad2(n)| ==> IsDigit(Pad2(n)[i])
    ensures n < 100 ==> |Pad2(n)| == 2
  {
    DecimalRoundTrip(n);
    DecimalShape(n);
    if n < 10 {
      LeadingZero(Decimal(n));
    }
  }

  /** A label whose minute and second fields take two characters each is read
      back field by field. */
  lemma ParseFields(h: string, m: string, s: string)
    requires |m| == 2 && |s| == 2
    ensures |h + ":" + m + ":" + s| >= 6
    ensures ParseClock(h + ":" + m + ":" + s) == Clock(ParseDecimal(h), ParseDecimal(m), ParseDecimal(s))
  {
    var tail := ":" + m + ":" + s;
    var lbl := h + ":" + m + ":" + s;
    assert lbl == h + tail;
    assert tail[1..3] == m && tail[4..] == s;
    var n := |lbl|;
    assert lbl[..n - 6] == h;
    assert lbl[n - 5..n - 3] == tail[1..3];
    assert lbl[n - 2..] == tail[4..];
  }

  /** A label of a non-negative reading reads back as that reading. */
  lemma ClockLabelRoundTrip(c: Clock)
    requires c.hours >= 0 && 0 <= c.minutes < 60 && 0 <= c.seconds < 60
    ensures |FormatClock(c)| >= 8
    ensures ParseClock(FormatClock(c)) == c
  {
    Pad2RoundTrip(c.hours);
    Pad2RoundTrip(c.minutes);
    Pad2RoundTrip(c.seconds);
    ParseFields(Pad2(c.hours), Pad2(c.minutes), Pad2(c.seconds));
  }

  /** Every field prints as at least two characters, so a label has at least eight. */
  lemma FormatClockLength(c: Clock)
    ensures |FormatClock(c)| >= 8
  {
    DecimalShape(if c.hours < 0 then -c.hours else c.hours);
    DecimalShape(if c.minutes < 0 then -c.minutes else c.minutes);
    DecimalShape(if c.seconds < 0 then -c.seconds else c.seconds);
  }

  // ---- the tick list ----

  /** `int64(tick.Value * 60 * 60)`: the tick's value, in hours, as whole
      seconds truncated toward zero. */
  function SecondsOf(value: real): int
  {
    Trunc(value * 60.0 * 60.0)
  }

  /** A value in hours becomes its whole seconds, truncated toward zero. */
  lemma SecondsOfBounds(value: real)
    ensures value >= 0.0 ==> 0 <= SecondsOf(value) && SecondsOf(value) as real <= value * 3600.0 < SecondsOf(value) as real + 1.0
    ensures value < 0.0 ==> SecondsOf(value) <= 0 && SecondsOf(value) as real - 1.0 < value * 3600.0 <= SecondsOf(value) as real
  {
  }

  /** The label of a tick at the given value: its whole seconds as HH:MM:SS. */
  function ClockLabel(value: real): string
  {
    FormatClock(ClockOf(SecondsOf(value)))
  }

  /** What the loop makes of one tick. */
  function Relabelled(t: Tick): Tick
  {
    if t.text == "" then t else t.(text := ClockLabel(t.value))
  }

  /** A relabelled tick keeps its value; a minor tick is untouched; a labelled
      tick of non-negative value gets a label that reads back as its value in
      whole seconds, truncated. */
  lemma RelabelledSpec(t: Tick)
    ensures Relabelled(t).value == t.value
    ensures t.text == "" ==> Relabelled(t) == t
    ensures t.text != "" ==> |Relabelled(t).text| >= 8
    ensures t.text != "" && t.value >= 0.0 ==>
              var c := ParseClock(Relabelled(t).text);
              && 0 <= c.minutes < 60 && 0 <= c.seconds < 60
              && TotalSeconds(c) as real <= t.value * 3600.0 < TotalSeconds(c) as real + 1.0
  {
    if t.text != "" {
      FormatClockLength(ClockOf(SecondsOf(t.value)));
    }
    if t.text != "" && t.value >= 0.0 {
      var s := SecondsOf(t.value);
      ClockLabelRoundTrip(ClockOf(s));
    }
  }

  /** The body of the loop for a labelled tick: its value in whole seconds,
      split and printed. */
  method Relabel(tick: Tick) returns (relabelled: Tick)
    requires tick.text != ""
    ensures relabelled == Relabelled(tick)
  {
    var secondsToConvert := SecondsOf(tick.value);
    var hours, minutes, seconds := SplitSeconds(secondsToConvert);
    relabelled := tick.(text := FormatClock(Clock(hours, minutes, seconds)));
  }

  /** Every tick of a list, as the loop leaves it. */
  function RelabelAll(ts: seq<Tick>): seq<Tick>
  {
    if ts == [] then [] else RelabelAll(ts[..|ts| - 1]) + [Relabelled(ts[|ts| - 1])]
  }

  /** The list keeps its length and each tick is relabelled on its own. */
  lemma {:induction false} RelabelAllPointwise(ts: seq<Tick>)
    ensures |RelabelAll(ts)| == |ts|
    ensures forall i :: 0 <= i < |ts| ==> RelabelAll(ts)[i] == Relabelled(ts[i])
  {
    if ts != [] {
      var init := ts[..|ts| - 1];
      RelabelAllPointwise(init);
      var r, r' := RelabelAll(ts), RelabelAll(init);
      assert r == r' + [Relabelled(ts[|ts| - 1])];
      forall i | 0 <= i < |ts| ensures r[i] == Relabelled(ts[i]) {
        if i < |init| {
          assert r[i] == r'[i] && init[i] == ts[i];
        }
      }
    }
  }

  /** Relabelling one more tick of a list appends that tick, relabelled. */
  lemma RelabelAllStep(ts: seq<Tick>, i: nat)
    requires i < |ts|
    ensures RelabelAll(ts[..i + 1]) == RelabelAll(ts[..i]) + [Relabelled(ts[i])]
  {
    assert ts[..i + 1][..i] == ts[..i];
  }

  /** The loop of DurationTicks.Ticks over the ticks the log-scale ticker
      produced: every labelled tick is relabelled in place as HH:MM:SS; the
      number of ticks, their values and the minor ticks stay as they were. */
  method RelabelTicks(ticks: array<Tick>)
    modifies ticks
    ensures ticks[..] == RelabelAll(old(ticks[..]))
  {
    ghost var before := ticks[..];
    for i := 0 to ticks.Length
      invariant ticks[..i] == RelabelAll(before[..i])
      invariant forall j :: i <= j < ticks.Length ==> ticks[j] == before[j]
    {
      var tick := ticks[i];
      RelabelAllStep(before, i);
      if tick.text != "" {
        ticks[i] := Relabel(tick);
      }
      assert ticks[..i + 1] == ticks[..i] + [ticks[i]];
    }
    assert ticks[..] == ticks[..ticks.Length];
    assert before == before[..ticks.Length];
  }

}
