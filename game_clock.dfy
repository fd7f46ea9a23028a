/**
 * The game clock: minutes since midnight that wrap into a day counter, the
 * horde-night test on the day number, and the "DAY: d TIME: hh:mm" text the
 * clock label shows.
 */
module GameClock {
  import opened Wrappers

  /** Minutes in one day; the clock runs from 0 to LastMinute. */
  const MinutesPerDay := 1440
  const LastMinute := 1439

  // ---------------------------------------------------------------------------
  // C# integer division and remainder (truncating toward zero)

  /** `a / b` as C# computes it on int: the quotient truncated toward zero. */
  function CsDiv(a: int, b: int): int
    requires b != 0
  {
    if a >= 0 && b > 0 then a / b
    else if a < 0 && b < 0 then (-a) / (-b)
    else if a >= 0 then -(a / (-b))
    else -((-a) / b)
  }

  /** `a % b` as C# computes it on int: it takes the sign of `a`. */
  function CsRem(a: int, b: int): int
    requires b != 0
  {
    a - b * CsDiv(a, b)
  }

  function Abs(x: int): nat {
    if x < 0 then -x else x
  }

  /** A non-zero multiple of b is at least as large as b in magnitude. */
  lemma {:induction false} MulMagnitude(b: int, k: int)
    requires b != 0 && k > 0
    ensures b > 0 ==> b * k >= b
    ensures b < 0 ==> b * k <= b
    decreases k
  {
    if k > 1 {
      MulMagnitude(b, k - 1);
      assert b * k == b * (k - 1) + b;
    }
  }

  /** The only multiple of b smaller than b in magnitude is zero. */
  lemma SmallMultipleIsZero(b: int, k: int)
    requires b != 0 && Abs(b * k) < Abs(b)
    ensures k == 0
  {
    if k > 0 {
      MulMagnitude(b, k);
      assert false;
    } else if k < 0 {
      MulMagnitude(b, -k);
      assert false;
    }
  }

  /** The C# remainder is smaller than the divisor in magnitude. */
  lemma CsRemSmall(a: int, b: int)
    requires b != 0
    ensures Abs(CsRem(a, b)) < Abs(b)
  {
    if a >= 0 && b > 0 {
      assert CsRem(a, b) == a % b;
    } else if a < 0 && b < 0 {
      var q := (-a) / (-b);
      assert b * q == -((-b) * q);
      assert CsRem(a, b) == -((-a) % (-b));
    } else if a >= 0 {
      var q := a / (-b);
      assert b * -q == (-b) * q;
      assert CsRem(a, b) == a % (-b);
    } else {
      var q := (-a) / b;
      assert b * -q == -(b * q);
      assert CsRem(a, b) == -((-a) % b);
    }
  }

  /** The C# remainder is zero exactly when Dafny's (Euclidean) remainder is:
      both say that b divides a. */
  lemma CsRemZero(a: int, b: int)
    requires b != 0
    ensures CsRem(a, b) == 0 <==> a % b == 0
  {
    var q := CsDiv(a, b);
    var d := a / b;
    assert a == b * d + a % b;
    if CsRem(a, b) == 0 {
      assert b * d + a % b == b * q;
      assert a % b == b * (q - d);
      SmallMultipleIsZero(b, q - d);
    }
    if a % b == 0 {
      assert CsRem(a, b) == b * (d - q);
      CsRemSmall(a, b);
      SmallMultipleIsZero(b, d - q);
    }
  }

  // ---------------------------------------------------------------------------
  // Decimal text

  function Digit(d: int): char
    requires 0 <= d < 10
  {
    "0123456789"[d]
  }

  predicate IsDigit(c: char) {
    '0' <= c <= '9'
  }

  function DigitValue(c: char): int
    requires IsDigit(c)
  {
    c as int - '0' as int
  }

  /** int.ToString() of a non-negative number: its decimal digits, most
      significant first, with no leading zeros. */
  function NatToString(n: nat): (s: string)
    ensures 1 <= |s| && AllDigits(s)
    ensures |s| > 1 ==> s[0] != '0'
  {
    if n < 10 then [Digit(n)] else NatToString(n / 10) + [Digit(n % 10)]
  }

  /** int.ToString() of any int: a minus sign before the digits of a negative
      number. */
  function IntToString(i: int): string {
    if i < 0 then "-" + NatToString(-i) else NatToString(i)
  }

  /** Reads a string of decimal digits back as a number. */
  function ParseDigits(s: string): nat
    requires AllDigits(s)
  {
    if s == [] then 0 else ParseDigits(s[..|s| - 1]) * 10 + DigitValue(s[|s| - 1])
  }

  /** Reading the digits int.ToString() writes gives back the number. */
  lemma {:induction false} NatToStringRoundTrip(n: nat)
    ensures ParseDigits(NatToString(n)) == n
  {
    var s := NatToString(n);
    if n < 10 {
      assert s[..|s| - 1] == [];
    } else {
      var prefix := NatToString(n / 10);
      assert s[..|s| - 1] == prefix;
      NatToStringRoundTrip(n / 10);
    }
  }

  /** int.ToString("D2"): the digits, left-padded with zeros to at least two,
      after a minus sign for a negative number. */
  function D2(i: int): string {
    var digits := NatToString(if i < 0 then -i else i);
    var padded := if |digits| < 2 then "0" + digits else digits;
    if i < 0 then "-" + padded else padded
  }

  /** Below 100 "D2" writes exactly the tens digit and the units digit, and
      reading them back gives the number. */
  lemma D2TwoDigits(n: int)
    requires 0 <= n < 100
    ensures D2(n) == [Digit(n / 10), Digit(n % 10)]
    ensures ParseDigits(D2(n)) == n
  {
    if n >= 10 {
      assert NatToString(n / 10) == [Digit(n / 10)];
    }
    var s := D2(n);
    var first := s[..1];
    assert first == [Digit(n / 10)];
    assert first[..0] == [];
    DigitRoundTrip(n / 10);
    DigitRoundTrip(n % 10);
    assert ParseDigits(first) == n / 10;
    assert ParseDigits(s) == ParseDigits(first) * 10 + n % 10;
  }

  lemma DigitRoundTrip(d: int)
    requires 0 <= d < 10
    ensures DigitValue(Digit(d)) == d
  {
  }

  /** From 10 on "D2" pads nothing. */
  lemma D2Wide(n: int)
    requires n >= 10
    ensures D2(n) == NatToString(n)
  {
    assert NatToString(n / 10) != [];
  }

  /** A negative number is written as a minus sign and at least two digits. */
  lemma D2Negative(n: int)
    requires n < 0
    ensures var s := D2(n); |s| >= 3 && s[0] == '-' && forall i :: 1 <= i < |s| ==> IsDigit(s[i])
  {
    var digits := NatToString(-n);
    var padded := if |digits| < 2 then "0" + digits else digits;
    assert forall i :: 0 <= i < |padded| ==> IsDigit(padded[i]);
    assert D2(n) == "-" + padded;
  }

  // ---------------------------------------------------------------------------
  // The clock text

  /** The hours and minutes UpdateClock computes: hours = t / 60 in C# and
      minutes = t - hours * 60. */
  function SplitMinutes(t: int): (r: (int, int))
    ensures r.0 * 60 + r.1 == t
    ensures t >= 0 ==> r.0 == t / 60 && 0 <= r.1 < 60
    ensures t < 0 ==> r.0 <= 0 && -60 < r.1 <= 0
  {
    var hours := CsDiv(t, 60);
    (hours, t - hours * 60)
  }

  /** Whether `day` is a horde night, or None where C# would divide by zero. */
  function HordeNight(day: int, frequency: int): (r: Option<bool>)
    ensures r.Some? <==> frequency != 0
    ensures r.Some? ==> (r.value <==> day % frequency == 0)
  {
    if frequency == 0 then None
    else
      CsRemZero(day, frequency);
      Some(CsRem(day, frequency) == 0)
  }

  /** The day number, in red on a horde night. */
  function DayText(day: int, hordeNight: bool): string {
    if hordeNight then "<color=red>" + IntToString(day) + "</color>" else IntToString(day)
  }

  /** The text UpdateClock writes to the clock label, or None where the
      horde-night test divides by zero. */
  function ClockText(day: int, t: int, frequency: int): (r: Option<string>)
    ensures r.Some? <==> frequency != 0
  {
    match HordeNight(day, frequency)
    case None => None
    case Some(horde) =>
      var (hours, minutes) := SplitMinutes(t);
      Some("DAY: " + DayText(day, horde) + " TIME: " + D2(hours) + ":" + D2(minutes))
  }

  predicate AllDigits(s: string) {
    forall i :: 0 <= i < |s| ==> IsDigit(s[i])
  }

  /** `hhmm` is "hh:mm" with two-digit hour and minute fields that read back
      as a time of day, hour 0 to 23 and minute 0 to 59, equal to t minutes. */
  predicate ShowsTime(hhmm: string, t: int) {
    && |hhmm| == 5 && hhmm[2] == ':' && AllDigits(hhmm[..2]) && AllDigits(hhmm[3..])
    && ParseDigits(hhmm[..2]) < 24 && ParseDigits(hhmm[3..]) < 60
    && ParseDigits(hhmm[..2]) * 60 + ParseDigits(hhmm[3..]) == t
  }

  /** Within a day the clock text is "DAY: ", the day text (red exactly on
      horde nights) and " TIME: ", followed by five characters "hh:mm" that
      read back as t. */
  lemma ClockTextShape(day: int, t: int, frequency: int)
    requires frequency != 0 && 0 <= t <= LastMinute
    ensures var s := ClockText(day, t, frequency).value;
      && |s| >= 5
      && s[..|s| - 5] == "DAY: " + DayText(day, day % frequency == 0) + " TIME: "
      && ShowsTime(s[|s| - 5..], t)
  {
    var split := SplitMinutes(t);
    var head := "DAY: " + DayText(day, day % frequency == 0) + " TIME: ";
    var hhmm := D2(split.0) + ":" + D2(split.1);
    TimeFields(split.0, split.1, t);
    var s := ClockText(day, t, frequency).value;
    assert s == head + hhmm;
    assert s[..|s| - 5] == head && s[|s| - 5..] == hhmm;
  }

  /** Hour and minute fields written with "D2" show the time they came from. */
  lemma TimeFields(hours: int, minutes: int, t: int)
    requires 0 <= hours < 24 && 0 <= minutes < 60 && hours * 60 + minutes == t
    ensures ShowsTime(D2(hours) + ":" + D2(minutes), t)
  {
    D2TwoDigits(hours);
    D2TwoDigits(minutes);
    var hhmm := D2(hours) + ":" + D2(minutes);
    assert hhmm[..2] == D2(hours) && hhmm[3..] == D2(minutes);
  }

  // ---------------------------------------------------------------------------
  // Time of day and day counter

  datatype Clock = Clock(day: int, time: int)

  /** The TimeOfDay setter's effect on day and time: a value past the last
      minute of the day becomes minute 0 of the next day. */
  function SetTime(c: Clock, value: int): Clock {
    if value > LastMinute then Clock(c.day + 1, 0) else Clock(c.day, value)
  }

  /** One clock tick: TimeOfDay++. */
  function Tick(c: Clock): Clock {
    SetTime(c, c.time + 1)
  }

  /** n clock ticks. */
  function Ticks(c: Clock, n: nat): Clock {
    if n == 0 then c else Tick(Ticks(c, n - 1))
  }

  /** Starting within a day, n ticks advance the minute counter by n modulo a
      day, add one day per wrap past midnight, and never leave [0, 1439]. */
  lemma {:induction false} TicksCount(c: Clock, n: nat)
    requires 0 <= c.time <= LastMinute
    ensures Ticks(c, n) == Clock(c.day + (c.time + n) / MinutesPerDay, (c.time + n) % MinutesPerDay)
    ensures 0 <= Ticks(c, n).time <= LastMinute
  {
    if n > 0 {
      TicksCount(c, n - 1);
      var m := c.time + n - 1;
      var q := m / MinutesPerDay;
      var r := m % MinutesPerDay;
      assert m == MinutesPerDay * q + r;
      if r == LastMinute {
        assert m + 1 == MinutesPerDay * (q + 1);
        assert (m + 1) / MinutesPerDay == q + 1;
        assert (m + 1) % MinutesPerDay == 0;
      } else {
        assert m + 1 == MinutesPerDay * q + (r + 1);
        assert (m + 1) / MinutesPerDay == q;
        assert (m + 1) % MinutesPerDay == r + 1;
      }
    }
  }

  class World {
    var dayStartTime: int
    var dayEndTime: int
    var hordeNightFrequency: int
    var day: int
    var timeOfDay: int
    var clockText: string

    /** The inspector defaults: day from 04:00 to 22:40, a horde every seventh
        day, day 1 at midnight. The label's first text comes from the scene,
        not from this class; the model starts it blank, an arbitrary value
        that the first change of the clock overwrites. */
    constructor()
      ensures dayStartTime == 240 && dayEndTime == 1360 && hordeNightFrequency == 7
      ensures day == 1 && timeOfDay == 0 && clockText == ""
      ensures DayLength() == 1120
    {
      dayStartTime := 240;
      dayEndTime := 1360;
      hordeNightFrequency := 7;
      day := 1;
      timeOfDay := 0;
      clockText := "";
    }

    /** Minutes of daylight. */
    function DayLength(): int
      reads this
    {
      dayEndTime - dayStartTime
    }

    /** The IsHordeNight property: the day number is a multiple of the horde
        frequency; None where the C# remainder divides by zero. */
    function IsHordeNight(): (r: Option<bool>)
      reads this
      ensures r.Some? <==> hordeNightFrequency != 0
      ensures r.Some? ==> (r.value <==> day % hordeNightFrequency == 0)
    {
      HordeNight(day, hordeNightFrequency)
    }

    function Now(): Clock
      reads this
    {
      Clock(day, timeOfDay)
    }

    /** Rewrites the clock label from the current day and time. `ok` is false
        where the horde-night test throws, and the label is then unchanged. */
    method UpdateClock() returns (ok: bool)
      modifies this`clockText
      ensures ok <==> hordeNightFrequency != 0
      ensures ok ==> clockText == ClockText(day, timeOfDay, hordeNightFrequency).value
      ensures !ok ==> clockText == old(clockText)
    {
      var hours := CsDiv(timeOfDay, 60);
      var minutes := timeOfDay - hours * 60;
      if hordeNightFrequency == 0 {
        return false;
      }
      var dayText: string;
      if CsRem(day, hordeNightFrequency) == 0 {
        dayText := "<color=red>" + IntToString(day) + "</color>";
      } else {
        dayText := IntToString(day);
      }
      clockText := "DAY: " + dayText + " TIME: " + D2(hours) + ":" + D2(minutes);
      ok := true;
    }

    /** The TimeOfDay setter: a value past 1439 stores 0 and advances the day
        by exactly one; any other value is stored as given and the day stays.
        Then the label is rewritten. */
    method SetTimeOfDay(value: int) returns (ok: bool)
      modifies this`timeOfDay, this`day, this`clockText
      ensures value > LastMinute ==> timeOfDay == 0 && day == old(day) + 1
      ensures value <= LastMinute ==> timeOfDay == value && day == old(day)
      ensures Now() == SetTime(old(Now()), value)
      ensures ok <==> hordeNightFrequency != 0
      ensures ok ==> clockText == ClockText(day, timeOfDay, hordeNightFrequency).value
      ensures !ok ==> clockText == old(clockText)
    {
      timeOfDay := value;
      if timeOfDay > LastMinute {
        timeOfDay := 0;
        day := day + 1;
      }
      ok := UpdateClock();
    }

    /** One frame of Update, where `tickFires` says whether the second
        counter passed the clock speed: the clock then advances by one minute.
        A clock within the day stays within the day. */
    method Update(tickFires: bool) returns (ok: bool)
      modifies this`timeOfDay, this`day, this`clockText
      ensures tickFires ==> Now() == Tick(old(Now()))
      ensures !tickFires ==> Now() == old(Now()) && clockText == old(clockText) && ok
      ensures tickFires ==> (ok <==> hordeNightFrequency != 0)
      ensures tickFires && ok ==> clockText == ClockText(day, timeOfDay, hordeNightFrequency).value
      ensures tickFires && !ok ==> clockText == old(clockText)
      ensures 0 <= old(timeOfDay) <= LastMinute ==> 0 <= timeOfDay <= LastMinute
    {
      if tickFires {
        ok := SetTimeOfDay(timeOfDay + 1);
      } else {
        ok := true;
      }
    }
  }
}
