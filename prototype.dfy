/** The hard-coded prototype (timer_cli/timer_cli.py, main): a fixed
    duration of 8 seconds plus one, its own formula for the target, a split
    whose minutes field is not reduced modulo 60, and the same polling loop
    and urgency bands as the packaged timer. Its standardize_time_str and
    createTimeString are the ones of module TimeString. */
module Prototype {
  import opened Builtins
  import opened TimeString
  import opened Countdown

  /** Lines 47-49. */
  const Hours: nat := 0
  const Minutes: nat := 0
  const Seconds: nat := 8 + 1

  /** Line 59: the offset added to the start instant, (hours * 60 * minutes)
      * 60 + seconds. Hours and minutes enter only through their product, so
      as soon as one of them is 0 the other is ignored. */
  function TargetOffset(hours: nat, minutes: nat, seconds: nat): (d: nat)
    ensures hours == 0 || minutes == 0 ==> d == seconds
    ensures d >= seconds
  {
    (hours * 60 * minutes) * 60 + seconds
  }

  /** Lines 58-61: target and total from the start instant. */
  function Start(start: real): (t: Timer)
    ensures t.start == start
    ensures t.target - start == 9.0 && t.total == 8.0
  {
    var target := start + TargetOffset(Hours, Minutes, Seconds) as real;
    Timer(start, target, target - start - 1.0)
  }

  /** Line 51: the first frame shows the duration as typed in the source. */
  lemma InitialShowsEightSeconds()
    ensures InitialTimeString(Hours, Minutes, Seconds) == "00:00:08"
  {
    RoundOfWhole(0);
    RoundOfWhole(8);
    assert CreateTimeString(0.0, 0.0, 8.0) == "00" + ":" + "00" + ":" + "08";
  }

  /** For the constants of the prototype the formula agrees with the packaged
      timer's, so the timer runs 9 seconds with a total of 8. */
  lemma StartAgreesWithSchedule(start: real)
    ensures Start(start) == Schedule(Hours, Minutes, Seconds, start)
  {
  }

  /** The formula gives the duration the fields stand for only when hours
      and minutes are both 0, as they are in the prototype. */
  lemma TargetOffsetCorrectOnlyAtZero(hours: nat, minutes: nat, seconds: nat)
    ensures TargetOffset(hours, minutes, seconds) == 3600 * hours + 60 * minutes + seconds <==>
      hours == 0 && minutes == 0
  {
    if hours >= 1 && minutes >= 1 {
      var p := hours * minutes;
      assert (hours - 1) * (minutes - 1) >= 0;
      assert p >= hours + minutes - 1;
      if minutes == 1 {
        assert p == hours;
      } else {
        assert 3600 * p >= 3600 * hours + 3600 * minutes - 3600;
      }
    }
  }

  /** With one hour and no minutes the formula drops the hour: the target is
      1 second away instead of 3601 (TargetOffsetCorrectOnlyAtZero). */
  lemma TargetOffsetDropsHours()
    ensures TargetOffset(1, 0, 1) == 1
  {
  }

  /** Lines 67-68: remaining // 3600, remaining // 60 and remaining % 60; the
      minutes field counts every whole minute, hours included. */
  function SplitUnwrapped(r: real): (f: Fields)
    ensures IsWhole(f.hrs) && IsWhole(f.mins) && 0.0 <= f.secs < 60.0
    ensures 60.0 * f.mins + f.secs == r
    ensures 60.0 * f.hrs <= f.mins < 60.0 * f.hrs + 60.0
  {
    var q := FloorDiv(r, 60.0);
    var s := Mod(r, 60.0);
    var h := FloorDiv(r, 3600.0);
    assert r - s == 60.0 * q;
    assert h == FloorDiv(q, 60.0) by {
      var h' := FloorDiv(q, 60.0);
      assert 60.0 * h' <= q < 60.0 * h' + 60.0;
      assert q <= 60.0 * h' + 59.0 by { assert q.Floor < 60 * h'.Floor + 60; }
      FloorDivUnique(r, 3600.0, h');
    }
    Fields(h, q, s)
  }

  /** Against the packaged split: the same hours and seconds, and minutes
      that also hold 60 for every whole hour. */
  lemma SplitUnwrappedFromSplit(r: real)
    ensures var f, g := SplitUnwrapped(r), Split(r);
      f.hrs == g.hrs && f.secs == g.secs && f.mins == 60.0 * g.hrs + g.mins
  {
    var f, g := SplitUnwrapped(r), Split(r);
    var m := f.mins - 60.0 * f.hrs;
    assert IsWhole(m) by { assert m == (f.mins.Floor - 60 * f.hrs.Floor) as real; }
    assert m <= 59.0 by { assert m.Floor < 60; }
    SplitUnique(r, Fields(f.hrs, m, f.secs));
  }

  /** Below an hour the two splits agree; from an hour on the minutes field
      shows 60 or more. */
  lemma SplitUnwrappedAgreesBelowHour(r: real)
    ensures 0.0 <= r < 3600.0 ==> SplitUnwrapped(r) == Split(r)
    ensures r >= 3600.0 ==> SplitUnwrapped(r).mins >= 60.0
  {
    SplitUnwrappedFromSplit(r);
    var g := Split(r);
    if 0.0 <= r < 3600.0 {
      assert g.hrs == 0.0 by {
        assert 3600.0 * g.hrs > -3600.0 && 3600.0 * g.hrs <= r;
        assert -1 < g.hrs.Floor < 1;
      }
    }
    if r >= 3600.0 {
      assert g.hrs >= 1.0 by { assert 3600.0 * g.hrs > 0.0; assert g.hrs.Floor > 0; }
    }
  }

  /** For a whole number of seconds the minutes field is the number of whole
      minutes, Python's integer r // 60. */
  lemma UnwrappedMinutesOfWholeSeconds(n: int)
    ensures SplitUnwrapped(n as real).mins == (n / 60) as real
  {
    var f := SplitUnwrapped(n as real);
    FloorDivUnique(n as real, 60.0, (n / 60) as real);
  }

  /** With 3661 seconds left the prototype shows 61 minutes. */
  lemma MinutesFieldOverflows(r: real)
    requires r == 3661.0
    ensures FieldsTimeString(SplitUnwrapped(r)) == "01:61:01"
    ensures FieldsTimeString(Split(r)) == "01:01:01"
  {
    SplitsOfHourMinuteSecond(r);
    ShowsSixtyOneMinutes(61.0);
    ShowsOneOfEach(1.0);
  }

  lemma SplitsOfHourMinuteSecond(r: real)
    requires r == 3661.0
    ensures SplitUnwrapped(r) == Fields(1.0, 61.0, 1.0)
    ensures Split(r) == Fields(1.0, 1.0, 1.0)
  {
    SplitUnwrappedFromSplit(r);
    SplitUnique(r, Fields(1.0, 1.0, 1.0));
  }

  lemma ShowsSixtyOneMinutes(m: real)
    requires m == 61.0
    ensures FieldsTimeString(Fields(1.0, m, 1.0)) == "01:61:01"
  {
    RoundOfWhole(1);
    RoundOfWhole(61);
    assert Decimal(61) == "61" by { assert Decimal(6) == "6"; }
    assert CreateTimeString(1.0, m, 1.0) == "01" + ":" + "61" + ":" + "01";
  }

  lemma ShowsOneOfEach(one: real)
    requires one == 1.0
    ensures FieldsTimeString(Fields(one, one, one)) == "01:01:01"
  {
    RoundOfWhole(1);
    assert CreateTimeString(one, one, one) == "01" + ":" + "01" + ":" + "01";
  }

  /** main of the prototype up to the alert: the initial frame, then the
      loop of lines 65-85 over the clock samples with the unwrapped split.
      The total is 8, so the division on each tick never fails. */
  method RunPrototype(start: real, clock: nat -> real)
    returns (timer: Timer, initial: string, frames: seq<Frame>)
    requires NonDecreasing(clock) && Reaches(clock, start + 9.0)
    ensures timer == Start(start) && initial == "00:00:08"
    ensures IsRun(now => TickAt(SplitUnwrapped, timer.target, timer.total, now), timer.target, clock, frames, false)
  {
    InitialShowsEightSeconds();
    initial := InitialTimeString(Hours, Minutes, Seconds);
    timer := Start(start);
    var crashed;
    frames, crashed := CountDown(now => TickAt(SplitUnwrapped, timer.target, timer.total, now), timer.target, clock);
    RunOfTotal(now => TickAt(SplitUnwrapped, timer.target, timer.total, now), timer.target, timer.total, clock, frames, crashed);
  }
}
