/** The countdown of the packaged timer (timer/__main__.py, main): the checks
    on the duration argument and its conversion to numbers, the target and
    total computed at start, the split of the remaining time into fields,
    the three-band urgency colour, and the polling loop that produces one
    frame per tick until the rounded clock reaches the rounded target.

    Instants are exact reals; the clock is an abstract sequence of samples,
    read in the order the program calls time.time(). */
module Countdown {
  import opened Builtins
  import opened TimeString
  import opened Duration

  // ---------------------------------------------------------------------
  // The duration argument: blank check, parse, conversion to numbers
  // ---------------------------------------------------------------------

  const BlankMessage := "Please specify a timer duration. \n\nPlease use the format __h__m__s or view the help for example usage."

  /** Why main refuses to start: no duration, or one the parser rejects.
      ZeroDuration is only used by the corrected check LaunchChecked. */
  datatype Reason = MissingDuration | InvalidFormat(input: string) | ZeroDuration

  /** Lines 72 and 77: the text printed before exiting (without the rich
      colour markup). The packaged timer has no zero-duration message; the
      corrected check reuses the missing-duration one. */
  function Message(reason: Reason): (m: string)
    ensures reason.InvalidFormat? ==>
      var s := reason.input;
      |InvalidPrefix| + |s| <= |m| && m[|InvalidPrefix|..|InvalidPrefix| + |s|] == s
  {
    match reason
    case MissingDuration => BlankMessage
    case InvalidFormat(s) => InvalidMessage(s)
    case ZeroDuration => BlankMessage
  }

  /** What main does with its argument before the countdown starts: either
      it exits with a code and a reason, or it goes on with the three
      numbers it computed (seconds already carries the extra second). */
  datatype Launch = Rejected(exitCode: int, reason: Reason) | Accepted(hours: nat, minutes: nat, seconds: nat)

  /** int(group[:-1]) for a matched group, 0 for one that did not take part. */
  function FieldValue(g: Option<string>, unit: char): (v: nat)
    requires g.Some? ==> IsField(g.value, unit)
    ensures g.None? ==> v == 0
    ensures v <= 99
  {
    if g.Some? then
      ShortDigitsBound(g.value[..|g.value| - 1]);
      DigitsValue(g.value[..|g.value| - 1])
    else 0
  }

  /** The duration the user typed, in seconds. */
  function RequestedSeconds(g: Groups): nat
    requires WellFormed(g)
  {
    3600 * FieldValue(g.hours, 'h') + 60 * FieldValue(g.minutes, 'm') + FieldValue(g.seconds, 's')
  }

  /** Lines 80-82: hours and minutes are the digits typed, seconds is the
      digits typed plus one, and a field that was not typed is 0. */
  function Converted(g: Groups): (l: Launch)
    requires WellFormed(g)
    ensures l.Accepted? && l.hours <= 99 && l.minutes <= 99 && 1 <= l.seconds + 1 <= 101
    ensures l.seconds == 0 <==> g.seconds.None?
    ensures g.seconds.Some? ==> l.seconds == FieldValue(g.seconds, 's') + 1
  {
    Accepted(FieldValue(g.hours, 'h'), FieldValue(g.minutes, 'm'),
             if g.seconds.Some? then FieldValue(g.seconds, 's') + 1 else 0)
  }

  /** Lines 70-82 of main: a missing or blank argument and an argument the
      parser rejects both exit with code 1; otherwise main goes on with the
      converted fields. */
  function LaunchFrom(duration: Option<string>): (r: Launch)
    ensures r.Rejected? ==> r.exitCode == 1
    ensures duration.None? || IsBlank(duration.value) ==> r == Rejected(1, MissingDuration)
    ensures r.Accepted? <==> duration.Some? && StartsWithAnyField(Strip(duration.value))
    ensures r.Accepted? ==> r.hours <= 99 && r.minutes <= 99 && r.seconds <= 100
    ensures duration.Some? && !IsBlank(duration.value) && r.Rejected? ==>
      r == Rejected(1, InvalidFormat(Strip(duration.value)))
  {
    if duration.None? then Rejected(1, MissingDuration)
    else
      StripEmptyIffBlank(duration.value);
      LaunchOfText(Strip(duration.value))
  }

  /** Lines 70-82 once the argument is stripped. */
  function LaunchOfText(s: string): (r: Launch)
    ensures r.Rejected? ==> r.exitCode == 1
    ensures s == [] ==> r == Rejected(1, MissingDuration)
    ensures r.Accepted? <==> StartsWithAnyField(s)
    ensures r.Accepted? ==> r.hours <= 99 && r.minutes <= 99 && r.seconds <= 100
    ensures s != [] && r.Rejected? ==> r == Rejected(1, InvalidFormat(s))
  {
    if s == [] then
      assert !StartsWithAnyField(s);
      Rejected(1, MissingDuration)
    else
      match ParseDurationString(s)
      case Invalid(input) => Rejected(1, InvalidFormat(input))
      case Parsed(g) => Converted(g)
  }

  /** The numbers main computes are the ones typed, whatever text follows
      the expression (as long as it does not start with a digit). */
  lemma LaunchConversion(g: Groups, rest: string)
    requires WellFormed(g)
    requires rest == [] || !IsDigit(rest[0])
    ensures LaunchFrom(Some(Consumed(g) + rest)) == Converted(g)
  {
    var head := Consumed(g);
    ConsumedShape(g);
    StripKeepsHead(head, rest);
    var tail := StripTrailing(rest);
    TrailingKeepsFirst(rest);
    ParseRoundTrip(g, tail);
    LaunchOfParsed(head + rest, head + tail, g);
  }

  lemma TrailingKeepsFirst(s: string)
    ensures var t := StripTrailing(s);
      t == [] || (s != [] && t[0] == s[0])
  {
  }

  lemma ConsumedShape(g: Groups)
    requires WellFormed(g)
    ensures var head := Consumed(g);
      head != [] && !IsSpace(head[0]) && !IsSpace(head[|head| - 1])
  {
    var hs, ms, ss := Text(g.hours), Text(g.minutes), Text(g.seconds);
    var head := hs + ms + ss;
    var first := if hs != [] then hs else if ms != [] then ms else ss;
    var last := if ss != [] then ss else if ms != [] then ms else hs;
    assert head[0] == first[0];
    assert head[|head| - 1] == last[|last| - 1];
    assert IsDigit(first[0]) && (last[|last| - 1] == 'h' || last[|last| - 1] == 'm' || last[|last| - 1] == 's');
  }

  lemma LaunchOfParsed(v: string, stripped: string, g: Groups)
    requires Strip(v) == stripped && ParseDurationString(stripped) == Parsed(g)
    ensures LaunchFrom(Some(v)) == Converted(g)
  {
    TextOfParsed(stripped, g);
  }

  lemma TextOfParsed(s: string, g: Groups)
    requires ParseDurationString(s) == Parsed(g)
    ensures LaunchOfText(s) == Converted(g)
  {
    assert s != [] by {
      assert StartsWithAnyField(s);
    }
  }

  // ---------------------------------------------------------------------
  // Start: target instant and the total used for the urgency fraction
  // ---------------------------------------------------------------------

  datatype Timer = Timer(start: real, target: real, total: real)

  /** Lines 93-96: the target is start plus the duration in seconds, and the
      total is one second less than target - start. */
  function Schedule(hours: nat, minutes: nat, seconds: nat, start: real): (t: Timer)
    ensures t.start == start
    ensures t.target - start == (3600 * hours + 60 * minutes + seconds) as real
    ensures t.total == t.target - start - 1.0
  {
    var target := start + (hours * 3600) as real + (minutes * 60) as real + seconds as real;
    Timer(start, target, target - start - 1.0)
  }

  /** Measured against what was typed: with a seconds field the timer runs
      one second longer than typed and the total is what was typed; without
      one it runs exactly as typed and the total is one second less. */
  lemma ScheduleMatchesRequest(g: Groups, start: real)
    requires WellFormed(g)
    ensures var l := Converted(g);
      var t := Schedule(l.hours, l.minutes, l.seconds, start);
      var requested := RequestedSeconds(g) as real;
      (g.seconds.Some? ==> t.target - start == requested + 1.0 && t.total == requested) &&
      (g.seconds.None? ==> t.target - start == requested && t.total == requested - 1.0)
  {
  }

  /** Line 84: the first frame shows createTimeString(hours, minutes,
      seconds - 1). */
  function InitialTimeString(hours: nat, minutes: nat, seconds: nat): string
  {
    CreateTimeString(hours as real, minutes as real, (seconds - 1) as real)
  }

  /** The first frame shows the expression exactly as typed. */
  lemma InitialShowsRequest(g: Groups)
    requires WellFormed(g)
    ensures var l := Converted(g);
      InitialTimeString(l.hours, l.minutes, l.seconds) ==
        CreateTimeString(FieldValue(g.hours, 'h') as real, FieldValue(g.minutes, 'm') as real,
                         FieldValue(g.seconds, 's') as real)
  {
    var l := Converted(g);
    var h, m := FieldValue(g.hours, 'h') as real, FieldValue(g.minutes, 'm') as real;
    assert l.hours as real == h && l.minutes as real == m;
    if g.seconds.None? {
      assert (l.seconds - 1) as real == -1.0 && FieldValue(g.seconds, 's') as real == 0.0;
      NoSecondsShowsZero(h, m, -1.0, 0.0);
    }
  }

  /** -1 and 0 both show as "00". */
  lemma NoSecondsShowsZero(hrs: real, mins: real, minusOne: real, zero: real)
    requires minusOne == -1.0 && zero == 0.0
    ensures CreateTimeString(hrs, mins, minusOne) == CreateTimeString(hrs, mins, zero)
  {
    RoundOfWhole(-1);
    RoundOfWhole(0);
    SameShownSameString(hrs, mins, minusOne, zero);
  }

  lemma SameShownSameString(hrs: real, mins: real, s1: real, s2: real)
    requires Round(s1) <= 0 && Round(s2) <= 0
    ensures CreateTimeString(hrs, mins, s1) == CreateTimeString(hrs, mins, s2)
  {
    assert StandardizeTimeStr(s1) == "00" == StandardizeTimeStr(s2);
  }

  // ---------------------------------------------------------------------
  // Splitting the remaining time into hours, minutes and seconds
  // ---------------------------------------------------------------------

  datatype Fields = Fields(hrs: real, mins: real, secs: real)

  /** The canonical split of r: whole hours, whole minutes below 60, and the
      seconds left over, in [0, 60). */
  predicate IsSplitOf(f: Fields, r: real)
  {
    IsWhole(f.hrs) && IsWhole(f.mins) && 0.0 <= f.mins < 60.0 && 0.0 <= f.secs < 60.0 &&
    3600.0 * f.hrs + 60.0 * f.mins + f.secs == r
  }

  /** Lines 103-105: r // 3600, (r // 60) % 60 and r % 60. */
  function Split(r: real): (f: Fields)
    ensures IsSplitOf(f, r)
  {
    var q := FloorDiv(r, 60.0);
    var h := FloorDiv(q, 60.0);
    var m := Mod(q, 60.0);
    var s := Mod(r, 60.0);
    assert q - m == 60.0 * h && r - s == 60.0 * q;
    assert 60.0 * h <= q < 60.0 * h + 60.0;
    assert q <= 60.0 * h + 59.0 by { assert q.Floor < 60 * h.Floor + 60; }
    FloorDivUnique(r, 3600.0, h);
    assert IsWhole(m) by { assert m == (q.Floor - 60 * h.Floor) as real; }
    Fields(FloorDiv(r, 3600.0), m, s)
  }

  /** The canonical split is unique, so Split is the only function with
      that contract. */
  lemma SplitUnique(r: real, f: Fields)
    requires IsSplitOf(f, r)
    ensures Split(r) == f
  {
    var q := 60.0 * f.hrs + f.mins;
    assert f.mins <= 59.0 by { assert f.mins.Floor < 60; }
    var rest := 60.0 * f.mins + f.secs;
    assert 0.0 <= rest < 3600.0;
    assert r / 3600.0 == f.hrs + rest / 3600.0;
    assert 0.0 <= rest / 3600.0 < 1.0;
    FloorDivUnique(r, 3600.0, f.hrs);
    assert IsWhole(q) by { assert q == (60 * f.hrs.Floor + f.mins.Floor) as real; }
    assert r / 60.0 == q + f.secs / 60.0;
    FloorDivUnique(r, 60.0, q);
    FloorDivUnique(q, 60.0, f.hrs);
  }

  /** On a whole number of seconds the split is Python's integer //, % (which
      floor, as Dafny's / and % do for a positive divisor). */
  lemma SplitOfWholeSeconds(n: int)
    ensures Split(n as real) == Fields((n / 3600) as real, ((n / 60) % 60) as real, (n % 60) as real)
  {
    var f := Fields((n / 3600) as real, ((n / 60) % 60) as real, (n % 60) as real);
    assert n == 3600 * (n / 3600) + 60 * ((n / 60) % 60) + n % 60 by {
      assert n == 60 * (n / 60) + n % 60;
      assert n / 60 == 60 * ((n / 60) / 60) + (n / 60) % 60;
      assert (n / 60) / 60 == n / 3600;
    }
    SplitUnique(n as real, f);
  }

  // ---------------------------------------------------------------------
  // Urgency colour
  // ---------------------------------------------------------------------

  datatype Colour = Green | Yellow | Red

  const TimerHighPercent: real := 0.5
  const TimerLowPercent: real := 0.2

  /** Lines 110-119: green above one half up to 1, yellow above one fifth up
      to one half, red for everything else (at most one fifth, or above 1). */
  function Classify(fraction: real): (c: Colour)
    ensures c == Green <==> 0.5 < fraction <= 1.0
    ensures c == Yellow <==> 0.2 < fraction <= 0.5
    ensures c == Red <==> fraction <= 0.2 || 1.0 < fraction
  {
    if TimerHighPercent < fraction <= 1.0 then Green
    else if TimerLowPercent < fraction <= TimerHighPercent then Yellow
    else Red
  }

  function Urgency(c: Colour): nat
  {
    match c
    case Green => 0
    case Yellow => 1
    case Red => 2
  }

  /** Over a positive total the bands read without division: green while
      more than half of the total remains, yellow while more than a fifth
      does, red after that (and red if more than the total remains). */
  lemma ClassifyByRemaining(remaining: real, total: real)
    requires total > 0.0
    ensures Classify(remaining / total) == Green <==> total < 2.0 * remaining && remaining <= total
    ensures Classify(remaining / total) == Yellow <==> total < 5.0 * remaining && 2.0 * remaining <= total
    ensures Classify(remaining / total) == Red <==> 5.0 * remaining <= total || total < remaining
  {
  }

  /** As the fraction falls within [.., 1] the colour never becomes less
      urgent. */
  lemma ClassifyMonotone(f1: real, f2: real)
    requires f1 <= f2 <= 1.0
    ensures Urgency(Classify(f2)) <= Urgency(Classify(f1))
  {
  }

  lemma ClassifyBoundaries()
    ensures Classify(51.0 / 100.0) == Green
    ensures Classify(50.0 / 100.0) == Yellow
    ensures Classify(20.0 / 100.0) == Red
    ensures Classify(19.0 / 100.0) == Red
    ensures Classify(101.0 / 100.0) == Red
  {
  }

  // ---------------------------------------------------------------------
  // One tick of the loop
  // ---------------------------------------------------------------------

  datatype Frame = Frame(time: string, colour: Colour)

  /** What one pass of the loop body produces: a frame, or the
      ZeroDivisionError that remaining / total raises when total is 0. */
  datatype Tick = Shown(frame: Frame) | ZeroDivision

  /** Line 101. */
  function Remaining(target: real, now: real): real
  {
    target - now - 1.0
  }

  function FieldsTimeString(f: Fields): string
  {
    CreateTimeString(f.hrs, f.mins, f.secs)
  }

  /** Lines 101-119 with the fields computed by split (Split here, the
      prototype's own split there). */
  function TickAt(split: real -> Fields, target: real, total: real, now: real): (t: Tick)
    ensures t.ZeroDivision? <==> total == 0.0
  {
    if total == 0.0 then ZeroDivision
    else
      var remaining := Remaining(target, now);
      Shown(Frame(FieldsTimeString(split(remaining)), Classify(remaining / total)))
  }

  /** The number of seconds an "HH:MM:SS" string stands for. */
  function ReadBack(t: string): int
    requires |t| == 8 && AllDigits(t[..2]) && AllDigits(t[3..5]) && AllDigits(t[6..])
  {
    3600 * DigitsValue(t[..2]) + 60 * DigitsValue(t[3..5]) + DigitsValue(t[6..])
  }

  /** While some time is left (and less than 100 hours), the string shown
      reads back to within half a second of the remaining time. */
  lemma DisplayTracksRemaining(r: real)
    requires 0.0 <= r < 360000.0
    ensures var t := FieldsTimeString(Split(r));
      |t| == 8 && AllDigits(t[..2]) && AllDigits(t[3..5]) && AllDigits(t[6..]) &&
      r - 0.5 <= ReadBack(t) as real <= r + 0.5
  {
    var f := Split(r);
    assert 0.0 <= f.hrs by { assert 3600.0 * f.hrs > -3600.0; assert f.hrs.Floor > -1; }
    assert f.hrs < 100.0 by { assert 3600.0 * f.hrs <= r; }
    RoundOfWhole(f.hrs.Floor);
    RoundOfWhole(f.mins.Floor);
    TimeStringLayout(f.hrs, f.mins, f.secs);
  }

  /** A concrete frame of the as-written display: with -0.4 seconds left
      (the last tick can see a clock sample past target - 1), the minutes
      wrap to 59 and the seconds round up to 60. */
  lemma NegativeRemainingShowsWrappedTime()
    ensures Split(-0.4) == Fields(-1.0, 59.0, 59.6)
    ensures FieldsTimeString(Split(-0.4)) == "00:59:60"
    ensures TickAt(Split, 1000.7, 9.0, 1000.1) == Shown(Frame("00:59:60", Red))
  {
    SplitUnique(-0.4, Fields(-1.0, 59.0, 59.6));
    RoundOfWhole(-1);
    RoundOfWhole(59);
    RoundUnique(59.6, 60);
    assert Decimal(59) == "59" by { assert Decimal(5) == "5"; }
    assert Decimal(60) == "60" by { assert Decimal(6) == "6"; }
  }

  /** The per-field rounding shows 60 seconds with less than a minute left. */
  lemma SecondsFieldShowsSixty(r: real)
    requires r == 59.6
    ensures FieldsTimeString(Split(r)) == "00:00:60"
  {
    UnderAMinute(r);
    ShowsZeroZeroSixty(r);
  }

  lemma UnderAMinute(r: real)
    requires 0.0 <= r < 60.0
    ensures Split(r) == Fields(0.0, 0.0, r)
  {
    SplitUnique(r, Fields(0.0, 0.0, r));
  }

  lemma ShowsZeroZeroSixty(r: real)
    requires r == 59.6
    ensures CreateTimeString(0.0, 0.0, r) == "00:00:60"
  {
    ShowsZero();
    ShowsSixty();
    assert CreateTimeString(0.0, 0.0, r) == "00" + ":" + "00" + ":" + "60";
  }

  lemma ShowsZero()
    ensures StandardizeTimeStr(0.0) == "00"
  {
    RoundOfWhole(0);
  }

  lemma ShowsSixty()
    ensures StandardizeTimeStr(59.6) == "60"
  {
    RoundUnique(59.6, 60);
    assert Decimal(60) == "60" by { assert Decimal(6) == "6"; }
  }

  /** The display evidently intended: the remaining time rounded to whole
      seconds, clamped at zero, then split into fields. */
  function DisplayTime(r: real): (t: string)
    ensures 8 <= |t|
    ensures Round(r) < 360000 ==>
      |t| == 8 && t[2] == ':' && t[5] == ':' &&
      AllDigits(t[..2]) && AllDigits(t[3..5]) && AllDigits(t[6..]) &&
      DigitsValue(t[3..5]) < 60 && DigitsValue(t[6..]) < 60 &&
      ReadBack(t) == FieldShows(r)
    ensures Round(r) <= 0 ==> t == "00:00:00"
  {
    WholeSecondsLayout(FieldShows(r));
    FieldsTimeString(Split(FieldShows(r) as real))
  }

  lemma WholeSecondsLayout(n: nat)
    ensures var t := FieldsTimeString(Split(n as real));
      8 <= |t| &&
      (n < 360000 ==>
        |t| == 8 && t[2] == ':' && t[5] == ':' &&
        AllDigits(t[..2]) && AllDigits(t[3..5]) && AllDigits(t[6..]) &&
        DigitsValue(t[3..5]) < 60 && DigitsValue(t[6..]) < 60 &&
        ReadBack(t) == n) &&
      (n == 0 ==> t == "00:00:00")
  {
    if n < 360000 {
      WholeSecondsBelowHundredHours(n);
    }
    if n == 0 {
      ZeroShowsZero();
    }
  }

  lemma WholeSecondsBelowHundredHours(n: nat)
    requires n < 360000
    ensures var t := FieldsTimeString(Split(n as real));
      |t| == 8 && t[2] == ':' && t[5] == ':' &&
      AllDigits(t[..2]) && AllDigits(t[3..5]) && AllDigits(t[6..]) &&
      DigitsValue(t[3..5]) < 60 && DigitsValue(t[6..]) < 60 &&
      ReadBack(t) == n
  {
    var f := Split(n as real);
    var h, m, s := n / 3600, (n / 60) % 60, n % 60;
    WholeSecondsFields(n);
    TimeStringLayout(f.hrs, f.mins, f.secs);
    assert n == 3600 * h + 60 * m + s;
  }

  /** The fields of a whole number of seconds are whole, so each shows
      itself. */
  lemma WholeSecondsFields(n: nat)
    ensures var f := Split(n as real);
      var h, m, s := n / 3600, (n / 60) % 60, n % 60;
      f == Fields(h as real, m as real, s as real) &&
      Round(f.hrs) == h && Round(f.mins) == m && Round(f.secs) == s
  {
    SplitOfWholeSeconds(n);
    RoundOfWhole(n / 3600);
    RoundOfWhole((n / 60) % 60);
    RoundOfWhole(n % 60);
  }

  lemma ZeroShowsZero()
    ensures FieldsTimeString(Split(0.0)) == "00:00:00"
  {
    assert FieldsTimeString(Split(0.0)) == CreateTimeString(0.0, 0.0, 0.0) by {
      SplitUnique(0.0, Fields(0.0, 0.0, 0.0));
    }
    TimeStringExamples();
  }

  // ---------------------------------------------------------------------
  // The loop
  // ---------------------------------------------------------------------

  ghost predicate NonDecreasing(clock: nat -> real)
  {
    forall i, j :: i <= j ==> clock(i) <= clock(j)
  }

  /** Some sample of the clock rounds to at least the rounded target. */
  ghost predicate Reaches(clock: nat -> real, target: real)
  {
    exists k :: Round(target) <= Round(clock(k))
  }

  /** Each frame is the tick of its iteration: iteration j passed its guard
      on sample 2j and read sample 2j+1 for the remaining time. */
  ghost predicate Ticked(step: real -> Tick, target: real, clock: nat -> real, frames: seq<Frame>)
  {
    forall j :: 0 <= j < |frames| ==>
      Round(target) > Round(clock(2 * j)) && step(clock(2 * j + 1)) == Shown(frames[j])
  }

  /** frames and crashed are what the loop of lines 100-126 produces over
      the clock samples, with step as the body of one iteration: the loop
      stops at the first guard sample whose rounding reaches the rounded
      target, or at the first iteration whose body raises. */
  ghost predicate IsRun(step: real -> Tick, target: real, clock: nat -> real,
                        frames: seq<Frame>, crashed: bool)
  {
    Ticked(step, target, clock, frames) &&
    (crashed ==> Round(target) > Round(clock(2 * |frames|)) && step(clock(2 * |frames| + 1)).ZeroDivision?) &&
    (!crashed ==> Round(target) <= Round(clock(2 * |frames|)))
  }

  lemma TickedExtend(step: real -> Tick, target: real, clock: nat -> real, frames: seq<Frame>, f: Frame)
    requires Ticked(step, target, clock, frames)
    requires Round(target) > Round(clock(2 * |frames|))
    requires step(clock(2 * |frames| + 1)) == Shown(f)
    ensures Ticked(step, target, clock, frames + [f])
  {
    var next := frames + [f];
    assert forall j :: 0 <= j < |frames| ==> next[j] == frames[j];
  }

  /** A sample that rounds below the target comes before one that reaches it. */
  lemma BeforeReaching(clock: nat -> real, target: real, i: nat, k: nat)
    requires NonDecreasing(clock)
    requires Round(target) > Round(clock(i)) && Round(target) <= Round(clock(k))
    ensures i < k
  {
    RoundStrict(clock(i), clock(k));
  }

  /** The running loop, one frame per tick; rendering and the half-second
      sleep are left out. step is the body of one iteration (TickAt with the
      split, target and total of the run). */
  method CountDown(step: real -> Tick, target: real, clock: nat -> real)
    returns (frames: seq<Frame>, crashed: bool)
    requires NonDecreasing(clock) && Reaches(clock, target)
    ensures IsRun(step, target, clock, frames, crashed)
  {
    ghost var k: nat :| Round(target) <= Round(clock(k));
    frames, crashed := [], false;
    var i: nat := 0;
    while Round(target) > Round(clock(i))
      invariant i == 2 * |frames|
      invariant Ticked(step, target, clock, frames)
      decreases k - i
    {
      BeforeReaching(clock, target, i, k);
      var tick := step(clock(i + 1));
      if tick.ZeroDivision? {
        crashed := true;
        RunEnds(step, target, clock, frames, crashed);
        return;
      }
      TickedExtend(step, target, clock, frames, tick.frame);
      frames := frames + [tick.frame];
      i := i + 2;
    }
    RunEnds(step, target, clock, frames, crashed);
  }

  /** A run ends either on a tick that raised or once the guard fails. */
  lemma RunEnds(step: real -> Tick, target: real, clock: nat -> real, frames: seq<Frame>, crashed: bool)
    requires Ticked(step, target, clock, frames)
    requires crashed ==> Round(target) > Round(clock(2 * |frames|)) && step(clock(2 * |frames| + 1)).ZeroDivision?
    requires !crashed ==> Round(target) <= Round(clock(2 * |frames|))
    ensures IsRun(step, target, clock, frames, crashed)
  {
  }

  /** When the body of an iteration raises exactly on a total of 0 (as
      TickAt does), a run with a total of 0 holds no frame and crashes when
      it enters the loop, and a run with a positive total never crashes. */
  lemma RunOfTotal(step: real -> Tick, target: real, total: real, clock: nat -> real,
                   frames: seq<Frame>, crashed: bool)
    requires forall now :: step(now).ZeroDivision? <==> total == 0.0
    requires IsRun(step, target, clock, frames, crashed)
    ensures crashed <==> total == 0.0 && Round(target) > Round(clock(0))
    ensures total == 0.0 ==> frames == []
  {
    if |frames| > 0 {
      var first := clock(2 * 0 + 1);
      assert step(first) == Shown(frames[0]);
      assert step(first).ZeroDivision? <==> total == 0.0;
    }
    if crashed {
      var last := clock(2 * |frames| + 1);
      assert step(last).ZeroDivision?;
      assert step(last).ZeroDivision? <==> total == 0.0;
    }
  }

  /** Over a clock that has not run backwards past start, frames never grow
      less urgent from one tick to the next. */
  lemma UrgencyNeverRecedes(split: real -> Fields, timer: Timer, now1: real, now2: real)
    requires timer.total == timer.target - timer.start - 1.0 && timer.total > 0.0
    requires timer.start <= now1 <= now2
    ensures var t1 := TickAt(split, timer.target, timer.total, now1);
      var t2 := TickAt(split, timer.target, timer.total, now2);
      Urgency(t1.frame.colour) <= Urgency(t2.frame.colour)
  {
    var r1, r2 := Remaining(timer.target, now1), Remaining(timer.target, now2);
    FractionsOrdered(r2, r1, timer.total);
    ClassifyMonotone(r2 / timer.total, r1 / timer.total);
  }

  lemma FractionsOrdered(a: real, b: real, d: real)
    requires 0.0 < d && a <= b <= d
    ensures a / d <= b / d <= 1.0
  {
    var p, q := a / d, b / d;
    assert p * d == a && q * d == b;
    assert (q - p) * d == b - a;
    assert (1.0 - q) * d == d - b;
  }

  // ---------------------------------------------------------------------
  // main, up to the alert
  // ---------------------------------------------------------------------

  datatype Session =
    | Refused(exitCode: int, message: string)
    | Ran(timer: Timer, initial: string, frames: seq<Frame>, crashed: bool)

  /** main from its argument to the end of the running loop: the start
      instant and the clock samples are parameters. */
  method RunTimer(duration: Option<string>, start: real, clock: nat -> real) returns (s: Session)
    requires NonDecreasing(clock)
    requires var l := LaunchFrom(duration);
      l.Accepted? ==> Reaches(clock, Schedule(l.hours, l.minutes, l.seconds, start).target)
    ensures var l := LaunchFrom(duration);
      l.Rejected? ==> s == Refused(l.exitCode, Message(l.reason))
    ensures var l := LaunchFrom(duration);
      l.Accepted? ==>
        s.Ran? && s.timer == Schedule(l.hours, l.minutes, l.seconds, start) &&
        s.initial == InitialTimeString(l.hours, l.minutes, l.seconds) &&
        IsRun(now => TickAt(Split, s.timer.target, s.timer.total, now), s.timer.target, clock, s.frames, s.crashed) &&
        (s.crashed <==> s.timer.total == 0.0 && Round(s.timer.target) > Round(clock(0)))
  {
    var l := LaunchFrom(duration);
    if l.Rejected? {
      return Refused(l.exitCode, Message(l.reason));
    }
    var timer := Schedule(l.hours, l.minutes, l.seconds, start);
    var initial := InitialTimeString(l.hours, l.minutes, l.seconds);
    var frames, crashed := CountDown(now => TickAt(Split, timer.target, timer.total, now), timer.target, clock);
    RunOfTotal(now => TickAt(Split, timer.target, timer.total, now), timer.target, timer.total, clock, frames, crashed);
    s := Ran(timer, initial, frames, crashed);
  }

  // ---------------------------------------------------------------------
  // A zero duration reaches the loop with a total of 0
  // ---------------------------------------------------------------------

  /** "0s" is accepted, its total is 0, and a clock still at the start
      instant (unless start is a rounding tie) enters the loop, whose first
      tick divides by zero. */
  lemma ZeroSecondsDividesByZero(duration: string, start: real, now: real)
    requires duration == "0s"
    ensures LaunchFrom(Some(duration)) == Accepted(0, 0, 1)
    ensures Schedule(0, 0, 1, start).total == 0.0
    ensures start - start.Floor as real != 0.5 ==> Round(Schedule(0, 0, 1, start).target) > Round(start)
    ensures TickAt(Split, Schedule(0, 0, 1, start).target, 0.0, now) == ZeroDivision
  {
    ZeroSecondsAccepted(duration);
    if start - start.Floor as real != 0.5 {
      RoundOneMore(start);
    }
  }

  lemma ZeroSecondsAccepted(duration: string)
    requires duration == "0s"
    ensures LaunchFrom(Some(duration)) == Accepted(0, 0, 1)
  {
    var g := Groups(None, None, Some(duration));
    assert IsField(duration, 's') by { assert duration[..1] == "0"; }
    assert Consumed(g) + "" == duration;
    LaunchConversion(g, "");
    assert DigitsValue(duration[..1]) == 0 by { assert duration[..1][..0] == ""; }
  }

  /** The check main evidently needs: a duration that adds up to no time at
      all is refused with exit code 1 like any other bad duration. */
  function LaunchChecked(duration: Option<string>): (r: Launch)
    ensures r.Rejected? ==> r == LaunchFrom(duration) || r == Rejected(1, ZeroDuration)
    ensures r.Accepted? <==> LaunchFrom(duration).Accepted? && LaunchFrom(duration) != Accepted(0, 0, 0) &&
                              LaunchFrom(duration) != Accepted(0, 0, 1)
    ensures r.Accepted? ==> r == LaunchFrom(duration) && Schedule(r.hours, r.minutes, r.seconds, 0.0).total >= 1.0
  {
    var l := LaunchFrom(duration);
    if l.Accepted? && l.hours == 0 && l.minutes == 0 && l.seconds <= 1 then Rejected(1, ZeroDuration)
    else l
  }

  /** Under the check, an accepted duration never reaches the division by
      zero: its total is positive and the loop runs to expiry. */
  lemma CheckedLaunchNeverCrashes(duration: Option<string>, start: real, now: real)
    requires LaunchChecked(duration).Accepted?
    ensures var l := LaunchChecked(duration);
      TickAt(Split, Schedule(l.hours, l.minutes, l.seconds, start).target,
             Schedule(l.hours, l.minutes, l.seconds, start).total, now).Shown?
  {
    var l := LaunchChecked(duration);
    var t0 := Schedule(l.hours, l.minutes, l.seconds, 0.0);
    var t := Schedule(l.hours, l.minutes, l.seconds, start);
    assert t.total == t0.total;
  }

  // ---------------------------------------------------------------------
  // main as evidently intended: the zero-duration check and the display
  // of whole seconds
  // ---------------------------------------------------------------------

  /** One iteration with the corrected display: the remaining time is
      rounded to whole seconds before it is split, so the fields read back
      as that number of seconds and a negative remainder shows as zero. */
  function FixedTickAt(target: real, total: real, now: real): (t: Tick)
    ensures t.ZeroDivision? <==> total == 0.0
    ensures t.Shown? ==> t.frame.colour == Classify(Remaining(target, now) / total)
    ensures t.Shown? && Round(Remaining(target, now)) < 360000 ==>
      var s := t.frame.time;
      |s| == 8 && AllDigits(s[..2]) && AllDigits(s[3..5]) && AllDigits(s[6..]) &&
      DigitsValue(s[3..5]) < 60 && DigitsValue(s[6..]) < 60 &&
      ReadBack(s) == FieldShows(Remaining(target, now))
    ensures t.Shown? && Round(Remaining(target, now)) <= 0 ==> t.frame.time == "00:00:00"
  {
    if total == 0.0 then ZeroDivision
    else
      var remaining := Remaining(target, now);
      Shown(Frame(DisplayTime(remaining), Classify(remaining / total)))
  }

  /** main with the zero-duration check and the corrected display: a refused
      argument exits with its message, and an accepted one counts down to
      the target without ever raising. */
  method RunChecked(duration: Option<string>, start: real, clock: nat -> real) returns (s: Session)
    requires NonDecreasing(clock)
    requires var l := LaunchChecked(duration);
      l.Accepted? ==> Reaches(clock, Schedule(l.hours, l.minutes, l.seconds, start).target)
    ensures var l := LaunchChecked(duration);
      l.Rejected? ==> s == Refused(l.exitCode, Message(l.reason))
    ensures var l := LaunchChecked(duration);
      l.Accepted? ==>
        s.Ran? && s.timer == Schedule(l.hours, l.minutes, l.seconds, start) &&
        s.initial == InitialTimeString(l.hours, l.minutes, l.seconds) &&
        IsRun(now => FixedTickAt(s.timer.target, s.timer.total, now), s.timer.target, clock, s.frames, false)
  {
    var l := LaunchChecked(duration);
    if l.Rejected? {
      return Refused(l.exitCode, Message(l.reason));
    }
    var timer := Schedule(l.hours, l.minutes, l.seconds, start);
    assert timer.total == Schedule(l.hours, l.minutes, l.seconds, 0.0).total;
    var initial := InitialTimeString(l.hours, l.minutes, l.seconds);
    var frames, crashed := CountDown(now => FixedTickAt(timer.target, timer.total, now), timer.target, clock);
    RunOfTotal(now => FixedTickAt(timer.target, timer.total, now), timer.target, timer.total, clock, frames, crashed);
    s := Ran(timer, initial, frames, crashed);
  }
}
