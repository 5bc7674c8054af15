# timer-cli countdown, modelled in Dafny

timer-cli is a terminal countdown timer. It is started as `timer 1h30m`:

1. It strips the duration argument and matches it against
   `([0-9]{1,2}h)?([0-9]{1,2}m)?([0-9]{1,2}s)?`.
2. It converts the groups into hours, minutes and seconds. The seconds
   field gets one extra second.
3. It fixes a target instant and a total.
4. It polls the clock. On each tick it renders the remaining time as
   "HH:MM:SS", coloured green, yellow or red by the fraction of the total
   left. It stops when the rounded clock reaches the rounded target.

An older prototype (`timer_cli/timer_cli.py`) does the same for a
hard-coded duration of 8 seconds. It computes the target with a different
formula and does not reduce the minutes field modulo 60.

The model has five modules:

- **Builtins**: the Python built-ins the program relies on, on exact values.
  - `round()`, with ties to the even neighbour.
  - `//` and `%` by a positive divisor, which floor.
  - `str()` and `int()` on non-negative integers.
  - `str.isspace()` and `str.strip()`.
- **TimeString**: `standardize_time_str` and `createTimeString`. The two
  source files define them identically.
- **Duration**: `parseDurationString` as a deterministic, greedy match.
  - The three groups are tried in order at a cursor that moves past every
    group that matched.
  - It returns the groups or the rejected input. Its message is
    `InvalidMessage(input)`.
- **Countdown**: `main` of the packaged timer.
  - `LaunchFrom` covers the blank check, the parse, the conversion and the
    exit code.
  - `Schedule` computes the target and total. `Split` computes the fields.
    `Classify` picks the colour. `TickAt` is one loop iteration.
  - The polling loop is the method `CountDown`. It runs over an abstract
    clock, a function from the index of each `time.time()` call to its
    value. The guard of iteration j reads sample 2j and the body reads
    sample 2j+1, as in the source.
  - `RunTimer` chains all of these.
- **Prototype**: the prototype's constants, its target formula, its
  unwrapped split, and its run (`RunPrototype`).

Instants and durations are exact reals, not IEEE floats, so the 0.5 and
0.2 thresholds and the half-to-even rounding are stated exactly.

The code and its accompanying design description disagree in two places.
The model follows the code:

- The description says a zero-length duration such as `0s` or `0h0m0s` is
  refused with a distinct message. `main` has no such check: `0s` is
  accepted, which leads to a division by zero (see Findings). The
  evidently intended check is modelled separately as
  `Countdown.LaunchChecked`.
- The description's example shows `2s` starting at "00:00:01". The code
  shows `createTimeString(0, 0, 3 - 1)`, which is "00:00:02".
  `Countdown.InitialShowsRequest` proves that the first frame shows the
  duration as typed.

## Model

| member | source | states |
|---|---|---|
| Builtins.Round | timer/__main__.py:26 | round(): the nearest integer, within one half of x; at a tie, the even neighbour |
| Builtins.RoundUnique | timer/__main__.py:26 | the two halves of round()'s contract determine its result |
| Builtins.RoundMonotone | timer/__main__.py:100 | round() never decreases as its argument grows, so a later clock sample never rounds lower |
| Builtins.RoundOneMore | timer/__main__.py:100 | away from a tie, round(x + 1) == round(x) + 1 |
| Builtins.FloorDiv | timer/__main__.py:103-104 | x // d is a whole number q with q <= x/d < q + 1 |
| Builtins.FloorDivUnique | timer/__main__.py:103-104 | only one whole number satisfies the contract of x // d |
| Builtins.Mod | timer/__main__.py:104-105 | x % d lies in [0, d), and (x - x % d) / d == x // d |
| Builtins.Decimal | timer/__main__.py:30 | str(n) is a canonical numeral whose int() is n; it has one digit iff n < 10 and two digits iff 10 <= n < 100 |
| Builtins.DecimalOfDigits | timer/__main__.py:30 | str(int(s)) == s for every canonical numeral s: the round trip of str() and int() |
| Builtins.ShortDigitsBound | timer/__main__.py:80-82 | int() of at most two digits is at most 99 |
| Builtins.Strip | timer/__main__.py:70 | strip() returns a slice of its input; everything cut off before and after it is whitespace, and it neither starts nor ends with whitespace |
| Builtins.StripEmptyIffBlank | timer/__main__.py:70 | strip() returns "" exactly when the input is empty or all whitespace |
| Builtins.StripKeepsHead | timer/__main__.py:75 | stripping text whose first and last characters are not whitespace, followed by anything, only trims the tail |
| Builtins.StripTrailingAfter | timer/__main__.py:75 | trailing whitespace is trimmed from the tail only, never from a non-blank head |
| TimeString.StandardizeTimeStr | timer/__main__.py:25-34 | the result is at least two digits and reads back as the rounded value, clamped at 0; it is "00" iff the input rounds to 0 or less; it has two characters iff the input rounds below 100; a longer one has no leading zero |
| TimeString.StandardizeIsDecimalOrPadded | timer/__main__.py:30-34 | from 10 up the result is str(n); from 1 to 9 it is "0" followed by the digit |
| TimeString.CreateTimeString | timer/__main__.py:37-43 | the string has at least 8 characters, and exactly 8 iff every field rounds below 100 |
| TimeString.TimeStringLayout | timer/__main__.py:37-43 | with every field below 100 after rounding, the colons are at positions 2 and 5 and each two-digit slice reads back as the value its field shows |
| TimeString.TimeStringExamples | timer_cli/timer_cli.py:22-40 | (1,2,3) gives "01:02:03" and (0,0,0) gives "00:00:00"; -5 and 0 give "00", 7 gives "07", 42 gives "42" |
| Duration.FieldAt | timer/__main__.py:47 | a group of a unit is found at the cursor iff one or two digits followed by that unit start the text; the group is a prefix of the text |
| Duration.InvalidMessage | timer/__main__.py:52 | the failure message contains the rejected input, right after its fixed prefix |
| Duration.ParseDurationString | timer/__main__.py:46-52 | it succeeds iff a group of some unit starts the input; on success every group is well formed, at least one matched, and their concatenation is a prefix of the input; on failure it carries the input |
| Duration.MatchSomeIffStarts | timer/__main__.py:49 | any(match.groups()) holds exactly when some group starts the input |
| Duration.MatchConsumedPrefix | timer/__main__.py:47-48 | the matched groups are consecutive slices of the input from its start |
| Duration.GroupAt | timer/__main__.py:47 | at the cursor the match finds the group of its unit when present; otherwise it finds nothing, whether the next group has another unit or the text does not start with a digit |
| Duration.ParseRoundTrip | timer/__main__.py:46-50 | parsing the text of any well-formed groups, followed by text that does not start with a digit, gives those groups back |
| Duration.ParseIgnoresTrailingText | timer/__main__.py:46-50 | "1h30mxyz" parses to the groups "1h" and "30m" |
| Duration.ParseRejects | timer/__main__.py:49-52 | "abc", "5x" and "123h" are rejected |
| Countdown.Message | timer/__main__.py:71-77 | the text printed for an invalid format contains the rejected input |
| Countdown.FieldValue | timer/__main__.py:80-81 | int(group[:-1]) is at most 99, and 0 for a missing group |
| Countdown.Converted | timer/__main__.py:80-82 | hours and minutes are at most 99; seconds is 0 iff its group is missing, and otherwise the digits plus one |
| Countdown.LaunchFrom | timer/__main__.py:70-82 | a missing or blank argument is refused with exit code 1; the argument is accepted iff its stripped text starts with a group; any other non-blank argument is refused with exit code 1, naming the stripped text; accepted fields are bounded |
| Countdown.LaunchOfText | timer/__main__.py:75-82 | the same decision on the stripped text |
| Countdown.LaunchConversion | timer/__main__.py:70-82 | the numbers main computes from the text of well-formed groups, followed by text that does not start with a digit, are those groups' conversion |
| Countdown.Schedule | timer/__main__.py:93-96 | target - start == 3600 h + 60 m + s, and total == target - start - 1 |
| Countdown.ScheduleMatchesRequest | timer/__main__.py:80-96 | against the duration typed: with a seconds group the timer runs one second longer and the total is the typed duration; without one it runs exactly the typed duration and the total is one second less |
| Countdown.InitialShowsRequest | timer/__main__.py:84 | the first frame shows the fields exactly as typed, with 0 for a missing field |
| Countdown.Split | timer/__main__.py:102-106 | r // 3600, (r // 60) % 60 and r % 60: whole hours, whole minutes in [0, 60) and seconds in [0, 60) that add up to r |
| Countdown.SplitUnique | timer/__main__.py:102-106 | any fields with that contract are the ones Split computes |
| Countdown.SplitOfWholeSeconds | timer/__main__.py:102-106 | for a whole number n of seconds the split is n // 3600, (n // 60) % 60 and n % 60 |
| Countdown.Classify | timer/__main__.py:110-119 | green iff the fraction is in (0.5, 1]; yellow iff it is in (0.2, 0.5]; red iff it is at most 0.2 or above 1; so exactly one colour applies |
| Countdown.ClassifyByRemaining | timer/__main__.py:110-119 | over a positive total the three bands, stated without the division |
| Countdown.ClassifyMonotone | timer/__main__.py:112-119 | as the fraction falls (up to 1), the colour never becomes less urgent |
| Countdown.ClassifyBoundaries | timer_cli/timer_cli.py:72-79 | 0.51 is green, 0.5 is yellow, 0.2 and 0.19 are red, 1.01 is red |
| Countdown.TickAt | timer/__main__.py:101-119 | one iteration raises ZeroDivisionError exactly when the total is 0 |
| Countdown.DisplayTracksRemaining | timer/__main__.py:101-106 | with 0 to 100 hours left, the string shown has the HH:MM:SS shape and reads back to within half a second of the remaining time |
| Countdown.NegativeRemainingShowsWrappedTime | timer/__main__.py:101-106 | -0.4 seconds left splits into (-1, 59, 59.6) and shows "00:59:60" in red |
| Countdown.SecondsFieldShowsSixty | timer/__main__.py:102-106 | 59.6 seconds left shows "00:00:60" |
| Countdown.DisplayTime | timer/__main__.py:101-106 | corrected display: below 100 hours the shown string has the HH:MM:SS shape, minutes and seconds below 60, and reads back exactly as the remaining time rounded and clamped at 0; at 0 or less it is "00:00:00" |
| Countdown.CountDown | timer/__main__.py:100-126 | the frames are one per iteration, each taken while the rounded target was above the rounded guard sample; the run ends on a tick that raised or when the guard fails |
| Countdown.BeforeReaching | timer/__main__.py:100 | over a non-decreasing clock, a sample that rounds below the target comes before one that reaches it, so the loop terminates |
| Countdown.RunOfTotal | timer/__main__.py:96-110 | a run raises iff the total is 0 and the first guard passes; with a total of 0 no frame is shown |
| Countdown.UrgencyNeverRecedes | timer/__main__.py:100-119 | with a positive total and a clock at or past start, a later tick is never less urgent than an earlier one |
| Countdown.RunTimer | timer/__main__.py:70-126 | a refused argument gives its exit code and message; an accepted one gives the schedule, the first frame, and a run of the loop that raises iff the total is 0 and the loop is entered |
| Countdown.ZeroSecondsDividesByZero | timer/__main__.py:82-110 | "0s" is accepted as (0, 0, 1); its total is 0; a clock still at a start instant that is not a rounding tie enters the loop; every tick divides by zero |
| Countdown.ZeroSecondsAccepted | timer/__main__.py:70-82 | "0s" is accepted |
| Countdown.LaunchChecked | timer/__main__.py:70-82 | corrected launch: it accepts exactly what main accepts minus the zero durations, and anything it accepts has a total of at least 1 second |
| Countdown.CheckedLaunchNeverCrashes | timer/__main__.py:93-110 | under the corrected launch no tick divides by zero |
| Countdown.FixedTickAt | timer/__main__.py:101-119 | corrected tick: it raises iff the total is 0; the colour is the band of remaining / total; below 100 hours the string reads back as the remaining time rounded and clamped at 0 |
| Countdown.RunChecked | timer/__main__.py:70-126 | corrected main: a refused argument gives its exit code and message; an accepted one counts down with the corrected display and never raises |
| Prototype.TargetOffset | timer_cli/timer_cli.py:59 | (h * 60 * m) * 60 + s is at least s, and equals s whenever h or m is 0 |
| Prototype.Start | timer_cli/timer_cli.py:47-61 | target - start == 9 and total == 8 |
| Prototype.InitialShowsEightSeconds | timer_cli/timer_cli.py:47-51 | the first frame shows "00:00:08" |
| Prototype.StartAgreesWithSchedule | timer_cli/timer_cli.py:58-61 | for the prototype's constants, its target and total are the packaged timer's |
| Prototype.TargetOffsetCorrectOnlyAtZero | timer_cli/timer_cli.py:59 | the offset equals 3600 h + 60 m + s iff h and m are both 0 |
| Prototype.TargetOffsetDropsHours | timer_cli/timer_cli.py:59 | one hour and one second give an offset of 1 second |
| Prototype.SplitUnwrapped | timer_cli/timer_cli.py:66-68 | whole hours and minutes and seconds in [0, 60) with 60 min + s == r; minutes lie in [60 h, 60 h + 60) |
| Prototype.SplitUnwrappedFromSplit | timer_cli/timer_cli.py:66-68 | it has the same hours and seconds as the packaged split, and minutes that add 60 for every whole hour |
| Prototype.SplitUnwrappedAgreesBelowHour | timer_cli/timer_cli.py:66-68 | below an hour it is the packaged split; from an hour on its minutes field is 60 or more |
| Prototype.UnwrappedMinutesOfWholeSeconds | timer_cli/timer_cli.py:68 | for whole seconds n the minutes field is n // 60, the total number of whole minutes |
| Prototype.MinutesFieldOverflows | timer_cli/timer_cli.py:66-68 | 3661 seconds left shows "01:61:01", where the packaged split shows "01:01:01" |
| Prototype.RunPrototype | timer_cli/timer_cli.py:46-85 | the schedule and first frame of the constants, then a run of the loop with the unwrapped split that never raises |

## Left out

- Rendering is not modelled: `text2art`, the `rich` objects, and the full-screen `Live` and `console.screen` displays. A frame is the time string and its colour.
- The colour markup in the printed messages is left out.
- The prototype's "bold white" style for the first frame is left out.
- `time.sleep(0.5)` is left out.
- The clock is not real. `time.time()` is a function from each call's index to its value. The start instant is a parameter.
- The loop methods require a non-decreasing clock that eventually reaches the target, so that the loop terminates.
- The alert loop after the countdown is left out. It never terminates and only prints and rings the bell.
- `KeyboardInterrupt`, `sys.exit` and `click`'s argument handling, help and version option are left out. Exit codes are returned values. The missing argument is `None`.
- Python floats are not modelled: instants and durations are exact reals. `round()` is exact half-to-even on them, so results that depend on floating-point representation error are not captured.
- Countdown.CountDown: the body of an iteration is given as a function of the sampled instant (`TickAt`, or the prototype's or the corrected variant). A tick is a pure value.
- Countdown.Message: the corrected `ZeroDuration` refusal reuses the missing-duration text, since the program has no zero-duration message.

## Findings

| source | as written | input that shows it | evidently intended | confidence | as-written member | corrected member |
|---|---|---|---|---|---|---|
| timer/__main__.py:70-110 | no zero-duration check: `0s` gives seconds = 1, so the total is 0 and `remaining / total` raises ZeroDivisionError on the first tick | duration "0s" with a clock at a non-tie start instant | refuse a duration that adds up to no time, with exit code 1 | not executed | Countdown.ZeroSecondsDividesByZero | Countdown.LaunchChecked |
| timer/__main__.py:101-106 | the remaining time is split before it is rounded, so a slightly negative remainder wraps the minutes to 59 and rounds 59.6 seconds up to "60" | target 1000.7, clock 1000.1 (remaining -0.4) shows "00:59:60" | round the remaining time to whole seconds, clamp at 0, then split | not executed | Countdown.NegativeRemainingShowsWrappedTime | Countdown.DisplayTime |
| timer/__main__.py:102-106 | each field is rounded on its own, so a seconds field from 59.5 up shows "60" | 59.6 seconds left shows "00:00:60" | show "00:01:00" | not executed | Countdown.SecondsFieldShowsSixty | Countdown.FixedTickAt |
| timer_cli/timer_cli.py:59 | the offset is (hours * 60 * minutes) * 60 + seconds, which drops the hours when minutes is 0; harmless for the hard-coded 0 and 0 | hours 1, minutes 0, seconds 1 gives 1 second instead of 3601 | 3600 * hours + 60 * minutes + seconds | not executed | Prototype.TargetOffsetDropsHours | Countdown.Schedule |
| timer_cli/timer_cli.py:68 | the minutes field is remaining // 60 without % 60; harmless for the hard-coded 9 seconds | 3661 seconds left shows "01:61:01" | (remaining // 60) % 60 | not executed | Prototype.MinutesFieldOverflows | Countdown.Split |
