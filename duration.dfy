/** parseDurationString: the anchored match of
    ([0-9]{1,2}h)?([0-9]{1,2}m)?([0-9]{1,2}s)? against a duration expression.
    Each group is one or two ASCII digits followed by its unit letter; the
    three groups are tried in that order at a cursor that starts at 0 and
    moves past every group that matched. */
module Duration {
  import opened Builtins

  datatype Option<T> = None | Some(value: T)

  /** One group of the expression: 1-2 digits, then the unit letter. */
  predicate IsField(g: string, unit: char)
  {
    2 <= |g| <= 3 && g[|g| - 1] == unit && AllDigits(g[..|g| - 1])
  }

  /** Some prefix of t is a group with this unit. */
  predicate StartsWithField(t: string, unit: char)
  {
    (2 <= |t| && IsField(t[..2], unit)) || (3 <= |t| && IsField(t[..3], unit))
  }

  predicate StartsWithAnyField(t: string)
  {
    StartsWithField(t, 'h') || StartsWithField(t, 'm') || StartsWithField(t, 's')
  }

  /** The group with this unit at the start of t (the text from the cursor
      on), greedy as [0-9]{1,2} is: two digits are tried before one. */
  function FieldAt(t: string, unit: char): (r: Option<string>)
    ensures r.Some? <==> StartsWithField(t, unit)
    ensures r.Some? ==> IsField(r.value, unit) && r.value <= t
  {
    if 3 <= |t| && IsField(t[..3], unit) then Some(t[..3])
    else if 2 <= |t| && IsField(t[..2], unit) then Some(t[..2])
    else None
  }

  /** match.groups(): the text of each group, None when it did not take part. */
  datatype Groups = Groups(hours: Option<string>, minutes: Option<string>, seconds: Option<string>)

  function Text(g: Option<string>): string
  {
    if g.Some? then g.value else ""
  }

  /** The prefix of the input the match consumed. */
  function Consumed(g: Groups): string
  {
    Text(g.hours) + Text(g.minutes) + Text(g.seconds)
  }

  /** Every group that took part is well formed for its unit, and at least
      one did (any(match.groups())). */
  predicate WellFormed(g: Groups)
  {
    (g.hours.Some? ==> IsField(g.hours.value, 'h')) &&
    (g.minutes.Some? ==> IsField(g.minutes.value, 'm')) &&
    (g.seconds.Some? ==> IsField(g.seconds.value, 's')) &&
    (g.hours.Some? || g.minutes.Some? || g.seconds.Some?)
  }

  /** The result of parseDurationString: the groups, or the rejected input
      (the message returned with it is InvalidMessage(input)). */
  datatype ParseResult = Parsed(groups: Groups) | Invalid(input: string)

  const InvalidPrefix := "Invalid duration string: "
  const InvalidSuffix := " \n\nPlease use the format __h__m__s or view the help for example usage."

  /** Line 52: the message that names the rejected input. */
  function InvalidMessage(s: string): (m: string)
    ensures |InvalidPrefix| + |s| <= |m| && m[|InvalidPrefix|..|InvalidPrefix| + |s|] == s
  {
    var m := InvalidPrefix + s + InvalidSuffix;
    assert m[|InvalidPrefix|..|InvalidPrefix| + |s|] == s;
    m
  }

  /** parseDurationString: the groups when at least one matched at the start,
      otherwise the message naming the input. Text after the match is
      ignored. */
  function ParseDurationString(s: string): (r: ParseResult)
    ensures r.Parsed? <==> StartsWithAnyField(s)
    ensures r.Parsed? ==> WellFormed(r.groups) && Consumed(r.groups) <= s
    ensures r.Invalid? ==> r.input == s
  {
    var g := MatchGroups(s);
    MatchSomeIffStarts(s);
    if g.hours.Some? || g.minutes.Some? || g.seconds.Some? then
      MatchConsumedPrefix(s);
      Parsed(g)
    else
      Invalid(s)
  }

  /** match.groups(): the hours group at cursor 0, the minutes group after
      it, the seconds group after both. */
  function MatchGroups(s: string): Groups
  {
    var h := FieldAt(s, 'h');
    var i := |Text(h)|;
    var m := FieldAt(s[i..], 'm');
    var j := i + |Text(m)|;
    Groups(h, m, FieldAt(s[j..], 's'))
  }

  /** Some group takes part exactly when a group of some unit starts the
      input: a missing group leaves the cursor where it was. */
  lemma MatchSomeIffStarts(s: string)
    ensures var g := MatchGroups(s);
      g.hours.Some? || g.minutes.Some? || g.seconds.Some? <==> StartsWithAnyField(s)
  {
    var g := MatchGroups(s);
    if g.hours.None? {
      assert s[0..] == s;
      if g.minutes.None? {
        assert s[0 + 0..] == s;
      }
    }
  }

  /** The groups are consecutive slices of the input from its start. */
  lemma MatchConsumedPrefix(s: string)
    ensures Consumed(MatchGroups(s)) <= s
  {
    var g := MatchGroups(s);
    var i := |Text(g.hours)|;
    var j := i + |Text(g.minutes)|;
    assert Text(g.hours) == s[..i];
    assert Text(g.minutes) == s[i..j];
    assert Text(g.seconds) == s[j..j + |Text(g.seconds)|];
    assert Consumed(g) == s[..j + |Text(g.seconds)|];
  }

  // ---------------------------------------------------------------------
  // Reading the groups back: the match recovers every well-formed triple
  // ---------------------------------------------------------------------

  lemma FieldAtOwnUnit(g: string, unit: char, rest: string)
    requires IsField(g, unit) && !IsDigit(unit)
    ensures FieldAt(g + rest, unit) == Some(g)
  {
    var s := g + rest;
    assert s[..|g|] == g;
    if |g| == 2 && |s| >= 3 {
      assert s[..3][1] == unit;
    }
  }

  /** A group of a different unit letter is not a group of this unit. */
  lemma FieldAtOtherUnit(g: string, other: char, unit: char, rest: string)
    requires IsField(g, other) && !IsDigit(other) && !IsDigit(unit) && other != unit
    ensures FieldAt(g + rest, unit) == None
  {
    var s := g + rest;
    assert s[..|g|] == g;
    assert 2 <= |s| ==> s[..2][1] == s[1];
    assert 3 <= |s| ==> s[..3][1] == s[1] && s[..3][2] == s[2];
  }

  /** Text that does not start with a digit holds no group. */
  lemma FieldAtNonDigit(s: string, unit: char)
    requires s == [] || !IsDigit(s[0])
    ensures FieldAt(s, unit) == None
  {
    assert 2 <= |s| ==> s[..2][0] == s[0];
    assert 3 <= |s| ==> s[..3][0] == s[0];
  }

  /** The group of a unit is found at the cursor when present; when absent,
      what follows is the next group of another unit or text that does not
      start with a digit. */
  lemma GroupAt(o: Option<string>, unit: char, next: Option<string>, nextUnit: char, rest: string)
    requires !IsDigit(unit) && !IsDigit(nextUnit) && unit != nextUnit
    requires o.Some? ==> IsField(o.value, unit)
    requires next.Some? ==> IsField(next.value, nextUnit)
    requires o.None? && next.None? ==> rest == [] || !IsDigit(rest[0])
    ensures FieldAt(Text(o) + Text(next) + rest, unit) == o
  {
    if o.Some? {
      assert Text(o) + Text(next) + rest == o.value + (Text(next) + rest);
      FieldAtOwnUnit(o.value, unit, Text(next) + rest);
    } else if next.Some? {
      assert Text(o) + Text(next) + rest == next.value + rest;
      FieldAtOtherUnit(next.value, nextUnit, unit, rest);
    } else {
      assert Text(o) + Text(next) + rest == rest;
      FieldAtNonDigit(rest, unit);
    }
  }

  /** The match recovers any well-formed groups from their text, whatever
      follows as long as it does not start with a digit. */
  lemma ParseRoundTrip(g: Groups, rest: string)
    requires WellFormed(g)
    requires rest == [] || !IsDigit(rest[0])
    ensures ParseDurationString(Consumed(g) + rest) == Parsed(g)
  {
    var s := Consumed(g) + rest;
    HoursAtStart(g, rest);
    MinutesAtCursor(g, rest);
    SecondsAtCursor(g, rest);
    ParseFromGroups(s, g);
  }

  /** The hours group is found at the start, followed by minutes or else
      seconds. */
  lemma HoursAtStart(g: Groups, rest: string)
    requires WellFormed(g)
    requires rest == [] || !IsDigit(rest[0])
    ensures FieldAt(Consumed(g) + rest, 'h') == g.hours
  {
    var hs, ms, ss := Text(g.hours), Text(g.minutes), Text(g.seconds);
    var s := Consumed(g) + rest;
    if g.hours.Some? || g.minutes.Some? {
      assert s == hs + ms + (ss + rest);
      GroupAt(g.hours, 'h', g.minutes, 'm', ss + rest);
    } else {
      assert s == hs + ss + rest;
      GroupAt(g.hours, 'h', g.seconds, 's', rest);
    }
  }

  /** The minutes group is found at the cursor after the hours group. */
  lemma MinutesAtCursor(g: Groups, rest: string)
    requires WellFormed(g)
    requires rest == [] || !IsDigit(rest[0])
    ensures var s := Consumed(g) + rest;
      |Text(g.hours)| <= |s| && FieldAt(s[|Text(g.hours)|..], 'm') == g.minutes
  {
    var hs, ms, ss := Text(g.hours), Text(g.minutes), Text(g.seconds);
    var s := Consumed(g) + rest;
    assert s[|hs|..] == ms + ss + rest;
    GroupAt(g.minutes, 'm', g.seconds, 's', rest);
  }

  /** The seconds group is found at the cursor after hours and minutes. */
  lemma SecondsAtCursor(g: Groups, rest: string)
    requires WellFormed(g)
    requires rest == [] || !IsDigit(rest[0])
    ensures var s := Consumed(g) + rest;
      var j := |Text(g.hours)| + |Text(g.minutes)|;
      j <= |s| && FieldAt(s[j..], 's') == g.seconds
  {
    var hs, ms, ss := Text(g.hours), Text(g.minutes), Text(g.seconds);
    var s := Consumed(g) + rest;
    assert s[|hs| + |ms|..] == ss + Text(None) + rest;
    GroupAt(g.seconds, 's', None, 'h', rest);
  }

  /** The parse is determined by the three group lookups at their cursors. */
  lemma ParseFromGroups(s: string, g: Groups)
    requires g.hours.Some? || g.minutes.Some? || g.seconds.Some?
    requires FieldAt(s, 'h') == g.hours
    requires |Text(g.hours)| <= |s| && FieldAt(s[|Text(g.hours)|..], 'm') == g.minutes
    requires |Text(g.hours)| + |Text(g.minutes)| <= |s|
    requires FieldAt(s[|Text(g.hours)| + |Text(g.minutes)|..], 's') == g.seconds
    ensures ParseDurationString(s) == Parsed(g)
  {
  }

  /** Text after the matched groups is ignored. */
  lemma ParseIgnoresTrailingText(s: string)
    requires s == "1h30mxyz"
    ensures ParseDurationString(s) == Parsed(Groups(Some("1h"), Some("30m"), None))
  {
    var g := Groups(Some("1h"), Some("30m"), None);
    assert IsField("1h", 'h') by { assert "1h"[..1] == "1"; }
    assert IsField("30m", 'm') by { assert "30m"[..2] == "30"; }
    assert Consumed(g) + "xyz" == s;
    ParseRoundTrip(g, "xyz");
  }

  /** No group at the start: letters, an unknown unit, three digits. */
  lemma ParseRejects(s: string)
    requires s == "abc" || s == "5x" || s == "123h"
    ensures ParseDurationString(s).Invalid?
  {
    assert !StartsWithAnyField(s) by {
      if s == "123h" {
        assert s[..2] == "12" && s[..3] == "123";
      } else {
        assert 2 <= |s| ==> s[..2][1] == s[1];
        assert 3 <= |s| ==> s[..3][2] == s[2] && s[..3][1] == s[1];
      }
    }
  }
}
