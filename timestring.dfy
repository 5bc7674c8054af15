/** The two text helpers shared by the packaged timer and the prototype:
    one field rendered as at least two digits, and three fields joined into
    "HH:MM:SS". */
module TimeString {
  import opened Builtins

  /** The value a field shows: its rounded value, or 0 when that is not positive. */
  function FieldShows(num: real): nat
  {
    var n := Round(num);
    if n <= 0 then 0 else n
  }

  /** standardize_time_str: round, clamp to "00", pad to two digits. */
  function StandardizeTimeStr(num: real): (s: string)
    ensures 2 <= |s| && AllDigits(s)
    ensures DigitsValue(s) == FieldShows(num)
    ensures s == "00" <==> Round(num) <= 0
    ensures |s| == 2 <==> Round(num) < 100
    ensures |s| > 2 ==> s[0] != '0'
  {
    var n := Round(num);
    if n <= 0 then
      assert DigitsValue("00") == 10 * DigitsValue("0") + 0 by { assert "00"[..1] == "0"; }
      "00"
    else
      var t := Decimal(n);
      if |t| == 1 then
        var s := "0" + t;
        assert s[..1] == "0" && s[1] == t[0];
        assert DigitsValue(t) == 10 * DigitsValue([]) + DigitValue(t[0]) by { assert t[..0] == []; }
        s
      else
        t
  }

  /** A two-character field is read back as the number it shows, and a
      wider one carries no leading zero, so it is exactly str() of that
      number. */
  lemma StandardizeIsDecimalOrPadded(num: real)
    ensures var s := StandardizeTimeStr(num);
      (Round(num) >= 10 ==> s == Decimal(Round(num))) &&
      (0 < Round(num) < 10 ==> s == ['0', DigitChar(Round(num))])
  {
    var n := Round(num);
    var s := StandardizeTimeStr(num);
    if n >= 10 {
      assert IsCanonical(s);
      DecimalOfDigits(s);
    }
  }

  /** createTimeString: the three fields joined with ':'. */
  function CreateTimeString(hrs: real, mins: real, secs: real): (t: string)
    ensures 8 <= |t|
    ensures |t| == 8 <==> Round(hrs) < 100 && Round(mins) < 100 && Round(secs) < 100
  {
    StandardizeTimeStr(hrs) + ":" + StandardizeTimeStr(mins) + ":" + StandardizeTimeStr(secs)
  }

  /** When every field rounds below 100 the string is "HH:MM:SS": colons at
      positions 2 and 5 and each two-digit slice reads back as the value that
      field shows. */
  lemma TimeStringLayout(hrs: real, mins: real, secs: real)
    requires Round(hrs) < 100 && Round(mins) < 100 && Round(secs) < 100
    ensures var t := CreateTimeString(hrs, mins, secs);
      |t| == 8 && t[2] == ':' && t[5] == ':' &&
      AllDigits(t[..2]) && AllDigits(t[3..5]) && AllDigits(t[6..]) &&
      DigitsValue(t[..2]) == FieldShows(hrs) &&
      DigitsValue(t[3..5]) == FieldShows(mins) &&
      DigitsValue(t[6..]) == FieldShows(secs)
  {
    var t := CreateTimeString(hrs, mins, secs);
    var h, m, s := StandardizeTimeStr(hrs), StandardizeTimeStr(mins), StandardizeTimeStr(secs);
    assert t == h + ":" + m + ":" + s;
    assert t[..2] == h && t[3..5] == m && t[6..] == s;
  }

  lemma TimeStringExamples()
    ensures CreateTimeString(1.0, 2.0, 3.0) == "01:02:03"
    ensures CreateTimeString(0.0, 0.0, 0.0) == "00:00:00"
    ensures StandardizeTimeStr(-5.0) == "00" && StandardizeTimeStr(0.0) == "00"
    ensures StandardizeTimeStr(7.0) == "07" && StandardizeTimeStr(42.0) == "42"
  {
    RoundOfWhole(1);
    RoundOfWhole(2);
    RoundOfWhole(3);
    RoundOfWhole(7);
    RoundOfWhole(42);
    assert Decimal(42) == "42" by { assert Decimal(4) == "4"; }
  }
}
