/** The two ways the dashboard and the exports print a duration in minutes:
    "H:MM" (`${Math.floor(m / 60)}:${String(m % 60).padStart(2, '0')}`) and
    "Hh Mm" (`${Math.floor(m / 60)}h ${m % 60}m`); both print "N/A" for a missing
    or zero duration, as the `m ? … : 'N/A'` test treats 0 as false. */
module DurationFormat {
  import opened Types
  import opened Text

  /** The hour part: `Math.floor(m / 60)` (Dafny's `/` floors for a positive divisor). */
  function Hours(m: int): int {
    m / 60
  }

  /** The minute part: JavaScript `m % 60`, negative for a negative duration. */
  function MinutePart(m: int): (r: int)
    ensures -60 < r < 60
    ensures m >= 0 ==> r == m % 60
  {
    JsRem(m, 60)
  }

  /** "H:MM", or "N/A". */
  function ClockText(m: Option<int>): (r: string)
  {
    if m.None? || m.value == 0 then "N/A"
    else IntToString(Hours(m.value)) + ":" + PadStart2(IntToString(MinutePart(m.value)))
  }

  /** "Hh Mm", or "N/A". */
  function HoursMinutesText(m: Option<int>): (r: string)
  {
    if m.None? || m.value == 0 then "N/A"
    else IntToString(Hours(m.value)) + "h " + IntToString(MinutePart(m.value)) + "m"
  }

  /** "N/A" is printed exactly for a missing or zero duration. */
  lemma NotAvailableIff(m: Option<int>)
    ensures ClockText(m) == "N/A" <==> m.None? || m.value == 0
    ensures HoursMinutesText(m) == "N/A" <==> m.None? || m.value == 0
  {
    if m.Some? && m.value != 0 {
      var h := IntToString(Hours(m.value));
      var c := ClockText(m);
      assert c == h + ":" + PadStart2(IntToString(MinutePart(m.value)));
      assert c[|h|] == ':';
      if |h| == 1 {
        assert c[1] != "N/A"[1];
      } else {
        assert |c| > 3;
      }
      var t := HoursMinutesText(m);
      assert t == h + "h " + IntToString(MinutePart(m.value)) + "m";
      assert |t| >= 5;
    }
  }

  /** Numbers below 100 print with at most two digits. */
  lemma ShortNumber(n: nat)
    requires n < 100
    ensures |NatToString(n)| <= 2
  {
    if n >= 10 {
      assert |NatToString(n / 10)| == 1;
    }
  }

  /** For a positive duration both texts are built from the plain digits of the
      hours and of the minutes. */
  lemma PositiveTexts(m: int)
    requires m > 0
    ensures ClockText(Some(m)) == NatToString(m / 60) + ":" + PadStart2(NatToString(m % 60))
    ensures HoursMinutesText(Some(m)) == NatToString(m / 60) + "h " + NatToString(m % 60) + "m"
  {
    assert Hours(m) == m / 60 >= 0;
    assert MinutePart(m) == m % 60;
  }

  /** The minutes that an hour count and a minute count, written in digits, stand for. */
  function MinutesOf(hours: string, minutes: string): int
    requires AllDigits(hours) && AllDigits(minutes)
  {
    ParseNat(hours) * 60 + ParseNat(minutes)
  }

  /** Reading "H:MM" back: the hours times sixty plus the minutes. */
  function ParseClock(s: string): Option<int>
  {
    var parts := Split(s, ':');
    if |parts| == 2 && AllDigits(parts[0]) && AllDigits(parts[1]) && |parts[1]| == 2
    then Some(MinutesOf(parts[0], parts[1]))
    else None
  }

  /** For a positive duration "H:MM" loses nothing, and its minutes are two digits. */
  lemma ClockTextRoundTrip(m: int)
    requires m > 0
    ensures ParseClock(ClockText(Some(m))) == Some(m)
  {
    var hours: nat, minutes: nat := m / 60, m % 60;
    assert hours * 60 + minutes == m;
    PositiveTexts(m);
    ClockDigitsRoundTrip(ClockText(Some(m)), hours, minutes);
  }

  /** Hours, a colon and the minutes padded to two digits read back as the minutes they stand for. */
  lemma ClockDigitsRoundTrip(s: string, hours: nat, minutes: nat)
    requires minutes < 60
    requires s == NatToString(hours) + ":" + PadStart2(NatToString(minutes))
    ensures ParseClock(s) == Some(hours * 60 + minutes)
  {
    var digits := NatToString(minutes);
    ShortNumber(minutes);
    ParseNatPadStart2(digits);
    ParseNatToString(hours);
    ParseNatToString(minutes);
    ClockPieces(s, NatToString(hours), PadStart2(digits), hours, minutes);
  }

  /** Digits, a colon and two digits read back as the values of the two pieces. */
  lemma ClockPieces(s: string, h: string, mm: string, hours: nat, minutes: nat)
    requires AllDigits(h) && AllDigits(mm) && |mm| == 2
    requires ParseNat(h) == hours && ParseNat(mm) == minutes
    requires s == h + ":" + mm
    ensures ParseClock(s) == Some(hours * 60 + minutes)
  {
    SplitClock(h, mm);
    ParseClockOf(s, h, mm);
  }

  /** A text that splits at its colon into digits and two digits reads back as
      hours and minutes. */
  lemma ParseClockOf(s: string, h: string, mm: string)
    requires AllDigits(h) && AllDigits(mm) && |mm| == 2
    requires Split(s, ':') == [h, mm]
    ensures ParseClock(s) == Some(MinutesOf(h, mm))
  {
    var parts := Split(s, ':');
    assert parts[0] == h && parts[1] == mm;
  }

  lemma SplitClock(h: string, mm: string)
    requires AllDigits(h) && AllDigits(mm)
    ensures Split(h + ":" + mm, ':') == [h, mm]
  {
    var parts := [h, mm];
    assert Join(parts, [':']) == h + ":" + mm by {
      assert parts[..1] == [h];
    }
    assert ':' !in h && ':' !in mm by {
      assert forall i :: 0 <= i < |h| ==> IsDigit(h[i]);
      assert forall i :: 0 <= i < |mm| ==> IsDigit(mm[i]);
    }
    SplitJoin(parts, ':');
  }

  /** Reading "Hh Mm" back. */
  function ParseHoursMinutes(s: string): Option<int>
  {
    ParseUnits(Split(s, ' '))
  }

  /** Two pieces, digits then "h" and digits then "m". */
  function ParseUnits(parts: seq<string>): Option<int>
  {
    if |parts| == 2 && |parts[0]| >= 2 && |parts[1]| >= 2
       && parts[0][|parts[0]| - 1] == 'h' && parts[1][|parts[1]| - 1] == 'm'
       && AllDigits(parts[0][..|parts[0]| - 1]) && AllDigits(parts[1][..|parts[1]| - 1])
    then Some(MinutesOf(parts[0][..|parts[0]| - 1], parts[1][..|parts[1]| - 1]))
    else None
  }

  /** For a positive duration "Hh Mm" loses nothing either. */
  lemma HoursMinutesTextRoundTrip(m: int)
    requires m > 0
    ensures ParseHoursMinutes(HoursMinutesText(Some(m))) == Some(m)
  {
    var hours: nat, minutes: nat := m / 60, m % 60;
    assert hours * 60 + minutes == m;
    PositiveTexts(m);
    UnitsDigitsRoundTrip(HoursMinutesText(Some(m)), hours, minutes);
  }

  /** Hours with "h ", then minutes with "m", read back as the minutes they stand for. */
  lemma UnitsDigitsRoundTrip(s: string, hours: nat, minutes: nat)
    requires s == NatToString(hours) + "h " + NatToString(minutes) + "m"
    ensures ParseHoursMinutes(s) == Some(hours * 60 + minutes)
  {
    ParseNatToString(hours);
    ParseNatToString(minutes);
    UnitsPieces(s, NatToString(hours), NatToString(minutes), hours, minutes);
  }

  /** Digits with "h ", then digits with "m", read back as the values of the two pieces. */
  lemma UnitsPieces(s: string, h: string, mm: string, hours: nat, minutes: nat)
    requires AllDigits(h) && AllDigits(mm) && |h| >= 1 && |mm| >= 1
    requires ParseNat(h) == hours && ParseNat(mm) == minutes
    requires s == h + "h " + mm + "m"
    ensures ParseHoursMinutes(s) == Some(hours * 60 + minutes)
  {
    ParseHoursMinutesOf(h, mm);
  }

  lemma ParseHoursMinutesOf(h: string, mm: string)
    requires AllDigits(h) && AllDigits(mm) && |h| >= 1 && |mm| >= 1
    ensures ParseHoursMinutes(h + "h " + mm + "m") == Some(MinutesOf(h, mm))
  {
    SplitHoursMinutes(h, mm);
    ParseUnitsOf(h, mm);
  }

  lemma SplitHoursMinutes(h: string, mm: string)
    requires AllDigits(h) && AllDigits(mm)
    ensures Split(h + "h " + mm + "m", ' ') == [h + "h", mm + "m"]
  {
    var a := h + "h";
    var b := mm + "m";
    var parts := [a, b];
    assert h + "h " + mm + "m" == a + [' '] + b;
    assert Join(parts, [' ']) == a + [' '] + b by {
      assert parts[..1] == [a];
    }
    NoSpace(h, 'h');
    NoSpace(mm, 'm');
    SplitJoin(parts, ' ');
  }

  lemma ParseUnitsOf(h: string, mm: string)
    requires AllDigits(h) && AllDigits(mm) && |h| >= 1 && |mm| >= 1
    ensures ParseUnits([h + "h", mm + "m"]) == Some(MinutesOf(h, mm))
  {
    var parts := [h + "h", mm + "m"];
    assert parts[0][..|parts[0]| - 1] == h && parts[0][|parts[0]| - 1] == 'h';
    assert parts[1][..|parts[1]| - 1] == mm && parts[1][|parts[1]| - 1] == 'm';
  }

  lemma NoSpace(digits: string, unit: char)
    requires AllDigits(digits) && unit != ' '
    ensures ' ' !in digits + [unit]
  {
    assert forall i :: 0 <= i < |digits| ==> IsDigit(digits[i]);
  }

  /** A negative duration prints with a negative minute part: -5 minutes is "-1:-5". */
  lemma NegativeClockText()
    ensures ClockText(Some(-5)) == "-1:-5"
  {
    assert Hours(-5) == -1;
    assert MinutePart(-5) == -5;
    assert NatToString(1) == "1";
    assert NatToString(5) == "5";
  }
}
