/**
 * The parsing and classification helpers of `src/utils/dateTimeHelpers.ts`: the four-pattern
 * time parser `formatTimeInput`, `formatTime12Hour`, `getMonthIndex`, the two-digit-year
 * pivot of `formatDateInput`, and the day classification of `getDueDateStatus` over integer
 * millisecond timestamps.
 */
module DateTime {
  import opened Common
  import opened Text

  /** The `parsedTime` record: an hour and a minute. */
  datatype Clock = Clock(hours: nat, minutes: nat)

  datatype Meridiem = AM | PM

  /** A successful `DateTimeResult` of `formatTimeInput`: the 12-hour text and the `HH:MM` text. */
  datatype TimeText = TimeText(formatted: string, time: string)

  // ---------------------------------------------------------------------------------------
  // The four regular expressions of `formatTimeInput`
  // ---------------------------------------------------------------------------------------

  /** `\d{1,2}`. */
  predicate HourField(s: string) {
    1 <= |s| <= 2 && AllDigits(s)
  }

  /** `\d{2}`. */
  predicate MinuteField(s: string) {
    |s| == 2 && AllDigits(s)
  }

  /** `/^(\d{1,2}):(\d{2})$/`: the colon is the third character from the end. */
  predicate ColonForm(v: string) {
    |v| >= 3 && v[|v| - 3] == ':' && HourField(v[..|v| - 3]) && MinuteField(v[|v| - 2..])
  }

  /** `(am|pm)` under the `i` flag. */
  function MeridiemOf(p: string): Option<Meridiem>
    requires |p| == 2
  {
    if LowerChar(p[0]) == 'a' && LowerChar(p[1]) == 'm' then Some(AM)
    else if LowerChar(p[0]) == 'p' && LowerChar(p[1]) == 'm' then Some(PM)
    else None
  }

  predicate HasMeridiem(v: string) {
    |v| >= 2 && MeridiemOf(v[|v| - 2..]).Some?
  }

  /** What precedes `\s*(am|pm)$`: the last two characters and the whitespace before them dropped. */
  function BeforeMeridiem(v: string): string
    requires |v| >= 2
  {
    TrimEnd(v[..|v| - 2])
  }

  /** `/^(\d{1,2}):(\d{2})\s*(am|pm)$/i`. */
  predicate ColonMeridiemForm(v: string) {
    HasMeridiem(v) && ColonForm(BeforeMeridiem(v))
  }

  /** `/^(\d{1,2})\s*(am|pm)$/i`. */
  predicate HourMeridiemForm(v: string) {
    HasMeridiem(v) && HourField(BeforeMeridiem(v))
  }

  /** `/^(\d{3,4})$/`. */
  predicate MilitaryForm(v: string) {
    3 <= |v| <= 4 && AllDigits(v)
  }

  /** Any text of the regular shape `x`, whitespace, `am`/`pm` is recognised with `x` as its prefix. */
  lemma MeridiemFormOf(x: string, sp: string, p: string)
    requires |x| > 0 && IsDigit(x[|x| - 1])
    requires AllSpace(sp) && |p| == 2 && MeridiemOf(p).Some?
    ensures HasMeridiem(x + sp + p) && BeforeMeridiem(x + sp + p) == x
    ensures MeridiemOf((x + sp + p)[|x + sp + p| - 2..]) == MeridiemOf(p)
  {
    var v := x + sp + p;
    assert v[..|v| - 2] == x + sp;
    assert v[|v| - 2..] == p;
    TrimEndAppendSpace(x, sp);
  }

  // ---------------------------------------------------------------------------------------
  // formatTimeInput
  // ---------------------------------------------------------------------------------------

  /**
   * `if (period === 'pm' && h !== 12) h += 12; if (period === 'am' && h === 12) h = 0;`.
   * The hour keeps its residue modulo 12; on a clock-face hour the meridiem picks the half day.
   */
  function To24Hour(h: nat, p: Meridiem): (r: nat)
    ensures r % 12 == h % 12
    ensures h <= 12 ==> r < 24 && (r >= 12 <==> p == PM)
  {
    match p
    case PM => if h != 12 then h + 12 else h
    case AM => if h == 12 then 0 else h
  }

  /** The shared range check `h >= 0 && h <= 23 && m >= 0 && m <= 59`. */
  function InRange(h: nat, m: nat): (r: Option<Clock>)
    ensures r.Some? <==> h <= 23 && m <= 59
    ensures r.Some? ==> r.value == Clock(h, m)
  {
    if h <= 23 && m <= 59 then Some(Clock(h, m)) else None
  }

  function Period(v: string): Meridiem
    requires HasMeridiem(v)
  {
    MeridiemOf(v[|v| - 2..]).value
  }

  /** Pattern 1: `H:MM` or `HH:MM` in 24-hour time. */
  function ParseColon(v: string): (r: Option<Clock>)
    requires ColonForm(v)
    ensures r.Some? ==> r.value.hours <= 23 && r.value.minutes <= 59
  {
    InRange(NumberValue(v[..|v| - 3]), NumberValue(v[|v| - 2..]))
  }

  /** Pattern 2: `H:MM` followed by `am` or `pm`; the hour is converted before the range check. */
  function ParseColonMeridiem(v: string): (r: Option<Clock>)
    requires ColonMeridiemForm(v)
    ensures r.Some? ==> r.value.hours <= 23 && r.value.minutes <= 59
  {
    var b := BeforeMeridiem(v);
    InRange(To24Hour(NumberValue(b[..|b| - 3]), Period(v)), NumberValue(b[|b| - 2..]))
  }

  /** Pattern 3: an hour followed by `am` or `pm`, with minutes 0. */
  function ParseHourMeridiem(v: string): (r: Option<Clock>)
    requires HourMeridiemForm(v)
    ensures r.Some? ==> r.value.hours <= 23 && r.value.minutes <= 59
  {
    InRange(To24Hour(NumberValue(BeforeMeridiem(v)), Period(v)), 0)
  }

  /** Pattern 4: three digits are `H` and `MM`, four digits are `HH` and `MM`. */
  function ParseMilitary(v: string): (r: Option<Clock>)
    requires MilitaryForm(v)
    ensures r.Some? ==> r.value.hours <= 23 && r.value.minutes <= 59
  {
    if |v| == 3 then InRange(NumberValue(v[..1]), NumberValue(v[1..]))
    else InRange(NumberValue(v[..2]), NumberValue(v[2..]))
  }

  /**
   * The `parsedTime` computed by `formatTimeInput`: the first pattern whose regular expression
   * matches decides, and a failed range check there does not fall through to later patterns.
   * The patterns are tested on the untrimmed text.
   */
  function ParseTime(v: string): (r: Option<Clock>)
    ensures AllSpace(v) ==> r == None
    ensures r.Some? ==> r.value.hours <= 23 && r.value.minutes <= 59
  {
    if Trim(v) == [] then None else ParsePatterns(v)
  }

  /** The four patterns tried in order on non-blank text; none matching gives no time. */
  function ParsePatterns(v: string): (r: Option<Clock>)
    ensures r.Some? ==> r.value.hours <= 23 && r.value.minutes <= 59
    ensures r.Some? ==> ColonForm(v) || ColonMeridiemForm(v) || HourMeridiemForm(v) || MilitaryForm(v)
  {
    if ColonForm(v) then ParseColon(v) else ParseLaterPatterns(v)
  }

  /** Patterns 2 to 4, tried in order once pattern 1 has not matched. */
  function ParseLaterPatterns(v: string): (r: Option<Clock>)
    ensures r.Some? ==> r.value.hours <= 23 && r.value.minutes <= 59
    ensures r.Some? ==> ColonMeridiemForm(v) || HourMeridiemForm(v) || MilitaryForm(v)
  {
    if ColonMeridiemForm(v) then ParseColonMeridiem(v)
    else if HourMeridiemForm(v) then ParseHourMeridiem(v)
    else if MilitaryForm(v) then ParseMilitary(v)
    else None
  }

  /** Text that starts with a digit is never blank. */
  lemma DigitStartNotBlank(v: string)
    requires |v| > 0 && IsDigit(v[0])
    ensures Trim(v) != []
  {
    assert !IsSpace(v[0]);
  }

  /** Any text of the shape `H:MM`, whitespace, `am`/`pm` is read by pattern 2. */
  lemma ParseColonMeridiemText(x: string, sp: string, p: string)
    requires ColonForm(x) && AllSpace(sp) && |p| == 2 && MeridiemOf(p).Some?
    ensures ParseTime(x + sp + p)
         == InRange(To24Hour(NumberValue(x[..|x| - 3]), MeridiemOf(p).value), NumberValue(x[|x| - 2..]))
  {
    var v := x + sp + p;
    MeridiemFormOf(x, sp, p);
    assert v[0] == x[0] && v[..|x| - 3][0] == x[0];
    DigitStartNotBlank(v);
    assert !ColonForm(v) by {
      assert v[|v| - 1] == p[1] && !IsDigit(p[1]);
    }
  }

  /** Any text of the shape `H`, whitespace, `am`/`pm` is read by pattern 3. */
  lemma ParseHourMeridiemText(x: string, sp: string, p: string)
    requires HourField(x) && AllSpace(sp) && |p| == 2 && MeridiemOf(p).Some?
    ensures ParseTime(x + sp + p) == InRange(To24Hour(NumberValue(x), MeridiemOf(p).value), 0)
  {
    var v := x + sp + p;
    MeridiemFormOf(x, sp, p);
    assert v[0] == x[0];
    DigitStartNotBlank(v);
    assert !ColonForm(v) by {
      assert v[|v| - 1] == p[1] && !IsDigit(p[1]);
    }
    assert !ColonForm(x);
  }

  /** Digit-only input: three digits split as H and MM, four as HH and MM. */
  lemma MilitaryParse(v: string)
    requires MilitaryForm(v)
    ensures |v| == 3 ==> ParseTime(v) == InRange(DigitValue(v[0]), DigitValue(v[1]) * 10 + DigitValue(v[2]))
    ensures |v| == 4 ==> ParseTime(v) == InRange(DigitValue(v[0]) * 10 + DigitValue(v[1]), DigitValue(v[2]) * 10 + DigitValue(v[3]))
  {
    MilitaryReachesPattern4(v);
    MilitaryDigits(v);
  }

  /** Digit-only text of three or four digits fails the first three patterns and is read by the fourth. */
  lemma MilitaryReachesPattern4(v: string)
    requires MilitaryForm(v)
    ensures ParseTime(v) == ParseMilitary(v)
  {
    DigitStartNotBlank(v);
    assert !ColonForm(v) by {
      assert IsDigit(v[|v| - 3]);
    }
    assert !HasMeridiem(v) by {
      assert IsDigit(v[|v| - 1]);
    }
  }

  /** The fourth pattern's split, digit by digit. */
  lemma MilitaryDigits(v: string)
    requires MilitaryForm(v)
    ensures |v| == 3 ==> ParseMilitary(v) == InRange(DigitValue(v[0]), DigitValue(v[1]) * 10 + DigitValue(v[2]))
    ensures |v| == 4 ==> ParseMilitary(v) == InRange(DigitValue(v[0]) * 10 + DigitValue(v[1]), DigitValue(v[2]) * 10 + DigitValue(v[3]))
  {
    if |v| == 3 {
      OneDigitValue(v[..1]);
      TwoDigitValue(v[1..]);
    } else {
      TwoDigitValue(v[..2]);
      TwoDigitValue(v[2..]);
    }
  }

  /** The hour shown on a 12-hour clock. */
  function DisplayHour(h: nat): nat {
    if h == 0 then 12 else if h > 12 then h - 12 else h
  }

  /** `formatTime12Hour`: `H:MM AM` or `H:MM PM` with an unpadded hour and a padded minute. */
  function FormatTime12Hour(hours: nat, minutes: nat): (r: string)
    ensures hours <= 23 ==> |r| >= 7 && r[|r| - 3..] == (if hours < 12 then " AM" else " PM")
  {
    var period := if hours >= 12 then "PM" else "AM";
    Decimal(DisplayHour(hours)) + ":" + Pad2(minutes) + " " + period
  }

  /** A zero-padded `HH:MM` with an hour below 24 and a minute below 60. */
  predicate TimeShape(t: string) {
    && |t| == 5 && t[2] == ':' && AllDigits(t[..2]) && AllDigits(t[3..])
    && NumberValue(t[..2]) <= 23 && NumberValue(t[3..]) <= 59
  }

  /** `formatTimeInput`: `None` is `{ success: false }`. */
  function FormatTimeInput(value: string): (r: Option<TimeText>)
    ensures AllSpace(value) ==> r == None
    ensures r.Some? <==> ParseTime(value).Some?
    ensures r.Some? ==> TimeShape(r.value.time)
  {
    match ParseTime(value)
    case None => None
    case Some(c) =>
      var t := Pad2(c.hours) + ":" + Pad2(c.minutes);
      assert t[..2] == Pad2(c.hours) && t[3..] == Pad2(c.minutes);
      Some(TimeText(FormatTime12Hour(c.hours, c.minutes), t))
  }

  /** The 12-hour display hour and the meridiem together recover the 24-hour hour. */
  lemma DisplayHourInverse(h: nat)
    requires h <= 23
    ensures 1 <= DisplayHour(h) <= 12
    ensures To24Hour(DisplayHour(h), if h >= 12 then PM else AM) == h
  {
  }

  /** The display text split into the shown hour, the padded minute and the meridiem suffix. */
  lemma FormatTime12HourParts(h: nat, m: nat)
    ensures FormatTime12Hour(h, m) == Decimal(DisplayHour(h)) + ":" + Pad2(m) + (if h >= 12 then " PM" else " AM")
  {
    var suffix := if h >= 12 then "PM" else "AM";
    assert " " + suffix == (if h >= 12 then " PM" else " AM");
  }

  lemma DecimalTwelve()
    ensures Decimal(12) == "12"
  {
    assert Decimal(1) == "1" && Decimal(12) == Decimal(1) + [DigitChar(2)];
  }

  /** `formatTime12Hour` against an independent reading: 0 is 12 AM, 12 is 12 PM, 13 to 23 are h - 12 PM. */
  lemma FormatTime12HourCases(h: nat, m: nat)
    requires h <= 23
    ensures h == 0 ==> FormatTime12Hour(h, m) == "12:" + Pad2(m) + " AM"
    ensures h == 12 ==> FormatTime12Hour(h, m) == "12:" + Pad2(m) + " PM"
    ensures 1 <= h <= 11 ==> FormatTime12Hour(h, m) == Decimal(h) + ":" + Pad2(m) + " AM"
    ensures 13 <= h ==> FormatTime12Hour(h, m) == Decimal(h % 12) + ":" + Pad2(m) + " PM"
  {
    FormatTime12HourParts(h, m);
    if h == 0 || h == 12 {
      DecimalTwelve();
      assert Decimal(DisplayHour(h)) + ":" == "12:";
    } else if h >= 13 {
      assert DisplayHour(h) == h % 12;
    }
  }

  /** Any text of the first pattern's shape is read by that pattern. */
  lemma ParseColonText(v: string)
    requires ColonForm(v)
    ensures ParseTime(v) == InRange(NumberValue(v[..|v| - 3]), NumberValue(v[|v| - 2..]))
  {
    DigitStartNotBlank(v);
  }

  /** `23:59`, the time of an untimed due date, reads as the last minute of the day. */
  lemma EndOfDayText(t: string)
    requires |t| == 5 && t[0] == '2' && t[1] == '3' && t[2] == ':' && t[3] == '5' && t[4] == '9'
    ensures ParseTime(t) == Some(Clock(23, 59))
  {
    assert ColonForm(t) && NumberValue(t[..2]) == 23 && NumberValue(t[3..]) == 59 by {
      TwoDigitValue(t[..2]);
      TwoDigitValue(t[3..]);
    }
    ParseColonText(t);
  }

  /** The `time` text `HH:MM` parses back, under the first pattern, to the clock it came from. */
  lemma ParseClockText(h: nat, m: nat)
    requires h <= 23 && m <= 59
    ensures ParseTime(Pad2(h) + ":" + Pad2(m)) == Some(Clock(h, m))
  {
    var v := Pad2(h) + ":" + Pad2(m);
    assert v[..|v| - 3] == Pad2(h) && v[|v| - 2..] == Pad2(m);
    assert ColonForm(v);
    DigitStartNotBlank(v);
  }

  /** `H:MM` built from an hour below 100 and a minute below 60 has the colon form, with both fields read back. */
  lemma ClockTextFields(h: nat, m: nat)
    requires h < 100 && m <= 59
    ensures var x := Decimal(h) + ":" + Pad2(m);
            ColonForm(x) && NumberValue(x[..|x| - 3]) == h && NumberValue(x[|x| - 2..]) == m
  {
    var x := Decimal(h) + ":" + Pad2(m);
    assert x[..|x| - 3] == Decimal(h) && x[|x| - 2..] == Pad2(m);
  }

  /** The `formatted` text `H:MM AM` parses back, under the second pattern, to the clock it came from. */
  lemma ParseTime12Text(h: nat, m: nat)
    requires h <= 23 && m <= 59
    ensures ParseTime(FormatTime12Hour(h, m)) == Some(Clock(h, m))
  {
    DisplayHourInverse(h);
    ParseDisplayText(DisplayHour(h), m, if h >= 12 then "PM" else "AM");
  }

  /** `H:MM AM` and `H:MM PM` on a clock-face hour parse under the second pattern. */
  lemma ParseDisplayText(d: nat, m: nat, period: string)
    requires 1 <= d <= 12 && m <= 59 && (period == "AM" || period == "PM")
    ensures ParseTime(Decimal(d) + ":" + Pad2(m) + " " + period) == Some(Clock(To24Hour(d, if period == "PM" then PM else AM), m))
  {
    assert AllSpace(" ");
    MeridiemValue(period);
    ParseClockMeridiem(d, m, " ", period);
  }

  /** `H:MM`, optional blanks and a meridiem, on a clock-face hour, convert the hour and keep the minutes. */
  lemma ParseClockMeridiem(d: nat, m: nat, sp: string, p: string)
    requires 1 <= d <= 12 && m <= 59 && AllSpace(sp) && |p| == 2 && MeridiemOf(p).Some?
    ensures ParseTime(Decimal(d) + ":" + Pad2(m) + sp + p) == Some(Clock(To24Hour(d, MeridiemOf(p).value), m))
  {
    var x := Decimal(d) + ":" + Pad2(m);
    ClockTextFields(d, m);
    ParseColonMeridiemText(x, sp, p);
  }

  /**
   * Round trip: whatever `formatTimeInput` accepts, both texts it returns are accepted again and
   * denote the same time.
   */
  lemma FormatTimeInputRoundTrip(value: string)
    requires FormatTimeInput(value).Some?
    ensures ParseTime(FormatTimeInput(value).value.time) == ParseTime(value)
    ensures ParseTime(FormatTimeInput(value).value.formatted) == ParseTime(value)
    ensures FormatTimeInput(FormatTimeInput(value).value.time) == FormatTimeInput(value)
    ensures FormatTimeInput(FormatTimeInput(value).value.formatted) == FormatTimeInput(value)
  {
    var c := ParseTime(value).value;
    ParseClockText(c.hours, c.minutes);
    ParseTime12Text(c.hours, c.minutes);
  }

  /** The hour-only am/pm form: `12am` is midnight, `12pm` is noon, other pm hours move on by twelve, minutes are 0. */
  lemma HourMeridiemParse(h: nat, p: string)
    requires 1 <= h <= 12 && (p == "am" || p == "pm" || p == "AM" || p == "PM")
    ensures ParseTime(Decimal(h) + p)
         == Some(Clock(if p == "pm" || p == "PM" then (if h == 12 then 12 else h + 12) else (if h == 12 then 0 else h), 0))
  {
    var x := Decimal(h);
    assert HourField(x);
    assert x + [] + p == x + p;
    MeridiemValue(p);
    ParseHourMeridiemText(x, [], p);
  }

  /** The four spellings the lemmas below use. */
  lemma MeridiemValue(p: string)
    requires p == "am" || p == "pm" || p == "AM" || p == "PM"
    ensures MeridiemOf(p) == Some(if p == "pm" || p == "PM" then PM else AM)
  {
  }

  /** The `H:MM` am/pm form converts the hour the same way and keeps the minutes. */
  lemma ColonMeridiemParse(h: nat, m: nat, p: string)
    requires 1 <= h <= 12 && m <= 59 && (p == "am" || p == "pm" || p == "AM" || p == "PM")
    ensures ParseTime(Decimal(h) + ":" + Pad2(m) + p)
         == Some(Clock(if p == "pm" || p == "PM" then (if h == 12 then 12 else h + 12) else (if h == 12 then 0 else h), m))
  {
    var x := Decimal(h) + ":" + Pad2(m);
    assert x + [] + p == x + p;
    MeridiemValue(p);
    ParseClockMeridiem(h, m, [], p);
  }

  /**
   * The am/pm conversion runs before the range check and only adds or removes 12, so an
   * afternoon hour with `am` is kept as it is: `13am` is 13:00.
   */
  lemma AmKeepsAfternoonHours(x: string)
    requires HourField(x) && 13 <= NumberValue(x) <= 23
    ensures ParseTime(x + "am") == Some(Clock(NumberValue(x), 0))
  {
    MeridiemValue("am");
    assert x + [] + "am" == x + "am";
    ParseHourMeridiemText(x, [], "am");
  }

  /** Hour 0 with `pm` becomes noon: `0pm` is 12:00. */
  lemma ZeroPmIsNoon(x: string)
    requires HourField(x) && NumberValue(x) == 0
    ensures ParseTime(x + "pm") == Some(Clock(12, 0))
  {
    MeridiemValue("pm");
    assert x + [] + "pm" == x + "pm";
    ParseHourMeridiemText(x, [], "pm");
  }

  /** An hour past 12 with `pm` is pushed past 23 and rejected: `13pm` fails. */
  lemma PmPastNoonRejected(x: string)
    requires HourField(x) && NumberValue(x) > 12
    ensures ParseTime(x + "pm") == None
  {
    MeridiemValue("pm");
    assert x + [] + "pm" == x + "pm";
    ParseHourMeridiemText(x, [], "pm");
  }

  // ---------------------------------------------------------------------------------------
  // getMonthIndex
  // ---------------------------------------------------------------------------------------

  const Months: seq<string> := ["january", "february", "march", "april", "may", "june",
                                "july", "august", "september", "october", "november", "december"]

  const ShortMonths: seq<string> := ["jan", "feb", "mar", "apr", "may", "jun",
                                     "jul", "aug", "sep", "oct", "nov", "dec"]

  /** `names.findIndex(n => n.startsWith(p))`: the least index whose name starts with `p`, or -1. */
  function FindPrefix(names: seq<string>, p: string): (r: int)
    ensures -1 <= r < |names|
    ensures r >= 0 ==> p <= names[r] && forall j :: 0 <= j < r ==> !(p <= names[j])
    ensures r == -1 <==> forall j :: 0 <= j < |names| ==> !(p <= names[j])
    decreases |names|
  {
    if |names| == 0 then -1
    else if p <= names[0] then 0
    else
      var i := FindPrefix(names[1..], p);
      if i == -1 then -1 else i + 1
  }

  /** `getMonthIndex`: -1 or the month, from its lower-cased prefix among full names, then short names. */
  function GetMonthIndex(monthName: string): (r: int)
    ensures -1 <= r <= 11
  {
    var lowerMonth := Lower(monthName);
    var index := FindPrefix(Months, lowerMonth);
    if index == -1 then FindPrefix(ShortMonths, lowerMonth) else index
  }

  /** Each short name is the first three letters of its full name, and no two short names are equal. */
  lemma MonthTables()
    ensures forall i :: 0 <= i < 12 ==> |Months[i]| >= 3 && Months[i][..3] == ShortMonths[i]
    ensures forall i :: 0 <= i < 12 ==> |ShortMonths[i]| == 3
    ensures forall i, j :: 0 <= i < 12 && 0 <= j < 12 && i != j ==> ShortMonths[i] != ShortMonths[j]
  {
  }

  /**
   * The search among short names never decides anything: a prefix of a short name is a prefix of
   * the full name too. So the index is the least month whose name starts with the lower-cased text.
   */
  lemma MonthIndexIsFullNameSearch(monthName: string)
    ensures GetMonthIndex(monthName) == FindPrefix(Months, Lower(monthName))
  {
    var p := Lower(monthName);
    if FindPrefix(Months, p) == -1 {
      MonthTables();
      forall j | 0 <= j < 12
        ensures !(p <= ShortMonths[j])
      {
        assert !(p <= Months[j]);
        assert ShortMonths[j] <= Months[j];
      }
    }
  }

  /** Texts that agree up to ASCII case get the same index. */
  lemma MonthIndexIgnoresCase(a: string, b: string)
    requires |a| == |b|
    requires forall i :: 0 <= i < |a| ==> LowerChar(a[i]) == LowerChar(b[i])
    ensures GetMonthIndex(a) == GetMonthIndex(b)
  {
    assert Lower(a) == Lower(b);
  }

  /** A full month name or its three-letter form, in any case, maps to that month. */
  lemma MonthNamesResolve(s: string, i: nat)
    requires i < 12
    requires Lower(s) == Months[i] || Lower(s) == ShortMonths[i]
    ensures GetMonthIndex(s) == i
  {
    var p := Lower(s);
    MonthTables();
    MonthIndexIsFullNameSearch(s);
    assert p[..3] == ShortMonths[i];
    assert p <= Months[i];
    forall j | 0 <= j < 12 && p <= Months[j]
      ensures j == i
    {
      assert Months[j][..3] == p[..3];
    }
  }

  lemma SearchMa()
    ensures FindPrefix(Months, "ma") == 2
  {
    assert Months[0][0] == 'j' && Months[1][0] == 'f';
    assert Months[2][..2] == "ma";
  }

  lemma SearchJu()
    ensures FindPrefix(Months, "ju") == 5
  {
    var p := "ju";
    assert p[0] == 'j' && p[1] == 'u';
    assert Months[0][1] == 'a' && Months[1][0] == 'f' && Months[2][0] == 'm';
    assert Months[3][0] == 'a' && Months[4][0] == 'm';
    assert forall j :: 0 <= j < 5 ==> !(p <= Months[j]);
    assert Months[5][..2] == p;
  }

  lemma SearchX()
    ensures FindPrefix(Months, "x") == -1
  {
    assert forall j :: 0 <= j < 12 ==> Months[j][0] != 'x';
  }

  /** An ambiguous prefix picks the earliest month, in any case: `ma` is March, `ju` is June; `x` is no month. */
  lemma AmbiguousPrefixes(s: string)
    ensures Lower(s) == "ma" ==> GetMonthIndex(s) == 2
    ensures Lower(s) == "ju" ==> GetMonthIndex(s) == 5
    ensures Lower(s) == "x" ==> GetMonthIndex(s) == -1
  {
    MonthIndexIsFullNameSearch(s);
    SearchMa();
    SearchJu();
    SearchX();
  }

  // ---------------------------------------------------------------------------------------
  // The two-digit-year pivot of formatDateInput
  // ---------------------------------------------------------------------------------------

  /** `if (fullYear < 100) fullYear += fullYear < 50 ? 2000 : 1900`. */
  function PivotYear(y: nat): (r: nat)
    ensures y < 100 ==> 1950 <= r <= 2049 && r % 100 == y
    ensures y >= 100 ==> r == y
  {
    if y < 100 then (if y < 50 then y + 2000 else y + 1900) else y
  }

  /** The `(\d{2,4})` year group after `parseInt` and the pivot. */
  function ExpandYear(year: string): (r: nat)
    requires 2 <= |year| <= 4 && AllDigits(year)
    ensures r >= 1950 || r == NumberValue(year)
  {
    PivotYear(NumberValue(year))
  }

  /** Two-digit years fall in 2000-2049 below 50 and 1950-1999 from 50; four digits from 1000 are kept. */
  lemma ExpandYearCases(year: string)
    requires 2 <= |year| <= 4 && AllDigits(year)
    ensures |year| == 2 && NumberValue(year) < 50 ==> ExpandYear(year) == 2000 + NumberValue(year)
    ensures |year| == 2 && NumberValue(year) >= 50 ==> ExpandYear(year) == 1900 + NumberValue(year)
    ensures NumberValue(year) >= 100 ==> ExpandYear(year) == NumberValue(year)
  {
    if |year| == 2 {
      TwoDigitsBelow100(year);
    }
  }

  /** The pivot looks at the value, not the width: `099` becomes 1999. */
  lemma PaddedYearIsPivoted()
    ensures ExpandYear("099") == 1999
  {
    var y := "099";
    assert y[..2] == "09";
    TwoDigitValue("09");
    assert NumberValue(y) == NumberValue("09") * 10 + 9;
  }

  // ---------------------------------------------------------------------------------------
  // getDueDateStatus
  // ---------------------------------------------------------------------------------------

  const DayMs: int := 86_400_000

  /** `Math.ceil(x / d)` for a positive divisor; the floating-point quotient of two integers is exact enough here. */
  function CeilDiv(x: int, d: int): (q: int)
    requires d > 0
    ensures (q - 1) * d < x <= q * d
  {
    var f := (-x) / d;
    assert -x == f * d + (-x) % d;
    -f
  }

  datatype DueStatus = DueStatus(cls: string, text: string)

  function Plural(n: nat): string {
    if n != 1 then "s" else ""
  }

  /** `getDueDateStatus`; `formattedDue` stands for `formatDate(due)`, which is locale formatting. */
  function DueDateStatus(due: int, now: int, formattedDue: string): (r: DueStatus)
    ensures r.cls == "overdue" || r.cls == "due-today" || r.cls == "due-soon" || r.cls == ""
  {
    var diffDays := CeilDiv(due - now, DayMs);
    if diffDays < 0 then
      DueStatus("overdue", "Overdue by " + Decimal(-diffDays) + " day" + Plural(-diffDays))
    else if diffDays == 0 then DueStatus("due-today", "Due today")
    else if diffDays <= 3 then DueStatus("due-soon", "Due in " + Decimal(diffDays) + " day" + Plural(diffDays))
    else DueStatus("", formattedDue)
  }

  /** The classification in milliseconds: a full day late is overdue, the next 24 hours are today, then three days are soon. */
  lemma DueStatusByMillis(due: int, now: int, formattedDue: string)
    ensures DueDateStatus(due, now, formattedDue).cls == "overdue" <==> due - now <= -DayMs
    ensures DueDateStatus(due, now, formattedDue).cls == "due-today" <==> -DayMs < due - now <= 0
    ensures DueDateStatus(due, now, formattedDue).cls == "due-soon" <==> 0 < due - now <= 3 * DayMs
    ensures DueDateStatus(due, now, formattedDue).cls == "" <==> due - now > 3 * DayMs
    ensures due - now > 3 * DayMs ==> DueDateStatus(due, now, formattedDue).text == formattedDue
  {
    var x := due - now;
    var q := CeilDiv(x, DayMs);
    if q < 0 {
      assert x <= q * DayMs <= -DayMs;
    } else if q == 0 {
      assert -DayMs < x <= 0;
    } else if q <= 3 {
      assert 0 < x <= 3 * DayMs;
    } else {
      assert (q - 1) * DayMs >= 3 * DayMs;
    }
  }

  /** "day" is singular exactly when the count is one. */
  lemma DueStatusPlural(due: int, now: int, formattedDue: string)
    ensures -2 * DayMs < due - now <= -DayMs ==> DueDateStatus(due, now, formattedDue).text == "Overdue by 1 day"
    ensures 0 < due - now <= DayMs ==> DueDateStatus(due, now, formattedDue).text == "Due in 1 day"
    ensures due - now <= -2 * DayMs ==> DueDateStatus(due, now, formattedDue).text[|DueDateStatus(due, now, formattedDue).text| - 4..] == "days"
    ensures DayMs < due - now <= 3 * DayMs ==> DueDateStatus(due, now, formattedDue).text[|DueDateStatus(due, now, formattedDue).text| - 4..] == "days"
  {
    var x := due - now;
    var q := CeilDiv(x, DayMs);
    if -2 * DayMs < x <= -DayMs {
      assert q == -1;
    } else if 0 < x <= DayMs {
      assert q == 1;
    } else if x <= -2 * DayMs {
      assert q <= -2;
    } else if DayMs < x <= 3 * DayMs {
      assert 2 <= q <= 3;
    }
  }
}
