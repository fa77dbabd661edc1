/**
 * Python `datetime` values at the precision the program uses, their position
 * on the time line, and the three timestamp texts the program reads or writes:
 *
 *  - the detection's `SystemTime`, read with `strptime(t, "%Y-%m-%dT%H:%M:%SZ")`
 *    after its sub-second part is cut off, a `Z` appended and spaces removed
 *    (SQL1.py:158-160);
 *  - the bookmark and journal stamp, written with
 *    `strftime("%Y-%m-%d %H:%M:%S")` and read back with `strptime` in the same
 *    format (SQL1.py:102, 116; logger.py:61, 80, 100, 127).
 *
 * `strptime` accepts exactly what `_strptime`'s regular expression for the
 * format matches in full (numeric directives take one or two digits within
 * their range, `%Y` four, `%d` also a space and one digit, a space in the
 * format any run of whitespace, letters in either case), after which the
 * `datetime` constructor rejects year 0, a day past the end of its month and
 * seconds 60 and 61.
 */
module Stamps {
  import opened Wrappers
  import opened Text

  const MicrosPerSecond := 1000000
  /** `timedelta(hours=1)` in microseconds. */
  const OneHour := 3600 * MicrosPerSecond
  /** `timedelta(days=7)` in microseconds. */
  const SevenDays := 7 * 86400 * MicrosPerSecond

  /** A `datetime` without time zone. */
  datatype DateTime = DateTime(year: int, month: int, day: int,
                               hour: int, minute: int, second: int, micro: int)
  {
    /** The ranges the `datetime` constructor enforces. */
    predicate Valid() {
      && 1 <= year <= 9999 && 1 <= month <= 12 && 1 <= day <= DaysInMonth(year, month)
      && 0 <= hour < 24 && 0 <= minute < 60 && 0 <= second < 60 && 0 <= micro < MicrosPerSecond
    }
  }

  /** A `datetime` Python can hold. */
  type Moment = d: DateTime | d.Valid() witness DateTime(1, 1, 1, 0, 0, 0, 0)

  predicate IsLeap(y: int) {
    y % 4 == 0 && (y % 100 != 0 || y % 400 == 0)
  }

  function DaysInMonth(y: int, m: int): int
    requires 1 <= m <= 12
  {
    if m == 2 then (if IsLeap(y) then 29 else 28)
    else if m == 4 || m == 6 || m == 9 || m == 11 then 30
    else 31
  }

  function DaysInYear(y: int): int {
    if IsLeap(y) then 366 else 365
  }

  /** Days in the years 1 .. y-1 of the proleptic Gregorian calendar. */
  function DaysBeforeYear(y: int): int {
    var p := y - 1;
    p * 365 + p / 4 - p / 100 + p / 400
  }

  /** Days in the months 1 .. m-1 of year y. */
  function DaysBeforeMonth(y: int, m: int): int
    requires 1 <= m <= 12
  {
    [0, 31, 59, 90, 120, 151, 181, 212, 243, 273, 304, 334][m - 1]
      + (if m > 2 && IsLeap(y) then 1 else 0)
  }

  /** Position on the time line in microseconds since 0001-01-01 00:00:00. */
  function Ticks(d: DateTime): int {
    var days := DaysBeforeYear(d.year) + (if 1 <= d.month <= 12 then DaysBeforeMonth(d.year, d.month) else 0) + d.day - 1;
    (((days * 24 + d.hour) * 60 + d.minute) * 60 + d.second) * MicrosPerSecond + d.micro
  }

  /** `datetime` comparison: field by field, most significant first. */
  predicate Earlier(a: DateTime, b: DateTime) {
    if a.year != b.year then a.year < b.year
    else if a.month != b.month then a.month < b.month
    else if a.day != b.day then a.day < b.day
    else if a.hour != b.hour then a.hour < b.hour
    else if a.minute != b.minute then a.minute < b.minute
    else if a.second != b.second then a.second < b.second
    else a.micro < b.micro
  }

  /** `<=` on datetimes is transitive. */
  lemma NotEarlierTransitive(a: DateTime, b: DateTime, c: DateTime)
    requires !Earlier(b, a) && !Earlier(c, b)
    ensures !Earlier(c, a)
  {
  }

  lemma Quarter(p: int)
    ensures (p + 1) / 4 - p / 4 == (if (p + 1) % 4 == 0 then 1 else 0)
  {
  }

  lemma Century(p: int)
    ensures (p + 1) / 100 - p / 100 == (if (p + 1) % 100 == 0 then 1 else 0)
  {
  }

  lemma FourCenturies(p: int)
    ensures (p + 1) / 400 - p / 400 == (if (p + 1) % 400 == 0 then 1 else 0)
  {
  }

  lemma YearLength(y: int)
    ensures DaysBeforeYear(y + 1) == DaysBeforeYear(y) + DaysInYear(y)
  {
    Quarter(y - 1);
    Century(y - 1);
    FourCenturies(y - 1);
  }

  lemma {:induction false} YearsApart(a: int, b: int)
    requires a < b
    ensures DaysBeforeYear(a) + DaysInYear(a) <= DaysBeforeYear(b)
    decreases b - a
  {
    YearLength(a);
    if a + 1 < b {
      YearsApart(a + 1, b);
      YearLength(a + 1);
    }
  }

  /** Days from 0001-01-01 to the date's midnight. */
  function DayNumber(d: DateTime): int
    requires d.Valid()
  {
    DaysBeforeYear(d.year) + DaysBeforeMonth(d.year, d.month) + d.day - 1
  }

  lemma DateWithinYear(d: DateTime)
    requires d.Valid()
    ensures DaysBeforeYear(d.year) <= DayNumber(d) < DaysBeforeYear(d.year) + DaysInYear(d.year)
  {
  }

  lemma MonthsApart(y: int, m: int, n: int, dm: int)
    requires 1 <= m < n <= 12 && 1 <= dm <= DaysInMonth(y, m)
    ensures DaysBeforeMonth(y, m) + dm <= DaysBeforeMonth(y, n)
  {
  }

  lemma DayOrder(a: DateTime, b: DateTime)
    requires a.Valid() && b.Valid()
    requires (a.year, a.month, a.day) != (b.year, b.month, b.day)
    requires a.year < b.year || (a.year == b.year && (a.month < b.month || (a.month == b.month && a.day < b.day)))
    ensures DayNumber(a) < DayNumber(b)
  {
    if a.year < b.year {
      DateWithinYear(a);
      DateWithinYear(b);
      YearsApart(a.year, b.year);
    } else if a.month < b.month {
      MonthsApart(a.year, a.month, b.month, a.day);
    }
  }

  /**
   * Comparing positions on the time line is comparing `datetime`s: `Ticks`
   * is strictly increasing in calendar order, so it is also one-to-one.
   */
  lemma TicksFollowCalendar(a: DateTime, b: DateTime)
    requires a.Valid() && b.Valid()
    ensures Ticks(a) < Ticks(b) <==> Earlier(a, b)
    ensures Ticks(a) == Ticks(b) <==> a == b
  {
    assert Ticks(a) == (((DayNumber(a) * 24 + a.hour) * 60 + a.minute) * 60 + a.second) * MicrosPerSecond + a.micro;
    assert Ticks(b) == (((DayNumber(b) * 24 + b.hour) * 60 + b.minute) * 60 + b.second) * MicrosPerSecond + b.micro;
    if (a.year, a.month, a.day) != (b.year, b.month, b.day) {
      if Earlier(a, b) {
        DayOrder(a, b);
      } else {
        DayOrder(b, a);
      }
    }
  }

  // ---------------------------------------------------------------------------
  // strptime pieces: each consumes a prefix and returns what it read and the rest.

  /** A literal character of the format. */
  function Lit(s: string, c: char): (r: Option<string>)
    ensures r.Some? <==> s != [] && s[0] == c
    ensures r.Some? ==> r.value == s[1..]
  {
    if s != [] && s[0] == c then Some(s[1..]) else None
  }

  /** A letter of the format, matched ignoring case (the regex is compiled with IGNORECASE). */
  function Letter(s: string, upper: char, lower: char): (r: Option<string>)
    ensures r.Some? <==> s != [] && (s[0] == upper || s[0] == lower)
    ensures r.Some? ==> r.value == s[1..]
  {
    if s != [] && (s[0] == upper || s[0] == lower) then Some(s[1..]) else None
  }

  /** A space of the format, which `_strptime` turns into `\s+`. */
  function Spaces(s: string): (r: Option<string>)
    ensures r.Some? <==> s != [] && IsSpace(s[0])
    ensures r.Some? ==> |r.value| < |s| && r.value == s[|s| - |r.value|..]
    ensures r.Some? ==> r.value == [] || !IsSpace(r.value[0])
  {
    if s != [] && IsSpace(s[0]) then Some(TrimStart(s)) else None
  }

  /** `%Y`: exactly four digits. */
  function Year(s: string): (r: Option<(int, string)>)
    ensures r.Some? ==> |s| >= 4 && AllDigits(s[..4]) && r.value == (Value(s[..4]), s[4..])
    ensures r.Some? ==> 0 <= r.value.0 <= 9999
  {
    if |s| >= 4 && AllDigits(s[..4]) then
      assert Value(s[..4]) <= 9999 by { ValueBound(s[..4]); }
      Some((Value(s[..4]), s[4..]))
    else None
  }

  lemma {:induction false} ValueBound(s: string)
    requires AllDigits(s)
    ensures Value(s) < Pow10(|s|)
  {
    if s != [] {
      ValueBound(s[..|s| - 1]);
    }
  }

  function Pow10(n: nat): nat {
    if n == 0 then 1 else 10 * Pow10(n - 1)
  }

  /**
   * `%m`, `%H`, `%M`, `%S` and the digit forms of `%d`: the alternatives of
   * each directive's regex are exactly the one- and two-digit numerals in
   * lo..hi, and as every directive is followed by a non-digit or the end, the
   * whole run of digits must be one of them.
   */
  function Field(s: string, lo: int, hi: int): (r: Option<(int, string)>)
    ensures r.Some? ==> var n := DigitRun(s);
              1 <= n <= 2 && r.value == (Value(s[..n]), s[n..]) && lo <= r.value.0 <= hi
  {
    var n := DigitRun(s);
    if 1 <= n <= 2 && lo <= Value(s[..n]) <= hi then Some((Value(s[..n]), s[n..])) else None
  }

  /** `%d`: a day numeral, or a space followed by a digit 1-9. */
  function Day(s: string): (r: Option<(int, string)>)
    ensures r.Some? ==> 1 <= r.value.0 <= 31 && |r.value.1| < |s| && r.value.1 == s[|s| - |r.value.1|..]
  {
    if s != [] && s[0] == ' ' then
      if |s| >= 2 && '1' <= s[1] <= '9' then Some((DigitValue(s[1]), s[2..])) else None
    else Field(s, 1, 31)
  }

  /** What the `datetime` constructor accepts of the fields `_strptime` read. */
  function Build(y: int, mo: int, d: int, h: int, mi: int, sec: int): (r: Option<DateTime>)
    requires 0 <= y <= 9999 && 1 <= mo <= 12 && 1 <= d <= 31 && 0 <= h <= 23 && 0 <= mi <= 59 && 0 <= sec <= 61
    ensures r.Some? <==> 1 <= y && d <= DaysInMonth(y, mo) && sec <= 59
    ensures r.Some? ==> r.value.Valid() && r.value.micro == 0
    ensures r.Some? ==> r.value == DateTime(y, mo, d, h, mi, sec, 0)
  {
    if 1 <= y && d <= DaysInMonth(y, mo) && sec <= 59 then Some(DateTime(y, mo, d, h, mi, sec, 0)) else None
  }

  /** `%Y-%m-%d`: year, month and day, and the rest of the text. */
  function DatePart(s: string): (r: Option<((int, int, int), string)>)
    ensures r.Some? ==> var (y, mo, d) := r.value.0;
              0 <= y <= 9999 && 1 <= mo <= 12 && 1 <= d <= 31
    ensures r.Some? ==> |r.value.1| < |s| && r.value.1 == s[|s| - |r.value.1|..]
  {
    var y :- Year(s);
    var s1 :- Lit(y.1, '-');
    var mo :- Field(s1, 1, 12);
    var s2 :- Lit(mo.1, '-');
    var d :- Day(s2);
    Some(((y.0, mo.0, d.0), d.1))
  }

  /** `%H:%M:%S`: hour, minute and second, and the rest of the text. */
  function ClockPart(s: string): (r: Option<((int, int, int), string)>)
    ensures r.Some? ==> var (h, mi, sec) := r.value.0;
              0 <= h <= 23 && 0 <= mi <= 59 && 0 <= sec <= 61
    ensures r.Some? ==> |r.value.1| < |s| && r.value.1 == s[|s| - |r.value.1|..]
    ensures r.Some? ==> var n := |s| - |r.value.1|; IsDigit(s[n - 1])
  {
    var h :- Field(s, 0, 23);
    var s4 :- Lit(h.1, ':');
    var mi :- Field(s4, 0, 59);
    var s5 :- Lit(mi.1, ':');
    var sec :- Field(s5, 0, 61);
    ClockEnd(s, s5, sec.1);
    Some(((h.0, mi.0, sec.0), sec.1))
  }

  /** Bookkeeping for ClockPart: the seconds field is a run of digits ending where the rest begins. */
  lemma ClockEnd(s: string, s5: string, rest: string)
    requires |s5| <= |s| && s5 == s[|s| - |s5|..]
    requires DigitRun(s5) >= 1 && rest == s5[DigitRun(s5)..]
    ensures |rest| < |s| && rest == s[|s| - |rest|..] && IsDigit(s[|s| - |rest| - 1])
  {
    var n := DigitRun(s5);
    assert s5[n - 1] == s5[..n][n - 1];
  }

  /** `datetime.strptime(s, "%Y-%m-%dT%H:%M:%SZ")`, None where it raises ValueError. */
  function ParseIso(s: string): (r: Option<Moment>)
    ensures r.Some? ==> r.value.micro == 0
    ensures r.Some? ==> |s| >= 2 && IsDigit(s[|s| - 2]) && (s[|s| - 1] == 'Z' || s[|s| - 1] == 'z')
  {
    var dp :- DatePart(s);
    var t :- Letter(dp.1, 'T', 't');
    var cp :- ClockPart(t);
    var z :- Letter(cp.1, 'Z', 'z');
    if z != [] then None
    else
      var (y, mo, d) := dp.0;
      var (h, mi, sec) := cp.0;
      Build(y, mo, d, h, mi, sec)
  }

  /** `datetime.strptime(s, "%Y-%m-%d %H:%M:%S")`, None where it raises ValueError. */
  function ParseStamp(s: string): (r: Option<Moment>)
    ensures r.Some? ==> r.value.micro == 0
  {
    var dp :- DatePart(s);
    var t :- Spaces(dp.1);
    var cp :- ClockPart(t);
    if cp.1 != [] then None
    else
      var (y, mo, d) := dp.0;
      var (h, mi, sec) := cp.0;
      Build(y, mo, d, h, mi, sec)
  }

  /** `d.strftime("%Y-%m-%d %H:%M:%S")`. */
  function FormatStamp(d: Moment): (r: string)
    ensures |r| == 19 && IsDigit(r[0]) && IsDigit(r[18])
  {
    var r := Pad4(d.year) + ("-" + (Pad2(d.month) + ("-" + (Pad2(d.day) + (" " +
      (Pad2(d.hour) + (":" + (Pad2(d.minute) + (":" + Pad2(d.second))))))))));
    assert r[0] == Pad4(d.year)[0] && r[18] == Pad2(d.second)[1];
    r
  }

  lemma FieldOfPad(p: string, rest: string, lo: int, hi: int)
    requires |p| == 2 && AllDigits(p) && lo <= Value(p) <= hi
    requires rest == [] || !IsDigit(rest[0])
    ensures Field(p + rest, lo, hi) == Some((Value(p), rest))
  {
    DigitRunOf(p, rest);
    assert (p + rest)[..2] == p && (p + rest)[2..] == rest;
  }

  lemma DatePartOfPads(d: Moment, rest: string)
    requires rest != [] && !IsDigit(rest[0])
    ensures DatePart(Pad4(d.year) + ("-" + (Pad2(d.month) + ("-" + (Pad2(d.day) + rest)))))
            == Some(((d.year, d.month, d.day), rest))
  {
    var t3 := Pad2(d.day) + rest;
    var t2 := Pad2(d.month) + ("-" + t3);
    var s := Pad4(d.year) + ("-" + t2);
    assert s[..4] == Pad4(d.year) && s[4..] == "-" + t2;
    assert Year(s) == Some((d.year, "-" + t2));
    FieldOfPad(Pad2(d.month), "-" + t3, 1, 12);
    FieldOfPad(Pad2(d.day), rest, 1, 31);
    assert Day(t3) == Some((d.day, rest));
  }

  lemma ClockPartOfPads(d: Moment, rest: string)
    requires rest == [] || !IsDigit(rest[0])
    ensures ClockPart(Pad2(d.hour) + (":" + (Pad2(d.minute) + (":" + (Pad2(d.second) + rest)))))
            == Some(((d.hour, d.minute, d.second), rest))
  {
    var ss := Pad2(d.second) + rest;
    var t5 := Pad2(d.minute) + (":" + ss);
    FieldOfPad(Pad2(d.hour), ":" + t5, 0, 23);
    FieldOfPad(Pad2(d.minute), ":" + ss, 0, 59);
    FieldOfPad(Pad2(d.second), rest, 0, 61);
  }

  /**
   * The bookmark and journal stamp round-trips: what `strftime` writes,
   * `strptime` reads back as the same `datetime` up to the microseconds
   * the format does not carry.
   */
  lemma FormatStampRoundTrip(d: Moment)
    ensures ParseStamp(FormatStamp(d)) == Some(d.(micro := 0))
  {
    var clock := Pad2(d.hour) + (":" + (Pad2(d.minute) + (":" + Pad2(d.second))));
    var s := FormatStamp(d);
    assert s == Pad4(d.year) + ("-" + (Pad2(d.month) + ("-" + (Pad2(d.day) + (" " + clock)))));
    DatePartOfPads(d, " " + clock);
    assert clock[0] == Pad2(d.hour)[0];
    SpacedClock(clock);
    ClockPartOfPads(d, []);
    assert Pad2(d.second) + [] == Pad2(d.second);
    ParseStampOfParts(d, s, clock);
  }

  /** One space before a word that starts with a digit is consumed whole. */
  lemma SpacedClock(clock: string)
    requires clock != [] && IsDigit(clock[0])
    ensures Spaces(" " + clock) == Some(clock)
  {
    var s := " " + clock;
    assert s[1..] == clock && IsSpace(s[0]) && !IsSpace(clock[0]);
    assert TrimStart(s) == TrimStart(clock) == clock;
  }

  lemma ParseStampOfParts(d: Moment, s: string, clock: string)
    requires DatePart(s) == Some(((d.year, d.month, d.day), " " + clock))
    requires Spaces(" " + clock) == Some(clock)
    requires ClockPart(clock) == Some(((d.hour, d.minute, d.second), []))
    ensures ParseStamp(s) == Some(d.(micro := 0))
  {
  }

  /**
   * The ISO 8601 text `%Y-%m-%dT%H:%M:%S` of a datetime, as detections carry
   * it before their fraction and zone letter.
   */
  function IsoText(d: Moment): (r: string)
    ensures forall c :: c in r ==> IsDigit(c) || c == '-' || c == 'T' || c == ':'
  {
    Pad4(d.year) + ("-" + (Pad2(d.month) + ("-" + (Pad2(d.day) + ("T" +
      (Pad2(d.hour) + (":" + (Pad2(d.minute) + (":" + Pad2(d.second))))))))))
  }

  /** ISO text with a zone letter reads back as the same datetime, at whole seconds. */
  lemma IsoRoundTrip(d: Moment)
    requires d.micro == 0
    ensures ParseIso(IsoText(d) + "Z") == Some(d)
  {
    var clock := Pad2(d.hour) + (":" + (Pad2(d.minute) + (":" + (Pad2(d.second) + "Z"))));
    var s := IsoText(d) + "Z";
    assert s == Pad4(d.year) + ("-" + (Pad2(d.month) + ("-" + (Pad2(d.day) + ("T" + clock)))));
    DatePartOfPads(d, "T" + clock);
    assert ("T" + clock)[1..] == clock;
    ClockPartOfPads(d, "Z");
    assert "Z"[1..] == [];
    ParseIsoOfParts(d, s, clock);
  }

  lemma ParseIsoOfParts(d: Moment, s: string, clock: string)
    requires d.micro == 0
    requires DatePart(s) == Some(((d.year, d.month, d.day), "T" + clock))
    requires ("T" + clock)[1..] == clock
    requires ClockPart(clock) == Some(((d.hour, d.minute, d.second), "Z"))
    ensures ParseIso(s) == Some(d)
  {
    assert Letter("T" + clock, 'T', 't') == Some(clock);
    assert Letter("Z", 'Z', 'z') == Some([]);
    assert Build(d.year, d.month, d.day, d.hour, d.minute, d.second) == Some(d);
  }

  // ---------------------------------------------------------------------------
  // The detection's SystemTime.

  /** SQL1.py:158-159: the text before the first dot, a `Z` appended, spaces removed. */
  function NormaliseSystemTime(raw: string): (t: string)
    ensures ' ' !in t
  {
    Without(BeforeDot(raw) + "Z", ' ')
  }

  /** The event time of a detection, None where SQL1.py:160 raises ValueError. */
  function ParseSystemTime(raw: string): (r: Option<Moment>)
    ensures r.Some? ==> r.value.micro == 0
  {
    ParseIso(NormaliseSystemTime(raw))
  }

  /** Sub-second digits, and anything else after the first dot, never change the event time. */
  lemma SubSecondsIgnored(p: string, fraction: string)
    requires '.' !in p
    ensures ParseSystemTime(p + "." + fraction) == ParseSystemTime(p)
  {
    BeforeDotIgnoresFraction(p, fraction);
    assert BeforeDot(p) == p;
  }

  /** An ISO SystemTime with any fractional part reads as its whole-second datetime. */
  lemma IsoSystemTime(d: Moment, fraction: string)
    requires d.micro == 0
    ensures ParseSystemTime(IsoText(d) + "." + fraction) == Some(d)
  {
    var iso := IsoText(d);
    SubSecondsIgnored(iso, fraction);
    assert BeforeDot(iso) == iso;
    assert ' ' !in iso + "Z";
    IsoRoundTrip(d);
  }

  /**
   * A SystemTime that already ends in `Z` and has no fractional part gets a
   * second `Z` appended and is rejected ("unconverted data remains").
   */
  lemma ZuluWithoutFractionRejected(raw: string)
    requires '.' !in raw && raw != [] && (raw[|raw| - 1] == 'Z' || raw[|raw| - 1] == 'z')
    ensures ParseSystemTime(raw) == None
  {
    assert BeforeDot(raw) == raw;
    var last := raw[|raw| - 1];
    assert raw == raw[..|raw| - 1] + [last];
    WithoutAppend(raw[..|raw| - 1], [last] + "Z", ' ');
    WithoutAppend([last], "Z", ' ');
    assert raw + "Z" == raw[..|raw| - 1] + ([last] + "Z");
    var t := NormaliseSystemTime(raw);
    assert t == Without(raw[..|raw| - 1], ' ') + [last, 'Z'];
    assert t[|t| - 2] == last;
  }
}
