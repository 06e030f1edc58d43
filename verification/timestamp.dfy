/**
  Timestamps as both scripts parse them with `datetime.strptime`, trying
  `%Y-%m-%d %H:%M:%S` first and `%a %b %d %H:%M:%S %Y` second.

  The first format is modelled concretely in its zero-padded, fixed-width
  layout (the layout OpenVPN and `strftime` write). Everything else the two
  `strptime` attempts accept — the locale-dependent second format, and the
  looser spellings of the first (one-digit fields, runs of whitespace,
  non-ASCII digits) — is the parameter `otherFormats`, a function the model
  does not look into. Wherever the fixed-width parser succeeds, the first
  `strptime` attempt succeeds with the same value, so the split is exact.

  Seconds are counted the way Python's `datetime` does: the proleptic
  Gregorian ordinal of `date.toordinal()` times 86400 plus the time of day.
 */
module Timestamp {
  import opened Options
  import opened Text

  datatype DateTime = DateTime(year: int, month: int, day: int, hour: int, minute: int, second: int)

  predicate IsLeap(y: int) {
    y % 4 == 0 && (y % 100 != 0 || y % 400 == 0)
  }

  function DaysInMonth(y: int, m: int): int
    requires 1 <= m <= 12
  {
    if m == 2 then (if IsLeap(y) then 29 else 28)
    else if m == 4 || m == 6 || m == 9 || m == 11 then 30
    else 31
  }

  /** What `datetime(...)` accepts (MINYEAR = 1, MAXYEAR = 9999). */
  predicate ValidDateTime(d: DateTime) {
    && 1 <= d.year <= 9999
    && 1 <= d.month <= 12
    && 1 <= d.day <= DaysInMonth(d.year, d.month)
    && 0 <= d.hour < 24
    && 0 <= d.minute < 60
    && 0 <= d.second < 60
  }

  /** A naive `datetime` without microseconds, as `strptime` returns it. */
  type Stamp = d: DateTime | ValidDateTime(d) witness DateTime(1, 1, 1, 0, 0, 0)

  /** The second and looser `strptime` attempts, left abstract. */
  type TimeParser = string -> Option<Stamp>

  // ---------------------------------------------------------------------------
  // Day and second counts (datetime's _days_before_year / _days_before_month)

  function DaysBeforeYear(y: int): int
    requires y >= 1
  {
    var p := y - 1;
    p * 365 + p / 4 - p / 100 + p / 400
  }

  function DaysBeforeMonth(y: int, m: int): int
    requires 1 <= m <= 12
  {
    [0, 31, 59, 90, 120, 151, 181, 212, 243, 273, 304, 334][m - 1]
      + (if m > 2 && IsLeap(y) then 1 else 0)
  }

  /** `date.toordinal()`: 1 January of year 1 is day 1. */
  function Ordinal(d: Stamp): int {
    DaysBeforeYear(d.year) + DaysBeforeMonth(d.year, d.month) + d.day
  }

  /** Whole seconds since the start of day 0 of the ordinal count. */
  function Seconds(d: Stamp): int {
    Ordinal(d) * 86400 + d.hour * 3600 + d.minute * 60 + d.second
  }

  /** Python's comparison of two datetimes: field by field, year first. */
  predicate Before(a: Stamp, b: Stamp) {
    if a.year != b.year then a.year < b.year
    else if a.month != b.month then a.month < b.month
    else if a.day != b.day then a.day < b.day
    else if a.hour != b.hour then a.hour < b.hour
    else if a.minute != b.minute then a.minute < b.minute
    else a.second < b.second
  }

  /** Stepping a non-negative count by one moves its quotient by one exactly at multiples. */
  lemma DivStep(p: int, k: int)
    requires p >= 0 && k > 0
    ensures (p + 1) / k - p / k == if (p + 1) % k == 0 then 1 else 0
  {
    var q, r := p / k, p % k;
    assert p == q * k + r && 0 <= r < k;
    if r == k - 1 {
      assert p + 1 == (q + 1) * k;
      DivExact(p + 1, q + 1, k);
    } else {
      assert p + 1 == q * k + (r + 1);
      DivModUnique(p + 1, k, q, r + 1);
    }
  }

  lemma DivExact(n: int, q: int, k: int)
    requires k > 0 && n == q * k
    ensures n / k == q && n % k == 0
  {
    DivModUnique(n, k, q, 0);
  }

  lemma MultipleOfFactor(y: int, a: int, b: int)
    requires a > 0 && b > 0 && y % (a * b) == 0
    ensures y % a == 0
  {
    var q := y / (a * b);
    assert y == q * (a * b);
    assert y == (q * b) * a;
    DivExact(y, q * b, a);
  }

  lemma YearLength(y: int)
    requires y >= 1
    ensures DaysBeforeYear(y + 1) - DaysBeforeYear(y) == if IsLeap(y) then 366 else 365
  {
    var p := y - 1;
    DivStep(p, 4);
    DivStep(p, 100);
    DivStep(p, 400);
    if y % 100 == 0 {
      MultipleOfFactor(y, 4, 25);
    }
    if y % 400 == 0 {
      MultipleOfFactor(y, 100, 4);
    }
  }

  lemma {:induction false} YearsIncrease(y: int, z: int)
    requires 1 <= y < z
    ensures DaysBeforeYear(y + 1) <= DaysBeforeYear(z)
    decreases z - y
  {
    if y + 1 < z {
      YearsIncrease(y + 1, z);
      YearLength(y + 1);
    }
  }

  lemma MonthsIncrease(y: int, m: int, n: int)
    requires 1 <= m < n <= 12
    ensures DaysBeforeMonth(y, m) + DaysInMonth(y, m) <= DaysBeforeMonth(y, n)
  {
  }

  lemma DayInYear(d: Stamp)
    ensures DaysBeforeYear(d.year) < Ordinal(d) <= DaysBeforeYear(d.year + 1)
  {
    YearLength(d.year);
    if d.month < 12 {
      MonthsIncrease(d.year, d.month, 12);
    }
  }

  lemma OrdinalOrder(a: Stamp, b: Stamp)
    requires (a.year, a.month, a.day) != (b.year, b.month, b.day)
    ensures Ordinal(a) < Ordinal(b) <==>
      (a.year < b.year || (a.year == b.year && (a.month < b.month || (a.month == b.month && a.day < b.day))))
  {
    DayInYear(a);
    DayInYear(b);
    if a.year < b.year {
      YearsIncrease(a.year, b.year);
    } else if b.year < a.year {
      YearsIncrease(b.year, a.year);
    } else if a.month < b.month {
      MonthsIncrease(a.year, a.month, b.month);
    } else if b.month < a.month {
      MonthsIncrease(a.year, b.month, a.month);
    }
  }

  /**
    The second count orders timestamps exactly as Python compares datetimes,
    so a difference of second counts is negative exactly when the second
    timestamp lies before the first.
   */
  lemma SecondsOrder(a: Stamp, b: Stamp)
    ensures Seconds(a) < Seconds(b) <==> Before(a, b)
    ensures Seconds(a) == Seconds(b) <==> a == b
  {
    var sa := a.hour * 3600 + a.minute * 60 + a.second;
    var sb := b.hour * 3600 + b.minute * 60 + b.second;
    assert 0 <= sa < 86400 && 0 <= sb < 86400;
    if (a.year, a.month, a.day) != (b.year, b.month, b.day) {
      OrdinalOrder(a, b);
      OrdinalOrder(b, a);
    }
  }

  // ---------------------------------------------------------------------------
  // The fixed-width layout YYYY-MM-DD HH:MM:SS

  function Pow10(w: nat): nat {
    if w == 0 then 1 else 10 * Pow10(w - 1)
  }

  /** `n` as exactly `w` decimal digits, zero-padded (`%04d`, `%02d`). */
  function Pad(n: nat, w: nat): (r: string)
    ensures |r| == w
    ensures forall i :: 0 <= i < |r| ==> IsDigit(r[i])
  {
    if w == 0 then [] else Pad(n / 10, w - 1) + [DigitChar(n % 10)]
  }

  lemma {:induction false} PadValue(n: nat, w: nat)
    requires n < Pow10(w)
    ensures GroupedValue(Pad(n, w)) == n
  {
    if w > 0 {
      var r := Pad(n, w);
      assert r[..w - 1] == Pad(n / 10, w - 1);
      PadValue(n / 10, w - 1);
    }
  }

  lemma {:induction false} ValuePad(ds: string)
    requires forall i :: 0 <= i < |ds| ==> IsDigit(ds[i])
    ensures GroupedValue(ds) < Pow10(|ds|)
    ensures Pad(GroupedValue(ds), |ds|) == ds
  {
    if |ds| > 0 {
      var init := ds[..|ds| - 1];
      ValuePad(init);
      var v := GroupedValue(ds);
      assert v == GroupedValue(init) * 10 + DigitValue(ds[|ds| - 1]);
      assert v / 10 == GroupedValue(init) && v % 10 == DigitValue(ds[|ds| - 1]);
      assert DigitChar(v % 10) == ds[|ds| - 1];
      assert ds == init + [ds[|ds| - 1]];
    }
  }

  predicate IsoSeparatorAt(i: int) {
    i == 4 || i == 7 || i == 10 || i == 13 || i == 16
  }

  predicate IsoShape(s: string) {
    && |s| == 19
    && s[4] == '-' && s[7] == '-' && s[10] == ' ' && s[13] == ':' && s[16] == ':'
    && forall i :: 0 <= i < 19 && !IsoSeparatorAt(i) ==> IsDigit(s[i])
  }

  function Field(s: string, lo: nat, hi: nat): nat
    requires lo <= hi <= |s|
    requires forall i :: lo <= i < hi ==> IsDigit(s[i])
  {
    GroupedValue(s[lo..hi])
  }

  /** The first `strptime` attempt, for the fixed-width layout. */
  function ParseIso(s: string): (r: Option<Stamp>)
    ensures r.Some? ==> IsoShape(s)
  {
    if IsoShape(s) then
      var d := DateTime(Field(s, 0, 4), Field(s, 5, 7), Field(s, 8, 10),
                        Field(s, 11, 13), Field(s, 14, 16), Field(s, 17, 19));
      if ValidDateTime(d) then Some(d) else None
    else None
  }

  /** `d.strftime('%Y-%m-%d %H:%M:%S')`. */
  function FormatIso(d: Stamp): (r: string)
    ensures |r| == 19
  {
    Pad(d.year, 4) + "-" + Pad(d.month, 2) + "-" + Pad(d.day, 2) + " "
      + Pad(d.hour, 2) + ":" + Pad(d.minute, 2) + ":" + Pad(d.second, 2)
  }

  /** `d.strftime('%Y-%m-%d')`, the day key of the history view. */
  function FormatDate(d: Stamp): (r: string)
    ensures |r| == 10
  {
    Pad(d.year, 4) + "-" + Pad(d.month, 2) + "-" + Pad(d.day, 2)
  }

  lemma FormatIsoSlices(d: Stamp)
    ensures var s := FormatIso(d);
      && s[0..4] == Pad(d.year, 4) && s[5..7] == Pad(d.month, 2) && s[8..10] == Pad(d.day, 2)
      && s[11..13] == Pad(d.hour, 2) && s[14..16] == Pad(d.minute, 2) && s[17..19] == Pad(d.second, 2)
      && s[4] == '-' && s[7] == '-' && s[10] == ' ' && s[13] == ':' && s[16] == ':'
  {
  }

  /** Formatting a timestamp and parsing it back gives the same timestamp. */
  lemma ParseFormatIso(d: Stamp)
    ensures ParseIso(FormatIso(d)) == Some(d)
  {
    var s := FormatIso(d);
    FormatIsoSlices(d);
    assert IsoShape(s) by {
      forall i | 0 <= i < 19 && !IsoSeparatorAt(i)
        ensures IsDigit(s[i])
      {
        if i < 4 { assert s[i] == s[0..4][i]; }
        else if i < 7 { assert s[i] == s[5..7][i - 5]; }
        else if i < 10 { assert s[i] == s[8..10][i - 8]; }
        else if i < 13 { assert s[i] == s[11..13][i - 11]; }
        else if i < 16 { assert s[i] == s[14..16][i - 14]; }
        else { assert s[i] == s[17..19][i - 17]; }
      }
    }
    PadValue(d.year, 4);
    PadValue(d.month, 2);
    PadValue(d.day, 2);
    PadValue(d.hour, 2);
    PadValue(d.minute, 2);
    PadValue(d.second, 2);
  }

  /** A string the fixed-width parser accepts is exactly the formatted value. */
  lemma FormatParseIso(s: string)
    requires ParseIso(s).Some?
    ensures FormatIso(ParseIso(s).value) == s
  {
    var d := ParseIso(s).value;
    ValuePad(s[0..4]);
    ValuePad(s[5..7]);
    ValuePad(s[8..10]);
    ValuePad(s[11..13]);
    ValuePad(s[14..16]);
    ValuePad(s[17..19]);
    FormatIsoSlices(d);
    IsoEqualBySlices(FormatIso(d), s);
  }

  /** Two strings of the fixed-width layout agree when their fields and separators agree. */
  lemma IsoEqualBySlices(f: string, s: string)
    requires |f| == 19 && |s| == 19
    requires f[0..4] == s[0..4] && f[5..7] == s[5..7] && f[8..10] == s[8..10]
    requires f[11..13] == s[11..13] && f[14..16] == s[14..16] && f[17..19] == s[17..19]
    requires f[4] == s[4] && f[7] == s[7] && f[10] == s[10] && f[13] == s[13] && f[16] == s[16]
    ensures f == s
  {
    forall i | 0 <= i < 19
      ensures f[i] == s[i]
    {
      if i < 4 { assert f[i] == f[0..4][i] && s[i] == s[0..4][i]; }
      else if i == 4 || i == 7 || i == 10 || i == 13 || i == 16 { }
      else if i < 7 { assert f[i] == f[5..7][i - 5] && s[i] == s[5..7][i - 5]; }
      else if i < 10 { assert f[i] == f[8..10][i - 8] && s[i] == s[8..10][i - 8]; }
      else if i < 13 { assert f[i] == f[11..13][i - 11] && s[i] == s[11..13][i - 11]; }
      else if i < 16 { assert f[i] == f[14..16][i - 14] && s[i] == s[14..16][i - 14]; }
      else { assert f[i] == f[17..19][i - 17] && s[i] == s[17..19][i - 17]; }
    }
  }

  // ---------------------------------------------------------------------------
  // parse_openvpn_time / parse_dt

  /**
    Try the fixed-width layout first and the other formats second; the first
    success wins, `None` when neither accepts the string.
   */
  function ParseTime(s: string, otherFormats: TimeParser): (r: Option<Stamp>)
    ensures ParseIso(s).Some? ==> r == ParseIso(s)
    ensures ParseIso(s).None? ==> r == otherFormats(s)
  {
    match ParseIso(s)
    case Some(d) => Some(d)
    case None => otherFormats(s)
  }

  /** A timestamp written by `strftime` is read back as itself, whatever the other formats do. */
  lemma ParseTimeOfFormat(d: Stamp, otherFormats: TimeParser)
    ensures ParseTime(FormatIso(d), otherFormats) == Some(d)
  {
    ParseFormatIso(d);
  }

  /**
    `parse_openvpn_time` (and its twin `parse_dt`) as a value that can be
    handed to the code that uses it: every written timestamp reads back.
   */
  function OpenvpnTime(otherFormats: TimeParser): (parse: TimeParser)
    ensures forall d: Stamp :: parse(FormatIso(d)) == Some(d)
  {
    var parse: TimeParser := s => ParseTime(s, otherFormats);
    assert forall d: Stamp :: parse(FormatIso(d)) == Some(d) by {
      forall d: Stamp ensures parse(FormatIso(d)) == Some(d) {
        ParseTimeOfFormat(d, otherFormats);
      }
    }
    parse
  }
}
