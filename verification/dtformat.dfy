/** The fixed datetime text format `DT_FMT = '%Y-%m-%dT%H:%M:%SZ'` of
    `ghstats/utils.py`: the `Z` form of an RFC 3339 (section 5.6) date-time,
    its `strftime` rendering, its `strptime` parsing, the loose `is_dt_str`
    test, and the epoch-second conversions. */
module DtFormat {
  import opened Base
  import opened PyStr
  import opened Calendar
  import opened Values

  // ---------------------------------------------------------------------
  // dt_to_str

  /** The sixteen characters after the year. */
  function Suffix(dt: DateTime): (s: string)
    ensures |s| == 16
  {
    "-" + Pad2(dt.month) + "-" + Pad2(dt.day) + "T"
      + Pad2(dt.hour) + ":" + Pad2(dt.minute) + ":" + Pad2(dt.second) + "Z"
  }

  /** `dt.strftime(DT_FMT)`. `%Y` is rendered as the C library on Linux
      renders it: the year's digits, not padded below the year 1000. */
  function DtToStr(dt: DateTime): string
  {
    Decimal(dt.year) + Suffix(dt)
  }

  // ---------------------------------------------------------------------
  // parse_dt

  /** The directives after `%Y`, in format order. */
  datatype Field = MonthField | DayField | HourField | MinuteField | SecondField

  function FieldMin(f: Field): nat
  {
    if f == MonthField || f == DayField then 1 else 0
  }

  /** The largest value the directive's regular expression admits; `%S`
      admits the leap seconds 60 and 61, which `datetime` then refuses. */
  function FieldMax(f: Field): nat
  {
    match f
    case MonthField => 12
    case DayField => 31
    case HourField => 23
    case MinuteField => 59
    case SecondField => 61
  }

  /** The text a directive's regular expression in `_strptime` matches:
      one digit, two digits in range, or for `%d` a space and a digit. */
  predicate TokenOk(f: Field, t: string)
  {
    if |t| == 1 then IsDigit(t[0]) && FieldMin(f) <= DigitValue(t[0])
    else if |t| == 2 then
      if t[0] == ' ' then f == DayField && IsDigit(t[1]) && 1 <= DigitValue(t[1])
      else AllDigits(t) && FieldMin(f) <= DigitsValue(t) <= FieldMax(f)
    else false
  }

  function TokenValue(f: Field, t: string): (v: nat)
    requires TokenOk(f, t)
    ensures FieldMin(f) <= v <= FieldMax(f)
  {
    if |t| == 1 then DigitValue(t[0])
    else if t[0] == ' ' then DigitValue(t[1])
    else DigitsValue(t)
  }

  /** A literal of the format; `strptime` matches ignoring case. */
  predicate LiteralMatches(c: char, lit: char)
  {
    ToLowerAscii(c) == ToLowerAscii(lit)
  }

  /** One directive at position `i` followed by its literal: the two-character
      alternatives first, then the one-character one, as the regular
      expression's alternation and backtracking do. Gives the value and the
      position after the literal. */
  function ScanField(s: string, i: nat, f: Field, lit: char): (r: Option<(nat, nat)>)
    ensures r.Some? ==> i + 2 <= r.value.1 <= i + 3 && r.value.1 <= |s|
    ensures r.Some? ==> FieldMin(f) <= r.value.0 <= FieldMax(f)
    ensures r.Some? ==> LiteralMatches(s[r.value.1 - 1], lit)
  {
    if i + 3 <= |s| && TokenOk(f, s[i..i + 2]) && LiteralMatches(s[i + 2], lit) then
      Some((TokenValue(f, s[i..i + 2]), i + 3))
    else if i + 2 <= |s| && TokenOk(f, s[i..i + 1]) && LiteralMatches(s[i + 1], lit) then
      Some((TokenValue(f, s[i..i + 1]), i + 2))
    else None
  }

  /** `datetime.strptime(s, DT_FMT)` localized to UTC; `None` where Python
      raises `ValueError` (no match, unconverted data, year 0, a day past the
      month's end, a leap second). */
  function ParseDt(s: string): Option<DateTime>
  {
    if |s| < 5 || !AllDigits(s[..4]) || s[4] != '-' then None
    else
      var year := DigitsValue(s[..4]);
      FourDigitsBound(s[..4]);
      var mo :- ScanField(s, 5, MonthField, '-');
      var da :- ScanField(s, mo.1, DayField, 'T');
      var ho :- ScanField(s, da.1, HourField, ':');
      var mi :- ScanField(s, ho.1, MinuteField, ':');
      var se :- ScanField(s, mi.1, SecondField, 'Z');
      if se.1 != |s| then None
      else if year < MinYear || da.0 > DaysInMonth(year, mo.0) || se.0 > 59 then None
      else
        var dt: DateTime := Civil(year, mo.0, da.0, ho.0, mi.0, se.0);
        Some(dt)
  }

  /** The strings `dt_to_str` produces for the years 1000..9999. */
  predicate CanonicalDtText(s: string)
  {
    && |s| == 20
    && s[4] == '-' && s[7] == '-' && s[10] == 'T' && s[13] == ':' && s[16] == ':' && s[19] == 'Z'
    && AllDigits(s[..4]) && s[0] != '0'
    && AllDigits(s[5..7]) && AllDigits(s[8..10]) && AllDigits(s[11..13])
    && AllDigits(s[14..16]) && AllDigits(s[17..19])
  }

  lemma DtToStrShape(dt: DateTime)
    requires dt.year >= 1000
    ensures CanonicalDtText(DtToStr(dt))
    ensures DtToStr(dt)[..4] == Decimal(dt.year)
    ensures DtToStr(dt)[5..7] == Pad2(dt.month) && DtToStr(dt)[8..10] == Pad2(dt.day)
    ensures DtToStr(dt)[11..13] == Pad2(dt.hour) && DtToStr(dt)[14..16] == Pad2(dt.minute)
    ensures DtToStr(dt)[17..19] == Pad2(dt.second)
  {
    FourDigitDecimal(dt.year);
    var s := DtToStr(dt);
    var y := Decimal(dt.year);
    var suf := Suffix(dt);
    assert s == y + suf;
    assert s[..4] == y;
    assert s[4..] == suf;
    assert suf[1..3] == Pad2(dt.month) && suf[4..6] == Pad2(dt.day);
    assert suf[7..9] == Pad2(dt.hour) && suf[10..12] == Pad2(dt.minute);
    assert suf[13..15] == Pad2(dt.second);
    assert s[5..7] == suf[1..3] && s[8..10] == suf[4..6] && s[11..13] == suf[7..9];
    assert s[14..16] == suf[10..12] && s[17..19] == suf[13..15];
    assert y[0] != '0' by {
      if y[0] == '0' {
        DecimalRoundTrip(dt.year);
        LeadingZeroSmall(y);
      }
    }
  }

  /** A four-digit numeral starting with 0 is below 1000. */
  lemma LeadingZeroSmall(t: string)
    requires |t| == 4 && AllDigits(t) && t[0] == '0'
    ensures DigitsValue(t) < 1000
  {
    assert t[..1][..0] == [];
    assert t[..2][..1] == t[..1];
    assert t[..3][..2] == t[..2];
    assert DigitsValue(t[..1]) == 0;
    assert DigitsValue(t[..2]) < 10;
    assert DigitsValue(t[..3]) < 100;
  }

  /** Parsing what `dt_to_str` renders gives the datetime back, for every
      year `%Y` renders with four digits. */
  lemma ParseDtToStr(dt: DateTime)
    requires dt.year >= 1000
    ensures ParseDt(DtToStr(dt)) == Some(dt)
  {
    var s := DtToStr(dt);
    DtToStrShape(dt);
    DecimalRoundTrip(dt.year);
    assert ScanField(s, 5, MonthField, '-') == Some((dt.month, 8));
    assert ScanField(s, 8, DayField, 'T') == Some((dt.day, 11));
    assert ScanField(s, 11, HourField, ':') == Some((dt.hour, 14));
    assert ScanField(s, 14, MinuteField, ':') == Some((dt.minute, 17));
    assert ScanField(s, 17, SecondField, 'Z') == Some((dt.second, 20));
  }

  /** In canonical text every field is read at full width. */
  lemma ScanCanonical(s: string, i: nat, f: Field, lit: char)
    requires i + 3 <= |s| && AllDigits(s[i..i + 2]) && !IsDigit(lit)
    requires ScanField(s, i, f, lit).Some?
    ensures ScanField(s, i, f, lit) == Some((DigitsValue(s[i..i + 2]), i + 3))
  {
    assert IsDigit(s[i..i + 2][1]);
    assert s[i + 1] == s[i..i + 2][1];
    assert !LiteralMatches(s[i + 1], lit);
  }

  /** Rendering a parsed canonical string reproduces it exactly. */
  lemma DtToStrParse(s: string)
    requires CanonicalDtText(s) && ParseDt(s).Some?
    ensures DtToStr(ParseDt(s).value) == s
  {
    var dt := ParseDt(s).value;
    CanonicalFields(s);
    DecimalOfDigits(s[..4]);
    Pad2OfDigits(s[5..7]);
    Pad2OfDigits(s[8..10]);
    Pad2OfDigits(s[11..13]);
    Pad2OfDigits(s[14..16]);
    Pad2OfDigits(s[17..19]);
    CanonicalPieces(s);
    RenderPieces(dt, s[..4], s[5..7], s[8..10], s[11..13], s[14..16], s[17..19]);
  }

  /** `dt_to_str` glues the rendered fields together with the format's
      literals. */
  lemma RenderPieces(dt: DateTime, y: string, mo: string, da: string, ho: string, mi: string, se: string)
    requires Decimal(dt.year) == y && Pad2(dt.month) == mo && Pad2(dt.day) == da
    requires Pad2(dt.hour) == ho && Pad2(dt.minute) == mi && Pad2(dt.second) == se
    ensures DtToStr(dt) == y + "-" + mo + "-" + da + "T" + ho + ":" + mi + ":" + se + "Z"
  {
  }

  /** Canonical text is its year digits followed by the pieces a suffix
      is built from. */
  lemma CanonicalPieces(s: string)
    requires CanonicalDtText(s)
    ensures s == s[..4] + "-" + s[5..7] + "-" + s[8..10] + "T" + s[11..13]
      + ":" + s[14..16] + ":" + s[17..19] + "Z"
  {
  }

  /** In canonical text each field of the parse is its two digits. */
  lemma CanonicalFields(s: string)
    requires CanonicalDtText(s) && ParseDt(s).Some?
    ensures var dt := ParseDt(s).value;
      && dt.year == DigitsValue(s[..4])
      && dt.month == DigitsValue(s[5..7]) && dt.day == DigitsValue(s[8..10])
      && dt.hour == DigitsValue(s[11..13]) && dt.minute == DigitsValue(s[14..16])
      && dt.second == DigitsValue(s[17..19])
  {
    ScanCanonical(s, 5, MonthField, '-');
    ScanCanonical(s, 8, DayField, 'T');
    ScanCanonical(s, 11, HourField, ':');
    ScanCanonical(s, 14, MinuteField, ':');
    ScanCanonical(s, 17, SecondField, 'Z');
  }

  /** A string `parse_dt` accepts is re-rendered verbatim exactly when it is
      canonical; other spellings (`t`/`z`, one-digit fields, a space-padded
      day, a year below 1000) come back in canonical form. */
  lemma DtToStrParseIff(s: string)
    requires ParseDt(s).Some?
    ensures DtToStr(ParseDt(s).value) == s <==> CanonicalDtText(s)
  {
    var dt := ParseDt(s).value;
    if CanonicalDtText(s) {
      DtToStrParse(s);
    } else if DtToStr(dt) == s {
      if dt.year >= 1000 {
        DtToStrShape(dt);
      } else {
        ShortYearNotReparsed(dt);
      }
    }
  }

  /** `dt_to_str` never maps two datetimes to the same text. */
  lemma DtToStrInjective(a: DateTime, b: DateTime)
    requires DtToStr(a) == DtToStr(b)
    ensures a == b
  {
    var ya, yb := Decimal(a.year), Decimal(b.year);
    var s := DtToStr(a);
    assert |ya| == |yb|;
    assert s[..|ya|] == ya && s[..|yb|] == yb;
    DecimalRoundTrip(a.year);
    DecimalRoundTrip(b.year);
    var sa, sb := Suffix(a), Suffix(b);
    assert sa == s[|ya|..] == sb;
    assert sa[1..3] == Pad2(a.month) && sb[1..3] == Pad2(b.month);
    assert sa[4..6] == Pad2(a.day) && sb[4..6] == Pad2(b.day);
    assert sa[7..9] == Pad2(a.hour) && sb[7..9] == Pad2(b.hour);
    assert sa[10..12] == Pad2(a.minute) && sb[10..12] == Pad2(b.minute);
    assert sa[13..15] == Pad2(a.second) && sb[13..15] == Pad2(b.second);
  }

  // ---------------------------------------------------------------------
  // dt_to_timestamp, timestamp_to_dt

  /** `dt_to_timestamp(dt)`: seconds since `EPOCH`, in whole seconds. */
  function DtToTimestamp(dt: DateTime): int
  {
    ToSeconds(dt)
  }

  /** `timestamp_to_dt(ts)`: `EPOCH + timedelta(seconds=ts)`, which raises
      `OverflowError` outside the datetime range. */
  function TimestampToDt(ts: int): (r: Result<DateTime>)
    ensures r.Ok? <==> MinSeconds <= ts <= MaxSeconds
    ensures r.Err? ==> r.error == OverflowError
    ensures r.Ok? ==> DtToTimestamp(r.value) == ts
  {
    if MinSeconds <= ts <= MaxSeconds then Ok(FromSeconds(ts)) else Err(OverflowError)
  }

  /** Converting a datetime to its timestamp and back is the identity. */
  lemma TimestampRoundTrip(dt: DateTime)
    ensures TimestampToDt(DtToTimestamp(dt)) == Ok(dt)
  {
    FromSecondsToSeconds(dt);
  }

  // ---------------------------------------------------------------------
  // is_dt_str

  /** `is_dt_str(o)`, test by test. The `'T'` test also accepts a trailing
      `T`, which is already a `T` in the string; the separator test rejects
      only when neither the `-` count nor the `:` count is 2. */
  predicate IsDtStr(o: Value)
  {
    if !o.Str? then false
    else if |o.s| != 20 then false
    else if 'T' !in o.s && !(|o.s| > 0 && o.s[|o.s| - 1] == 'T') then false
    else if Count(o.s, '-') != 2 && Count(o.s, ':') != 2 then false
    else true
  }

  /** What `is_dt_str` actually accepts, in one line. */
  lemma IsDtStrIff(o: Value)
    ensures IsDtStr(o) <==>
      o.Str? && |o.s| == 20 && 'T' in o.s && (Count(o.s, '-') == 2 || Count(o.s, ':') == 2)
  {
  }

  /** A numeral holds no separator. */
  lemma DigitsHoldNoSeparator(p: string)
    requires AllDigits(p)
    ensures Count(p, '-') == 0 && Count(p, ':') == 0
  {
    assert '-' !in p && ':' !in p;
    CountAbsent(p, '-');
    CountAbsent(p, ':');
  }

  /** Dashes and colons add up over a concatenation. */
  lemma SeparatorsAppend(a: string, b: string)
    ensures Count(a + b, '-') == Count(a, '-') + Count(b, '-')
    ensures Count(a + b, ':') == Count(a, ':') + Count(b, ':')
  {
    CountAppend(a, b, '-');
    CountAppend(a, b, ':');
  }

  /** The month-day-time part holds two dashes and two colons. */
  lemma SuffixCounts(dt: DateTime)
    ensures Count(Suffix(dt), '-') == 2 && Count(Suffix(dt), ':') == 2
  {
    var p1, p2, p3, p4, p5 := Pad2(dt.month), Pad2(dt.day), Pad2(dt.hour), Pad2(dt.minute), Pad2(dt.second);
    DigitsHoldNoSeparator(p1);
    DigitsHoldNoSeparator(p2);
    DigitsHoldNoSeparator(p3);
    DigitsHoldNoSeparator(p4);
    DigitsHoldNoSeparator(p5);
    var s1 := "-" + p1;
    SeparatorsAppend("-", p1);
    var s2 := s1 + "-";
    SeparatorsAppend(s1, "-");
    var s3 := s2 + p2;
    SeparatorsAppend(s2, p2);
    var s4 := s3 + "T";
    SeparatorsAppend(s3, "T");
    var s5 := s4 + p3;
    SeparatorsAppend(s4, p3);
    var s6 := s5 + ":";
    SeparatorsAppend(s5, ":");
    var s7 := s6 + p4;
    SeparatorsAppend(s6, p4);
    var s8 := s7 + ":";
    SeparatorsAppend(s7, ":");
    var s9 := s8 + p5;
    SeparatorsAppend(s8, p5);
    SeparatorsAppend(s9, "Z");
  }

  /** Every rendering of a year 1000..9999 passes `is_dt_str`. */
  lemma IsDtStrAcceptsDtToStr(dt: DateTime)
    requires dt.year >= 1000
    ensures IsDtStr(Str(DtToStr(dt)))
  {
    var s := DtToStr(dt);
    DtToStrShape(dt);
    assert s[10] == 'T';
    var y := Decimal(dt.year);
    DigitsHoldNoSeparator(y);
    SuffixCounts(dt);
    SeparatorsAppend(y, Suffix(dt));
  }

  /** Twenty characters holding a `T` and exactly two dashes pass `is_dt_str`,
      whatever the rest looks like. */
  lemma TwoDashesPassIsDtStr(p: string, q: string, r: string)
    requires '-' !in p && '-' !in q && '-' !in r && 'T' in r
    requires |p| + |q| + |r| == 18
    ensures IsDtStr(Str(p + "-" + q + "-" + r))
  {
    var s := p + "-" + q + "-" + r;
    CountAbsent(p, '-');
    CountAbsent(q, '-');
    CountAbsent(r, '-');
    CountAppend(p, "-", '-');
    CountAppend(p + "-", q, '-');
    CountAppend(p + "-" + q, "-", '-');
    CountAppend(p + "-" + q + "-", r, '-');
    var i :| 0 <= i < |r| && r[i] == 'T';
    assert s[|p| + |q| + 2 + i] == 'T';
  }

  /** `is_dt_str` is looser than `parse_dt`: it passes text that `parse_dt`
      then rejects (here `2018-01-01T00.00.00Z`), so the rewriting that
      trusts it raises `ValueError`. */
  lemma IsDtStrAcceptsUnparsable()
    ensures exists s :: IsDtStr(Str(s)) && ParseDt(s) == None
  {
    var s := DottedTime("2018", "01", "01T00.00.00Z");
    DottedTimePasses("2018", "01", "01T00.00.00Z");
    DottedTimeRejected("2018", "01", "01T00.00.00Z");
    assert IsDtStr(Str(s)) && ParseDt(s) == None;
  }

  function DottedTime(p: string, q: string, r: string): string
  {
    p + "-" + q + "-" + r
  }

  lemma DottedTimePasses(p: string, q: string, r: string)
    requires p == "2018" && q == "01" && r == "01T00.00.00Z"
    ensures IsDtStr(Str(DottedTime(p, q, r)))
  {
    assert r[2] == 'T';
    TwoDashesPassIsDtStr(p, q, r);
  }

  lemma DottedTimeRejected(p: string, q: string, r: string)
    requires p == "2018" && q == "01" && r == "01T00.00.00Z"
    ensures ParseDt(DottedTime(p, q, r)) == None
  {
    var s := DottedTime(p, q, r);
    assert s[..13] == "2018-01-01T00";
    DotInTimeRejected(s);
  }

  /** A dot where the hour's colon belongs fails the match, whatever the
      year, month and day are: it is enough that the characters before the
      two dashes' and the colon's places are digits, as in every text of the
      `YYYY-MM-DDTHH` shape. */
  lemma DotInTimeRejected(s: string)
    requires |s| >= 14 && IsDigit(s[6]) && IsDigit(s[9]) && IsDigit(s[12]) && s[13] == '.'
    ensures ParseDt(s) == None
  {
    assert !LiteralMatches(s[6], '-') && !LiteralMatches(s[9], 'T');
    assert !LiteralMatches(s[12], ':') && !LiteralMatches(s[13], ':');
    var mo := ScanField(s, 5, MonthField, '-');
    if mo.Some? {
      assert mo.value.1 == 8;
      var da := ScanField(s, 8, DayField, 'T');
      if da.Some? {
        assert da.value.1 == 11;
        assert ScanField(s, 11, HourField, ':') == None;
      }
    }
  }

  /** A year below 1000 renders too short for `is_dt_str` and `parse_dt`. */
  lemma ShortYearNotReparsed(dt: DateTime)
    requires dt.year < 1000
    ensures !IsDtStr(Str(DtToStr(dt)))
    ensures ParseDt(DtToStr(dt)) == None
  {
    ShortDecimal(dt.year);
    ShortYearDash(dt);
  }

  /** With at most three year digits, a dash sits within the first four
      characters. */
  lemma ShortYearDash(dt: DateTime)
    requires |Decimal(dt.year)| <= 3
    ensures |DtToStr(dt)| < 20 && DtToStr(dt)[|Decimal(dt.year)|] == '-'
    ensures ParseDt(DtToStr(dt)) == None
  {
    var y := Decimal(dt.year);
    var s := DtToStr(dt);
    assert s == y + Suffix(dt);
    assert s[|y|] == Suffix(dt)[0] == '-';
    if |s| >= 5 {
      assert s[..4][|y|] == '-';
      assert !IsDigit('-');
    }
  }
}
