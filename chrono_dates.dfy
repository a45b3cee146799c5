/** Calendar values with the behaviour of the `chrono` calls the engine makes:
    `NaiveDate::from_ymd_opt`, the `%Y-%m-%d` rendering, and
    `parse_from_str` for formats made only of numeric fields and literals
    (`%Y-%m-%d`, `%Y%m%d%H%M%S`). */
module ChronoDates {
  import opened Text

  /** The year range `NaiveDate` supports. */
  const MinYear: int := -262144
  const MaxYear: int := 262143

  predicate IsLeapYear(y: int) {
    y % 4 == 0 && (y % 100 != 0 || y % 400 == 0)
  }

  function DaysInMonth(y: int, m: int): (n: int)
    requires 1 <= m <= 12
    ensures 28 <= n <= 31
  {
    if m == 2 then (if IsLeapYear(y) then 29 else 28)
    else if m == 4 || m == 6 || m == 9 || m == 11 then 30
    else 31
  }

  /** `NaiveDate::from_ymd_opt(y, m, d).is_some()`. */
  predicate ValidYmd(y: int, m: int, d: int) {
    MinYear <= y <= MaxYear && 1 <= m <= 12 && 1 <= d <= DaysInMonth(y, m)
  }

  datatype Ymd = Ymd(year: int, month: int, day: int)

  /** `chrono::NaiveDate`: a valid proleptic Gregorian date. */
  type NaiveDate = d: Ymd | ValidYmd(d.year, d.month, d.day) witness Ymd(1970, 1, 1)

  /** `NaiveDate::from_ymd_opt`. */
  function FromYmd(y: int, m: int, d: int): (r: Option<NaiveDate>)
    ensures r.Some? <==> ValidYmd(y, m, d)
    ensures r.Some? ==> r.value == Ymd(y, m, d)
  {
    if ValidYmd(y, m, d) then Some(Ymd(y, m, d)) else None
  }

  /** A time of day; a leap second is a nanosecond count of a billion or more. */
  datatype Hms = Hms(hour: int, minute: int, second: int, nano: int)

  predicate ValidTime(t: Hms) {
    0 <= t.hour < 24 && 0 <= t.minute < 60 && 0 <= t.second < 60
    && 0 <= t.nano < 2_000_000_000
  }

  type NaiveTime = t: Hms | ValidTime(t) witness Hms(0, 0, 0, 0)

  /** `DateTime<Utc>` (and `NaiveDateTime`): a date and a time of day in UTC. */
  datatype Timestamp = Timestamp(date: NaiveDate, time: NaiveTime)

  // ---------------------------------------------------------------------
  // Formatting

  /** `%Y`: four digits for years 0 to 9999, otherwise an explicit sign and
      at least four digits. */
  function FormatYear(y: int): (s: string)
    ensures 0 <= y <= 9999 ==> |s| == 4 && AllDigits(s)
  {
    if 0 <= y <= 9999 then
      PadZerosValue(y, 4);
      assert y < Pow10(4);
      PadZeros(y, 4)
    else if y < 0 then "-" + PadZeros(-y, 4)
    else "+" + PadZeros(y, 4)
  }

  /** `%m` and `%d`: two digits, zero-padded. */
  function FormatTwo(n: nat): string {
    PadZeros(n, 2)
  }

  /** `format("%Y-%m-%d")`. */
  function FormatYmd(d: NaiveDate): string {
    FormatYear(d.year) + "-" + FormatTwo(d.month) + "-" + FormatTwo(d.day)
  }

  // ---------------------------------------------------------------------
  // Parsing

  datatype Field = YearField | MonthField | DayField | HourField | MinuteField | SecondField

  /** A format item: a numeric field (`%Y`, `%m`, …) or literal text. */
  datatype Item = Num(field: Field) | Lit(text: string)

  /** `%Y-%m-%d` */
  const YmdFormat: seq<Item> := [Num(YearField), Lit("-"), Num(MonthField), Lit("-"), Num(DayField)]

  /** `%Y%m%d%H%M%S` */
  const CompactFormat: seq<Item> :=
    [Num(YearField), Num(MonthField), Num(DayField), Num(HourField), Num(MinuteField), Num(SecondField)]

  /** At most `width` leading ASCII digits of `s`, at least one, as a number,
      with the rest of the input. */
  function ScanNumber(s: string, width: nat): (r: Option<(nat, string)>)
    ensures r.Some? ==> |r.value.1| < |s|
  {
    var run := DigitRunLen(s);
    var n := if run < width then run else width;
    if n == 0 then None else Some((DigitsValue(s[..n]), s[n..]))
  }

  /** One numeric field: leading whitespace is skipped; a year may carry an
      explicit sign, and then takes any number of digits, otherwise at most
      four; every other field takes at most two digits. */
  function ScanField(s: string, f: Field): (r: Option<(int, string)>)
    ensures r.Some? ==> |r.value.1| < |s|
  {
    ScanTrimmed(TrimStart(s), f)
  }

  function ScanTrimmed(t: string, f: Field): (r: Option<(int, string)>)
    ensures r.Some? ==> |r.value.1| < |t|
  {
    if f == YearField && |t| > 0 && (t[0] == '-' || t[0] == '+') then
      var n := ScanNumber(t[1..], |t| - 1);
      if n.None? then None
      else Some((ApplySign(t[0], n.value.0), n.value.1))
    else
      var n := ScanNumber(t, FieldWidth(f));
      if n.None? then None else Some((n.value.0 as int, n.value.1))
  }

  function ApplySign(sign: char, v: nat): int {
    if sign == '-' then 0 - v else v
  }

  /** How many digits an unsigned field takes at most. */
  function FieldWidth(f: Field): nat {
    if f == YearField then 4 else 2
  }

  /** The range a field value must lie in when it is stored. */
  predicate InFieldRange(f: Field, v: int) {
    match f
    case YearField => I32Min <= v <= I32Max
    case MonthField => 1 <= v <= 12
    case DayField => 1 <= v <= 31
    case HourField => 0 <= v <= 23
    case MinuteField => 0 <= v <= 59
    case SecondField => 0 <= v <= 60
  }

  /** Matches `items` against the whole of `s`, collecting field values. */
  function ParseItems(s: string, items: seq<Item>, acc: map<Field, int>): (r: Option<map<Field, int>>)
    ensures r.Some? ==> forall f :: f in r.value ==> InFieldRange(f, r.value[f])
    ensures r.Some? ==> forall f :: f in acc ==> f in r.value && r.value[f] == acc[f]
    requires forall f :: f in acc ==> InFieldRange(f, acc[f])
    decreases items
  {
    if |items| == 0 then
      if s == "" then Some(acc) else None
    else match items[0]
      case Lit(text) =>
        if StartsWith(s, text) then ParseItems(s[|text|..], items[1..], acc) else None
      case Num(f) =>
        match ScanField(s, f)
        case None => None
        case Some((v, rest)) =>
          if !InFieldRange(f, v) || (f in acc && acc[f] != v) then None
          else ParseItems(rest, items[1..], acc[f := v])
  }

  /** `NaiveDate::parse_from_str(s, "%Y-%m-%d")`. */
  function ParseYmd(s: string): (r: Option<NaiveDate>)
    ensures r.Some? ==> ValidYmd(r.value.year, r.value.month, r.value.day)
  {
    match ParseItems(s, YmdFormat, map[])
    case None => None
    case Some(m) =>
      if YearField in m && MonthField in m && DayField in m then
        FromYmd(m[YearField], m[MonthField], m[DayField])
      else None
  }

  /** The time of day `chrono` builds from parsed fields: second 60 is a
      leap second, kept as second 59 with an extra billion nanoseconds. */
  function TimeOf(h: int, mi: int, sec: int): (r: Option<NaiveTime>)
    ensures r.Some? <==> 0 <= h <= 23 && 0 <= mi <= 59 && 0 <= sec <= 60
  {
    if !(0 <= h <= 23 && 0 <= mi <= 59 && 0 <= sec <= 60) then None
    else if sec == 60 then Some(Hms(h, mi, 59, 1_000_000_000))
    else Some(Hms(h, mi, sec, 0))
  }

  /** `NaiveDateTime::parse_from_str(s, "%Y%m%d%H%M%S")`. On fourteen ASCII
      digits it reads the fields at fixed positions: year 0-4, month 4-6,
      day 6-8, then hour, minute and second. */
  function ParseCompactTimestamp(s: string): (r: Option<Timestamp>)
    ensures |s| == 14 && AllDigits(s) ==> r == CompactStampByPosition(s)
  {
    var r := match ParseItems(s, CompactFormat, map[])
      case None => None
      case Some(m) => TimestampOf(m);
    if |s| == 14 && AllDigits(s) then
      CompactSuffix(s, 0, map[]);
      assert s[FieldStart(0)..] == s && CompactFormat[0..] == CompactFormat;
      DigitsValueBound(s[0..4]);
      FixedFieldsShape(s);
      r
    else r
  }

  /** The date and time `chrono` builds from parsed fields; the second
      defaults to zero. */
  function TimestampOf(m: map<Field, int>): Option<Timestamp> {
    if YearField in m && MonthField in m && DayField in m && HourField in m && MinuteField in m then
      match FromYmd(m[YearField], m[MonthField], m[DayField])
      case None => None
      case Some(d) =>
        var sec := if SecondField in m then m[SecondField] else 0;
        match TimeOf(m[HourField], m[MinuteField], sec)
        case None => None
        case Some(t) => Some(Timestamp(d, t))
    else None
  }

  // ---------------------------------------------------------------------
  // Properties

  lemma ScanDigits(p: string, q: string, width: nat)
    requires AllDigits(p) && 1 <= |p| <= width
    requires |q| == 0 || !IsAsciiDigit(q[0])
    ensures ScanNumber(p + q, width) == Some((DigitsValue(p), q))
  {
    DigitRunOfPrefix(p, q);
    assert (p + q)[..|p|] == p;
    assert (p + q)[|p|..] == q;
  }

  lemma ScanFieldDigits(p: string, q: string, f: Field)
    requires AllDigits(p) && 1 <= |p| <= FieldWidth(f)
    requires |q| == 0 || !IsAsciiDigit(q[0])
    ensures ScanField(p + q, f) == Some((DigitsValue(p) as int, q))
  {
    DigitsNotTrimmed(p, q);
    ScanDigits(p, q, FieldWidth(f));
    var s := p + q;
    assert TrimStart(s) == s;
    assert f == YearField ==> !(s[0] == '-' || s[0] == '+');
  }

  lemma DigitsNotTrimmed(p: string, q: string)
    requires AllDigits(p) && 1 <= |p|
    ensures TrimStart(p + q) == p + q
  {
    var s := p + q;
    assert s[0] == p[0];
    assert IsAsciiDigit(s[0]);
    assert !IsWhitespace(s[0]);
  }

  lemma ScanFieldSigned(sign: char, p: string, q: string)
    requires sign == '-' || sign == '+'
    requires AllDigits(p) && 1 <= |p|
    requires |q| == 0 || !IsAsciiDigit(q[0])
    ensures ScanField([sign] + (p + q), YearField)
         == Some((ApplySign(sign, DigitsValue(p)), q))
  {
    var t := [sign] + (p + q);
    NotTrimmed(t);
    ScanSignedTrimmed(sign, p, q);
  }

  lemma NotTrimmed(t: string)
    requires |t| > 0 && !IsWhitespace(t[0])
    ensures TrimStart(t) == t
  {
  }

  lemma ScanSignedTrimmed(sign: char, p: string, q: string)
    requires sign == '-' || sign == '+'
    requires AllDigits(p) && 1 <= |p|
    requires |q| == 0 || !IsAsciiDigit(q[0])
    ensures ScanTrimmed([sign] + (p + q), YearField)
         == Some((ApplySign(sign, DigitsValue(p)), q))
  {
    var t := [sign] + (p + q);
    SignedTail(sign, p + q);
    ScanDigits(p, q, |t| - 1);
    SignedUnfold(t, DigitsValue(p), q);
  }

  lemma SignedTail(sign: char, r: string)
    ensures ([sign] + r)[0] == sign && ([sign] + r)[1..] == r
  {
  }

  lemma SignedUnfold(t: string, v: nat, q: string)
    requires |t| > 0 && (t[0] == '-' || t[0] == '+')
    requires ScanNumber(t[1..], |t| - 1) == Some((v, q))
    ensures ScanTrimmed(t, YearField) == Some((ApplySign(t[0], v), q))
  {
  }

  /** The year as `%Y` renders it is read back by the `%Y` field, up to the
      next non-digit. */
  lemma YearRoundTrip(y: int, rest: string)
    requires |rest| == 0 || !IsAsciiDigit(rest[0])
    ensures ScanField(FormatYear(y) + rest, YearField) == Some((y, rest))
  {
    if 0 <= y <= 9999 {
      PadZerosValue(y, 4);
      assert y < Pow10(4);
      ScanFieldDigits(FormatYear(y), rest, YearField);
    } else {
      SignedYearRoundTrip(y, rest);
    }
  }

  lemma SignedYearRoundTrip(y: int, rest: string)
    requires y < 0 || y > 9999
    requires |rest| == 0 || !IsAsciiDigit(rest[0])
    ensures ScanField(FormatYear(y) + rest, YearField) == Some((y, rest))
  {
    var sign := if y < 0 then '-' else '+';
    var n: nat := if y < 0 then -y else y;
    PadZerosValue(n, 4);
    assert FormatYear(y) == [sign] + PadZeros(n, 4);
    assert FormatYear(y) + rest == [sign] + (PadZeros(n, 4) + rest);
    ScanFieldSigned(sign, PadZeros(n, 4), rest);
  }

  lemma TwoDigitRoundTrip(n: nat, rest: string, f: Field)
    requires 1 <= n <= 31 && f != YearField
    requires |rest| == 0 || !IsAsciiDigit(rest[0])
    ensures ScanField(FormatTwo(n) + rest, f) == Some((n as int, rest))
  {
    PadZerosValue(n, 2);
    assert n < Pow10(2);
    ScanFieldDigits(FormatTwo(n), rest, f);
  }

  lemma ParseNumStep(s: string, items: seq<Item>, acc: map<Field, int>, v: int, rest: string)
    requires |items| > 0 && items[0].Num?
    requires forall f :: f in acc ==> InFieldRange(f, acc[f])
    requires ScanField(s, items[0].field) == Some((v, rest))
    requires InFieldRange(items[0].field, v) && items[0].field !in acc
    ensures ParseItems(s, items, acc) == ParseItems(rest, items[1..], acc[items[0].field := v])
  {
  }

  lemma ParseLitStep(s: string, items: seq<Item>, acc: map<Field, int>)
    requires |items| > 0 && items[0].Lit?
    requires forall f :: f in acc ==> InFieldRange(f, acc[f])
    ensures ParseItems(items[0].text + s, items, acc) == ParseItems(s, items[1..], acc)
  {
    var t := items[0].text + s;
    assert t[..|items[0].text|] == items[0].text;
    assert t[|items[0].text|..] == s;
  }

  /** The `-%d` tail of `%Y-%m-%d`. */
  lemma DayTail(day: nat, acc: map<Field, int>)
    requires 1 <= day <= 31 && DayField !in acc
    requires forall f :: f in acc ==> InFieldRange(f, acc[f])
    ensures ParseItems("-" + FormatTwo(day), YmdFormat[3..], acc) == Some(acc[DayField := day])
  {
    var dd := FormatTwo(day);
    ParseLitStep(dd, YmdFormat[3..], acc);
    TwoDigitRoundTrip(day, "", DayField);
    assert dd + "" == dd;
    ParseNumStep(dd, YmdFormat[4..], acc, day, "");
    assert YmdFormat[4..][1..] == [];
  }

  /** The `-%m-%d` tail of `%Y-%m-%d`. */
  lemma MonthDayTail(month: nat, day: nat, acc: map<Field, int>)
    requires 1 <= month <= 12 && 1 <= day <= 31
    requires MonthField !in acc && DayField !in acc
    requires forall f :: f in acc ==> InFieldRange(f, acc[f])
    ensures ParseItems("-" + (FormatTwo(month) + ("-" + FormatTwo(day))), YmdFormat[1..], acc)
         == Some(acc[MonthField := month][DayField := day])
  {
    var rest := "-" + FormatTwo(day);
    assert YmdFormat[1..][0] == Lit("-") && YmdFormat[1..][1..] == YmdFormat[2..];
    assert YmdFormat[2..][0] == Num(MonthField) && YmdFormat[2..][1..] == YmdFormat[3..];
    ParseLitStep(FormatTwo(month) + rest, YmdFormat[1..], acc);
    assert rest[0] == '-';
    TwoDigitRoundTrip(month, rest, MonthField);
    ParseNumStep(FormatTwo(month) + rest, YmdFormat[2..], acc, month, rest);
    DayTail(day, acc[MonthField := month]);
  }

  /** Parsing what `%Y-%m-%d` renders gives the date back, for every date
      `NaiveDate` can hold. */
  lemma ParseFormatYmd(d: NaiveDate)
    ensures ParseYmd(FormatYmd(d)) == Some(d)
  {
    YmdItems(d);
  }

  lemma YmdItems(d: NaiveDate)
    ensures ParseItems(FormatYmd(d), YmdFormat, map[])
         == Some(map[YearField := d.year][MonthField := d.month][DayField := d.day])
  {
    YearStep(d);
    MonthDayTail(d.month, d.day, map[YearField := d.year]);
  }

  /** The `%Y` head of `%Y-%m-%d`. */
  lemma YearStep(d: NaiveDate)
    ensures ParseItems(FormatYmd(d), YmdFormat, map[])
         == ParseItems("-" + (FormatTwo(d.month) + ("-" + FormatTwo(d.day))), YmdFormat[1..], map[YearField := d.year])
  {
    var tail := "-" + (FormatTwo(d.month) + ("-" + FormatTwo(d.day)));
    assert FormatYmd(d) == FormatYear(d.year) + tail;
    YearRoundTrip(d.year, tail);
    ParseNumStep(FormatYmd(d), YmdFormat, map[], d.year, tail);
  }

  /** Reference reading of a 14-digit `%Y%m%d%H%M%S` stamp: fixed slices. */
  function DigitsAt(s: string, i: nat, j: nat): int
    requires i <= j <= |s| && AllDigits(s)
  {
    DigitsValue(s[i..j])
  }

  function CompactStampByPosition(s: string): (r: Option<Timestamp>)
    requires |s| == 14 && AllDigits(s)
  {
    match FromYmd(DigitsAt(s, 0, 4), DigitsAt(s, 4, 6), DigitsAt(s, 6, 8))
    case None => None
    case Some(d) =>
      match TimeOf(DigitsAt(s, 8, 10), DigitsAt(s, 10, 12), DigitsAt(s, 12, 14))
      case None => None
      case Some(t) => Some(Timestamp(d, t))
  }

  lemma FixedField(s: string, f: Field, w: nat)
    requires f != YearField ==> w == 2
    requires f == YearField ==> w == 4
    requires w <= |s| && AllDigits(s)
    ensures ScanField(s, f) == Some((DigitsValue(s[..w]), s[w..]))
  {
    DigitRunAtLeast(s, w);
  }

  /** Where field `i` of `%Y%m%d%H%M%S` starts in a 14-digit stamp. */
  function FieldStart(i: nat): nat {
    if i == 0 then 0 else 2 + 2 * i
  }

  /** The fields a 14-digit stamp yields from field `i` on, when each lies in
      its range. */
  function FixedFields(s: string, i: nat, acc: map<Field, int>): Option<map<Field, int>>
    requires |s| == 14 && AllDigits(s) && i <= 6
    decreases 6 - i
  {
    if i == 6 then Some(acc)
    else
      var f := CompactFormat[i].field;
      var v := DigitsAt(s, FieldStart(i), FieldStart(i + 1));
      if InFieldRange(f, v) then FixedFields(s, i + 1, acc[f := v]) else None
  }

  lemma ParseNumReject(s: string, items: seq<Item>, acc: map<Field, int>, v: int, rest: string)
    requires |items| > 0 && items[0].Num?
    requires forall f :: f in acc ==> InFieldRange(f, acc[f])
    requires ScanField(s, items[0].field) == Some((v, rest))
    requires !InFieldRange(items[0].field, v)
    ensures ParseItems(s, items, acc) == None
  {
  }

  lemma SliceOfSuffix(s: string, a: nat, b: nat)
    requires a <= b <= |s|
    ensures s[a..][..b - a] == s[a..b] && s[a..][b - a..] == s[b..]
  {
  }

  lemma {:induction false} CompactSuffix(s: string, i: nat, acc: map<Field, int>)
    requires |s| == 14 && AllDigits(s) && i <= 6
    requires forall f :: f in acc ==> FieldIndex(f) < i
    requires forall f :: f in acc ==> InFieldRange(f, acc[f])
    ensures ParseItems(s[FieldStart(i)..], CompactFormat[i..], acc) == FixedFields(s, i, acc)
    decreases 6 - i
  {
    var a := FieldStart(i);
    if i == 6 {
      assert CompactFormat[i..] == [];
    } else {
      var f := CompactFormat[i].field;
      var v := DigitsAt(s, a, FieldStart(i + 1));
      FieldIndexOf(i);
      CompactStep(s, i, acc);
      if InFieldRange(f, v) {
        AccExtended(acc, f, v, i, acc[f := v]);
        CompactSuffix(s, i + 1, acc[f := v]);
      }
    }
  }

  lemma AccExtended(acc: map<Field, int>, f: Field, v: int, i: nat, next: map<Field, int>)
    requires FieldIndex(f) == i && InFieldRange(f, v) && next == acc[f := v]
    requires forall g :: g in acc ==> FieldIndex(g) < i
    requires forall g :: g in acc ==> InFieldRange(g, acc[g])
    ensures forall g :: g in next ==> FieldIndex(g) < i + 1
    ensures forall g :: g in next ==> InFieldRange(g, next[g])
  {
  }

  /** The position of a field in `%Y%m%d%H%M%S`. */
  function FieldIndex(f: Field): nat {
    match f
    case YearField => 0
    case MonthField => 1
    case DayField => 2
    case HourField => 3
    case MinuteField => 4
    case SecondField => 5
  }

  lemma FieldIndexOf(i: nat)
    requires i < 6
    ensures FieldIndex(CompactFormat[i].field) == i
  {
  }

  lemma CompactStep(s: string, i: nat, acc: map<Field, int>)
    requires |s| == 14 && AllDigits(s) && i < 6
    requires CompactFormat[i].field !in acc
    requires forall f :: f in acc ==> InFieldRange(f, acc[f])
    ensures var f := CompactFormat[i].field;
      var v := DigitsAt(s, FieldStart(i), FieldStart(i + 1));
      ParseItems(s[FieldStart(i)..], CompactFormat[i..], acc)
      == if InFieldRange(f, v) then ParseItems(s[FieldStart(i + 1)..], CompactFormat[i + 1..], acc[f := v])
         else None
  {
    var a := FieldStart(i);
    var b := FieldStart(i + 1);
    var f := CompactFormat[i].field;
    var v := DigitsAt(s, a, b);
    FixedField(s[a..], f, b - a);
    SliceOfSuffix(s, a, b);
    if InFieldRange(f, v) {
      ParseNumStep(s[a..], CompactFormat[i..], acc, v, s[b..]);
      assert CompactFormat[i..][1..] == CompactFormat[i + 1..];
    } else {
      ParseNumReject(s[a..], CompactFormat[i..], acc, v, s[b..]);
    }
  }

  lemma FixedFieldsShape(s: string)
    requires |s| == 14 && AllDigits(s)
    requires DigitsAt(s, 0, 4) < Pow10(4)
    ensures match FixedFields(s, 0, map[])
      case None => CompactStampByPosition(s) == None
      case Some(m) => TimestampOf(m) == CompactStampByPosition(s)
  {
  }

  /** `%Y-%m-%d` needs a day: a year and a month alone are rejected. */
  lemma YmdRejectsYearMonth(p: string, q: string)
    requires AllDigits(p) && 1 <= |p| <= 4
    requires AllDigits(q) && 1 <= |q| <= 2
    ensures ParseYmd(p + "-" + q) == None
  {
    var tail := "-" + q;
    assert p + "-" + q == p + tail;
    ScanFieldDigits(p, tail, YearField);
    var y := DigitsValue(p) as int;
    ShortDigitsBound(p, 4);
    ParseNumStep(p + tail, YmdFormat, map[], y, tail);
    MonthWithoutDay(q, map[YearField := y]);
  }

  lemma MonthWithoutDay(q: string, acc: map<Field, int>)
    requires AllDigits(q) && 1 <= |q| <= 2
    requires forall f :: f in acc ==> InFieldRange(f, acc[f])
    requires MonthField !in acc
    ensures ParseItems("-" + q, YmdFormat[1..], acc) == None
  {
    ParseLitStep(q, YmdFormat[1..], acc);
    assert q + "" == q;
    ScanFieldDigits(q, "", MonthField);
    var m := DigitsValue(q) as int;
    if InFieldRange(MonthField, m) {
      ParseNumStep(q, YmdFormat[2..], acc, m, "");
      assert !StartsWith("", "-");
    }
  }

  /** `%Y-%m-%d` needs a month: a year alone is rejected. */
  lemma YmdRejectsYear(p: string)
    requires AllDigits(p) && 1 <= |p| <= 4
    ensures ParseYmd(p) == None
  {
    assert p + "" == p;
    ScanFieldDigits(p, "", YearField);
    ShortDigitsBound(p, 4);
    ParseNumStep(p, YmdFormat, map[], DigitsValue(p) as int, "");
    assert !StartsWith("", "-");
  }

  /** `%Y-%m-%d` rejects text that starts with neither whitespace, a sign
      nor a digit. */
  lemma YmdRejectsNonDigit(s: string)
    requires |s| > 0 && !IsWhitespace(s[0]) && !IsAsciiDigit(s[0]) && s[0] != '-' && s[0] != '+'
    ensures ParseYmd(s) == None
  {
    assert TrimStart(s) == s;
    assert DigitRunLen(s) == 0;
    assert ScanField(s, YearField) == None;
  }
}
