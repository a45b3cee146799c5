/** The citation metadata values: the kinds of field, attribute values,
    authors, translated titles and dates of graded precision, with the way
    each is displayed. */
module Attributes {
  import opened Text
  import opened ChronoDates

  /** A field of a reference. */
  datatype AttributeType =
    | Title | Author | Locale | Language | Site | Date | ArchiveDate | Url
    | ArchiveUrl | Type | Journal | Publisher | Institution | Volume

  /** Every field kind, in declaration order (the order `iter()` yields). */
  const AllTypes: seq<AttributeType> :=
    [AttributeType.Title, AttributeType.Author, AttributeType.Locale, AttributeType.Language,
     AttributeType.Site, AttributeType.Date, AttributeType.ArchiveDate, AttributeType.Url,
     AttributeType.ArchiveUrl, AttributeType.Type, AttributeType.Journal,
     AttributeType.Publisher, AttributeType.Institution, AttributeType.Volume]

  lemma AllTypesListsEachOnce()
    ensures forall t: AttributeType :: t in AllTypes
    ensures forall i, j :: 0 <= i < j < |AllTypes| ==> AllTypes[i] != AllTypes[j]
  {
    forall t: AttributeType
      ensures t in AllTypes
    {
      match t
      case Title => assert AllTypes[0] == t;
      case Author => assert AllTypes[1] == t;
      case Locale => assert AllTypes[2] == t;
      case Language => assert AllTypes[3] == t;
      case Site => assert AllTypes[4] == t;
      case Date => assert AllTypes[5] == t;
      case ArchiveDate => assert AllTypes[6] == t;
      case Url => assert AllTypes[7] == t;
      case ArchiveUrl => assert AllTypes[8] == t;
      case Type => assert AllTypes[9] == t;
      case Journal => assert AllTypes[10] == t;
      case Publisher => assert AllTypes[11] == t;
      case Institution => assert AllTypes[12] == t;
      case Volume => assert AllTypes[13] == t;
    }
  }

  /** A signed 32-bit integer. */
  type I32 = x: int | I32Min <= x <= I32Max

  datatype Author = Person(name: string) | Organization(name: string) | Generic(name: string)

  datatype Translation = Translation(text: string, language: string)

  /** A date of one of four precisions. */
  datatype Date =
    | DateTime(stamp: Timestamp)
    | YearMonthDay(day: NaiveDate)
    | YearMonth(year: I32, month: I32)
    | Year(year: I32)

  datatype Attribute =
    | Title(text: string)
    | TranslatedTitle(translation: Translation)
    | Authors(authors: seq<Author>)
    | Date(date: Date)
    | ArchiveDate(date: Date)
    | Language(text: string)
    | Locale(text: string)
    | Site(text: string)
    | Url(text: string)
    | ArchiveUrl(text: string)
    | Type(text: string)
    | Journal(text: string)
    | Publisher(text: string)
    | Institution(text: string)
    | Volume(text: string)

  /** The field an attribute value fills (a translated title fills the title). */
  function TypeOf(a: Attribute): AttributeType {
    match a
    case Title(_) => AttributeType.Title
    case TranslatedTitle(_) => AttributeType.Title
    case Authors(_) => AttributeType.Author
    case Date(_) => AttributeType.Date
    case ArchiveDate(_) => AttributeType.ArchiveDate
    case Language(_) => AttributeType.Language
    case Locale(_) => AttributeType.Locale
    case Site(_) => AttributeType.Site
    case Url(_) => AttributeType.Url
    case ArchiveUrl(_) => AttributeType.ArchiveUrl
    case Type(_) => AttributeType.Type
    case Journal(_) => AttributeType.Journal
    case Publisher(_) => AttributeType.Publisher
    case Institution(_) => AttributeType.Institution
    case Volume(_) => AttributeType.Volume
  }

  /** The kinds whose value is a plain string. */
  predicate IsTextType(t: AttributeType) {
    t != AttributeType.Author && t != AttributeType.Date && t != AttributeType.ArchiveDate
  }

  /** The plain-string attribute of kind `t`. */
  function TextAttribute(t: AttributeType, s: string): (a: Attribute)
    requires IsTextType(t)
    ensures TypeOf(a) == t
  {
    match t
    case Title => Attribute.Title(s)
    case Locale => Attribute.Locale(s)
    case Language => Attribute.Language(s)
    case Site => Attribute.Site(s)
    case Url => Attribute.Url(s)
    case ArchiveUrl => Attribute.ArchiveUrl(s)
    case Type => Attribute.Type(s)
    case Journal => Attribute.Journal(s)
    case Publisher => Attribute.Publisher(s)
    case Institution => Attribute.Institution(s)
    case Volume => Attribute.Volume(s)
  }

  // ---------------------------------------------------------------------
  // Display

  /** `{:02}` on an `i32`: at least two characters, zero-padded after the sign. */
  function PadTwoSigned(i: int): string {
    if i < 0 then "-" + NatToString(-i) else PadZeros(i, 2)
  }

  /** A date as text: full dates as `%Y-%m-%d`, which reads back as the
      same calendar day (a timestamp drops its time of day), and a bare
      year as text that reads back as the same `i32`. */
  function DisplayDate(d: Date): (r: string)
    ensures d.YearMonthDay? ==> ParseYmd(r) == Some(d.day)
    ensures d.DateTime? ==> ParseYmd(r) == Some(d.stamp.date)
    ensures d.Year? ==> ParseI32(r) == Some(d.year as int)
  {
    match d
    case DateTime(ts) => ParseFormatYmd(ts.date); FormatYmd(ts.date)
    case YearMonthDay(nd) => ParseFormatYmd(nd); FormatYmd(nd)
    case YearMonth(y, m) => IntToString(y) + "-" + PadTwoSigned(m)
    case Year(y) => ParseI32OfInt(y); IntToString(y)
  }

  function DisplayAuthor(a: Author): string {
    a.name
  }

  function AuthorNames(authors: seq<Author>): (names: seq<string>)
    ensures |names| == |authors|
    ensures forall i :: 0 <= i < |authors| ==> names[i] == DisplayAuthor(authors[i])
  {
    if |authors| == 0 then [] else [DisplayAuthor(authors[0])] + AuthorNames(authors[1..])
  }

  /** No author's name contains a comma. */
  predicate NoCommas(authors: seq<Author>) {
    forall k, i :: 0 <= k < |authors| && 0 <= i < |authors[k].name| ==> authors[k].name[i] != ','
  }

  /** An attribute as text. Authors display as their names in order,
      separated by ", ", so that splitting at ", " gives the names back when
      no name has a comma; a translated title displays only its text. */
  function DisplayAttribute(a: Attribute): (r: string)
    ensures a.Authors? && |a.authors| >= 1 && NoCommas(a.authors) ==> SplitOn(r, ", ") == AuthorNames(a.authors)
    ensures a.TranslatedTitle? ==> r == a.translation.text
    ensures a.Date? ==> r == DisplayDate(a.date)
  {
    match a
    case Title(s) => s
    case TranslatedTitle(t) => t.text
    case Authors(authors) =>
      if |authors| >= 1 && NoCommas(authors) then
        SplitJoinOn(AuthorNames(authors), ", ");
        Join(AuthorNames(authors), ", ")
      else Join(AuthorNames(authors), ", ")
    case Date(d) => DisplayDate(d)
    case ArchiveDate(d) => DisplayDate(d)
    case Language(s) => s
    case Locale(s) => s
    case Site(s) => s
    case Url(s) => s
    case ArchiveUrl(s) => s
    case Type(s) => s
    case Journal(s) => s
    case Publisher(s) => s
    case Institution(s) => s
    case Volume(s) => s
  }

  // ---------------------------------------------------------------------
  // Properties of the display rules

  /** A year-and-month date displays as the year, a dash and the month in two
      digits; completed with a day it reads back as the first of that month,
      for every year up to 9999 a date can hold. */
  lemma YearMonthDisplay(y: I32, m: I32)
    requires MinYear <= y <= 9999 && 1 <= m <= 12
    ensures |PadTwoSigned(m)| == 2 && AllDigits(PadTwoSigned(m))
    ensures ParseYmd(DisplayDate(YearMonth(y, m)) + "-01") == Some(Ymd(y, m, 1))
  {
    PadZerosValue(m, 2);
    assert m < Pow10(2);
    var d: NaiveDate := Ymd(y, m, 1);
    YmdAsYearMonth(d);
  }

  /** `%Y-%m-%d` and `{}-{:02}-01` coincide as far as the parser is concerned. */
  lemma YmdAsYearMonth(d: NaiveDate)
    requires d.year <= 9999 && d.day == 1 && 1 <= d.month <= 12
    ensures ParseYmd(IntToString(d.year) + "-" + PadTwoSigned(d.month) + "-01") == Some(d)
  {
    var tail := "-" + (FormatTwo(d.month) + ("-" + FormatTwo(d.day)));
    var text := IntToString(d.year) + tail;
    FirstOfMonthText(d.year, d.month, d.day);
    YearDisplayScans(d.year, tail);
    ParseNumStep(text, YmdFormat, map[], d.year, tail);
    MonthDayTail(d.month, d.day, map[YearField := d.year]);
    var fields := map[YearField := d.year][MonthField := d.month][DayField := d.day];
    assert ParseItems(text, YmdFormat, map[]) == Some(fields);
    assert fields[YearField] == d.year && fields[MonthField] == d.month && fields[DayField] == d.day;
  }

  lemma FirstOfMonthText(y: int, m: int, day: int)
    requires day == 1 && 1 <= m <= 12
    ensures IntToString(y) + "-" + PadTwoSigned(m) + "-01"
         == IntToString(y) + ("-" + (FormatTwo(m) + ("-" + FormatTwo(day))))
  {
    assert FormatTwo(1) == "01" by {
      assert NatToString(1) == "1";
    }
  }

  /** `{}` on a year up to 9999 is read back by the `%Y` field. */
  lemma YearDisplayScans(y: int, rest: string)
    requires MinYear <= y <= 9999
    requires |rest| > 0 && !IsAsciiDigit(rest[0])
    ensures ScanField(IntToString(y) + rest, YearField) == Some((y, rest))
  {
    if y >= 0 {
      NatToStringValue(y);
      NatToStringLength(y, 4);
      ScanFieldDigits(NatToString(y), rest, YearField);
    } else {
      NegativeYearScans(y, rest);
    }
  }

  lemma NegativeYearScans(y: int, rest: string)
    requires y < 0
    requires |rest| > 0 && !IsAsciiDigit(rest[0])
    ensures ScanField(IntToString(y) + rest, YearField) == Some((y, rest))
  {
    var digits := NatToString(-y);
    NatToStringValue(-y);
    assert ApplySign('-', DigitsValue(digits)) == y;
    assert IntToString(y) == ['-'] + digits;
    ConsAppend('-', digits, rest);
    ScanFieldSigned('-', digits, rest);
  }

  lemma ConsAppend(c: char, p: string, q: string)
    ensures [c] + p + q == [c] + (p + q)
  {
  }

  /** Every kind of author displays as its inner name. */
  lemma AuthorDisplaysName(name: string)
    ensures DisplayAuthor(Person(name)) == name
    ensures DisplayAuthor(Organization(name)) == name
    ensures DisplayAuthor(Generic(name)) == name
  {
  }

  /** A translated title displays only its text, never the language code, and
      every plain-string attribute displays its payload unchanged. */
  lemma TextAttributesDisplayPayload(t: AttributeType, s: string, tr: Translation)
    requires IsTextType(t)
    ensures DisplayAttribute(TextAttribute(t, s)) == s
    ensures DisplayAttribute(TranslatedTitle(tr)) == tr.text
  {
  }
}
