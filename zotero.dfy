/** The Citoid/Zotero fallback: the record the translation server returns
    for a URL is checked for plausibility, kept once per page, and turned
    into attributes. The HTTP request and the JSON decoding are an input. */
module Zotero {
  import opened Text
  import opened ChronoDates
  import opened Attributes
  import opened Parser

  datatype ZoteroError = CurlError | ParseError | NoResults | InvalidFormat

  /** One creator of the item: a person by first and last name, or an
      organisation by a single name; `creatorType` is its role. */
  datatype ZoteroCreator = ZoteroCreator(
    creatorType: Option<string>,
    firstName: Option<string>,
    lastName: Option<string>,
    name: Option<string>)

  /** The first record of a Citoid response. */
  datatype ZoteroResult = ZoteroResult(
    itemType: Option<string>,
    title: Option<string>,
    creators: Option<seq<ZoteroCreator>>,
    date: Option<string>,
    publicationTitle: Option<string>,
    bookTitle: Option<string>,
    websiteTitle: Option<string>,
    doi: Option<string>,
    url: Option<string>,
    language: Option<string>,
    publisher: Option<string>,
    place: Option<string>,
    volume: Option<string>,
    issue: Option<string>,
    pages: Option<string>,
    isbn: Option<string>,
    issn: Option<string>,
    abstractNote: Option<string>,
    extra: Option<string>,
    university: Option<string>,
    thesisType: Option<string>)

  /** `fetch_zotero_metadata`: the Citoid request and the decoding of its
      first result, as an input. */
  type ZoteroFetcher = string -> Result<ZoteroResult, ZoteroError>

  // ---------------------------------------------------------------------
  // Creators

  /** `to_author`: a single name is an organisation; otherwise the name
      parts make a person, both parts trimmed and joined by one space. */
  function ToAuthor(c: ZoteroCreator): (r: Option<Author>)
    ensures r.None? <==> c.name.None? && c.firstName.None? && c.lastName.None?
    ensures r.Some? && r.value.Organization? <==> c.name.Some?
    ensures c.name.Some? ==> r.value.name == c.name.value
    ensures c.name.None? && c.firstName.Some? && c.lastName.Some? ==>
      JoinedBySpace(r.value.name, Trim(c.firstName.value), Trim(c.lastName.value))
    ensures c.name.None? && c.firstName.None? && c.lastName.Some? ==> r.value.name == c.lastName.value
    ensures c.name.None? && c.firstName.Some? && c.lastName.None? ==> r.value.name == c.firstName.value
  {
    if c.name.Some? then Some(Organization(c.name.value))
    else
      match (c.firstName, c.lastName)
      case (Some(first), Some(last)) =>
        JoinedName(Trim(first), Trim(last));
        Some(Person(Trim(first) + " " + Trim(last)))
      case (None, Some(last)) => Some(Person(last))
      case (Some(first), None) => Some(Person(first))
      case (None, None) => None
  }

  /** `name` is `first`, one space, then `last`. */
  predicate JoinedBySpace(name: string, first: string, last: string) {
    |name| == |first| + 1 + |last| && name[..|first|] == first
    && name[|first|] == ' ' && name[|first| + 1..] == last
  }

  /** A name joined from two parts splits back into them at the space. */
  lemma JoinedName(first: string, last: string)
    ensures JoinedBySpace(first + " " + last, first, last)
  {
    assert (first + " " + last)[..|first|] == first;
  }

  /** The roles that count as authorship. */
  const AuthorRoles: seq<string> := ["author", "contributor", "artist"]

  /** `is_author`: a creator without a role counts as an author; otherwise
      only the authorship roles do (editors, translators and the like do
      not). */
  function IsAuthor(c: ZoteroCreator): (b: bool)
    ensures c.creatorType.None? ==> b
    ensures c.creatorType.Some? ==> (b <==> c.creatorType.value in AuthorRoles)
  {
    match c.creatorType
    case None => true
    case Some(role) => role in AuthorRoles
  }

  /** The creators that are authors, converted, in their original order. */
  function AuthorsOf(cs: seq<ZoteroCreator>): (r: seq<Author>)
    ensures |r| <= |cs|
    ensures forall a :: a in r ==> exists c :: c in cs && IsAuthor(c) && ToAuthor(c) == Some(a)
    ensures |r| == 0 <==> forall c :: c in cs ==> !IsAuthor(c) || ToAuthor(c).None?
  {
    if |cs| == 0 then []
    else
      var rest := AuthorsOf(cs[1..]);
      assert forall c :: c in cs[1..] ==> c in cs;
      assert forall c :: c in cs ==> c == cs[0] || c in cs[1..];
      if IsAuthor(cs[0]) && ToAuthor(cs[0]).Some? then [ToAuthor(cs[0]).value] + rest
      else rest
  }

  /** `get_authors`: no creator list gives no authors. */
  function GetAuthors(r: ZoteroResult): (authors: seq<Author>)
    ensures r.creators.None? ==> authors == []
    ensures r.creators.Some? ==> |authors| <= |r.creators.value|
  {
    match r.creators
    case None => []
    case Some(cs) => AuthorsOf(cs)
  }

  // ---------------------------------------------------------------------
  // Other fields

  /** `get_site_name`: the publication title, else the website title, else
      the book title. */
  function GetSiteName(r: ZoteroResult): (s: Option<string>)
    ensures s.None? <==> r.publicationTitle.None? && r.websiteTitle.None? && r.bookTitle.None?
    ensures r.publicationTitle.Some? ==> s == r.publicationTitle
    ensures r.publicationTitle.None? && r.websiteTitle.Some? ==> s == r.websiteTitle
  {
    r.publicationTitle.Or(r.websiteTitle).Or(r.bookTitle)
  }

  /** Titles that mark an error page rather than a real record. */
  const GarbageTitles: seq<string> := ["404", "error", "access denied"]

  /** `is_valid`: a record needs a title, and one that does not read
      (ignoring case) as "not found…", "404", "error" or "access denied". */
  function IsValid(r: ZoteroResult): (b: bool)
    ensures b ==> r.title.Some? && r.title.value != ""
    ensures b ==> !StartsWith(ToLower(r.title.value), "not found")
    ensures b ==> ToLower(r.title.value) !in GarbageTitles
  {
    match r.title
    case None => false
    case Some(title) =>
      var lower := ToLower(title);
      !(StartsWith(lower, "not found") || lower in GarbageTitles || title == "")
  }

  // ---------------------------------------------------------------------
  // Dates

  /** `parse_zotero_date` on the trimmed text: `%Y-%m-%d` is a day; text that
      becomes one with "-01" appended is a year and month; an RFC 3339
      timestamp is a date and time; a whole number from 1000 to 2100 is a
      year. The remaining textual and slash formats are `otherFormats`. */
  function ParseZoteroDate(s: string, rfc3339: Rfc3339Reader, otherFormats: string -> Option<NaiveDate>): (r: Option<Date>)
    ensures ParseYmd(Trim(s)).Some? ==> r == Some(YearMonthDay(ParseYmd(Trim(s)).value))
    ensures r.Some? && r.value.YearMonth? ==>
      ParseYmd(Trim(s)).None? && 1 <= r.value.month <= 12
      && ParseYmd(Trim(s) + "-01").Some? && ParseYmd(Trim(s) + "-01").value.year == r.value.year
      && ParseYmd(Trim(s) + "-01").value.month == r.value.month
    ensures r.Some? && r.value.Year? ==> 1000 <= r.value.year <= 2100 && ParseI32(Trim(s)) == Some(r.value.year)
  {
    var d := Trim(s);
    match ParseYmd(d)
    case Some(day) => Some(YearMonthDay(day))
    case None =>
      match ParseYmd(d + "-01")
      case Some(first) => Some(YearMonth(first.year, first.month))
      case None =>
        match rfc3339(d)
        case Some(stamp) => Some(DateTime(stamp))
        case None =>
          if ParseI32(d).Some? && 1000 <= ParseI32(d).value <= 2100 then Some(Year(ParseI32(d).value))
          else
            match otherFormats(d)
            case Some(day) => Some(YearMonthDay(day))
            case None => None
  }

  /** `get_date`. */
  function GetDate(r: ZoteroResult, rfc3339: Rfc3339Reader, otherFormats: string -> Option<NaiveDate>): (d: Option<Date>)
    ensures r.date.None? ==> d.None?
  {
    match r.date
    case None => None
    case Some(text) => ParseZoteroDate(text, rfc3339, otherFormats)
  }

  // ---------------------------------------------------------------------
  // Attributes

  /** `Zotero::parse_from_result`. */
  function ParseFromResult(result: ZoteroResult, t: AttributeType, rfc3339: Rfc3339Reader,
                           otherFormats: string -> Option<NaiveDate>): (r: Option<Attribute>)
    ensures r.Some? ==> TypeOf(r.value) == t
    ensures t == AttributeType.Author ==>
      r == (if GetAuthors(result) == [] then None else Some(Authors(GetAuthors(result))))
  {
    match t
    case Date =>
      (match GetDate(result, rfc3339, otherFormats)
       case Some(d) => Some(Attribute.Date(d))
       case None => None)
    case Author =>
      var authors := GetAuthors(result);
      if authors == [] then None else Some(Authors(authors))
    case Title => if result.title.Some? then Some(Attribute.Title(result.title.value)) else None
    case Language => if result.language.Some? then Some(Attribute.Language(result.language.value)) else None
    case Site => if GetSiteName(result).Some? then Some(Attribute.Site(GetSiteName(result).value)) else None
    case Url => if result.url.Some? then Some(Attribute.Url(result.url.value)) else None
    case Journal =>
      if result.publicationTitle.Some? then Some(Attribute.Journal(result.publicationTitle.value)) else None
    case Publisher =>
      (match result.publisher.Or(result.university)
       case Some(p) => Some(Attribute.Publisher(p))
       case None => None)
    case Volume => if result.volume.Some? then Some(Attribute.Volume(result.volume.value)) else None
    case Locale => None
    case ArchiveDate => None
    case ArchiveUrl => None
    case Type => None
    case Institution => None
  }

  // ---------------------------------------------------------------------
  // The per-page cache

  /** What a fetch leaves in the cache: a successfully decoded, valid record,
      or nothing. */
  function Accepted(response: Result<ZoteroResult, ZoteroError>): (r: Option<ZoteroResult>)
    ensures r.Some? <==> response.Ok? && IsValid(response.value)
    ensures r.Some? ==> r.value == response.value
  {
    if response.Ok? && IsValid(response.value) then Some(response.value) else None
  }

  /** `ZoteroCache`: at most one record per page, and only a valid one. */
  class ZoteroCache {
    var result: Option<ZoteroResult>

    ghost predicate Valid()
      reads this
    {
      result.Some? ==> IsValid(result.value)
    }

    constructor ()
      ensures Valid() && result == None
    {
      result := None;
    }

    /** `fetch`: asks the service only while the cache is empty, keeps only a
        valid record, and returns what the cache then holds. */
    method Fetch(url: string, fetch: ZoteroFetcher) returns (r: Option<ZoteroResult>)
      requires Valid()
      modifies this
      ensures Valid()
      ensures old(result).Some? ==> result == old(result)
      ensures old(result).None? ==> result == Accepted(fetch(url))
      ensures r == result
    {
      if result.None? {
        var response := fetch(url);
        if response.Ok? && IsValid(response.value) {
          result := Some(response.value);
        }
      }
      r := result;
    }
  }

  // ---------------------------------------------------------------------
  // The blacklist

  /** Hosts and paths the service handles poorly. */
  const ZoteroBlacklist: seq<string> := [
    "facebook.com", "twitter.com", "x.com", "instagram.com", "tiktok.com",
    "archive.org/web", "youtube.com", "youtu.be", "linkedin.com", "reddit.com"]

  /** Some pattern of `subs` occurs in `s`. */
  function AnyContained(s: string, subs: seq<string>): (b: bool)
    ensures b <==> exists i :: 0 <= i < |subs| && Contains(s, subs[i])
  {
    if |subs| == 0 then false
    else if Contains(s, subs[0]) then true
    else
      var b := AnyContained(s, subs[1..]);
      assert forall i :: 1 <= i < |subs| ==> subs[i] == subs[1..][i - 1];
      b
  }

  /** `should_skip_zotero`: the lower-cased URL contains a blacklisted
      pattern. */
  function ShouldSkipZotero(url: string): (b: bool)
    ensures b <==> exists i :: 0 <= i < |ZoteroBlacklist| && Contains(ToLower(url), ZoteroBlacklist[i])
  {
    AnyContained(ToLower(url), ZoteroBlacklist)
  }

  // ---------------------------------------------------------------------
  // Properties

  /** The first- and last-name example: the parts make one person. */
  lemma JohnSmithIsPerson()
    ensures ToAuthor(ZoteroCreator(Some("author"), Some("John"), Some("Smith"), None))
         == Some(Person("John" + " " + "Smith"))
  {
    LetterEndsTrimmed("John");
    LetterEndsTrimmed("Smith");
    TrimmedPartsJoined(Some("author"), "John", "Smith");
  }

  lemma LetterEndsTrimmed(s: string)
    requires |s| > 0 && 'A' <= s[0] <= 'Z' && 'a' <= s[|s| - 1] <= 'z'
    ensures Trim(s) == s
  {
    TrimClean(s);
  }

  /** Parts with nothing to trim are joined as they are. */
  lemma TrimmedPartsJoined(role: Option<string>, first: string, last: string)
    requires Trim(first) == first && Trim(last) == last
    ensures ToAuthor(ZoteroCreator(role, Some(first), Some(last), None)) == Some(Person(first + " " + last))
  {
  }

  /** Untrimmed parts are trimmed before they are joined. */
  lemma PersonPartsTrimmed(first: string, last: string)
    ensures ToAuthor(ZoteroCreator(None, Some(" " + first), Some(last + " "), None))
         == ToAuthor(ZoteroCreator(None, Some(first), Some(last), None))
  {
    TrimSpaceBefore(first);
    TrimSpaceAfter(last);
  }

  lemma TrimSpaceBefore(s: string)
    ensures Trim(" " + s) == Trim(s)
  {
    assert (" " + s)[1..] == s;
  }

  lemma TrimSpaceAfter(s: string)
    ensures Trim(s + " ") == Trim(s)
  {
    TrimStartAppendSpace(s);
  }

  lemma {:induction false} TrimStartAppendSpace(s: string)
    ensures TrimStart(s + " ") == TrimStart(s) + " " || (TrimStart(s) == "" && TrimStart(s + " ") == "")
    ensures TrimEnd(TrimStart(s + " ")) == TrimEnd(TrimStart(s))
    decreases |s|
  {
    if |s| == 0 {
      assert TrimStart(" ") == TrimStart(" "[1..]);
    } else if IsWhitespace(s[0]) {
      assert (s + " ")[1..] == s[1..] + " ";
      TrimStartAppendSpace(s[1..]);
    } else {
      var t := s + " ";
      assert t[..|t| - 1] == s;
    }
  }

  /** Converting the creators of two lists in turn keeps their order. */
  lemma {:induction false} AuthorsOfAppend(a: seq<ZoteroCreator>, b: seq<ZoteroCreator>)
    ensures AuthorsOf(a + b) == AuthorsOf(a) + AuthorsOf(b)
    decreases |a|
  {
    if |a| == 0 {
      assert a + b == b;
    } else {
      assert (a + b)[1..] == a[1..] + b;
      AuthorsOfAppend(a[1..], b);
    }
  }

  /** When every creator is a named author, each becomes an author at its
      own position. */
  lemma {:induction false} AuthorsKeptInOrder(cs: seq<ZoteroCreator>)
    requires forall c :: c in cs ==> IsAuthor(c) && ToAuthor(c).Some?
    ensures |AuthorsOf(cs)| == |cs|
    ensures forall i :: 0 <= i < |cs| ==> AuthorsOf(cs)[i] == ToAuthor(cs[i]).value
  {
    if |cs| > 0 {
      assert cs[0] in cs;
      assert forall c :: c in cs[1..] ==> c in cs;
      AuthorsKeptInOrder(cs[1..]);
      assert AuthorsOf(cs) == [ToAuthor(cs[0]).value] + AuthorsOf(cs[1..]);
      assert forall i :: 1 <= i < |cs| ==> cs[i] == cs[1..][i - 1];
    }
  }

  /** A creator list of editors, translators and the like gives no Author
      attribute. */
  lemma NonAuthorsGiveNoAuthor(result: ZoteroResult, rfc3339: Rfc3339Reader,
                               otherFormats: string -> Option<NaiveDate>)
    requires result.creators.Some?
    requires forall c :: c in result.creators.value ==> c.creatorType.Some? && c.creatorType.value !in AuthorRoles
    ensures ParseFromResult(result, AttributeType.Author, rfc3339, otherFormats) == None
  {
  }

  /** A record fills no locale, archive, type or institution field. */
  lemma UnmappedFieldsEmpty(result: ZoteroResult, t: AttributeType, rfc3339: Rfc3339Reader,
                            otherFormats: string -> Option<NaiveDate>)
    requires t in {AttributeType.Locale, AttributeType.ArchiveDate, AttributeType.ArchiveUrl,
                   AttributeType.Type, AttributeType.Institution}
    ensures ParseFromResult(result, t, rfc3339, otherFormats) == None
  {
  }

  /** The site name is the first of the publication, website and book
      titles present. */
  lemma SitePrecedence(result: ZoteroResult, rfc3339: Rfc3339Reader, otherFormats: string -> Option<NaiveDate>)
    ensures ParseFromResult(result, AttributeType.Site, rfc3339, otherFormats) ==
      (if result.publicationTitle.Some? then Some(Attribute.Site(result.publicationTitle.value))
       else if result.websiteTitle.Some? then Some(Attribute.Site(result.websiteTitle.value))
       else if result.bookTitle.Some? then Some(Attribute.Site(result.bookTitle.value))
       else None)
  {
  }

  /** The publisher falls back to the university (theses). */
  lemma PublisherFallsBack(result: ZoteroResult, rfc3339: Rfc3339Reader, otherFormats: string -> Option<NaiveDate>)
    ensures result.publisher.Some? ==>
      ParseFromResult(result, AttributeType.Publisher, rfc3339, otherFormats) == Some(Attribute.Publisher(result.publisher.value))
    ensures result.publisher.None? && result.university.Some? ==>
      ParseFromResult(result, AttributeType.Publisher, rfc3339, otherFormats) == Some(Attribute.Publisher(result.university.value))
  {
  }

  /** Validity ignores case: a record and the same record with its title
      lower-cased are judged alike. */
  lemma ValidIgnoresCase(r: ZoteroResult)
    requires r.title.Some?
    ensures IsValid(r) == IsValid(r.(title := Some(ToLower(r.title.value))))
  {
    ToLowerIdempotent(r.title.value);
  }

  /** A title that reads "Not Found", whatever follows, marks an invalid
      record. */
  lemma NotFoundRejected(r: ZoteroResult, rest: string)
    requires r.title == Some("Not Found" + rest)
    ensures !IsValid(r)
  {
    ToLowerAppend("Not Found", rest);
    assert ToLower("Not Found") == "not found";
  }

  /** A title that is none of the error markers makes the record valid. */
  lemma PlainTitleValid(r: ZoteroResult, title: string)
    requires r.title == Some(title) && title != ""
    requires !StartsWith(ToLower(title), "not found") && ToLower(title) !in GarbageTitles
    ensures IsValid(r)
  {
  }

  /** `%Y-%m-%d` text, with or without surrounding blanks, is that day. */
  lemma FullDateIsDay(d: NaiveDate, rfc3339: Rfc3339Reader, otherFormats: string -> Option<NaiveDate>)
    requires 0 <= d.year <= 9999
    ensures ParseZoteroDate(FormatYmd(d), rfc3339, otherFormats) == Some(YearMonthDay(d))
  {
    FullDateText(d);
  }

  lemma FullDateText(d: NaiveDate)
    requires 0 <= d.year <= 9999
    ensures Trim(FormatYmd(d)) == FormatYmd(d) && ParseYmd(FormatYmd(d)) == Some(d)
  {
    FullDateTrimmed(d);
    ParseFormatYmd(d);
  }

  lemma FullDateTrimmed(d: NaiveDate)
    requires 0 <= d.year <= 9999
    ensures Trim(FormatYmd(d)) == FormatYmd(d)
  {
    var head, day := FormatYear(d.year), FormatTwo(d.day);
    var mid := "-" + FormatTwo(d.month) + "-";
    assert FormatYmd(d) == head + mid + day;
    DigitEndsTrimmed(head, mid, day);
  }

  /** Text that starts and ends with a digit has nothing to trim. */
  lemma DigitEndsTrimmed(head: string, mid: string, last: string)
    requires |head| > 0 && IsAsciiDigit(head[0])
    requires |last| > 0 && IsAsciiDigit(last[|last| - 1])
    ensures Trim(head + mid + last) == head + mid + last
  {
    var s := head + mid + last;
    assert s[0] == head[0];
    assert s[|s| - 1] == last[|last| - 1];
    TrimClean(s);
  }

  /** `%Y-%m` text is a year and month. */
  lemma YearMonthIsYearMonth(y: int, m: int, rfc3339: Rfc3339Reader, otherFormats: string -> Option<NaiveDate>)
    requires 0 <= y <= 9999 && 1 <= m <= 12
    ensures ParseZoteroDate(FormatYear(y) + "-" + FormatTwo(m), rfc3339, otherFormats) == Some(YearMonth(y, m))
  {
    YearMonthText(y, m);
  }

  lemma YearMonthText(y: int, m: int)
    requires 0 <= y <= 9999 && 1 <= m <= 12
    ensures var s := FormatYear(y) + "-" + FormatTwo(m);
      Trim(s) == s && ParseYmd(s) == None && ParseYmd(s + "-01") == Some(Ymd(y, m, 1))
  {
    YearMonthFirstDay(y, m);
    YearMonthTrimmed(y, m);
    YearMonthNoDay(y, m);
  }

  lemma YearMonthNoDay(y: int, m: int)
    requires 0 <= y <= 9999 && 1 <= m <= 12
    ensures ParseYmd(FormatYear(y) + "-" + FormatTwo(m)) == None
  {
    TwoDigits(m);
    YmdRejectsYearMonth(FormatYear(y), FormatTwo(m));
  }

  lemma YearMonthTrimmed(y: int, m: int)
    requires 0 <= y <= 9999 && 1 <= m <= 12
    ensures var s := FormatYear(y) + "-" + FormatTwo(m); Trim(s) == s
  {
    DigitEndsTrimmed(FormatYear(y), "-", FormatTwo(m));
  }

  /** Appending "-01" to `%Y-%m` text gives the first of that month. */
  lemma YearMonthFirstDay(y: int, m: int)
    requires 0 <= y <= 9999 && 1 <= m <= 12
    ensures ParseYmd(FormatYear(y) + "-" + FormatTwo(m) + "-01") == Some(Ymd(y, m, 1))
  {
    var first: NaiveDate := Ymd(y, m, 1);
    FirstOfMonth(first);
    assert FormatYmd(first) == FormatYear(y) + "-" + FormatTwo(m) + "-01";
    ParseFormatYmd(first);
  }

  lemma TwoDigits(m: nat)
    requires m <= 99
    ensures |FormatTwo(m)| == 2
  {
    PadZerosValue(m, 2);
    assert m < Pow10(2);
  }

  lemma FirstOfMonth(d: NaiveDate)
    requires d.day == 1
    ensures FormatTwo(d.day) == "01"
  {
    assert NatToString(1) == "1";
    assert Zeros(1) == "0";
  }

  /** Text that is neither a day nor a year and month, that the RFC 3339
      reader does not take, and that is a whole number in range, is a
      year. */
  lemma WholeNumberYear(s: string, y: int, rfc3339: Rfc3339Reader, otherFormats: string -> Option<NaiveDate>)
    requires Trim(s) == s && ParseYmd(s) == None && ParseYmd(s + "-01") == None
    requires rfc3339(s).None? && ParseI32(s) == Some(y) && 1000 <= y <= 2100
    ensures ParseZoteroDate(s, rfc3339, otherFormats) == Some(Year(y))
  {
  }

  /** A whole number out of range is left to the remaining formats. */
  lemma WholeNumberNotYear(s: string, y: int, rfc3339: Rfc3339Reader, otherFormats: string -> Option<NaiveDate>)
    requires Trim(s) == s && ParseYmd(s) == None && ParseYmd(s + "-01") == None
    requires rfc3339(s).None? && ParseI32(s) == Some(y) && !(1000 <= y <= 2100)
    ensures ParseZoteroDate(s, rfc3339, otherFormats) == None <==> otherFormats(s).None?
    ensures otherFormats(s).Some? ==> ParseZoteroDate(s, rfc3339, otherFormats) == Some(YearMonthDay(otherFormats(s).value))
  {
    var d := Trim(s);
    assert ParseYmd(d) == None && ParseYmd(d + "-01") == None && rfc3339(d).None?;
    assert ParseI32(d) == Some(y);
  }

  /** Up to four digits alone are neither `%Y-%m-%d` nor, with "-01"
      appended, a year and month; they read as their value. */
  lemma BareNumberNotYmd(s: string)
    requires AllDigits(s) && 1 <= |s| <= 4
    ensures Trim(s) == s && ParseI32(s) == Some(DigitsValue(s))
    ensures ParseYmd(s) == None && ParseYmd(s + "-01") == None
  {
    BareNumberReads(s);
    YmdRejectsYear(s);
    BareNumberNoMonth(s);
  }

  lemma BareNumberReads(s: string)
    requires AllDigits(s) && 1 <= |s| <= 4
    ensures Trim(s) == s && ParseI32(s) == Some(DigitsValue(s))
  {
    assert IsAsciiDigit(s[0]) && IsAsciiDigit(s[|s| - 1]);
    TrimClean(s);
    ShortDigitsBound(s, 4);
    assert Pow10(4) == 10000;
  }

  lemma BareNumberNoMonth(s: string)
    requires AllDigits(s) && 1 <= |s| <= 4
    ensures ParseYmd(s + "-01") == None
  {
    YmdRejectsYearMonth(s, "01");
    assert s + "-" + "01" == s + "-01";
  }

  /** The bare-year example. */
  lemma BareYearExample(rfc3339: Rfc3339Reader, otherFormats: string -> Option<NaiveDate>)
    requires rfc3339("2024").None?
    ensures ParseZoteroDate("2024", rfc3339, otherFormats) == Some(Year(2024))
  {
    assert DigitsValue("2024") == 2024 by {
      assert "2024"[..3] == "202" && "202"[..2] == "20" && "20"[..1] == "2";
    }
    BareNumberNotYmd("2024");
    WholeNumberYear("2024", 2024, rfc3339, otherFormats);
  }

  /** The blacklist is matched without regard to case. */
  lemma SkipIgnoresCase(url: string)
    ensures ShouldSkipZotero(ToLower(url)) == ShouldSkipZotero(url)
  {
    ToLowerIdempotent(url);
  }

  /** A URL that contains a blacklisted pattern, in any case, is skipped. */
  lemma BlockedSkipped(pre: string, i: nat, post: string)
    requires i < |ZoteroBlacklist|
    ensures ShouldSkipZotero(pre + ZoteroBlacklist[i] + post)
  {
    var b := ZoteroBlacklist[i];
    BlacklistLowerCase(i);
    ToLowerAppend(pre + b, post);
    ToLowerAppend(pre, b);
    var lower := ToLower(pre + b + post);
    assert lower == ToLower(pre) + b + ToLower(post);
    assert OccursAt(lower, b, |pre|);
  }

  lemma BlacklistLowerCase(i: nat)
    requires i < |ZoteroBlacklist|
    ensures ToLower(ZoteroBlacklist[i]) == ZoteroBlacklist[i]
  {
    ToLowerNoUpper(ZoteroBlacklist[i]);
  }

  /** The tweet and page examples are skipped. */
  lemma SocialLinksSkipped()
    ensures ShouldSkipZotero("https://" + "twitter.com" + "/user/status/123")
    ensures ShouldSkipZotero("https://www." + "facebook.com" + "/page")
  {
    BlockedSkipped("https://", 1, "/user/status/123");
    BlockedSkipped("https://www.", 0, "/page");
  }

  /** The cache asks the service once: a second fetch for any URL returns
      what the first one kept, without a request. */
  method FetchTwice(url: string, other: string, fetch: ZoteroFetcher) returns (first: Option<ZoteroResult>, second: Option<ZoteroResult>)
    ensures first == Accepted(fetch(url))
    ensures first.Some? ==> second == first
    ensures first.None? ==> second == Accepted(fetch(other))
  {
    var cache := new ZoteroCache();
    first := cache.Fetch(url, fetch);
    second := cache.Fetch(other, fetch);
  }
}
