/** DOI support: finding a DOI in a page's text, and reading the fields of
    the BibTeX entry the DOI resolver returns. */
module Doi {
  import opened Text
  import opened ChronoDates
  import opened Attributes

  datatype DoiError = CurlError | Utf8Error | DoiNotInHtmlError | BibtexParseError

  // ---------------------------------------------------------------------
  // Finding a DOI: `\b10\.\d{4,9}/[-.;()/:\w]+`, leftmost match first

  /** A word character of the pattern (letters, digits and `_`, ASCII). */
  predicate IsWordChar(c: char) {
    ('a' <= c <= 'z') || ('A' <= c <= 'Z') || IsAsciiDigit(c) || c == '_'
  }

  /** A character of the suffix class `[-.;()/:\w]`. */
  predicate IsSuffixChar(c: char) {
    c == '-' || c == '.' || c == ';' || c == '(' || c == ')' || c == '/' || c == ':' || IsWordChar(c)
  }

  /** The number of leading suffix characters. */
  function SuffixRunLen(s: string): (n: nat)
    ensures n <= |s|
    ensures forall k :: 0 <= k < n ==> IsSuffixChar(s[k])
    ensures n < |s| ==> !IsSuffixChar(s[n])
  {
    if |s| == 0 || !IsSuffixChar(s[0]) then 0 else 1 + SuffixRunLen(s[1..])
  }

  /** The text is a DOI as the pattern reads one: "10.", four to nine
      digits, a slash, and at least one suffix character. */
  predicate IsDoi(d: string) {
    |d| >= 3 && d[..3] == "10." && DoiTail(d[3..])
  }

  /** What follows "10.": the registrant digits, a slash and the suffix. */
  predicate DoiTail(t: string) {
    var n := DigitRunLen(t);
    4 <= n <= 9 && n + 1 < |t| && t[n] == '/' && forall k :: n + 1 <= k < |t| ==> IsSuffixChar(t[k])
  }

  /** Where the match starting at `i` ends, if one starts there. The digit
      run must stop at the slash: with more than nine digits the pattern
      cannot backtrack into a match. The suffix is greedy. */
  function MatchAt(s: string, i: nat): (r: Option<nat>)
    requires i <= |s|
    ensures r.Some? ==> i + 9 <= r.value <= |s|
    ensures r.Some? ==> OccursAt(s, "10.", i) && (i == 0 || !IsWordChar(s[i - 1]))
  {
    if OccursAt(s, "10.", i) && (i == 0 || !IsWordChar(s[i - 1])) then
      var n := DigitRunLen(s[i + 3..]);
      var j := i + 3 + n;
      if 4 <= n <= 9 && j < |s| && s[j] == '/' then
        var k := SuffixRunLen(s[j + 1..]);
        if k >= 1 then Some(j + 1 + k) else None
      else None
    else None
  }

  /** The successive non-overlapping matches from position `i` on. */
  function MatchesFrom(s: string, i: nat): seq<string>
    requires i <= |s|
    decreases |s| - i
  {
    if i == |s| then []
    else
      match MatchAt(s, i)
      case Some(e) => [s[i..e]] + MatchesFrom(s, e)
      case None => MatchesFrom(s, i + 1)
  }

  /** The leftmost position from `i` on where a match starts. */
  function FirstMatchStart(s: string, i: nat): (r: Option<nat>)
    requires i <= |s|
    ensures r.Some? ==> i <= r.value < |s| && MatchAt(s, r.value).Some?
    ensures r.Some? ==> forall k :: i <= k < r.value ==> MatchAt(s, k).None?
    ensures r.None? ==> forall k :: i <= k < |s| ==> MatchAt(s, k).None?
    decreases |s| - i
  {
    if i == |s| then None
    else if MatchAt(s, i).Some? then Some(i)
    else FirstMatchStart(s, i + 1)
  }

  /** The first of the successive matches is the leftmost one, and there are
      none exactly when no position starts a match. */
  lemma {:induction false} FirstMatchLeftmost(s: string, i: nat)
    requires i <= |s|
    ensures |MatchesFrom(s, i)| > 0 <==> FirstMatchStart(s, i).Some?
    ensures FirstMatchStart(s, i).Some? ==>
      var j := FirstMatchStart(s, i).value;
      MatchesFrom(s, i)[0] == s[j..MatchAt(s, j).value]
    decreases |s| - i
  {
    if i < |s| && MatchAt(s, i).None? {
      FirstMatchLeftmost(s, i + 1);
    }
  }

  /** What `doi_regex_match` returns: the leftmost match, or an error. */
  function FirstDoi(s: string): (r: Result<string, DoiError>)
    ensures r.Err? ==> r.error == DoiNotInHtmlError
    ensures r.Ok? <==> FirstMatchStart(s, 0).Some?
    ensures r.Ok? ==>
      var j := FirstMatchStart(s, 0).value;
      r.value == s[j..MatchAt(s, j).value]
  {
    var all := MatchesFrom(s, 0);
    FirstMatchLeftmost(s, 0);
    if |all| > 0 then Ok(all[0]) else Err(DoiNotInHtmlError)
  }

  /** One step of the scan: a match is taken whole, otherwise the scan
      moves on by one character. */
  lemma MatchesStep(s: string, i: nat)
    requires i < |s|
    ensures MatchAt(s, i).Some? ==>
      MatchesFrom(s, i) == [s[i..MatchAt(s, i).value]] + MatchesFrom(s, MatchAt(s, i).value)
    ensures MatchAt(s, i).None? ==> MatchesFrom(s, i) == MatchesFrom(s, i + 1)
  {
  }

  lemma ConcatAssoc(a: seq<string>, b: seq<string>, c: seq<string>)
    ensures (a + b) + c == a + (b + c)
  {
  }

  lemma FirstDoiOfMatches(s: string)
    ensures FirstDoi(s) == if |MatchesFrom(s, 0)| > 0 then Ok(MatchesFrom(s, 0)[0]) else Err(DoiNotInHtmlError)
  {
  }

  /** Collects every match into a vector, then returns the first. */
  method DoiRegexMatch(s: string) returns (r: Result<string, DoiError>)
    ensures r == FirstDoi(s)
  {
    var results: seq<string> := [];
    var i := 0;
    while i < |s|
      invariant i <= |s|
      invariant results + MatchesFrom(s, i) == MatchesFrom(s, 0)
      decreases |s| - i
    {
      MatchesStep(s, i);
      match MatchAt(s, i)
      case Some(e) =>
        ConcatAssoc(results, [s[i..e]], MatchesFrom(s, e));
        results := results + [s[i..e]];
        i := e;
      case None =>
        i := i + 1;
    }
    assert MatchesFrom(s, i) == [];
    assert results + [] == results;
    FirstDoiOfMatches(s);
    if |results| > 0 {
      r := Ok(results[0]);
    } else {
      r := Err(DoiNotInHtmlError);
    }
  }

  /** Every match is a DOI, and the suffix stops only at a character
      outside its class. */
  lemma MatchIsDoi(s: string, i: nat)
    requires i <= |s| && MatchAt(s, i).Some?
    ensures IsDoi(s[i..MatchAt(s, i).value])
    ensures MatchAt(s, i).value == |s| || !IsSuffixChar(s[MatchAt(s, i).value])
  {
    var e := MatchAt(s, i).value;
    var n := DigitRunLen(s[i + 3..]);
    var d := s[i..e];
    assert d[..3] == s[i..i + 3];
    assert d[3..] == s[i + 3..e];
    assert s[i + 3..e] == s[i + 3..i + 3 + n] + s[i + 3 + n..e];
    assert s[i + 3..i + 3 + n] == s[i + 3..][..n];
    DigitRunOfPrefix(s[i + 3..i + 3 + n], s[i + 3 + n..e]);
    assert DigitRunLen(d[3..]) == n;
  }

  /** The leftmost match is what the function returns. */
  lemma FirstDoiIsDoi(s: string)
    requires FirstDoi(s).Ok?
    ensures IsDoi(FirstDoi(s).value)
  {
    MatchIsDoi(s, FirstMatchStart(s, 0).value);
  }

  /** A DOI after text holding no "1" and ending in a non-word character
      (a link's scheme and host) is the DOI found. */
  lemma LinkGivesDoi(host: string, doi: string)
    requires '1' !in host
    requires |host| > 0 && !IsWordChar(host[|host| - 1])
    requires MatchAt(doi, 0) == Some(|doi|)
    ensures FirstDoi(host + doi) == Ok(doi)
  {
    NoMatchInHost(host, doi);
    MatchAfterHost(host, doi);
    LeftmostAt(host + doi, |host|);
    assert (host + doi)[|host|..|host + doi|] == doi;
  }

  lemma NoMatchInHost(host: string, doi: string)
    requires '1' !in host
    ensures forall k :: 0 <= k < |host| ==> MatchAt(host + doi, k).None?
  {
    var s := host + doi;
    forall k | 0 <= k < |host|
      ensures MatchAt(s, k).None?
    {
      assert s[k] == host[k] && host[k] in host;
      assert !OccursAt(s, "10.", k);
    }
  }

  /** A position that starts a match, with none before it, is the leftmost. */
  lemma LeftmostAt(s: string, j: nat)
    requires j < |s| && MatchAt(s, j).Some?
    requires forall k :: 0 <= k < j ==> MatchAt(s, k).None?
    ensures FirstMatchStart(s, 0) == Some(j)
  {
  }

  lemma MatchAfterHost(host: string, doi: string)
    requires |host| > 0 && !IsWordChar(host[|host| - 1])
    requires MatchAt(doi, 0) == Some(|doi|)
    ensures MatchAt(host + doi, |host|) == Some(|host + doi|)
  {
    var s := host + doi;
    var h := |host|;
    assert s[h..h + 3] == doi[..3];
    assert s[h - 1] == host[h - 1];
    var n := DigitRunLen(doi[3..]);
    assert s[h + 3..] == doi[3..];
    assert s[h + 3 + n + 1..] == doi[3 + n + 1..];
  }

  /** The example of a DOI link. */
  lemma ArxivLinkExample()
    ensures FirstDoi("https://doi.org/" + "10.48550/arXiv.1712.01815") == Ok("10.48550/arXiv.1712.01815")
  {
    ArxivDoiMatches();
    DoiHostClean();
    LinkGivesDoi("https://doi.org/", "10.48550/arXiv.1712.01815");
  }

  lemma ArxivDoiMatches()
    ensures MatchAt("10.48550/arXiv.1712.01815", 0) == Some(25)
  {
    assert AllDigits("48550");
    assert AllSuffixChars("arXiv.") && AllSuffixChars("1712.") && AllSuffixChars("01815");
    AllSuffixAppend("arXiv.", "1712.");
    AllSuffixAppend("arXiv." + "1712.", "01815");
    assert "10.48550/arXiv.1712.01815" == "10." + "48550" + "/" + ("arXiv." + "1712." + "01815");
    DoiShapeMatches("48550", "arXiv." + "1712." + "01815");
  }

  predicate AllSuffixChars(t: string) {
    forall k :: 0 <= k < |t| ==> IsSuffixChar(t[k])
  }

  lemma AllSuffixAppend(a: string, b: string)
    requires AllSuffixChars(a) && AllSuffixChars(b)
    ensures AllSuffixChars(a + b)
  {
    assert forall k :: 0 <= k < |a + b| ==> (a + b)[k] == (if k < |a| then a[k] else b[k - |a|]);
  }

  /** "10.", four to nine digits, a slash and a run of suffix characters
      match as a whole. */
  lemma DoiShapeMatches(registrant: string, suffix: string)
    requires 4 <= |registrant| <= 9 && AllDigits(registrant)
    requires |suffix| > 0 && AllSuffixChars(suffix)
    ensures MatchAt("10." + registrant + "/" + suffix, 0) == Some(3 + |registrant| + 1 + |suffix|)
  {
    var d := "10." + registrant + "/" + suffix;
    var n := |registrant|;
    assert d[..3] == "10.";
    assert d[3..] == registrant + ("/" + suffix);
    DigitRunOfPrefix(registrant, "/" + suffix);
    assert d[3 + n] == '/';
    assert d[3 + n + 1..] == suffix;
    SuffixRunAll(suffix);
  }

  lemma DoiHostClean()
    ensures '1' !in "https://doi.org/" && !IsWordChar('/')
  {
    var host := "https://doi.org/";
    assert host == "https:" + "//doi.org/";
  }

  lemma {:induction false} SuffixRunAll(t: string)
    requires AllSuffixChars(t)
    ensures SuffixRunLen(t) == |t|
  {
    if |t| > 0 {
      SuffixRunAll(t[1..]);
    }
  }

  // ---------------------------------------------------------------------
  // The BibTeX entry

  /** A BibTeX name: given names and family name. */
  datatype BibPerson = BibPerson(name: string, givenName: string)

  /** A piece of field text. */
  datatype Chunk = Normal(text: string) | Verbatim(text: string) | Math(text: string)

  /** A field value read as its type, or kept as raw chunks. */
  datatype PermissiveType<T> = Typed(value: T) | Chunks(chunks: seq<Chunk>)

  type U8 = x: int | 0 <= x < 0x100

  /** A BibTeX date point. Month and day count from zero. */
  datatype BibDatetime = BibDatetime(year: I32, month: Option<U8>, day: Option<U8>)

  datatype DateValue = At(point: BibDatetime) | After(point: BibDatetime) | Before(point: BibDatetime)
                     | Between(start: BibDatetime, end: BibDatetime)

  datatype BibDate = BibDate(value: DateValue, uncertain: bool, approximate: bool)

  /** The fields of an entry the engine reads; a field is `None` when it is
      missing or does not read as its type. */
  datatype Entry = Entry(
    author: Option<seq<BibPerson>>,
    title: Option<seq<Chunk>>,
    url: Option<string>,
    date: Option<PermissiveType<BibDate>>,
    entryType: Option<string>,
    journal: Option<seq<Chunk>>,
    volume: Option<PermissiveType<int>>,
    language: Option<string>,
    publisher: Option<seq<seq<Chunk>>>)

  /** Every person, in order, as "given family". */
  function AuthorToAttribute(entry: Entry): (r: Option<Attribute>)
    ensures r.Some? <==> entry.author.Some?
    ensures r.Some? ==> r.value.Authors? && |r.value.authors| == |entry.author.value|
    ensures r.Some? ==> forall i :: 0 <= i < |r.value.authors| ==>
      r.value.authors[i] == Person(entry.author.value[i].givenName + " " + entry.author.value[i].name)
  {
    match entry.author
    case None => None
    case Some(persons) =>
      Some(Authors(seq(|persons|, i requires 0 <= i < |persons| => Person(persons[i].givenName + " " + persons[i].name))))
  }

  /** A date point as written: month and day handed to the calendar as
      they are stored. */
  function TryCreateInternalDateAsWritten(dt: BibDatetime): (r: Option<Date>)
    ensures r.Some? && r.value.YearMonthDay? <==>
      dt.month.Some? && dt.day.Some? && ValidYmd(dt.year, dt.month.value, dt.day.value)
    ensures r.Some? && r.value.YearMonthDay? ==> r.value.day == Ymd(dt.year, dt.month.value, dt.day.value)
    ensures dt.month.Some? && dt.day.None? ==> r == Some(YearMonth(dt.year, dt.month.value))
    ensures dt.month.None? && dt.day.None? ==> r == Some(Year(dt.year))
    ensures dt.month.None? && dt.day.Some? ==> r.None?
  {
    match (dt.month, dt.day)
    case (Some(m), Some(d)) =>
      (match FromYmd(dt.year, m, d)
       case Some(day) => Some(YearMonthDay(day))
       case None => None)
    case (Some(m), None) => Some(YearMonth(dt.year, m))
    case (None, None) => Some(Year(dt.year))
    case (None, Some(_)) => None
  }

  /** A date point at its precision, with the stored zero-based month and
      day counted from one. */
  function TryCreateInternalDate(dt: BibDatetime): (r: Option<Date>)
    ensures r.Some? && r.value.YearMonthDay? <==>
      dt.month.Some? && dt.day.Some? && ValidYmd(dt.year, dt.month.value + 1, dt.day.value + 1)
    ensures r.Some? && r.value.YearMonthDay? ==> r.value.day == Ymd(dt.year, dt.month.value + 1, dt.day.value + 1)
    ensures dt.month.Some? && dt.day.None? ==> r == Some(YearMonth(dt.year, dt.month.value + 1))
    ensures dt.month.None? && dt.day.None? ==> r == Some(Year(dt.year))
    ensures dt.month.None? && dt.day.Some? ==> r.None?
  {
    match (dt.month, dt.day)
    case (Some(m), Some(d)) =>
      (match FromYmd(dt.year, m as int + 1, d as int + 1)
       case Some(day) => Some(YearMonthDay(day))
       case None => None)
    case (Some(m), None) => Some(YearMonth(dt.year, m as int + 1))
    case (None, None) => Some(Year(dt.year))
    case (None, Some(_)) => None
  }

  /** A calendar day as BibTeX stores it. */
  function EncodeDay(d: NaiveDate): (dt: BibDatetime)
    requires I32Min <= d.year <= I32Max
    ensures dt.month.Some? && dt.day.Some?
  {
    BibDatetime(d.year, Some(d.month - 1), Some(d.day - 1))
  }

  /** Reading a stored day gives the day back. */
  lemma DayRoundTrip(d: NaiveDate)
    requires I32Min <= d.year <= I32Max
    ensures TryCreateInternalDate(EncodeDay(d)) == Some(YearMonthDay(d))
  {
  }

  /** Read as written, 15 January is refused and 31 December becomes
      30 November; a stored January without a day becomes month 0, which
      displays as "2020-00". */
  lemma AsWrittenShiftsDays()
    ensures TryCreateInternalDateAsWritten(EncodeDay(Ymd(2020, 1, 15))) == None
    ensures TryCreateInternalDateAsWritten(EncodeDay(Ymd(2020, 12, 31))) == Some(YearMonthDay(Ymd(2020, 11, 30)))
    ensures TryCreateInternalDate(EncodeDay(Ymd(2020, 1, 15))) == Some(YearMonthDay(Ymd(2020, 1, 15)))
    ensures TryCreateInternalDateAsWritten(BibDatetime(2020, Some(0), None)) == Some(YearMonth(2020, 0))
    ensures DisplayDate(YearMonth(2020, 0)) == "2020-00"
    ensures TryCreateInternalDate(BibDatetime(2020, Some(0), None)) == Some(YearMonth(2020, 1))
  {
    assert !ValidYmd(2020, 0, 14);
    assert ValidYmd(2020, 11, 30);
    assert IntToString(2020) == "2020" by {
      assert NatToString(2020) == NatToString(202) + "0";
      assert NatToString(202) == NatToString(20) + "2";
      assert NatToString(20) == NatToString(2) + "0";
    }
    assert PadTwoSigned(0) == "00" by {
      assert NatToString(0) == "0";
      assert Zeros(1) == "0";
    }
  }

  /** A date converts only when it is exact and a single point. */
  function DateToAttribute(pt: PermissiveType<BibDate>): (r: Option<Attribute>)
    ensures r.Some? ==> r.value.Date? && pt.Typed? && pt.value.value.At?
    ensures r.Some? ==> !pt.value.uncertain && !pt.value.approximate
    ensures r.Some? ==> TryCreateInternalDate(pt.value.value.point) == Some(r.value.date)
  {
    match pt
    case Typed(bd) =>
      if bd.approximate || bd.uncertain then None
      else
        (match bd.value
         case At(dt) =>
           (match TryCreateInternalDate(dt)
            case Some(date) => Some(Attribute.Date(date))
            case None => None)
         case _ => None)
    case Chunks(_) => None
  }

  /** The text of a chunk; mathematics has none. */
  function StringFromChunk(c: Chunk): (r: Option<string>)
    ensures r.Some? <==> !c.Math?
    ensures r.Some? ==> r.value == c.text
  {
    match c
    case Normal(s) => Some(s)
    case Verbatim(s) => Some(s)
    case Math(_) => None
  }

  /** The text of the first chunk only. */
  function FirstChunkText(chunks: seq<Chunk>): (r: Option<string>)
    ensures r.Some? <==> |chunks| > 0 && !chunks[0].Math?
    ensures r.Some? ==> r.value == chunks[0].text
  {
    if |chunks| == 0 then None else StringFromChunk(chunks[0])
  }

  /** A typed value in its debug rendering, else the first chunk's text. */
  function PermissiveToString(pt: PermissiveType<int>): (r: Option<string>)
    ensures pt.Typed? ==> r == Some(IntToString(pt.value))
    ensures pt.Chunks? ==> r == FirstChunkText(pt.chunks)
  {
    match pt
    case Typed(v) => Some(IntToString(v))
    case Chunks(chunks) => FirstChunkText(chunks)
  }

  /** The attribute of a kind read from the entry. The institution is read
      from the journal field. */
  function AttributeTypeToAttribute(entry: Entry, t: AttributeType): (r: Option<Attribute>)
    ensures r.Some? ==> TypeOf(r.value) == t
    ensures t == AttributeType.Author ==> r == AuthorToAttribute(entry)
    ensures t == AttributeType.Date ==> r == (if entry.date.Some? then DateToAttribute(entry.date.value) else None)
    ensures t == AttributeType.Institution ==>
      r == (if entry.journal.Some? && FirstChunkText(entry.journal.value).Some?
            then Some(Attribute.Institution(FirstChunkText(entry.journal.value).value)) else None)
    ensures (t in {AttributeType.Locale, AttributeType.Site, AttributeType.ArchiveUrl, AttributeType.ArchiveDate})
      ==> r.None?
  {
    if t == AttributeType.Date then
      match entry.date
      case Some(pt) => DateToAttribute(pt)
      case None => None
    else
      match t
      case Title =>
        (match entry.title
         case Some(chunks) => (match FirstChunkText(chunks) case Some(v) => Some(Attribute.Title(v)) case None => None)
         case None => None)
      case Author => AuthorToAttribute(entry)
      case Url => (match entry.url case Some(u) => Some(Attribute.Url(u)) case None => None)
      case Type => (match entry.entryType case Some(e) => Some(Attribute.Type(e)) case None => None)
      case Journal =>
        (match entry.journal
         case Some(chunks) => (match FirstChunkText(chunks) case Some(v) => Some(Attribute.Journal(v)) case None => None)
         case None => None)
      case Volume =>
        (match entry.volume
         case Some(pt) => (match PermissiveToString(pt) case Some(v) => Some(Attribute.Volume(v)) case None => None)
         case None => None)
      case Language => (match entry.language case Some(l) => Some(Attribute.Language(l)) case None => None)
      case Publisher =>
        (match entry.publisher
         case Some(lists) =>
           if |lists| == 0 then None
           else (match FirstChunkText(lists[0]) case Some(v) => Some(Attribute.Publisher(v)) case None => None)
         case None => None)
      case Institution =>
        (match entry.journal
         case Some(chunks) => (match FirstChunkText(chunks) case Some(v) => Some(Attribute.Institution(v)) case None => None)
         case None => None)
      case _ => None
  }

  /** A field of the bibliography the page's DOI resolved to; the
      bibliography must hold exactly one entry when there is one. */
  function ParseAttribute(bibliography: Option<seq<Entry>>, t: AttributeType): (r: Option<Attribute>)
    requires bibliography.Some? ==> |bibliography.value| == 1
    ensures bibliography.None? ==> r.None?
    ensures bibliography.Some? ==> r == AttributeTypeToAttribute(bibliography.value[0], t)
  {
    match bibliography
    case None => None
    case Some(entries) => AttributeTypeToAttribute(entries[0], t)
  }

  // ---------------------------------------------------------------------
  // Properties

  /** A flagged date is never guessed at. */
  lemma FlaggedDateDropped(entry: Entry, bd: BibDate)
    requires entry.date == Some(Typed(bd)) && (bd.uncertain || bd.approximate)
    ensures AttributeTypeToAttribute(entry, AttributeType.Date) == None
  {
  }

  /** An exact single-point date gives the date at its precision. */
  lemma ExactPointDate(entry: Entry, dt: BibDatetime)
    requires entry.date == Some(Typed(BibDate(At(dt), false, false)))
    ensures AttributeTypeToAttribute(entry, AttributeType.Date) ==
      (if TryCreateInternalDate(dt).Some? then Some(Attribute.Date(TryCreateInternalDate(dt).value)) else None)
  {
  }

  /** Only the first chunk of a title counts, whatever follows it. */
  lemma TitleFirstChunkOnly(entry: Entry, first: Chunk, rest: seq<Chunk>)
    requires entry.title == Some([first] + rest)
    ensures AttributeTypeToAttribute(entry, AttributeType.Title) ==
      (if first.Math? then None else Some(Attribute.Title(first.text)))
  {
    assert ([first] + rest)[0] == first;
  }
}
