/** The three citation builders: the MediaWiki `{{cite web}}` template, a
    BibTeX `@misc` entry and a Harvard-style reference. Each is fed attribute
    values one at a time and then renders the citation text. */
module Citation {
  import opened Text
  import opened ChronoDates
  import opened Attributes

  /** The text a string builder holds after a sequence of `try_add` calls,
      each call appending `line` of its argument. */
  function Accumulate(line: Option<Attribute> -> string, os: seq<Option<Attribute>>): string {
    if |os| == 0 then "" else Accumulate(line, os[..|os| - 1]) + line(os[|os| - 1])
  }

  /** The attributes present, in order, with the absent ones dropped. */
  function PresentOnly(os: seq<Option<Attribute>>): (ps: seq<Option<Attribute>>)
    ensures forall i :: 0 <= i < |ps| ==> ps[i].Some?
    ensures forall a :: Some(a) in os <==> Some(a) in ps
  {
    if |os| == 0 then []
    else PresentOnly(os[..|os| - 1]) + (if os[|os| - 1].Some? then [os[|os| - 1]] else [])
  }

  // =====================================================================
  // MediaWiki {{cite web}}

  /** The index written after an author parameter: none for a lone author,
      otherwise the author's 1-based position. */
  function WikiIndexLabel(count: nat, i: nat): string {
    if count > 1 then NatToString(i + 1) else ""
  }

  /** `| author<i> = <name with whitespace collapsed>` */
  function WikiWholeName(name: string, idx: string): string {
    "| author" + idx + " = " + Normalize(name)
  }

  /** `| last<i> = <family>\n| first<i> = <given names>`, the family name being
      the last whitespace-separated word. */
  function WikiSplitName(words: seq<string>, idx: string): string
    requires |words| >= 1
  {
    "| last" + idx + " = " + words[|words| - 1] + "\n| first" + idx + " = " + Join(words[..|words| - 1], " ")
  }

  function WikiAuthor(a: Author, idx: string): string {
    match a
    case Person(s) =>
      var words := SplitWhitespace(s);
      if |words| >= 1 then WikiSplitName(words, idx) else WikiWholeName(s, idx)
    case Organization(s) => WikiWholeName(s, idx)
    case Generic(s) =>
      var words := SplitWhitespace(s);
      if |words| >= 2 then WikiSplitName(words, idx) else WikiWholeName(s, idx)
  }

  function WikiAuthorParts(authors: seq<Author>): (parts: seq<string>)
    ensures |parts| == |authors|
  {
    seq(|authors|, i requires 0 <= i < |authors| => WikiAuthor(authors[i], WikiIndexLabel(|authors|, i)))
  }

  function WikiAuthors(authors: seq<Author>): string {
    Join(WikiAuthorParts(authors), " ")
  }

  /** Dates in the template: a year and month are not zero-padded. */
  function WikiDate(d: Date): string {
    match d
    case DateTime(ts) => FormatYmd(ts.date)
    case YearMonthDay(nd) => FormatYmd(nd)
    case YearMonth(y, m) => IntToString(y) + "-" + IntToString(m)
    case Year(y) => IntToString(y)
  }

  /** The template parameter an attribute becomes, if the template has one. */
  function WikiEntry(a: Attribute): Option<string> {
    match a
    case Title(v) => Some("| title = " + v)
    case TranslatedTitle(t) => Some("| trans-title = " + t.text)
    case Authors(vs) => Some(WikiAuthors(vs))
    case Date(d) => Some("| date = " + WikiDate(d))
    case ArchiveDate(d) => Some("| archive-date = " + WikiDate(d))
    case Language(v) => Some("| language = " + v)
    case Site(v) => Some("| site = " + v)
    case Url(v) => Some("| url = " + v)
    case ArchiveUrl(v) => Some("| archive-url = " + v)
    case Journal(v) => Some("| journal = " + v)
    case Publisher(v) => Some("| publisher = " + v)
    case _ => None
  }

  /** What `add` appends: a newline and the parameter, or nothing. */
  function WikiLine(a: Attribute): string {
    match WikiEntry(a)
    case Some(line) => "\n" + line
    case None => ""
  }

  /** What `try_add` appends. */
  function WikiLineOpt(o: Option<Attribute>): string {
    match o
    case Some(a) => WikiLine(a)
    case None => ""
  }

  function WikiWrap(body: string): string {
    "{{cite web" + body + "\n}}"
  }

  /** The text accumulated from a sequence of `try_add` calls. */
  function WikiBody(os: seq<Option<Attribute>>): string {
    Accumulate(WikiLineOpt, os)
  }

  class WikiCitation {
    var formatted: string

    constructor ()
      ensures formatted == ""
    {
      formatted := "";
    }

    method Add(a: Attribute)
      modifies this
      ensures formatted == old(formatted) + WikiLine(a)
    {
      match WikiEntry(a)
      case Some(line) => formatted := formatted + "\n" + line;
      case None =>
    }

    method TryAdd(o: Option<Attribute>)
      modifies this
      ensures formatted == old(formatted) + WikiLineOpt(o)
    {
      match o
      case Some(a) => Add(a);
      case None =>
    }

    method Build() returns (s: string)
      ensures s == WikiWrap(formatted)
    {
      s := "{{cite web" + formatted + "\n}}";
    }
  }

  // =====================================================================
  // BibTeX @misc

  /** `{<name with whitespace collapsed>}` */
  function BibTeXWholeName(name: string): string {
    "{" + Normalize(name) + "}"
  }

  /** `<family>, <given names>` */
  function BibTeXSplitName(words: seq<string>): string
    requires |words| >= 1
  {
    words[|words| - 1] + ", " + Join(words[..|words| - 1], " ")
  }

  function BibTeXAuthor(a: Author): string {
    match a
    case Person(s) =>
      var words := SplitWhitespace(s);
      if |words| >= 1 then BibTeXSplitName(words) else BibTeXWholeName(s)
    case Organization(s) => BibTeXWholeName(s)
    case Generic(s) =>
      var words := SplitWhitespace(s);
      if |words| >= 2 then BibTeXSplitName(words) else BibTeXWholeName(s)
  }

  function BibTeXAuthorParts(authors: seq<Author>): (parts: seq<string>)
    ensures |parts| == |authors|
  {
    seq(|authors|, i requires 0 <= i < |authors| => BibTeXAuthor(authors[i]))
  }

  function BibTeXAuthors(authors: seq<Author>): string {
    "author = \"" + Join(BibTeXAuthorParts(authors), " and ") + "\""
  }

  /** A date as a single value: a year and month are zero-padded here. */
  function BibTeXDateValue(d: Date): string {
    DisplayDate(d)
  }

  /** The publication date field(s): a year and month become separate
      `year` and `month` fields, unpadded. */
  function BibTeXDate(d: Date): string {
    match d
    case DateTime(ts) => "date = \"" + FormatYmd(ts.date) + "\""
    case YearMonthDay(nd) => "date = \"" + FormatYmd(nd) + "\""
    case YearMonth(y, m) => "year = \"" + IntToString(y) + "\",\nmonth = \"" + IntToString(m) + "\""
    case Year(y) => "year = \"" + IntToString(y) + "\""
  }

  function BibTeXEntry(a: Attribute): Option<string> {
    match a
    case Title(v) => Some("title = \"" + v + "\"")
    case TranslatedTitle(t) => Some("note = \"Translated title: " + t.text + "\"")
    case Authors(vs) => Some(BibTeXAuthors(vs))
    case Date(d) => Some(BibTeXDate(d))
    case Url(v) => Some("url = \\url{" + v + "}")
    case Site(v) => Some("howpublished = \"" + v + "\"")
    case Publisher(v) => Some("publisher = \"" + v + "\"")
    case Language(v) => Some("language = \"" + v + "\"")
    case Journal(v) => Some("journal = \"" + v + "\"")
    case ArchiveUrl(v) => Some("archiveurl = \\url{" + v + "}")
    case ArchiveDate(d) => Some("archivedate = \"" + BibTeXDateValue(d) + "\"")
    case _ => None
  }

  /** What `add` appends: the field and `,\n`, or nothing. */
  function BibTeXLine(a: Attribute): string {
    match BibTeXEntry(a)
    case Some(field) => field + ",\n"
    case None => ""
  }

  function BibTeXLineOpt(o: Option<Attribute>): string {
    match o
    case Some(a) => BibTeXLine(a)
    case None => ""
  }

  function BibTeXWrap(body: string): string {
    "@misc{ url2ref,\n" + body + "}"
  }

  function BibTeXBody(os: seq<Option<Attribute>>): string {
    Accumulate(BibTeXLineOpt, os)
  }

  class BibTeXCitation {
    var formatted: string

    constructor ()
      ensures formatted == ""
    {
      formatted := "";
    }

    method Add(a: Attribute)
      modifies this
      ensures formatted == old(formatted) + BibTeXLine(a)
    {
      match BibTeXEntry(a)
      case Some(field) => formatted := formatted + field + ",\n";
      case None =>
    }

    method TryAdd(o: Option<Attribute>)
      modifies this
      ensures formatted == old(formatted) + BibTeXLineOpt(o)
    {
      match o
      case Some(a) => Add(a);
      case None =>
    }

    method Build() returns (s: string)
      ensures s == BibTeXWrap(formatted)
    {
      s := "@misc{ url2ref,\n" + formatted + "}";
    }
  }

  // =====================================================================
  // Harvard

  /** The first character of each word, each followed by a full stop. */
  function InitialsOf(words: seq<string>): (r: string)
    requires AllWords(words)
    ensures |r| == 2 * |words|
    ensures forall i :: 0 <= i < |words| ==> r[2 * i] == words[i][0] && r[2 * i + 1] == '.'
  {
    if |words| == 0 then ""
    else
      var rest := InitialsOf(words[1..]);
      var r := [words[0][0], '.'] + rest;
      assert forall i :: 1 <= i < |words| ==> words[i] == words[1..][i - 1];
      assert forall k :: 2 <= k < |r| ==> r[k] == rest[k - 2];
      r
  }

  /** Initials of a string of given names. */
  function Initials(given: string): string {
    InitialsOf(SplitWhitespace(given))
  }

  function HarvardAuthor(a: Author): string {
    match a
    case Organization(s) => s
    case _ =>
      var s := a.name;
      var words := SplitWhitespace(s);
      if |words| >= 2 then words[|words| - 1] + ", " + Initials(Join(words[..|words| - 1], " "))
      else if |words| == 1 then words[0]
      else s
  }

  /** One author alone, two joined by "and", three or more as the first
      followed by "et al.". */
  function HarvardAuthors(authors: seq<Author>): string {
    if |authors| == 0 then ""
    else if |authors| == 1 then HarvardAuthor(authors[0])
    else if |authors| == 2 then HarvardAuthor(authors[0]) + " and " + HarvardAuthor(authors[1])
    else HarvardAuthor(authors[0]) + " et al."
  }

  /** The year of a date: `%Y` for full dates, `Display` otherwise. */
  function ExtractYear(d: Date): string {
    match d
    case DateTime(ts) => FormatYear(ts.date.year)
    case YearMonthDay(nd) => FormatYear(nd.year)
    case YearMonth(y, _) => IntToString(y)
    case Year(y) => IntToString(y)
  }

  function MonthName(m: int): (name: string)
    ensures name == "Unknown" <==> !(1 <= m <= 12)
  {
    if m == 1 then "January" else if m == 2 then "February" else if m == 3 then "March"
    else if m == 4 then "April" else if m == 5 then "May" else if m == 6 then "June"
    else if m == 7 then "July" else if m == 8 then "August" else if m == 9 then "September"
    else if m == 10 then "October" else if m == 11 then "November" else if m == 12 then "December"
    else "Unknown"
  }

  /** `%-d %B %Y`: the day unpadded, the English month name, the year. */
  function DayMonthYear(d: NaiveDate): string {
    NatToString(d.day) + " " + MonthName(d.month) + " " + FormatYear(d.year)
  }

  /** The access date as text: a full date with its English month name, a
      year and month as the month's name and the year ("Unknown" for a month
      outside 1-12), and a bare year as text that reads back as the year. */
  function FormatAccessDate(d: Date): (r: string)
    ensures d.YearMonthDay? ==> r == DayMonthYear(d.day) && MonthName(d.day.month) != "Unknown"
    ensures d.DateTime? ==> r == DayMonthYear(d.stamp.date) && MonthName(d.stamp.date.month) != "Unknown"
    ensures d.YearMonth? && !(1 <= d.month <= 12) ==> r == "Unknown " + IntToString(d.year)
    ensures d.Year? ==> ParseI32(r) == Some(d.year as int)
  {
    match d
    case DateTime(ts) => DayMonthYear(ts.date)
    case YearMonthDay(nd) => DayMonthYear(nd)
    case YearMonth(y, m) => MonthName(m) + " " + IntToString(y)
    case Year(y) => ParseI32OfInt(y); IntToString(y)
  }

  /** The slots of a Harvard builder. */
  datatype HarvardSlots = HarvardSlots(
    authors: Option<string>, year: Option<string>, title: Option<string>,
    site: Option<string>, publisher: Option<string>, url: Option<string>,
    accessDate: Option<string>)

  const EmptySlots := HarvardSlots(None, None, None, None, None, None, None)

  /** What `add` does to the slots: the slot for the attribute's kind is
      overwritten; other kinds are ignored. */
  function HarvardAdd(s: HarvardSlots, a: Attribute): HarvardSlots {
    match a
    case Title(v) => s.(title := Some(v))
    case Authors(vs) => s.(authors := Some(HarvardAuthors(vs)))
    case Date(d) => s.(year := Some(ExtractYear(d)))
    case Site(v) => s.(site := Some(v))
    case Publisher(v) => s.(publisher := Some(v))
    case Url(v) => s.(url := Some(v))
    case ArchiveDate(d) => s.(accessDate := Some(FormatAccessDate(d)))
    case _ => s
  }

  function HarvardAddOpt(s: HarvardSlots, o: Option<Attribute>): HarvardSlots {
    match o
    case Some(a) => HarvardAdd(s, a)
    case None => s
  }

  function HarvardFold(s: HarvardSlots, os: seq<Option<Attribute>>): HarvardSlots {
    if |os| == 0 then s else HarvardAddOpt(HarvardFold(s, os[..|os| - 1]), os[|os| - 1])
  }

  /** `Author (Year)`, with "n.d." for a missing year. */
  function HarvardHead(s: HarvardSlots): string {
    match (s.authors, s.year)
    case (Some(a), Some(y)) => a + " (" + y + ")"
    case (Some(a), None) => a + " (n.d.)"
    case (None, Some(y)) => "(" + y + ")"
    case (None, None) => "(n.d.)"
  }

  function TitlePart(s: HarvardSlots): string {
    if s.title.Some? then " '" + s.title.value + "'" else ""
  }

  /** The site, or failing that the publisher. */
  function SourcePart(s: HarvardSlots): string {
    var source := s.site.Or(s.publisher);
    if source.Some? then ", " + source.value else ""
  }

  function UrlPart(s: HarvardSlots): string {
    if s.url.Some? then " Available at: " + s.url.value else ""
  }

  function AccessPart(s: HarvardSlots): string {
    if s.accessDate.Some? then " (Accessed: " + s.accessDate.value + ")." else ""
  }

  /** The full Harvard text for the given slots: it opens with the author
      and year, and ends with a full stop unless a URL comes without an
      access date. */
  function HarvardRender(s: HarvardSlots): (r: string)
    ensures StartsWith(r, HarvardHead(s)) && |r| > |HarvardHead(s)|
    ensures s.url.None? || s.accessDate.Some? ==> r[|r| - 1] == '.'
    ensures s.accessDate.Some? ==> r[|r| - 2..] == ")."
  {
    var head := HarvardHead(s);
    var r := head + TitlePart(s) + SourcePart(s) + "." + UrlPart(s) + AccessPart(s);
    assert r[..|head|] == head;
    r
  }

  class HarvardCitation {
    var authors: Option<string>
    var year: Option<string>
    var title: Option<string>
    var site: Option<string>
    var publisher: Option<string>
    var url: Option<string>
    var accessDate: Option<string>

    function Slots(): HarvardSlots
      reads this
    {
      HarvardSlots(authors, year, title, site, publisher, url, accessDate)
    }

    constructor ()
      ensures Slots() == EmptySlots
    {
      authors, year, title, site, publisher, url, accessDate := None, None, None, None, None, None, None;
    }

    method Add(a: Attribute)
      modifies this
      ensures Slots() == HarvardAdd(old(Slots()), a)
    {
      match a
      case Title(v) => title := Some(v);
      case Authors(vs) => authors := Some(HarvardAuthors(vs));
      case Date(d) => year := Some(ExtractYear(d));
      case Site(v) => site := Some(v);
      case Publisher(v) => publisher := Some(v);
      case Url(v) => url := Some(v);
      case ArchiveDate(d) => accessDate := Some(FormatAccessDate(d));
      case _ =>
    }

    method TryAdd(o: Option<Attribute>)
      modifies this
      ensures Slots() == HarvardAddOpt(old(Slots()), o)
    {
      match o
      case Some(a) => Add(a);
      case None =>
    }

    /** Appends the parts to a result string one after another. */
    method Build() returns (result: string)
      ensures result == HarvardRender(Slots())
    {
      ghost var slots := Slots();
      result := "";
      match (authors, year) {
        case (Some(a), Some(y)) => result := result + (a + " (" + y + ")");
        case (Some(a), None) => result := result + (a + " (n.d.)");
        case (None, Some(y)) => result := result + ("(" + y + ")");
        case (None, None) => result := result + "(n.d.)";
      }
      assert result == HarvardHead(slots);
      if title.Some? {
        result := result + (" '" + title.value + "'");
      }
      assert result == HarvardHead(slots) + TitlePart(slots);
      var source := if site.Some? then site else publisher;
      if source.Some? {
        result := result + (", " + source.value);
      }
      assert result == HarvardHead(slots) + TitlePart(slots) + SourcePart(slots);
      result := result + ".";
      if url.Some? {
        result := result + (" Available at: " + url.value);
      }
      assert result == HarvardHead(slots) + TitlePart(slots) + SourcePart(slots) + "." + UrlPart(slots);
      if accessDate.Some? {
        result := result + (" (Accessed: " + accessDate.value + ").");
      } else {
        assert AccessPart(slots) == "";
      }
    }
  }

  // =====================================================================
  // Properties

  /** The one unit test of the builders: a lone title. */
  lemma WikiLoneTitle()
    ensures WikiWrap(WikiBody([Some(Attribute.Title("Test title"))]))
         == "{{cite web\n| title = Test title\n}}"
  {
    var os := [Some(Attribute.Title("Test title"))];
    assert os[..0] == [];
  }

  /** The template has no parameter for locale, type, institution and volume:
      exactly those leave the citation unchanged. */
  lemma WikiSkipsExactly(a: Attribute)
    ensures WikiEntry(a).None? <==>
      TypeOf(a) in {AttributeType.Locale, AttributeType.Type, AttributeType.Institution, AttributeType.Volume}
  {
  }

  lemma BibTeXSkipsExactly(a: Attribute)
    ensures BibTeXEntry(a).None? <==>
      TypeOf(a) in {AttributeType.Locale, AttributeType.Type, AttributeType.Institution, AttributeType.Volume}
  {
  }

  /** Successive `try_add` calls append their texts in order. */
  lemma {:induction false} AccumulateAppend(line: Option<Attribute> -> string, xs: seq<Option<Attribute>>, ys: seq<Option<Attribute>>)
    ensures Accumulate(line, xs + ys) == Accumulate(line, xs) + Accumulate(line, ys)
    decreases |ys|
  {
    if |ys| == 0 {
      assert xs + ys == xs;
    } else {
      var n := |ys| - 1;
      assert (xs + ys)[..|xs + ys| - 1] == xs + ys[..n];
      AccumulateAppend(line, xs, ys[..n]);
    }
  }

  /** When `try_add(None)` appends nothing, an absent field contributes
      nothing: the text equals that of the present fields alone. */
  lemma {:induction false} AccumulatePresent(line: Option<Attribute> -> string, os: seq<Option<Attribute>>)
    requires line(None) == ""
    ensures Accumulate(line, os) == Accumulate(line, PresentOnly(os))
  {
    if |os| > 0 {
      var init, last := os[..|os| - 1], os[|os| - 1];
      AccumulatePresent(line, init);
      if last.Some? {
        var ps := PresentOnly(init) + [last];
        assert ps[..|ps| - 1] == PresentOnly(init);
      } else {
        assert PresentOnly(os) == PresentOnly(init) + [];
        assert PresentOnly(init) + [] == PresentOnly(init);
      }
    }
  }

  lemma AccumulateNoneNeutral(line: Option<Attribute> -> string, xs: seq<Option<Attribute>>, ys: seq<Option<Attribute>>)
    requires line(None) == ""
    ensures Accumulate(line, xs + [None] + ys) == Accumulate(line, xs + ys)
  {
    var xn := xs + [None];
    AccumulateAppend(line, xn, ys);
    AccumulateAppend(line, xs, ys);
    assert xn[..|xn| - 1] == xs;
  }

  /** `try_add(None)` between any two sequences of calls leaves the Wiki and
      BibTeX text unchanged. */
  lemma TryAddNoneNeutral(xs: seq<Option<Attribute>>, ys: seq<Option<Attribute>>)
    ensures WikiBody(xs + [None] + ys) == WikiBody(xs + ys)
    ensures BibTeXBody(xs + [None] + ys) == BibTeXBody(xs + ys)
  {
    assert WikiLineOpt(None) == "" && BibTeXLineOpt(None) == "";
    AccumulateNoneNeutral(WikiLineOpt, xs, ys);
    AccumulateNoneNeutral(BibTeXLineOpt, xs, ys);
  }

  /** The word list of a name written with single spaces is the list itself,
      so a name's last word and the words before it are found again. */
  lemma NameWords(given: seq<string>, family: string)
    requires AllWords(given) && IsWord(family)
    ensures AllWords(given + [family])
    ensures var words := SplitWhitespace(Join(given + [family], " "));
      |words| == |given| + 1 && words[|words| - 1] == family && words[..|words| - 1] == given
  {
    NameSplits(given, family);
    assert (given + [family])[..|given|] == given;
  }

  /** A name joined from words splits back into them. */
  lemma NameSplits(given: seq<string>, family: string)
    requires AllWords(given) && IsWord(family)
    ensures AllWords(given + [family])
    ensures SplitWhitespace(Join(given + [family], " ")) == given + [family]
  {
    WordsAppend(given, family);
    SplitJoinRoundTrip(given + [family]);
  }

  lemma WordsAppend(given: seq<string>, family: string)
    requires AllWords(given) && IsWord(family)
    ensures AllWords(given + [family])
  {
    var words := given + [family];
    forall i | 0 <= i < |words| ensures IsWord(words[i]) {
      if i < |given| { assert words[i] == given[i]; }
    }
  }

  lemma WikiSplitNameOf(given: seq<string>, family: string, idx: string)
    ensures WikiSplitName(given + [family], idx)
         == "| last" + idx + " = " + family + "\n| first" + idx + " = " + Join(given, " ")
  {
    var words := given + [family];
    assert words[..|words| - 1] == given;
  }

  /** A person whose name is given names followed by a family name is split at
      the last word: the family name goes to `last`, the given names, joined
      by single spaces, to `first`. */
  lemma WikiPersonSplit(given: seq<string>, family: string, idx: string)
    requires AllWords(given) && IsWord(family)
    ensures WikiAuthor(Person(Join(given + [family], " ")), idx)
         == "| last" + idx + " = " + family + "\n| first" + idx + " = " + Join(given, " ")
  {
    NameWords(given, family);
    WikiSplitNameOf(given, family, idx);
  }

  /** A generic author of two or more words is split like a person. */
  lemma WikiGenericSplit(given: seq<string>, family: string, idx: string)
    requires AllWords(given) && IsWord(family) && |given| >= 1
    ensures WikiAuthor(Generic(Join(given + [family], " ")), idx)
         == "| last" + idx + " = " + family + "\n| first" + idx + " = " + Join(given, " ")
  {
    NameSplits(given, family);
    WikiGenericWords(Join(given + [family], " "), given + [family], idx);
    WikiSplitNameOf(given, family, idx);
  }

  lemma WikiGenericWords(name: string, words: seq<string>, idx: string)
    requires SplitWhitespace(name) == words && |words| >= 2
    ensures WikiAuthor(Generic(name), idx) == WikiSplitName(words, idx)
  {
  }


  /** A one-word generic author, and any organisation, keeps the whole-name
      parameter with its whitespace collapsed. */
  lemma WikiWholeNames(family: string, org: string, idx: string)
    requires IsWord(family)
    ensures WikiAuthor(Generic(family), idx) == "| author" + idx + " = " + family
    ensures WikiAuthor(Organization(org), idx) == "| author" + idx + " = " + Join(SplitWhitespace(org), " ")
  {
    SplitWord(family, "");
    assert family + "" == family;
  }

  /** A lone author is written without an index; with more authors every
      parameter carries the author's 1-based position. */
  lemma WikiAuthorIndices(a: Author, b: Author, c: Author)
    ensures WikiAuthors([a]) == WikiAuthor(a, "")
    ensures WikiAuthors([a, b]) == Join([WikiAuthor(a, "1"), WikiAuthor(b, "2")], " ")
    ensures WikiAuthors([a, b, c]) == Join([WikiAuthor(a, "1"), WikiAuthor(b, "2"), WikiAuthor(c, "3")], " ")
  {
    assert NatToString(1) == "1" && NatToString(2) == "2" && NatToString(3) == "3";
    assert WikiAuthorParts([a]) == [WikiAuthor(a, "")];
    assert WikiAuthorParts([a, b]) == [WikiAuthor(a, "1"), WikiAuthor(b, "2")];
    assert WikiAuthorParts([a, b, c]) == [WikiAuthor(a, "1"), WikiAuthor(b, "2"), WikiAuthor(c, "3")];
  }

  /** BibTeX writes a person as `Family, Given names`. */
  lemma BibTeXPersonSplit(given: seq<string>, family: string)
    requires AllWords(given) && IsWord(family)
    ensures BibTeXAuthor(Person(Join(given + [family], " "))) == family + ", " + Join(given, " ")
    ensures |given| >= 1 ==> BibTeXAuthor(Generic(Join(given + [family], " "))) == family + ", " + Join(given, " ")
  {
    NameWords(given, family);
  }

  /** An organisation is wrapped in braces with its whitespace collapsed, so
      BibTeX keeps it as one name whose words are the organisation's words. */
  lemma BibTeXOrganization(org: string)
    ensures exists inner :: (BibTeXAuthor(Organization(org)) == "{" + inner + "}"
      && SplitWhitespace(inner) == SplitWhitespace(org))
  {
    SplitJoinRoundTrip(SplitWhitespace(org));
    assert BibTeXAuthor(Organization(org)) == "{" + Normalize(org) + "}";
  }

  /** Authors are joined with " and " inside one `author` field. */
  lemma BibTeXAuthorsJoined(a: Author, b: Author)
    ensures BibTeXAuthors([a]) == "author = \"" + BibTeXAuthor(a) + "\""
    ensures BibTeXAuthors([a, b]) == "author = \"" + Join([BibTeXAuthor(a), BibTeXAuthor(b)], " and ") + "\""
  {
    assert BibTeXAuthorParts([a, b]) == [BibTeXAuthor(a), BibTeXAuthor(b)];
    assert BibTeXAuthorParts([a]) == [BibTeXAuthor(a)];
  }

  /** A full date gives one `date` field whose value reads back as the date
      (for a timestamp, its date). */
  lemma BibTeXFullDate(d: NaiveDate, ts: Timestamp)
    ensures BibTeXDate(YearMonthDay(d)) == "date = \"" + FormatYmd(d) + "\"" && ParseYmd(FormatYmd(d)) == Some(d)
    ensures BibTeXDate(DateTime(ts)) == "date = \"" + FormatYmd(ts.date) + "\"" && ParseYmd(FormatYmd(ts.date)) == Some(ts.date)
  {
    ParseFormatYmd(d);
    ParseFormatYmd(ts.date);
  }

  /** A year and month give separate `year` and `month` fields whose values
      read back as the numbers; a year alone gives only `year`. */
  lemma BibTeXPartialDate(y: I32, m: I32)
    ensures BibTeXDate(YearMonth(y, m)) == "year = \"" + IntToString(y) + "\",\nmonth = \"" + IntToString(m) + "\""
    ensures BibTeXDate(Year(y)) == "year = \"" + IntToString(y) + "\""
    ensures ParseI32(IntToString(y)) == Some(y as int) && ParseI32(IntToString(m)) == Some(m as int)
  {
    ParseI32OfInt(y);
    ParseI32OfInt(m);
  }

  lemma InitialsRoundTrip(words: seq<string>)
    requires AllWords(words)
    ensures Initials(Join(words, " ")) == InitialsOf(words)
  {
    SplitJoinRoundTrip(words);
  }

  /** Harvard writes a person as `Family, X.Y.`: given names become their
      initials. */
  lemma HarvardPersonInitials(given: seq<string>, family: string)
    requires AllWords(given) && IsWord(family) && |given| >= 1
    ensures HarvardAuthor(Person(Join(given + [family], " "))) == family + ", " + InitialsOf(given)
    ensures HarvardAuthor(Generic(Join(given + [family], " "))) == family + ", " + InitialsOf(given)
  {
    HarvardNamed(Person(Join(given + [family], " ")), given, family);
    HarvardNamed(Generic(Join(given + [family], " ")), given, family);
  }

  lemma HarvardNamed(a: Author, given: seq<string>, family: string)
    requires AllWords(given) && IsWord(family) && |given| >= 1
    requires !a.Organization? && a.name == Join(given + [family], " ")
    ensures HarvardAuthor(a) == family + ", " + InitialsOf(given)
  {
    NameSplits(given, family);
    InitialsRoundTrip(given);
    assert (given + [family])[..|given|] == given;
  }

  /** A one-word name stays as it is. */
  lemma HarvardSingleWord(w: string)
    requires IsWord(w)
    ensures HarvardAuthor(Person(w)) == w && HarvardAuthor(Generic(w)) == w
  {
    SplitWord(w, "");
    assert w + "" == w;
  }

  /** Harvard author lists by length. */
  lemma HarvardAuthorCount(authors: seq<Author>)
    ensures |authors| == 0 ==> HarvardAuthors(authors) == ""
    ensures |authors| == 2 ==>
      HarvardAuthors(authors) == HarvardAuthor(authors[0]) + " and " + HarvardAuthor(authors[1])
    ensures |authors| >= 3 ==> HarvardAuthors(authors) == HarvardAuthor(authors[0]) + " et al."
    ensures |authors| >= 3 ==> HarvardAuthors(authors) == HarvardAuthors(authors[..3])
  {
  }

  /** A missing year reads exactly as if the year were "n.d.". */
  lemma HarvardNoDate(s: HarvardSlots)
    requires s.year.None?
    ensures HarvardRender(s) == HarvardRender(s.(year := Some("n.d.")))
  {
    var t := s.(year := Some("n.d."));
    assert HarvardHead(s) == HarvardHead(t);
    assert TitlePart(s) == TitlePart(t) && SourcePart(s) == SourcePart(t);
    assert UrlPart(s) == UrlPart(t) && AccessPart(s) == AccessPart(t);
  }

  /** The site is preferred to the publisher: with a site, the publisher
      does not matter; without one, the publisher takes its place. */
  lemma HarvardSiteOverPublisher(s: HarvardSlots, p: string, q: string)
    requires s.site.Some?
    ensures HarvardRender(s.(publisher := Some(p))) == HarvardRender(s.(publisher := None))
    ensures HarvardRender(s.(site := None, publisher := Some(q))) == HarvardRender(s.(site := Some(q), publisher := None))
  {
    var s1, s2 := s.(publisher := Some(p)), s.(publisher := None);
    assert HarvardHead(s1) == HarvardHead(s2) && TitlePart(s1) == TitlePart(s2);
    assert SourcePart(s1) == SourcePart(s2);
    assert UrlPart(s1) == UrlPart(s2) && AccessPart(s1) == AccessPart(s2);
    var t1, t2 := s.(site := None, publisher := Some(q)), s.(site := Some(q), publisher := None);
    assert HarvardHead(t1) == HarvardHead(t2) && TitlePart(t1) == TitlePart(t2);
    assert SourcePart(t1) == SourcePart(t2);
    assert UrlPart(t1) == UrlPart(t2) && AccessPart(t1) == AccessPart(t2);
  }

  /** "Available at:" comes only with a URL, and then right after the final
      full stop of the source part. */
  lemma HarvardAvailableAt(s: HarvardSlots, u: string)
    requires s.url.None? && s.accessDate.None?
    ensures HarvardRender(s.(url := Some(u))) == HarvardRender(s) + " Available at: " + u
  {
    var t := s.(url := Some(u));
    assert HarvardHead(s) == HarvardHead(t);
    assert TitlePart(s) == TitlePart(t) && SourcePart(s) == SourcePart(t);
    assert UrlPart(s) == "" && UrlPart(t) == " Available at: " + u;
    assert AccessPart(s) == "" && AccessPart(t) == "";
  }

  /** "(Accessed: …)." comes only with an archive date, and always last. */
  lemma HarvardAccessed(s: HarvardSlots, d: string)
    requires s.accessDate.None?
    ensures HarvardRender(s.(accessDate := Some(d))) == HarvardRender(s) + " (Accessed: " + d + ")."
  {
    var t := s.(accessDate := Some(d));
    assert HarvardHead(s) == HarvardHead(t);
    assert TitlePart(s) == TitlePart(t) && SourcePart(s) == SourcePart(t);
    assert UrlPart(s) == UrlPart(t);
    assert AccessPart(s) == "" && AccessPart(t) == " (Accessed: " + d + ").";
  }

  /** The empty Harvard builder renders as "(n.d.).". */
  lemma HarvardEmpty()
    ensures HarvardRender(EmptySlots) == "(n.d.)."
  {
  }

  /** An ISO date given as the archive date is written day, month name, year. */
  lemma AccessDateSpelledOut(d: NaiveDate)
    requires 0 <= d.year <= 9999
    ensures FormatAccessDate(YearMonthDay(d)) == NatToString(d.day) + " " + MonthName(d.month) + " " + FormatYear(d.year)
    ensures MonthName(d.month) != "Unknown"
    ensures |FormatYear(d.year)| == 4
  {
  }
}
