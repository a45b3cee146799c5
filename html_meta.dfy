/** Plain HTML metadata: `<meta>` tags by name or property, microdata time
    elements and author bylines, as a fallback for the richer sources. */
module HtmlMeta {
  import opened Text
  import opened ChronoDates
  import opened Attributes
  import opened Parser

  /** A `<meta>` element with the attributes that matter here. */
  datatype MetaElement = MetaElement(name: Option<string>, property: Option<string>, content: Option<string>)

  /** An element a CSS selector picked: its collected text and its
      `datetime` attribute. */
  datatype Hit = Hit(text: string, datetime: Option<string>)

  /** A page: its meta elements in document order, and what each selector
      used here picks, in document order. */
  datatype HtmlDocument = HtmlDocument(metas: seq<MetaElement>, selected: map<string, seq<Hit>>)

  function Select(doc: HtmlDocument, selector: string): seq<Hit> {
    if selector in doc.selected then doc.selected[selector] else []
  }

  /** The readers of the date forms tried: RFC 3339, and `%Y-%m-%dT%H:%M:%S`
      without a zone. */
  datatype DateReaders = DateReaders(rfc3339: Rfc3339Reader, isoLocal: string -> Option<Timestamp>)

  /** The meta names (or properties) consulted for a field, in order. */
  function Keys(t: AttributeType): (keys: seq<string>)
    ensures (t !in {AttributeType.Author, AttributeType.Publisher, AttributeType.Date,
                    AttributeType.Site, AttributeType.Language}) ==> keys == []
  {
    match t
    case Author => ["author", "article:author", "byl"]
    case Publisher => ["publisher", "article:publisher"]
    case Site => ["application-name", "apple-mobile-web-app-title"]
    case Language => ["language", "DC.language"]
    case _ =>
      if t == AttributeType.Date then ["date", "article:published_time", "pubdate", "publishdate", "DC.date.issued"]
      else []
  }

  /** The first meta element with the given name. */
  function FirstNamed(metas: seq<MetaElement>, key: string): (r: Option<MetaElement>)
    ensures r.Some? ==> r.value in metas && r.value.name == Some(key)
  {
    FirstSome(metas, (e: MetaElement) => if e.name == Some(key) then Some(e) else None)
  }

  /** The first meta element with the given property. */
  function FirstProperty(metas: seq<MetaElement>, key: string): (r: Option<MetaElement>)
    ensures r.Some? ==> r.value in metas && r.value.property == Some(key)
  {
    FirstSome(metas, (e: MetaElement) => if e.property == Some(key) then Some(e) else None)
  }

  /** Text that is not blank, if there is some. */
  function NonBlank(text: Option<string>): (r: Option<string>)
    ensures r.Some? <==> text.Some? && !IsBlank(text.value)
    ensures r.Some? ==> r == text
  {
    if text.Some? then
      TrimEmptyIffBlank(text.value);
      if Trim(text.value) != "" then text else None
    else None
  }

  /** The content of a key: the first element with that name, if its content
      is not blank, else the first with that property, likewise. */
  function MetaForKey(metas: seq<MetaElement>, key: string): (r: Option<string>)
    ensures r.Some? ==> !IsBlank(r.value)
  {
    var byName := FirstNamed(metas, key);
    var byProperty := FirstProperty(metas, key);
    NonBlank(if byName.Some? then byName.value.content else None)
      .Or(NonBlank(if byProperty.Some? then byProperty.value.content else None))
  }

  /** The content of the first key that has some. */
  function TryFindMetaContent(metas: seq<MetaElement>, keys: seq<string>): (r: Option<string>)
    ensures r.Some? ==> !IsBlank(r.value)
  {
    FirstSome(keys, k => MetaForKey(metas, k))
  }

  const MicrodataSelectors: seq<string> :=
    ["time[itemprop=\"datePublished\"]", "time[itemprop=\"published\"]",
     "time[itemprop=\"dateCreated\"]", "time[datetime]"]

  /** The `datetime` of the first element a selector picks, if not blank;
      later elements are never consulted. */
  function DatetimeAt(doc: HtmlDocument, selector: string): (r: Option<string>)
    ensures r.Some? <==> (|Select(doc, selector)| > 0 && Select(doc, selector)[0].datetime.Some?
                          && !IsBlank(Select(doc, selector)[0].datetime.value))
    ensures r.Some? ==> r == Select(doc, selector)[0].datetime
  {
    var hits := Select(doc, selector);
    if |hits| == 0 then None else NonBlank(hits[0].datetime)
  }

  /** The datetime of the first microdata selector that gives one. */
  function TryFindMicrodataDate(doc: HtmlDocument): (r: Option<string>)
    ensures r.None? <==> forall i :: 0 <= i < |MicrodataSelectors| ==> DatetimeAt(doc, MicrodataSelectors[i]).None?
    ensures r.Some? ==> !IsBlank(r.value) && exists i :: (0 <= i < |MicrodataSelectors|
      && DatetimeAt(doc, MicrodataSelectors[i]) == r
      && forall j :: 0 <= j < i ==> DatetimeAt(doc, MicrodataSelectors[j]).None?)
  {
    FirstSome(MicrodataSelectors, s => DatetimeAt(doc, s))
  }

  const AuthorSelectors: seq<string> :=
    ["[itemprop=\"author\"] [itemprop=\"name\"]", "[itemprop=\"author\"]", "[rel=\"author\"]",
     ".author", ".byline", "[class*=\"author-name\"]", "[class*=\"byline\"]"]

  /** A byline cleaned: trimmed, dropped when empty or 200 bytes or longer,
      stripped of a leading "Af ", "By ", "af " or "by " (each repeated, in
      that order) and trimmed again; empty results are dropped. */
  function CleanAuthor(text: string): (r: Option<Author>)
    ensures r.Some? ==> r.value.Generic? && r.value.name != "" && |r.value.name| < 200
    ensures IsBlank(text) ==> r.None?
  {
    TrimEmptyIffBlank(text);
    var t := Trim(text);
    if t != "" && Utf8Len(t) < 200 then
      var cleaned := Trim(StripEach(t, BylinePrefixes));
      if cleaned != "" then
        Some(Generic(cleaned))
      else None
    else None
  }

  const BylinePrefixes: seq<string> := ["Af ", "By ", "af ", "by "]

  /** Each prefix in turn stripped from the start, as often as it repeats. */
  function StripEach(t: string, prefixes: seq<string>): (r: string)
    ensures |r| <= |t| && r == t[|t| - |r|..]
    decreases |prefixes|
  {
    if |prefixes| == 0 then t
    else
      var a := TrimStartMatches(t, prefixes[0]);
      var r := StripEach(a, prefixes[1..]);
      assert |r| <= |t| && r == t[|t| - |r|..] by {
        SuffixOfSuffix(t, a, r);
      }
      r
  }

  lemma SuffixOfSuffix(s: string, a: string, b: string)
    requires |a| <= |s| && a == s[|s| - |a|..]
    requires |b| <= |a| && b == a[|a| - |b|..]
    ensures |b| <= |s| && b == s[|s| - |b|..]
  {
  }

  /** The cleaned authors of a selector's hits, in document order: at most
      one per hit. */
  function CleanAuthors(hits: seq<Hit>): (r: seq<Author>)
    ensures |r| <= |hits|
  {
    if |hits| == 0 then []
    else
      var rest := CleanAuthors(hits[1..]);
      var c := CleanAuthor(hits[0].text);
      if c.Some? then [c.value] + rest else rest
  }

  /** A selector's hits give no author exactly when no hit's text cleans
      to one. */
  lemma NoCleanAuthors(hits: seq<Hit>)
    ensures CleanAuthors(hits) == [] <==> forall i :: 0 <= i < |hits| ==> CleanAuthor(hits[i].text).None?
  {
    var clean := (h: Hit) => CleanAuthor(h.text);
    CleanAuthorsKept(hits, clean);
    NoneKept(hits, clean);
  }

  /** The authors under one selector, or nothing when none of its hits
      cleans to an author. */
  function AuthorsAt(doc: HtmlDocument, selector: string): (r: Option<seq<Author>>)
    ensures r.None? <==> CleanAuthors(Select(doc, selector)) == []
    ensures r.Some? ==> r.value == CleanAuthors(Select(doc, selector))
  {
    var authors := CleanAuthors(Select(doc, selector));
    if |authors| == 0 then None else Some(authors)
  }

  /** The authors of the first selector that yields any. */
  function TryFindAuthor(doc: HtmlDocument): (r: Option<seq<Author>>)
    ensures r.None? <==> forall i :: 0 <= i < |AuthorSelectors| ==> CleanAuthors(Select(doc, AuthorSelectors[i])) == []
    ensures r.Some? ==> r.value != [] && exists i :: (0 <= i < |AuthorSelectors|
      && r.value == CleanAuthors(Select(doc, AuthorSelectors[i]))
      && forall j :: 0 <= j < i ==> CleanAuthors(Select(doc, AuthorSelectors[j])) == [])
  {
    var r := FirstSome(AuthorSelectors, s => AuthorsAt(doc, s));
    assert forall i :: 0 <= i < |AuthorSelectors| ==>
      (AuthorsAt(doc, AuthorSelectors[i]).None? <==> CleanAuthors(Select(doc, AuthorSelectors[i])) == []);
    r
  }

  /** The attribute a found value makes: an author is a single generic
      author; a date is RFC 3339, else a zone-less date and time, else a
      plain `%Y-%m-%d` day. */
  function AttributeTypeToAttribute(t: AttributeType, value: string, readers: DateReaders): (r: Option<Attribute>)
    ensures r.Some? ==> TypeOf(r.value) == t
    ensures t == AttributeType.Author ==> r == Some(Authors([Generic(value)]))
    ensures t == AttributeType.Date && readers.rfc3339(value).None? && readers.isoLocal(value).None? ==>
      r == (if ParseYmd(value).Some? then Some(Attribute.Date(YearMonthDay(ParseYmd(value).value))) else None)
  {
    if t == AttributeType.Date then
      match ParseDate(value, readers.rfc3339)
      case Some(date) => Some(Attribute.Date(date))
      case None =>
        match readers.isoLocal(value)
        case Some(stamp) => Some(Attribute.Date(DateTime(stamp)))
        case None =>
          match ParseYmd(value)
          case Some(day) => Some(Attribute.Date(YearMonthDay(day)))
          case None => None
    else
      match t
      case Author => Some(Authors([Generic(value)]))
      case Publisher => Some(Attribute.Publisher(value))
      case Site => Some(Attribute.Site(value))
      case Language => Some(Attribute.Language(value))
      case _ => None
  }

  /** A field from the page's plain metadata: a meta tag with content
      decides it; without one, authors come from the bylines and dates from
      the microdata time elements. */
  function ParseAttribute(doc: HtmlDocument, t: AttributeType, readers: DateReaders): (r: Option<Attribute>)
    ensures r.Some? ==> TypeOf(r.value) == t
  {
    match TryFindMetaContent(doc.metas, Keys(t))
    case Some(value) => AttributeTypeToAttribute(t, value, readers)
    case None =>
      if t == AttributeType.Author then
        match TryFindAuthor(doc)
        case Some(authors) => Some(Authors(authors))
        case None => None
      else if t == AttributeType.Date then
        match TryFindMicrodataDate(doc)
        case Some(datetime) => AttributeTypeToAttribute(t, datetime, readers)
        case None => None
      else None
  }

  // ---------------------------------------------------------------------
  // Properties

  /** Within a key, a non-blank `name=` element wins over any `property=`
      element. */
  lemma NameBeforeProperty(metas: seq<MetaElement>, key: string, c: string)
    requires FirstNamed(metas, key).Some? && FirstNamed(metas, key).value.content == Some(c) && !IsBlank(c)
    ensures MetaForKey(metas, key) == Some(c)
  {
  }

  /** A blank `name=` element is passed over for the `property=` one. */
  lemma BlankContentSkipped(metas: seq<MetaElement>, key: string)
    requires FirstNamed(metas, key).Some? && FirstNamed(metas, key).value.content.Some?
    requires IsBlank(FirstNamed(metas, key).value.content.value)
    ensures MetaForKey(metas, key) == NonBlank(if FirstProperty(metas, key).Some? then FirstProperty(metas, key).value.content else None)
  {
  }

  /** A date meta tag that does not read as a date gives no date, even when
      a time element holds one. */
  lemma MetaDateShadowsMicrodata(doc1: HtmlDocument, doc2: HtmlDocument, readers: DateReaders)
    requires doc1.metas == doc2.metas
    requires TryFindMetaContent(doc1.metas, Keys(AttributeType.Date)).Some?
    ensures ParseAttribute(doc1, AttributeType.Date, readers) == ParseAttribute(doc2, AttributeType.Date, readers)
  {
  }

  /** An author comes from the first author meta tag with content, as one
      generic author; only without one are the bylines read, and then the
      authors are those of the first selector whose hits clean to any. */
  lemma AuthorFromMetaThenBylines(doc: HtmlDocument, readers: DateReaders)
    ensures var meta := TryFindMetaContent(doc.metas, Keys(AttributeType.Author));
      var r := ParseAttribute(doc, AttributeType.Author, readers);
      (meta.Some? ==> r == Some(Authors([Generic(meta.value)])))
      && (meta.None? ==> r == (if TryFindAuthor(doc).Some? then Some(Authors(TryFindAuthor(doc).value)) else None))
      && (meta.None? ==> (r.None? <==> forall i :: 0 <= i < |AuthorSelectors| ==> CleanAuthors(Select(doc, AuthorSelectors[i])) == []))
  {
  }

  /** Microdata is read only when no date meta tag has content. */
  lemma MicrodataOnlyWithoutMeta(doc: HtmlDocument, readers: DateReaders)
    requires TryFindMetaContent(doc.metas, Keys(AttributeType.Date)).None?
    ensures ParseAttribute(doc, AttributeType.Date, readers) ==
      (if TryFindMicrodataDate(doc).Some? then AttributeTypeToAttribute(AttributeType.Date, TryFindMicrodataDate(doc).value, readers) else None)
  {
  }

  /** A trimmed byline under 200 bytes whose prefix-stripped form is a
      trimmed non-empty name is that one generic author. */
  lemma CleanAuthorOf(t: string, name: string)
    requires Trim(t) == t && t != "" && Utf8Len(t) < 200
    requires StripEach(t, BylinePrefixes) == name && Trim(name) == name && name != ""
    ensures CleanAuthor(t) == Some(Generic(name))
  {
  }

  /** "By " before a name not starting with another prefix is stripped. */
  lemma BylineNameStripped(name: string)
    requires !StartsWith(name, "af ") && !StartsWith(name, "by ") && !StartsWith(name, "By ")
    ensures StripEach("By " + name, BylinePrefixes) == name
  {
    assert ("By " + name)[0] == 'B';
    StripSecondOnly("Af ", "By ", ["af ", "by "], name);
    assert BylinePrefixes == ["Af ", "By "] + ["af ", "by "];
  }

  lemma StripSecondOnly(p0: string, p1: string, rest: seq<string>, x: string)
    requires |p0| > 0 && |p1| > 0 && !StartsWith(p1 + x, p0) && !StartsWith(x, p1)
    requires forall i :: 0 <= i < |rest| ==> |rest[i]| > 0 && !StartsWith(x, rest[i])
    ensures StripEach(p1 + x, [p0, p1] + rest) == x
  {
    var ps := [p0, p1] + rest;
    assert ps[1..][1..] == rest;
    StripPrefixOnce(p1, x);
    StripEachNoMatch(x, rest);
  }

  /** A prefix is stripped once from text that does not start with it again. */
  lemma StripPrefixOnce(p: string, x: string)
    requires |p| > 0 && !StartsWith(x, p)
    ensures TrimStartMatches(p + x, p) == x
  {
    assert (p + x)[..|p|] == p;
    assert (p + x)[|p|..] == x;
  }

  lemma {:induction false} StripEachNoMatch(t: string, prefixes: seq<string>)
    requires forall i :: 0 <= i < |prefixes| ==> |prefixes[i]| > 0 && !StartsWith(t, prefixes[i])
    ensures StripEach(t, prefixes) == t
  {
    if |prefixes| > 0 {
      StripEachNoMatch(t, prefixes[1..]);
    }
  }

  /** Text that is blank, or 200 bytes or longer once trimmed, is no author. */
  lemma UnfitTextDropped(text: string)
    requires IsBlank(text) || Utf8Len(Trim(text)) >= 200
    ensures CleanAuthor(text) == None
  {
    TrimEmptyIffBlank(text);
  }

  /** The authors of a selector's hits keep document order: those of two runs
      of hits one after the other are each run's, one after the other. */
  lemma CleanAuthorsAppend(xs: seq<Hit>, ys: seq<Hit>)
    ensures CleanAuthors(xs + ys) == CleanAuthors(xs) + CleanAuthors(ys)
  {
    var clean := (h: Hit) => CleanAuthor(h.text);
    CleanAuthorsKept(xs + ys, clean);
    CleanAuthorsKept(xs, clean);
    CleanAuthorsKept(ys, clean);
    KeptAppend(xs, ys, clean);
  }

  /** The hits' values under `f`, in order, leaving out those it has none for. */
  function Kept(hits: seq<Hit>, f: Hit -> Option<Author>): seq<Author>
  {
    if |hits| == 0 then []
    else
      var c := f(hits[0]);
      if c.Some? then [c.value] + Kept(hits[1..], f) else Kept(hits[1..], f)
  }

  lemma {:induction false} KeptAppend(xs: seq<Hit>, ys: seq<Hit>, f: Hit -> Option<Author>)
    ensures Kept(xs + ys, f) == Kept(xs, f) + Kept(ys, f)
  {
    if |xs| > 0 {
      assert (xs + ys)[0] == xs[0];
      assert (xs + ys)[1..] == xs[1..] + ys;
      KeptAppend(xs[1..], ys, f);
    } else {
      assert xs + ys == ys;
    }
  }

  lemma {:induction false} NoneKept(hits: seq<Hit>, f: Hit -> Option<Author>)
    ensures Kept(hits, f) == [] <==> forall i :: 0 <= i < |hits| ==> f(hits[i]).None?
  {
    if |hits| > 0 {
      NoneKept(hits[1..], f);
      assert forall i :: 1 <= i < |hits| ==> hits[i] == hits[1..][i - 1];
    }
  }

  lemma {:induction false} CleanAuthorsKept(hits: seq<Hit>, f: Hit -> Option<Author>)
    requires forall h :: f(h) == CleanAuthor(h.text)
    ensures CleanAuthors(hits) == Kept(hits, f)
  {
    if |hits| > 0 {
      CleanAuthorsKept(hits[1..], f);
    }
  }

  /** Fields with no meta keys and no fallback, such as Title and Url, give
      nothing. */
  lemma UnkeyedFieldsEmpty(doc: HtmlDocument, readers: DateReaders)
    ensures ParseAttribute(doc, AttributeType.Title, readers) == None
    ensures ParseAttribute(doc, AttributeType.Url, readers) == None
  {
  }
}
