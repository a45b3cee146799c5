/** Putting a reference together: the resolved fields, the AI fallback for
    the ones still missing, the user's URL when no source gives one, the
    translated title and the Wayback Machine archive. Every remote service
    is an input. */
module Generator {
  import opened Text
  import opened ChronoDates
  import opened Attributes
  import opened AttributeConfigs
  import opened Parser
  import opened AiExtractor
  import opened References

  datatype GenerationError =
    | TranslationError
    | ServiceError          // what a translation service reports on failure
    | ArchiveFailure(error: ArchiveError)

  datatype TranslationProvider = DeepL | Google

  /** Source and target are language codes; no target means no translation. */
  datatype TranslationOptions = TranslationOptions(
    provider: TranslationProvider, source: Option<string>, target: Option<string>,
    deeplKey: Option<string>, googleKey: Option<string>)

  datatype ArchiveOptions = ArchiveOptions(includeArchived: bool, performArchival: bool)

  const DefaultArchiveOptions := ArchiveOptions(true, true)

  datatype GenerationOptions = GenerationOptions(
    attributeConfig: AttributeConfig, translation: TranslationOptions,
    archive: ArchiveOptions, ai: AiExtractionOptions)

  /** A translation service: text, source language, target language and
      key to the translated text. */
  type TranslationService = (string, Option<string>, string, string) -> Result<string, GenerationError>

  // ---------------------------------------------------------------------
  // Translation

  /** Translation of a text with the configured provider: no target language
      or no key for the provider is an error before any call. */
  function Translate(content: string, options: TranslationOptions,
                     deepl: TranslationService, google: TranslationService): (r: Result<string, GenerationError>)
    ensures options.target.None? ==> r == Err(TranslationError)
    ensures options.provider == DeepL && options.deeplKey.None? ==> r == Err(TranslationError)
    ensures options.provider == Google && options.googleKey.None? ==> r == Err(TranslationError)
  {
    match options.target
    case None => Err(TranslationError)
    case Some(target) =>
      match options.provider
      case DeepL =>
        if options.deeplKey.None? then Err(TranslationError)
        else deepl(content, options.source, target, options.deeplKey.value)
      case Google =>
        if options.googleKey.None? then Err(TranslationError)
        else google(content, options.source, target, options.googleKey.value)
  }

  /** The translated title: only a title can be translated, and the result
      carries the target language. */
  function TranslateTitle(title: Option<Attribute>, options: TranslationOptions,
                          deepl: TranslationService, google: TranslationService): (r: Result<Attribute, GenerationError>)
    ensures r.Ok? ==> (title.Some? && title.value.Title? && options.target.Some?
      && Translate(title.value.text, options, deepl, google).Ok?
      && r.value == TranslatedTitle(Translation(Translate(title.value.text, options, deepl, google).value, options.target.value)))
    ensures !(title.Some? && title.value.Title?) ==> r == Err(TranslationError)
  {
    if title.Some? && title.value.Title? then
      match Translate(title.value.text, options, deepl, google)
      case Ok(text) => Ok(TranslatedTitle(Translation(text, options.target.value)))
      case Err(e) => Err(e)
    else Err(TranslationError)
  }

  /** A title is translated exactly when the configured service translates
      it; the translation's text is the service's answer. */
  lemma TitleTranslatedIffService(t: string, options: TranslationOptions,
                                  deepl: TranslationService, google: TranslationService)
    ensures TranslateTitle(Some(Attribute.Title(t)), options, deepl, google).Ok? <==>
      Translate(t, options, deepl, google).Ok?
    ensures Translate(t, options, deepl, google).Ok? ==>
      TranslateTitle(Some(Attribute.Title(t)), options, deepl, google).value.translation.text
        == Translate(t, options, deepl, google).value
    ensures options.target.Some? && options.provider == DeepL && options.deeplKey.Some? ==>
      Translate(t, options, deepl, google) == deepl(t, options.source, options.target.value, options.deeplKey.value)
    ensures options.target.Some? && options.provider == Google && options.googleKey.Some? ==>
      Translate(t, options, deepl, google) == google(t, options.source, options.target.value, options.googleKey.value)
  {
  }

  // ---------------------------------------------------------------------
  // Wayback Machine

  datatype ArchiveError = CurlError | DeserializeError | ByteConversionError

  /** The fields of a snapshot that are used. */
  datatype WaybackSnapshot = WaybackSnapshot(url: string, timestamp: string)

  /** The availability query for a URL: the closest snapshot, if any. The
      archive changes between calls, so each call carries its attempt
      number: 0 for the lookup before any save, 1 for the query a save
      falls back on two seconds later. */
  type WaybackQuery = (string, nat) -> Result<WaybackSnapshot, ArchiveError>

  /** The lookup of an existing snapshot. */
  const FirstLookup: nat := 0
  /** The query after a save whose location carried no timestamp. */
  const AfterSave: nat := 1

  /** A GET of a URL that answers with the redirect location. */
  type RedirectCall = string -> Result<string, ArchiveError>

  /** The "Save Page Now" address of a URL. */
  function SaveUrl(url: string): string {
    "https://web.archive.org/save/" + url
  }

  /** The 14-digit timestamp after the first `/web/` of an archive location. */
  function ParseWaybackLocation(location: string): (r: Option<string>)
    ensures r.Some? ==> |r.value| == 14 && AllDigits(r.value)
  {
    var parts := SplitOn(location, "/web/");
    if |parts| >= 2 then
      var timestamp := LeadingDigits(parts[1]);
      if |timestamp| == 14 then Some(timestamp) else None
    else None
  }

  /** A location gives a timestamp exactly when it contains `/web/` and the
      run of digits right after the first one is 14 long; the timestamp is
      that run. */
  lemma WaybackLocationExactly(location: string)
    ensures ParseWaybackLocation(location).Some? <==>
      Find(location, "/web/").Some?
      && |LeadingDigits(location[Find(location, "/web/").value + 5..])| == 14
    ensures ParseWaybackLocation(location).Some? ==>
      ParseWaybackLocation(location).value == LeadingDigits(location[Find(location, "/web/").value + 5..])
  {
    match Find(location, "/web/")
    case None =>
    case Some(i) =>
      var rest := location[i + 5..];
      LeadingDigitsOfFirstPart(rest, "/web/");
  }

  /** Saves a page: the timestamp is read from the redirect location; when it
      cannot be, the availability query is asked again after a pause, and
      may now see the page just saved. */
  function SaveToWayback(url: string, redirect: RedirectCall, query: WaybackQuery): (r: Result<WaybackSnapshot, ArchiveError>)
    ensures redirect(SaveUrl(url)).Err? ==> r == Err(redirect(SaveUrl(url)).error)
    ensures redirect(SaveUrl(url)).Ok? && ParseWaybackLocation(redirect(SaveUrl(url)).value).Some? ==>
      r == Ok(WaybackSnapshot(redirect(SaveUrl(url)).value, ParseWaybackLocation(redirect(SaveUrl(url)).value).value))
    ensures redirect(SaveUrl(url)).Ok? && ParseWaybackLocation(redirect(SaveUrl(url)).value).None? ==>
      r == query(url, AfterSave)
    ensures r.Ok? && redirect(SaveUrl(url)).Ok? && ParseWaybackLocation(redirect(SaveUrl(url)).value).Some? ==>
      |r.value.timestamp| == 14 && AllDigits(r.value.timestamp)
  {
    match redirect(SaveUrl(url))
    case Err(e) => Err(e)
    case Ok(location) =>
      match ParseWaybackLocation(location)
      case Some(timestamp) => Ok(WaybackSnapshot(location, timestamp))
      case None => query(url, AfterSave)
  }

  /** The query is consulted only when the location has no timestamp; a
      location with one becomes the snapshot as it is. */
  lemma SaveQueriesOnlyAsFallback(url: string, redirect: RedirectCall, q1: WaybackQuery, q2: WaybackQuery)
    ensures redirect(SaveUrl(url)).Ok? && ParseWaybackLocation(redirect(SaveUrl(url)).value).Some? ==>
      SaveToWayback(url, redirect, q1) == SaveToWayback(url, redirect, q2)
      == Ok(WaybackSnapshot(redirect(SaveUrl(url)).value, ParseWaybackLocation(redirect(SaveUrl(url)).value).value))
    ensures redirect(SaveUrl(url)).Ok? && ParseWaybackLocation(redirect(SaveUrl(url)).value).None? ==>
      SaveToWayback(url, redirect, q1) == q1(url, AfterSave)
    ensures redirect(SaveUrl(url)).Err? ==> SaveToWayback(url, redirect, q1) == SaveToWayback(url, redirect, q2)
  {
  }

  /** The snapshot to use: an existing one, else a fresh save if allowed. */
  function Snapshot(url: string, options: ArchiveOptions, query: WaybackQuery, redirect: RedirectCall): (r: Option<WaybackSnapshot>)
    ensures query(url, FirstLookup).Ok? ==> r == Some(query(url, FirstLookup).value)
    ensures query(url, FirstLookup).Err? && !options.performArchival ==> r == None
    ensures query(url, FirstLookup).Err? && options.performArchival ==>
      (r.Some? <==> SaveToWayback(url, redirect, query).Ok?)
  {
    match query(url, FirstLookup)
    case Ok(snapshot) => Some(snapshot)
    case Err(_) =>
      if options.performArchival then SaveToWayback(url, redirect, query).ToOption() else None
  }

  /** The archive URL and date for a URL attribute. The snapshot timestamp is
      read with `%Y%m%d%H%M%S`; a timestamp that does not read panics. */
  function FetchArchiveInfo(url: Option<Attribute>, options: ArchiveOptions,
                            query: WaybackQuery, redirect: RedirectCall): (r: Outcome<(Option<Attribute>, Option<Attribute>)>)
    ensures r.Returned? ==> (r.value.0.Some? <==> r.value.1.Some?)
    ensures r.Returned? && r.value.0.Some? ==>
      r.value.0.value.ArchiveUrl? && r.value.1.value.ArchiveDate? && r.value.1.value.date.DateTime?
  {
    if !options.includeArchived then Returned((None, None))
    else if url.Some? && url.value.Url? then
      match Snapshot(url.value.text, options, query, redirect)
      case None => Returned((None, None))
      case Some(snapshot) =>
        match ParseCompactTimestamp(snapshot.timestamp)
        case None => Panicked
        case Some(stamp) => Returned((Some(Attribute.ArchiveUrl(snapshot.url)), Some(Attribute.ArchiveDate(DateTime(stamp)))))
    else Returned((None, None))
  }

  /** Archiving switched off, or no URL to archive: nothing, whatever the
      services would answer. */
  lemma ArchiveSkipped(url: Option<Attribute>, options: ArchiveOptions,
                       q1: WaybackQuery, r1: RedirectCall, q2: WaybackQuery, r2: RedirectCall)
    requires !options.includeArchived || !(url.Some? && url.value.Url?)
    ensures FetchArchiveInfo(url, options, q1, r1) == FetchArchiveInfo(url, options, q2, r2) == Returned((None, None))
  {
  }

  /** Without a snapshot and without permission to save, nothing is saved:
      the result is empty whatever a save would do. */
  lemma NoSnapshotNoSave(u: string, options: ArchiveOptions, query: WaybackQuery, r1: RedirectCall, r2: RedirectCall)
    requires options.includeArchived && !options.performArchival && query(u, FirstLookup).Err?
    ensures FetchArchiveInfo(Some(Attribute.Url(u)), options, query, r1) == FetchArchiveInfo(Some(Attribute.Url(u)), options, query, r2)
      == Returned((None, None))
  {
  }

  /** An existing snapshot with a 14-digit timestamp gives its URL and the
      date read position by position; it panics exactly when those digits
      are no date and time. */
  lemma ExistingSnapshotUsed(u: string, options: ArchiveOptions, query: WaybackQuery, redirect: RedirectCall)
    requires options.includeArchived && query(u, FirstLookup).Ok?
    requires |query(u, FirstLookup).value.timestamp| == 14 && AllDigits(query(u, FirstLookup).value.timestamp)
    ensures var r := FetchArchiveInfo(Some(Attribute.Url(u)), options, query, redirect);
      var snapshot := query(u, FirstLookup).value;
      (r.Panicked? <==> CompactStampByPosition(snapshot.timestamp).None?)
      && (r.Returned? ==> r.value == (Some(Attribute.ArchiveUrl(snapshot.url)),
                                      Some(Attribute.ArchiveDate(DateTime(CompactStampByPosition(snapshot.timestamp).value)))))
  {
  }

  /** With no snapshot yet and saving allowed, a save whose location carries
      a timestamp archives that location. */
  lemma SavedSnapshotUsed(u: string, options: ArchiveOptions, query: WaybackQuery, redirect: RedirectCall)
    requires options.includeArchived && options.performArchival && query(u, FirstLookup).Err?
    requires redirect(SaveUrl(u)).Ok? && ParseWaybackLocation(redirect(SaveUrl(u)).value).Some?
    ensures var r := FetchArchiveInfo(Some(Attribute.Url(u)), options, query, redirect);
      var location := redirect(SaveUrl(u)).value;
      var ts := ParseWaybackLocation(location).value;
      (r.Panicked? <==> CompactStampByPosition(ts).None?)
      && (r.Returned? ==> r.value.0 == Some(Attribute.ArchiveUrl(location)))
  {
    var location := redirect(SaveUrl(u)).value;
    var ts := ParseWaybackLocation(location).value;
    assert Snapshot(u, options, query, redirect) == Some(WaybackSnapshot(location, ts));
  }

  /** With no snapshot yet and saving allowed, a save whose location has no
      timestamp archives whatever the second query finds: the page just
      saved, once the archive lists it. */
  lemma RequeriedSnapshotUsed(u: string, options: ArchiveOptions, query: WaybackQuery, redirect: RedirectCall)
    requires options.includeArchived && options.performArchival && query(u, FirstLookup).Err?
    requires redirect(SaveUrl(u)).Ok? && ParseWaybackLocation(redirect(SaveUrl(u)).value).None?
    requires query(u, AfterSave).Ok?
    ensures Snapshot(u, options, query, redirect) == Some(query(u, AfterSave).value)
    ensures var r := FetchArchiveInfo(Some(Attribute.Url(u)), options, query, redirect);
      var snapshot := query(u, AfterSave).value;
      r.Returned? ==> r.value.0 == Some(Attribute.ArchiveUrl(snapshot.url))
  {
  }

  // ---------------------------------------------------------------------
  // The AI fallback

  /** The six fields the AI fallback may fill. */
  datatype CoreFields = CoreFields(
    title: Option<Attribute>, author: Option<Attribute>, date: Option<Attribute>,
    language: Option<Attribute>, site: Option<Attribute>, publisher: Option<Attribute>)

  predicate AnyMissing(f: CoreFields) {
    f.title.None? || f.author.None? || f.date.None? || f.site.None? || f.publisher.None? || f.language.None?
  }

  /** Each missing field taken from the metadata, the others kept. */
  function Overlay(f: CoreFields, m: AiExtractedMetadata): CoreFields {
    CoreFields(
      f.title.Or(GetAttributeFromAi(m, AttributeType.Title)),
      f.author.Or(GetAttributeFromAi(m, AttributeType.Author)),
      f.date.Or(GetAttributeFromAi(m, AttributeType.Date)),
      f.language.Or(GetAttributeFromAi(m, AttributeType.Language)),
      f.site.Or(GetAttributeFromAi(m, AttributeType.Site)),
      f.publisher.Or(GetAttributeFromAi(m, AttributeType.Publisher)))
  }

  /** Whether the extractor is asked at all. */
  predicate AiAttempted(f: CoreFields, options: AiExtractionOptions, pageUrl: Option<string>) {
    options.enabled && AnyMissing(f) && pageUrl.Some?
  }

  /** The fields after the AI fallback. */
  function WithAi(f: CoreFields, options: AiExtractionOptions, pageUrl: Option<string>, call: ProviderCall): CoreFields {
    if AiAttempted(f, options, pageUrl) && ExtractMetadata(options, call).Ok? then
      Overlay(f, ExtractMetadata(options, call).value)
    else f
  }

  /** Fills the missing fields one by one from the extracted metadata. */
  method FillMissingFromAi(f: CoreFields, options: AiExtractionOptions, pageUrl: Option<string>, call: ProviderCall)
    returns (g: CoreFields)
    ensures g == WithAi(f, options, pageUrl, call)
  {
    g := f;
    if options.enabled && AnyMissing(g) && pageUrl.Some? {
      match ExtractMetadata(options, call) {
        case Ok(m) =>
          if g.title.None? {
            g := g.(title := GetAttributeFromAi(m, AttributeType.Title));
          }
          if g.author.None? {
            g := g.(author := GetAttributeFromAi(m, AttributeType.Author));
          }
          if g.date.None? {
            g := g.(date := GetAttributeFromAi(m, AttributeType.Date));
          }
          if g.site.None? {
            g := g.(site := GetAttributeFromAi(m, AttributeType.Site));
          }
          if g.publisher.None? {
            g := g.(publisher := GetAttributeFromAi(m, AttributeType.Publisher));
          }
          if g.language.None? {
            g := g.(language := GetAttributeFromAi(m, AttributeType.Language));
          }
        case Err(_) =>
      }
    }
  }

  /** The fallback never replaces a value a source found, and fills a missing
      field with what the model gave for it. */
  lemma AiNeverOverwrites(f: CoreFields, options: AiExtractionOptions, pageUrl: Option<string>, call: ProviderCall)
    ensures var g := WithAi(f, options, pageUrl, call);
      (f.title.Some? ==> g.title == f.title) && (f.author.Some? ==> g.author == f.author)
      && (f.date.Some? ==> g.date == f.date) && (f.language.Some? ==> g.language == f.language)
      && (f.site.Some? ==> g.site == f.site) && (f.publisher.Some? ==> g.publisher == f.publisher)
    ensures AiAttempted(f, options, pageUrl) && ExtractMetadata(options, call).Ok? && f.title.None? ==>
      WithAi(f, options, pageUrl, call).title == GetAttributeFromAi(ExtractMetadata(options, call).value, AttributeType.Title)
    ensures AiAttempted(f, options, pageUrl) && ExtractMetadata(options, call).Ok? && f.author.None? ==>
      WithAi(f, options, pageUrl, call).author == GetAttributeFromAi(ExtractMetadata(options, call).value, AttributeType.Author)
  {
  }

  /** The extractor is not asked when it is disabled, when nothing is missing
      or when the page has no URL; and an extraction error changes nothing. */
  lemma AiOnlyWhenNeeded(f: CoreFields, options: AiExtractionOptions, pageUrl: Option<string>, c1: ProviderCall, c2: ProviderCall)
    ensures !AiAttempted(f, options, pageUrl) ==>
      WithAi(f, options, pageUrl, c1) == WithAi(f, options, pageUrl, c2) == f
    ensures ExtractMetadata(options, c1).Err? ==> WithAi(f, options, pageUrl, c1) == f
    ensures !AnyMissing(f) ==> WithAi(f, options, pageUrl, c1) == f
  {
  }

  // ---------------------------------------------------------------------
  // The reference

  /** The user's URL as a URL attribute. */
  function UserUrl(pageUrl: Option<string>): Option<Attribute> {
    if pageUrl.Some? then Some(Attribute.Url(pageUrl.value)) else None
  }

  /** The URL of the reference: the resolved one, else the user's. */
  function ReferenceUrl(config: AttributeConfig, sources: Sources, pageUrl: Option<string>): (r: Option<Attribute>)
    ensures Resolve(config, AttributeType.Url, sources).Some? ==> r == Resolve(config, AttributeType.Url, sources)
    ensures Resolve(config, AttributeType.Url, sources).None? ==> r == UserUrl(pageUrl)
  {
    Resolve(config, AttributeType.Url, sources).Or(UserUrl(pageUrl))
  }

  /** The six fields as the sources resolve them. */
  function ResolvedFields(config: AttributeConfig, sources: Sources): CoreFields {
    CoreFields(
      Resolve(config, AttributeType.Title, sources), Resolve(config, AttributeType.Author, sources),
      Resolve(config, AttributeType.Date, sources), Resolve(config, AttributeType.Language, sources),
      Resolve(config, AttributeType.Site, sources), Resolve(config, AttributeType.Publisher, sources))
  }

  /** Builds the news article for a page: resolve every field, fill gaps from
      the AI, fall back to the user's URL, translate the title and look up
      the archive. Only the archive timestamp can panic. */
  method CreateReference(options: GenerationOptions, sources: Sources, pageUrl: Option<string>,
                         call: ProviderCall, deepl: TranslationService, google: TranslationService,
                         query: WaybackQuery, redirect: RedirectCall)
    returns (r: Outcome<Reference>)
    ensures var f := WithAi(ResolvedFields(options.attributeConfig, sources), options.ai, pageUrl, call);
      var url := ReferenceUrl(options.attributeConfig, sources, pageUrl);
      var archive := FetchArchiveInfo(url, options.archive, query, redirect);
      (r.Panicked? <==> archive.Panicked?)
      && (r.Returned? ==> r.value == NewsArticle(
            f.title, TranslateTitle(f.title, options.translation, deepl, google).ToOption(),
            f.author, f.date, f.language, f.site, url, f.publisher, archive.value.0, archive.value.1))
  {
    var config := options.attributeConfig;
    var attributes := Initialize(config, sources);
    var fields := CoreFields(
      attributes.Get(AttributeType.Title), attributes.Get(AttributeType.Author),
      attributes.Get(AttributeType.Date), attributes.Get(AttributeType.Language),
      attributes.Get(AttributeType.Site), attributes.Get(AttributeType.Publisher));
    var url := attributes.Get(AttributeType.Url).Or(UserUrl(pageUrl));
    fields := FillMissingFromAi(fields, options.ai, pageUrl, call);
    var translatedTitle := TranslateTitle(fields.title, options.translation, deepl, google).ToOption();
    var archive := FetchArchiveInfo(url, options.archive, query, redirect);
    if archive.Panicked? {
      return Panicked;
    }
    var (archiveUrl, archiveDate) := archive.value;
    r := Returned(NewsArticle(fields.title, translatedTitle, fields.author, fields.date, fields.language,
                              fields.site, url, fields.publisher, archiveUrl, archiveDate));
  }
}
