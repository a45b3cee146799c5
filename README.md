# url2ref: metadata resolution and citation synthesis in Dafny

url2ref turns a web address into a citation. It collects metadata about the page from several
sources:

- the page's Open Graph properties;
- its Schema.org JSON-LD object;
- its plain HTML `meta` tags and microdata;
- a DOI record fetched as BibTeX;
- a Citoid/Zotero record;
- an AI extraction.

For every field (title, authors, date, site, publisher, language, URL, …) it takes the first
source, in a configurable priority order, that yields a value. AI extraction can fill the fields
that are still missing, and the Wayback Machine can supply an archive snapshot. The resolved fields
then become a MediaWiki `{{cite web}}` template, a BibTeX `@misc` entry or a Harvard reference.

This project models that engine in Dafny, one module per source file:

- `Attributes`: the attribute kinds, values, authors and precision-graded dates, with their
  display rules.
- `Citation`: the three citation builders. `WikiCitation`, `BibTeXCitation` and
  `HarvardCitation` are classes whose `Add`, `TryAdd` and `Build` methods update the builder's
  string or option slots in place.
- `References`: the fixed field order each reference kind hands to a builder.
- `Parser`: the first-match-wins priority resolver, and `AttributeCollection` as a class over a
  map.
- `AttributeConfigs`: the per-field priority configuration and the set of parsers it uses.
- `Generator`: reference creation, with the AI overlay that only fills gaps, the URL fallback, the
  optional title translation and the Wayback archive steps.
- The sources: `OpenGraph`, `SchemaOrg`, `SchemaOrgAuthor`, `SchemaOrgGeneric`, `SchemaOrgSite`,
  `HtmlMeta`, `Doi`, `Zotero` (including the result cache as a class) and `AiExtractor`.

Three helper modules support them:

- `Text` models the Rust standard-library string operations the code relies on: Unicode
  whitespace trimming, `split_whitespace`, `find`/`rfind`, `trim_start_matches`, ASCII lower-casing,
  `parse::<i32>` and UTF-8 length.
- `ChronoDates` models the Gregorian calendar and chrono's numeric `%Y-%m-%d` and `%Y%m%d%H%M%S`
  reading and writing.
- `Json` models `serde_json::Value`, indexing a `Value` (which gives `Null` for a missing member), and
  the presence of a key in an object's member map (indexing a `Map` by a missing key panics).

Everything that talks to the outside world becomes a parameter of the model:

- HTTP requests: DOI, Citoid, Wayback, translation services and AI providers;
- parsing of HTML, JSON text and BibTeX, and regular-expression HTML stripping;
- date parsing done by foreign libraries: RFC 3339 and the textual month formats.

The model computes with the values these calls return.

Where the repository has two copies of a file, the model follows the `url2ref/src` copy. Open Graph
and the Schema.org site strategy exist only in the older top-level `src` tree, so those two are
modelled from there. The old Open Graph author arm builds a single-string author. It is modelled
as one generic author of the current `Authors` attribute.

## Model

| member | source | states |
|---|---|---|
| Attributes.AllTypesListsEachOnce | url2ref/src/attribute.rs:52-82 | `AllTypes`, the order `AttributeType::iter()` yields, lists each of the fourteen kinds exactly once |
| Attributes.TextAttribute | url2ref/src/attribute.rs:91-122 | the plain-string attribute built for kind `t` fills field `t` |
| Attributes.AuthorNames | url2ref/src/attribute.rs:128-131 | one display name per author, in order, each the author's own display |
| Attributes.DisplayDate | url2ref/src/attribute.rs:242-250 | `YearMonthDay` and `DateTime` display as `%Y-%m-%d`, which parses back to the same calendar day (a timestamp drops its time); a year-only date displays as text that reads back as the same `i32` |
| Attributes.YearMonthDisplay | url2ref/src/attribute.rs:242-250 | a year and month 1-12 display as year, dash and two month digits; with `-01` appended this parses as the first of that month |
| Attributes.YmdAsYearMonth | url2ref/src/attribute.rs:242-250 | for the first of a month, `{}-{:02}-01` parses back to the date itself |
| Attributes.YearDisplayScans | url2ref/src/attribute.rs:248 | `{}` on a year up to 9999, followed by a non-digit, is read back by the `%Y` field as that year |
| Attributes.DisplayAttribute | url2ref/src/attribute.rs:124-145 | when there is an author and no name contains a comma, splitting the display of `Authors` on ", " gives back the names in order; a translated title displays its text; a date displays as the date does |
| Attributes.AuthorDisplaysName | url2ref/src/attribute.rs:174-182 | a person, an organisation and a generic author all display as the inner name |
| Attributes.TextAttributesDisplayPayload | url2ref/src/attribute.rs:124-145 | string attributes display their payload; a translated title displays only its text, never its language |
| Parser.ParseDate | url2ref/src/parser.rs:71-76 | a date is found exactly when RFC 3339 reading succeeds, and is then that instant as a `DateTime` |
| Parser.FirstMatch | url2ref/src/parser.rs:85-98 | nothing is found iff no listed source yields; otherwise the value comes from a source every earlier one of which yielded nothing |
| Parser.Parse | url2ref/src/parser.rs:85-98 | the loop returns the first source's value in priority order, i.e. `FirstMatch` |
| Parser.Resolve | url2ref/src/parser.rs:117-120 | a kind resolves to nothing iff no source in its order yields, and otherwise to a value some source in that order yields; an unset kind uses the order OpenGraph, SchemaOrg, HtmlMeta |
| Parser.Entry | url2ref/src/parser.rs:112-114 | a map lookup is `Some` iff the key is present, and is then its value |
| Parser.AttributeCollection.constructor | url2ref/src/parser.rs:108 | a new collection is empty |
| Parser.AttributeCollection.Get | url2ref/src/parser.rs:112-114 | `get` is `Some` iff the kind is stored, and then returns the stored attribute |
| Parser.AttributeCollection.InsertIf | url2ref/src/parser.rs:134-138 | `None` leaves the map unchanged; `Some(a)` stores `a` under the kind and changes nothing else |
| Parser.AttributeCollection.Add | url2ref/src/parser.rs:117-123 | the kind gets what its configured priority, or the default one, resolves to, if anything; every other kind is untouched |
| Parser.AttributeCollection.AddAll | url2ref/src/parser.rs:127-132 | after visiting every kind, each kind holds the old entry merged with what that kind resolves to |
| Parser.Initialize | url2ref/src/parser.rs:107-109 | in the new collection, every kind holds exactly what it resolves to (absent when no source yields) |
| Parser.FirstSourceWins | url2ref/src/parser.rs:86-95 | the first listed source's value wins whenever it has one |
| Parser.LaterSourcesIrrelevant | url2ref/src/parser.rs:86-95 | two source sets that agree up to the first one that yields give the same result |
| Parser.EmptyPriorityFindsNothing | url2ref/src/parser.rs:86-97 | an empty priority list finds nothing |
| Parser.UnsetUsesDefault | url2ref/src/parser.rs:118-119 | an unset kind, and `Type` always, is searched in the default order OpenGraph, SchemaOrg, HtmlMeta |
| AttributeConfigs.NewConfig | url2ref/src/generator.rs:174-191 | `new(p)` sets every configurable kind to `p`; `Type` stays unset |
| AttributeConfigs.Slots | url2ref/src/generator.rs:157-171 | the thirteen fields of a configuration: each kind's priority is among them and each of them belongs to some kind |
| AttributeConfigs.AllSources | url2ref/src/generator.rs:223-228 | flattening the fields (unset ones as the default) contains exactly the sources of some field |
| AttributeConfigs.Dedup | url2ref/src/generator.rs:230-234 | the set conversion keeps exactly the unseen elements, each once |
| AttributeConfigs.ParsersUsed | url2ref/src/generator.rs:216-235 | `parsers_used` lists no source twice |
| AttributeConfigs.ParsersUsedExactly | url2ref/src/generator.rs:216-235 | a source is used iff some configurable kind lists it (unset kinds count as the default order) |
| AttributeConfigs.ParsersUsedUniform | url2ref/src/generator.rs:216-235 | when every kind has the same duplicate-free list, `parsers_used` has exactly its elements and its length |
| AttributeConfigs.ParsersUsedOfNew | url2ref/src/generator.rs:675-687 | `new([OpenGraph, Doi])` uses exactly those two parsers |
| AttributeConfigs.ParsersUsedOfDefault | url2ref/src/generator.rs:689-697 | the default configuration uses exactly OpenGraph, SchemaOrg and HtmlMeta |
| ChronoDates.DaysInMonth | url2ref/src/doi.rs:111 | a month of the Gregorian calendar has 28 to 31 days |
| ChronoDates.FromYmd | url2ref/src/doi.rs:111 | `NaiveDate::from_ymd_opt` succeeds iff year, month and day form a valid Gregorian date, and then holds exactly them |
| ChronoDates.FormatYear | url2ref/src/attribute.rs:245-246 | `%Y` prints a year from 0 to 9999 as four digits |
| ChronoDates.ParseItems | url2ref/src/zotero.rs:176 | reading a format keeps every field in its range and never changes a field already read |
| ChronoDates.ParseYmd | url2ref/src/zotero.rs:176 | whatever `%Y-%m-%d` reads is a valid calendar date |
| ChronoDates.TimeOf | url2ref/src/generator.rs:662 | a time of day exists iff hour, minute and second are in range (second 60 allowed for a leap second) |
| ChronoDates.YearRoundTrip | url2ref/src/attribute.rs:245-246 | a year printed by `%Y` and followed by a non-digit is read back by `%Y` as the same year |
| ChronoDates.SignedYearRoundTrip | url2ref/src/attribute.rs:245-246 | years below 0 or above 9999 print with a sign and still read back as themselves |
| ChronoDates.TwoDigitRoundTrip | url2ref/src/attribute.rs:245-246 | a month or day printed on two digits reads back as itself |
| ChronoDates.ParseFormatYmd | url2ref/src/attribute.rs:245-246 | `parse_from_str(format("%Y-%m-%d"), "%Y-%m-%d")` gives back the same date, for every date |
| ChronoDates.YmdItems | url2ref/src/attribute.rs:245-246 | the three fields of a formatted date are read back as its year, month and day |
| ChronoDates.ParseCompactTimestamp | url2ref/src/generator.rs:659-666 | on fourteen ASCII digits, `%Y%m%d%H%M%S` reads the fields at fixed positions: year 0-4, then two digits each for month, day, hour, minute, second |
| ChronoDates.YmdRejectsYearMonth | url2ref/src/zotero.rs:176-184 | digits, a dash and one or two digits (a year and month) are not a `%Y-%m-%d` date |
| ChronoDates.YmdRejectsYear | url2ref/src/zotero.rs:176-190 | a bare run of up to four digits is not a `%Y-%m-%d` date |
| ChronoDates.YmdRejectsNonDigit | url2ref/src/ai_extractor.rs:372 | text starting with anything other than whitespace, a digit or a sign is not a `%Y-%m-%d` date |
| Zotero.ToAuthor | url2ref/src/zotero.rs:46-61 | no author iff the creator has no name, first or last name; an organisation iff it has a `name`, which is kept as is; otherwise a person, named by the trimmed first and last name joined by one space, or by the one part present, untrimmed |
| Zotero.IsAuthor | url2ref/src/zotero.rs:64-69 | a creator without a type counts as an author; one with a type counts iff it is "author", "contributor" or "artist" |
| Zotero.AuthorsOf | url2ref/src/zotero.rs:104-115 | at most one author per creator; each comes from an author-role creator that converts to it; the list is empty iff no creator is both an author and convertible |
| Zotero.GetAuthors | url2ref/src/zotero.rs:104-115 | no creator list gives no authors; otherwise at most one author per creator |
| Zotero.GetSiteName | url2ref/src/zotero.rs:118-123 | the site is absent iff publication, website and book title all are; the publication title comes first, then the website title |
| Zotero.IsValid | url2ref/src/zotero.rs:152-167 | a valid result has a non-empty title whose lower-case form neither starts with "not found" nor is "404", "error" or "access denied" |
| Zotero.ParseZoteroDate | url2ref/src/zotero.rs:172-216 | on the trimmed text: a `%Y-%m-%d` date is that day; a year and month is given only when the text is no full date and reading it with "-01" appended succeeds, and then has that year and a month in 1-12; a bare year only when the text reads as an `i32` in 1000-2100 |
| Zotero.GetDate | url2ref/src/zotero.rs:126-129 | a result without a date string has no date |
| Zotero.ParseFromResult | url2ref/src/zotero.rs:283-319 | every attribute returned fills the kind asked for; the author kind gives the author-role creators' authors, or nothing when there are none |
| Zotero.Accepted | url2ref/src/zotero.rs:254-266 | a fetch outcome is kept iff it succeeded and the result is valid, and then it is kept unchanged |
| Zotero.ZoteroCache.constructor | url2ref/src/zotero.rs:250-252 | a new cache holds nothing |
| Zotero.ZoteroCache.Fetch | url2ref/src/zotero.rs:254-269 | a cache that holds a result returns it and never asks again; an empty cache stores and returns the fetched result only when it is accepted |
| Zotero.FetchTwice | url2ref/src/zotero.rs:254-269 | on one cache, a second fetch (whatever its URL) returns the first accepted result; after a rejected first fetch, it fetches its own URL |
| Zotero.AnyContained | url2ref/src/zotero.rs:339-341 | true iff some listed pattern occurs in the text |
| Zotero.ShouldSkipZotero | url2ref/src/zotero.rs:323-342 | a URL is skipped iff its lower-case form contains one of the ten blacklisted host fragments |
| Zotero.JohnSmithIsPerson | url2ref/src/zotero.rs:364-373 | the creator "John" "Smith" with role "author" becomes the person "John Smith" |
| Zotero.TrimmedPartsJoined | url2ref/src/zotero.rs:53-56 | already-trimmed first and last names become the person "first last", whatever the role |
| Zotero.PersonPartsTrimmed | url2ref/src/zotero.rs:53-56 | a space before the first name or after the last name makes no difference to the person |
| Zotero.AuthorsOfAppend | url2ref/src/zotero.rs:104-115 | the authors of two creator lists one after the other are the authors of each, in order |
| Zotero.AuthorsKeptInOrder | url2ref/src/zotero.rs:104-115 | when every creator is a convertible author, the i-th author comes from the i-th creator and none is lost |
| Zotero.NonAuthorsGiveNoAuthor | url2ref/src/zotero.rs:287-294 | a creator list of editors, translators and other non-author roles gives no author attribute |
| Zotero.UnmappedFieldsEmpty | url2ref/src/zotero.rs:317 | locale, archive date, archive URL, type and institution are never filled from the record |
| Zotero.SitePrecedence | url2ref/src/zotero.rs:302 | the site attribute is the publication title, else the website title, else the book title |
| Zotero.PublisherFallsBack | url2ref/src/zotero.rs:308-312 | the publisher attribute is the publisher, else the university |
| Zotero.ValidIgnoresCase | url2ref/src/zotero.rs:154 | validity depends only on the lower-case form of the title |
| Zotero.NotFoundRejected | url2ref/src/zotero.rs:155 | a title starting with "Not Found" is rejected, whatever follows |
| Zotero.PlainTitleValid | url2ref/src/zotero.rs:152-167 | the converse of `IsValid`: a non-empty title that is none of the garbage forms is valid |
| Zotero.FullDateIsDay | url2ref/src/zotero.rs:175-178 | an ISO date with a four-digit year is read as that day, by the first branch |
| Zotero.YearMonthIsYearMonth | url2ref/src/zotero.rs:180-185 | a four-digit year, a dash and a two-digit month 1-12 is read as that year and month |
| Zotero.WholeNumberYear | url2ref/src/zotero.rs:192-197 | text that is no date and no RFC 3339 timestamp but reads as an `i32` in 1000-2100 is that year |
| Zotero.WholeNumberNotYear | url2ref/src/zotero.rs:192-215 | a whole number outside 1000-2100 is no year: only the textual formats can still read it |
| Zotero.BareNumberNotYmd | url2ref/src/zotero.rs:172-183 | one to four digits are already trimmed, read as their value, and fail both ISO branches |
| Zotero.BareYearExample | url2ref/src/zotero.rs:355-358 | "2024" is the year 2024 |
| Zotero.SkipIgnoresCase | url2ref/src/zotero.rs:338 | skipping depends only on the lower-case form of the URL |
| Zotero.BlockedSkipped | url2ref/src/zotero.rs:337-342 | any URL containing a blacklisted fragment is skipped |
| Zotero.BlacklistLowerCase | url2ref/src/zotero.rs:323-334 | the blacklist is already lower case, so lowering the URL alone is enough |
| Zotero.SocialLinksSkipped | url2ref/src/zotero.rs:384-386 | the Twitter and Facebook links of the test are skipped |
| AiExtractor.DisabledCallsNoProvider | url2ref/src/ai_extractor.rs:322-336 | when extraction is disabled no provider is asked and the result is empty metadata; when enabled the result is exactly the chosen provider's answer |
| AiExtractor.ExtractMetadata | url2ref/src/ai_extractor.rs:322-335 | disabled extraction gives empty metadata; enabled extraction gives the configured provider's answer |
| AiExtractor.GenericAuthors | url2ref/src/ai_extractor.rs:351 | one generic author per extracted name, in order |
| AiExtractor.GetAttributeFromAi | url2ref/src/ai_extractor.rs:338-365 | every attribute returned fills the kind asked for |
| AiExtractor.ParseAiDate | url2ref/src/ai_extractor.rs:368-395 | a year and month comes only from text of 7 bytes, a bare year only from text of 4 bytes, and the result is never a timestamp |
| AiExtractor.AiAuthors | url2ref/src/ai_extractor.rs:344-354 | a non-empty name list becomes generic authors that display as the names joined by ", "; no list or an empty one gives nothing |
| AiExtractor.AiPassThrough | url2ref/src/ai_extractor.rs:340-364 | title, site, publisher and language pass through unchanged; locale, archive fields, URL, type, journal, institution and volume are never filled; empty metadata fills nothing |
| AiExtractor.AiDateFull | url2ref/src/ai_extractor.rs:371-374 | every formatted ISO date is read back as that day |
| AiExtractor.AiDateYearMonth | url2ref/src/ai_extractor.rs:376-384 | a four-digit year, a dash and two digits is that year and month, even when the month is out of range |
| AiExtractor.AiDateYear | url2ref/src/ai_extractor.rs:386-391 | a four-digit year alone is that year |
| AiExtractor.AiDateRejectsLetterStart | url2ref/src/ai_extractor.rs:368-395 | text starting with a lower-case letter is no date |
| AiExtractor.AiDateRejectsWord | url2ref/src/ai_extractor.rs:417 | "invalid" is no date |
| AiExtractor.ExtractJsonFromText | url2ref/src/ai_extractor.rs:302-320 | a result is always valid JSON; the only error is "no JSON"; a result other than the whole text is a non-empty `{...}` slice of it |
| AiExtractor.ExtractJsonAsWritten | url2ref/src/ai_extractor.rs:302-319 | as written: text that is JSON as a whole is returned whole; whatever is returned is JSON; the only error is "no JSON"; a panic happens only for text that is not JSON |
| AiExtractor.WholeJsonKept | url2ref/src/ai_extractor.rs:304-306 | text that is JSON as a whole is returned unchanged |
| AiExtractor.EmbeddedObjectFound | url2ref/src/ai_extractor.rs:419-424 | an object between prose with no other braces is cut out exactly, as in the test |
| AiExtractor.SliceFound | url2ref/src/ai_extractor.rs:308-315 | the slice from the first `{` to the last `}` is returned when it is JSON |
| AiExtractor.NoBracesNoJson | url2ref/src/ai_extractor.rs:308-319 | text that is not JSON and lacks `{` or `}` gives the "no JSON" error |
| AiExtractor.ExtractJsonPanics | url2ref/src/ai_extractor.rs:310-311 | on "}x{" the code as written slices with start after end and panics; the corrected version reports "no JSON" |
| AiExtractor.CorrectedAgrees | url2ref/src/ai_extractor.rs:302-320 | the code as written panics exactly when the text is not JSON and its last `}` lies more than one place before its first `{` (with the two adjacent, the slice is empty and is rejected as JSON); whenever it returns, it returns what the corrected version does |
| AiExtractor.FirstIndexUnique | url2ref/src/ai_extractor.rs:309 | `find` returns the first occurrence |
| AiExtractor.LastIndexUnique | url2ref/src/ai_extractor.rs:310 | `rfind` returns the last occurrence |
| AiExtractor.TruncatePageText | url2ref/src/ai_extractor.rs:162-164 | the page text sent to the model is a piece of the first 4000 characters of the normalised text, with only whitespace before and after it in them, and starts and ends with no whitespace |
| AiExtractor.ShortCleanTextUnchanged | url2ref/src/ai_extractor.rs:162-164 | text of up to 4000 characters without surrounding whitespace is sent unchanged |
| Citation.PresentOnly | url2ref/src/citation.rs:91-96 | dropping the absent options keeps exactly the present attributes |
| Citation.WikiAuthorParts | url2ref/src/citation.rs:60-66 | one template part per author |
| Citation.WikiCitation.constructor | url2ref/src/citation.rs:87-89 | a new builder has an empty body |
| Citation.WikiCitation.Add | url2ref/src/citation.rs:98-118 | adding appends the attribute's template line (nothing for locale, type, institution and volume) |
| Citation.WikiCitation.TryAdd | url2ref/src/citation.rs:91-96 | adding an option appends the line of its attribute, or nothing for `None` |
| Citation.WikiCitation.Build | url2ref/src/citation.rs:120-122 | the citation is the body wrapped in `{{cite web` and a closing `}}` line |
| Citation.BibTeXAuthorParts | url2ref/src/citation.rs:167-171 | one BibTeX name per author |
| Citation.BibTeXCitation.constructor | url2ref/src/citation.rs:204-206 | a new builder has an empty body |
| Citation.BibTeXCitation.Add | url2ref/src/citation.rs:215-235 | adding appends the attribute's `key = value,` line (nothing for locale, type, institution and volume) |
| Citation.BibTeXCitation.TryAdd | url2ref/src/citation.rs:208-213 | adding an option appends the line of its attribute, or nothing for `None` |
| Citation.BibTeXCitation.Build | url2ref/src/citation.rs:237-239 | the citation is the body wrapped in `@misc{ url2ref,` and `}` |
| Citation.MonthName | url2ref/src/citation.rs:314-330 | the name is "Unknown" exactly for numbers outside 1-12 |
| Citation.HarvardCitation.constructor | url2ref/src/citation.rs:333-343 | a new builder has every slot empty |
| Citation.HarvardCitation.Add | url2ref/src/citation.rs:352-364 | adding fills the attribute's slot (authors, year, title, site, publisher, URL, access date) and leaves the others; other attributes change nothing |
| Citation.HarvardCitation.TryAdd | url2ref/src/citation.rs:345-350 | adding an option fills the slot of its attribute, or changes nothing for `None` |
| Citation.HarvardCitation.Build | url2ref/src/citation.rs:366-406 | the citation is the rendering of the slots |
| Citation.WikiLoneTitle | url2ref/src/citation.rs:412-422 | a lone title gives `{{cite web\n| title = Test title\n}}`, as in the test |
| Citation.WikiSkipsExactly | url2ref/src/citation.rs:99-112 | the template skips an attribute iff it is a locale, type, institution or volume |
| Citation.BibTeXSkipsExactly | url2ref/src/citation.rs:216-229 | BibTeX skips an attribute iff it is a locale, type, institution or volume |
| Citation.AccumulateAppend | url2ref/src/citation.rs:91-118 | building from two lists of options one after the other gives the two bodies one after the other |
| Citation.AccumulatePresent | url2ref/src/citation.rs:91-96 | absent options contribute nothing: the body is that of the present attributes alone |
| Citation.AccumulateNoneNeutral | url2ref/src/citation.rs:91-96 | an absent option anywhere in the list changes nothing |
| Citation.TryAddNoneNeutral | url2ref/src/citation.rs:91-96 | for the template and BibTeX, `try_add(None)` anywhere changes nothing |
| Citation.NameWords | url2ref/src/citation.rs:37-43 | a name made of given words and a family word splits back into them, the family word last |
| Citation.NameSplits | url2ref/src/citation.rs:37-43 | splitting the joined name on whitespace gives back the words |
| Citation.WikiSplitNameOf | url2ref/src/citation.rs:39-42 | words split into `last` (the final word) and `first` (the others, joined by spaces) |
| Citation.WikiPersonSplit | url2ref/src/citation.rs:36-44 | a person named by given words and a family word gives `last` = family word and `first` = given words |
| Citation.WikiGenericSplit | url2ref/src/citation.rs:46-55 | a generic author of at least two words is split like a person |
| Citation.WikiGenericWords | url2ref/src/citation.rs:46-55 | a generic name of at least two words is split into last and first parts |
| Citation.WikiWholeNames | url2ref/src/citation.rs:31-34 | a one-word generic author and any organisation go whole into `author`, whitespace normalised |
| Citation.WikiAuthorIndices | url2ref/src/citation.rs:60-66 | one author is unnumbered; two or three authors are numbered from 1 and joined by spaces |
| Citation.BibTeXPersonSplit | url2ref/src/citation.rs:141-161 | a person (and a generic author of two or more words) is written `family, given` |
| Citation.BibTeXOrganization | url2ref/src/citation.rs:137-151 | an organisation is written in braces, with the same words as its name |
| Citation.BibTeXAuthorsJoined | url2ref/src/citation.rs:166-172 | authors are joined by " and " inside `author = "..."` |
| Citation.BibTeXFullDate | url2ref/src/citation.rs:187-199 | a day or timestamp is written `date = "%Y-%m-%d"`, which reads back as the same day |
| Citation.BibTeXPartialDate | url2ref/src/citation.rs:196-197 | a year and month are written as separate `year` and `month` fields, a bare year as `year`; both numbers read back |
| Citation.InitialsRoundTrip | url2ref/src/citation.rs:259-265 | the initials of words joined by spaces are the first letter of each word, each followed by a dot |
| Citation.InitialsOf | url2ref/src/citation.rs:259-265 | two characters per word: the word's first character and a full stop, in word order |
| Citation.HarvardPersonInitials | url2ref/src/citation.rs:268-276 | a person or generic author of two or more words is written `family, G.` with the given names' initials |
| Citation.HarvardNamed | url2ref/src/citation.rs:268-276 | any non-organisation author whose name is given words then a family word is written `family, initials` |
| Citation.HarvardSingleWord | url2ref/src/citation.rs:277 | a one-word person or generic author is written as that word |
| Citation.HarvardAuthorCount | url2ref/src/citation.rs:284-290 | no author gives nothing, two are joined by " and ", three or more give the first and " et al.", which only the first three determine |
| Citation.HarvardNoDate | url2ref/src/citation.rs:369-375 | a missing year renders as "n.d." |
| Citation.HarvardSiteOverPublisher | url2ref/src/citation.rs:382-386 | with a site the publisher is ignored; without one, the publisher stands where the site would |
| Citation.HarvardAvailableAt | url2ref/src/citation.rs:390-393 | a URL adds " Available at: " and the URL after the full stop |
| Citation.HarvardAccessed | url2ref/src/citation.rs:395-398 | an access date adds " (Accessed: date)." at the end |
| Citation.HarvardEmpty | url2ref/src/citation.rs:366-406 | an empty builder renders "(n.d.)." |
| Citation.FormatAccessDate | url2ref/src/citation.rs:302-311 | a full date is written day, English month name and year, with a real month name; a year and month outside 1-12 is written "Unknown" and the year; a bare year reads back as that year |
| Citation.HarvardRender | url2ref/src/citation.rs:366-406 | the citation opens with the author and year part and ends with a full stop unless a URL comes without an access date; with an access date it ends with ")." |
| Citation.AccessDateSpelledOut | url2ref/src/citation.rs:302-308 | a full date is written as the unpadded day, the English month name and the four-digit year |
| Doi.SuffixRunLen | url2ref/src/doi.rs:32 | the longest prefix of characters from `[-.;()/:\w]`: all of them belong to the class and the next one does not |
| Doi.MatchAt | url2ref/src/doi.rs:32 | a match at position i starts with "10." at a word boundary and covers at least nine characters |
| Doi.FirstMatchStart | url2ref/src/doi.rs:32-37 | the leftmost match position: a match starts there and nowhere between the search start and it; no position matches when there is none |
| Doi.FirstMatchLeftmost | url2ref/src/doi.rs:35-41 | the list of non-overlapping matches is non-empty iff a leftmost match exists, and its first element is the leftmost match |
| Doi.FirstDoi | url2ref/src/doi.rs:31-42 | the result is the leftmost match, or `DoiNotInHtmlError` exactly when there is none |
| Doi.FirstDoiOfMatches | url2ref/src/doi.rs:35-41 | taking element 0 of all matches gives the leftmost match, or the error for an empty list |
| Doi.DoiRegexMatch | url2ref/src/doi.rs:31-42 | the loop that collects every non-overlapping match and takes the first returns `FirstDoi` |
| Doi.MatchIsDoi | url2ref/src/doi.rs:32 | every match has the shape 10.<4-9 digits>/<suffix> and the suffix cannot be extended |
| Doi.FirstDoiIsDoi | url2ref/src/doi.rs:31-42 | what is found is a DOI of that shape |
| Doi.LinkGivesDoi | url2ref/src/doi.rs:242-251 | a DOI after a host with no digit 1, ending in a non-word character, is found exactly |
| Doi.NoMatchInHost | url2ref/src/doi.rs:32 | no match starts inside text without the digit 1 |
| Doi.LeftmostAt | url2ref/src/doi.rs:32-37 | a match with no match before it is the leftmost one |
| Doi.MatchAfterHost | url2ref/src/doi.rs:32 | a whole DOI after a non-word character matches to the end of the text |
| Doi.ArxivLinkExample | url2ref/src/doi.rs:242-251 | the arXiv link of the test yields `10.48550/arXiv.1712.01815` |
| Doi.ArxivDoiMatches | url2ref/src/doi.rs:248-250 | the arXiv DOI matches as a whole, 25 characters |
| Doi.DoiShapeMatches | url2ref/src/doi.rs:32 | "10.", four to nine digits, "/" and a non-empty suffix from the class match as a whole |
| Doi.SuffixRunAll | url2ref/src/doi.rs:32 | text made only of suffix-class characters is consumed entirely |
| Doi.AuthorToAttribute | url2ref/src/doi.rs:94-106 | there is an author attribute iff the entry has authors; one person per entry person, named "given family" |
| Doi.TryCreateInternalDate | url2ref/src/doi.rs:108-119 | corrected: a day iff month and day are present and, counted from one, form a valid date; a month without a day gives year and month counted from one; neither gives the year; a day without a month gives nothing |
| Doi.EncodeDay | url2ref/src/doi.rs:108-119 | a calendar day as stored by BibTeX has both month and day |
| Doi.DayRoundTrip | url2ref/src/doi.rs:108-119 | the corrected reading of any stored calendar day gives that day back |
| Doi.TryCreateInternalDateAsWritten | url2ref/src/doi.rs:108-119 | as written: a day iff month and day are present and, as stored, form a valid date; a month without a day keeps its stored month; neither gives the year; a day without a month gives nothing |
| Doi.AsWrittenShiftsDays | url2ref/src/doi.rs:108-119 | read as written, stored 15 January 2020 gives no date, stored 31 December 2020 gives 30 November, and a stored January without a day becomes month 0, displayed "2020-00"; the corrected reading gives 15 January and month 1 |
| Doi.DateToAttribute | url2ref/src/doi.rs:121-138 | corrected: a date attribute comes only from a typed point date that is neither uncertain nor approximate, and is that point's date |
| Doi.StringFromChunk | url2ref/src/doi.rs:140-146 | normal and verbatim chunks give their text; maths chunks give nothing |
| Doi.FirstChunkText | url2ref/src/doi.rs:153-156 | the text of the first chunk, when there is one and it is no maths chunk |
| Doi.PermissiveToString | url2ref/src/doi.rs:148-158 | a typed value gives its debug form, chunks give the first chunk's text |
| Doi.AttributeTypeToAttribute | url2ref/src/doi.rs:161-217 | corrected: every attribute fills the kind asked for; authors and date come from their fields; the institution is read from the journal field; locale, site and archive kinds are never filled |
| Doi.ParseAttribute | url2ref/src/doi.rs:223-235 | corrected: no bibliography gives nothing; otherwise the single entry is read |
| Doi.FlaggedDateDropped | url2ref/src/doi.rs:124-126 | an uncertain or approximate date gives no date attribute |
| Doi.ExactPointDate | url2ref/src/doi.rs:129-132 | an exact point date gives the date its fields make, if any |
| Doi.TitleFirstChunkOnly | url2ref/src/doi.rs:163-169 | the title is the first chunk's text alone, nothing when that chunk is maths |
| Generator.Translate | url2ref/src/generator.rs:405-430 | no target language, or no key for the chosen provider, is a translation error before any service is called |
| Generator.TranslateTitle | url2ref/src/generator.rs:369-402 | a translated title comes only from a title, with a target language and a successful translation, and carries that text and the target language |
| Generator.TitleTranslatedIffService | url2ref/src/generator.rs:369-402 | a title is translated iff the translation service succeeds, and the translated text is the service's text |
| Generator.ParseWaybackLocation | url2ref/src/generator.rs:614-627 | a timestamp found in a location is fourteen ASCII digits |
| Generator.WaybackLocationExactly | url2ref/src/generator.rs:614-627 | a timestamp is found iff the location contains "/web/" and exactly fourteen digits follow its first occurrence; it is those digits |
| Generator.Snapshot | url2ref/src/generator.rs:557-570 | an existing snapshot from the first lookup is used; without one, saving off gives none, and saving on gives a snapshot iff the save succeeds |
| Generator.SaveToWayback | url2ref/src/generator.rs:588-611 | a failed save request is returned as that error; a redirect location with a timestamp is the snapshot, with that location and its fourteen-digit timestamp; otherwise the result is the second availability query, made after the save |
| Generator.SaveQueriesOnlyAsFallback | url2ref/src/generator.rs:588-611 | the availability query is consulted only when the location has no timestamp, and then as the query after the save; otherwise its answers do not matter |
| Generator.FetchArchiveInfo | url2ref/src/generator.rs:551-586 | when it returns, the archive URL and the archive date are both present or both absent, and are an archive URL and a timestamp date |
| Generator.ArchiveSkipped | url2ref/src/generator.rs:552-554 | with archiving off, or no URL attribute, both archive fields are empty and no service is asked |
| Generator.NoSnapshotNoSave | url2ref/src/generator.rs:561-569 | with no existing snapshot and saving off, both archive fields are empty |
| Generator.ExistingSnapshotUsed | url2ref/src/generator.rs:557-583 | an existing snapshot gives its URL and the date read from its fourteen-digit timestamp; the `unwrap` panics exactly when those digits are no valid date and time |
| Generator.SavedSnapshotUsed | url2ref/src/generator.rs:564-583 | with no snapshot and saving on, a save whose location has a timestamp archives that location; the panic again comes exactly from an invalid timestamp |
| Generator.RequeriedSnapshotUsed | url2ref/src/generator.rs:561-608 | with no snapshot and saving on, a save whose location has no timestamp archives what the second query finds, when it finds something |
| Generator.FillMissingFromAi | url2ref/src/generator.rs:281-340 | the step that fills gaps from the AI gives the fields `WithAi` describes |
| Generator.AiNeverOverwrites | url2ref/src/generator.rs:302-325 | a field the sources filled is never replaced by the AI |
| Generator.AiOnlyWhenNeeded | url2ref/src/generator.rs:281-340 | without AI enabled, a missing field and a page URL, no AI call is made; a failed call changes nothing; with every field present nothing changes |
| Generator.ReferenceUrl | url2ref/src/generator.rs:268-269 | the URL is the resolved one, and the user's URL only when no source gives one |
| Generator.CreateReference | url2ref/src/generator.rs:258-366 | the reference is a news article of the resolved and AI-filled fields, the optional translated title, the URL and the archive fields; it panics exactly when the archive lookup does |
| References.Fields | url2ref/src/reference.rs:120-181 | the fields handed to the builder, one per slot of the variant |
| References.Wiki | url2ref/src/reference.rs:202-204 | the template citation is the wrapped body built from the fields in builder order |
| References.BibTeX | url2ref/src/reference.rs:183-185 | the BibTeX citation is the wrapped body built from the fields in builder order |
| References.Harvard | url2ref/src/reference.rs:216-218 | the Harvard citation renders the slots filled from the fields in builder order |
| References.ScholarlyOrder | url2ref/src/reference.rs:138-153 | a scholarly article hands over the news-article sequence without the site, with the journal just before the publisher |
| References.GenericOrder | url2ref/src/reference.rs:154-167 | a generic reference hands over the news-article sequence without the publisher, which comes last there |
| References.GenericHasNoPublisher | url2ref/src/reference.rs:154-167 | a generic reference whose fields hold their own kinds never hands over a publisher or journal |
| References.GenericHarvardHasNoPublisher | url2ref/src/reference.rs:154-167 | so its Harvard citation has no publisher |
| References.FoldKeepsPublisher | url2ref/src/citation.rs:352-364 | adding attributes that are not publishers never changes the publisher slot |
| References.AbsentFieldsContributeNothing | url2ref/src/reference.rs:120-181 | in all three styles, absent fields contribute nothing: the output is that of the present fields alone |
| References.HarvardFoldPresent | url2ref/src/citation.rs:345-350 | Harvard `try_add(None)` changes nothing, wherever it occurs |
| References.NewsTitleOnly | url2ref/src/reference.rs:202-204 | a news article with only a title renders `{{cite web\n| title = t\n}}` |
| HtmlMeta.Keys | url2ref/src/html_meta.rs:11-29 | only author, publisher, date, site and language have meta keys |
| HtmlMeta.FirstNamed | url2ref/src/html_meta.rs:40-41 | the first `meta` element named by the key, if any, is one of the page's and has that name |
| HtmlMeta.FirstProperty | url2ref/src/html_meta.rs:50-51 | the first `meta` element with that property, if any, is one of the page's and has that property |
| HtmlMeta.NonBlank | url2ref/src/html_meta.rs:42-44 | content is kept iff it is present and not blank once trimmed, and is then kept untrimmed |
| HtmlMeta.MetaForKey | url2ref/src/html_meta.rs:38-57 | what one key finds is never blank |
| HtmlMeta.TryFindMetaContent | url2ref/src/html_meta.rs:35-61 | what the key search finds is never blank |
| HtmlMeta.DatetimeAt | url2ref/src/html_meta.rs:77-80 | a selector gives a datetime iff its first element has a `datetime` attribute that is not blank, and then gives that attribute untrimmed |
| HtmlMeta.TryFindMicrodataDate | url2ref/src/html_meta.rs:64-88 | nothing is found iff no selector gives a datetime; otherwise the datetime of the first selector that gives one, never blank |
| HtmlMeta.CleanAuthor | url2ref/src/html_meta.rs:109-127 | a byline gives at most a non-empty generic author shorter than 200 characters; blank text gives none |
| HtmlMeta.StripEach | url2ref/src/html_meta.rs:113-117 | stripping the prefixes in turn leaves a suffix of the text |
| HtmlMeta.CleanAuthors | url2ref/src/html_meta.rs:107-129 | at most one author per element a selector hits |
| HtmlMeta.NoCleanAuthors | url2ref/src/html_meta.rs:107-129 | a selector gives no author exactly when no element's text cleans to one |
| HtmlMeta.AuthorsAt | url2ref/src/html_meta.rs:106-133 | a selector yields its cleaned authors, or nothing when there are none |
| HtmlMeta.TryFindAuthor | url2ref/src/html_meta.rs:91-134 | nothing is found iff no selector's elements clean to an author; otherwise the non-empty authors of the first selector whose elements give any |
| HtmlMeta.AttributeTypeToAttribute | url2ref/src/html_meta.rs:141-170 | every attribute fills the kind asked for; an author is one generic author; a date that is neither RFC 3339 nor a zone-less timestamp is a `%Y-%m-%d` day, or nothing |
| HtmlMeta.ParseAttribute | url2ref/src/html_meta.rs:173-207 | every attribute fills the kind asked for |
| HtmlMeta.AuthorFromMetaThenBylines | url2ref/src/html_meta.rs:177-188 | an author meta tag with content gives one generic author of that content; without one, the authors are those of the first byline selector that gives any, and nothing when none does |
| HtmlMeta.NameBeforeProperty | url2ref/src/html_meta.rs:40-46 | non-blank content of the first element named by the key wins over any property |
| HtmlMeta.BlankContentSkipped | url2ref/src/html_meta.rs:42-56 | blank content under the name falls through to the property lookup |
| HtmlMeta.MetaDateShadowsMicrodata | url2ref/src/html_meta.rs:189-194 | once a meta tag gives a date, the page's `time` elements do not matter |
| HtmlMeta.MicrodataOnlyWithoutMeta | url2ref/src/html_meta.rs:189-200 | with no dated meta tag the date comes from the first suitable `time` element, read the same way |
| HtmlMeta.CleanAuthorOf | url2ref/src/html_meta.rs:109-127 | trimmed text under 200 bytes whose stripped form is a trimmed non-empty name gives that name as a generic author |
| HtmlMeta.BylineNameStripped | url2ref/src/html_meta.rs:113-117 | "By " before a name is removed and the name kept |
| HtmlMeta.StripSecondOnly | url2ref/src/html_meta.rs:113-117 | only the prefix that matches is removed; the others leave the text alone |
| HtmlMeta.StripPrefixOnce | url2ref/src/html_meta.rs:114 | `trim_start_matches` removes a prefix that is not repeated exactly once |
| HtmlMeta.StripEachNoMatch | url2ref/src/html_meta.rs:113-117 | text starting with none of the prefixes is unchanged |
| HtmlMeta.UnfitTextDropped | url2ref/src/html_meta.rs:110-111 | blank text, or text of 200 bytes or more once trimmed, gives no author |
| HtmlMeta.CleanAuthorsAppend | url2ref/src/html_meta.rs:107-129 | the authors of two element lists one after the other are those of each, in order |
| HtmlMeta.UnkeyedFieldsEmpty | url2ref/src/html_meta.rs:201-205 | title and URL are never read from plain meta tags |
| Json.Index | url2ref/src/schema_org/generic.rs:19 | indexing an object by a key it has gives that value; any other index gives `Null` |
| OpenGraph.Keys | src/opengraph.rs:13-26 | dates are looked up under the published, modified and updated time properties in that order; kinds without a key have none |
| OpenGraph.TryFindAttribute | src/opengraph.rs:30-41 | nothing is found iff no key is present; otherwise the value is that of the first present key |
| OpenGraph.AttributeTypeToAttribute | src/opengraph.rs:43-63 | every attribute fills the kind asked for; plain kinds keep the value as found; an author is one generic author; a type gives nothing |
| OpenGraph.ParseAttribute | src/opengraph.rs:66-85 | a kind with no present key gives nothing; otherwise the value of the first present key is converted |
| OpenGraph.PresentKeyWins | src/opengraph.rs:35-36 | a present key is used even when its value is empty |
| OpenGraph.DateKeyOrder | src/opengraph.rs:20-22 | the published time wins over the modified time, which wins over the updated time |
| OpenGraph.NothingForUnkeyedOrType | src/opengraph.rs:13-61 | language, publisher and type are never taken from Open Graph |
| SchemaOrg.Keys | url2ref/src/schema_org.rs:18-33 | kinds without a Schema.org key have none |
| SchemaOrg.ParseAttribute | url2ref/src/schema_org.rs:39-52 | where the author or site search meets nothing it panics on, no page or no Schema.org object gives nothing, and anything found fills the kind asked for |
| SchemaOrg.OnlyFirstObject | url2ref/src/schema_org.rs:41 | objects after the first never change the outcome |
| SchemaOrg.Dispatch | url2ref/src/schema_org.rs:47-51 | authors and the site go to their own readers; every other kind goes to the generic reader |
| SchemaOrg.NoKeysNothingFound | url2ref/src/schema_org.rs:31 | a kind without keys gives nothing |
| SchemaOrgAuthor.MatchAuthorType | url2ref/src/schema_org/author.rs:10-16 | "Person" and "Organization" name the two kinds of author; any other type gives none |
| SchemaOrgAuthor.MatchTuple | url2ref/src/schema_org/author.rs:19-24 | an author needs a string type and a string name, keeps the name, and is a person iff the type is "Person" |
| SchemaOrgAuthor.AuthorOf | url2ref/src/schema_org/author.rs:31-35 | for an object with "@type" and "name" members, an author exists iff both are strings and the type is "Person" or "Organization"; it keeps the name and is a person iff the type is "Person" |
| SchemaOrgAuthor.RecognisedAuthors | url2ref/src/schema_org/author.rs:29-44 | no more authors come out than objects go in |
| SchemaOrgAuthor.NoneRecognised | url2ref/src/schema_org/author.rs:29-48 | an array has no recognised author exactly when none of its elements stands for one |
| SchemaOrgAuthor.ArrayAuthors | url2ref/src/schema_org/author.rs:27-51 | nothing iff no element stands for an author; otherwise the recognised authors, at least one |
| SchemaOrgAuthor.ArrayOfPersons | url2ref/src/schema_org/author.rs:27-51 | on an array of objects that each have "@type" and "name" members (anything else panics), the loop collects the recognised authors in order, and gives none when there are none |
| SchemaOrgAuthor.RecognisedAppend | url2ref/src/schema_org/author.rs:29-44 | the authors of two arrays one after the other are those of each, in order |
| SchemaOrgAuthor.RecognisedSnoc | url2ref/src/schema_org/author.rs:37-39 | one more object adds its author at the end, if it has one |
| SchemaOrgAuthor.OneElement | url2ref/src/schema_org/author.rs:31-39 | a single object with "@type" and "name" members gives an author only when both are strings and the type is "Person" or "Organization" |
| SchemaOrgAuthor.FindAuthors | url2ref/src/schema_org/author.rs:54-72 | what is found is a non-empty list |
| SchemaOrgAuthor.CreateAuthorAttribute | url2ref/src/schema_org/author.rs:74-77 | an author attribute always holds at least one author |
| SchemaOrgAuthor.NonArrayPassedOver | url2ref/src/schema_org/author.rs:60-68 | when the search is defined (no array met before the deciding key holds an element without "@type" or "name"), a key holding no array, or an array without a recognised author, passes to the next key |
| SchemaOrgAuthor.AuthorArrayFound | url2ref/src/schema_org/author.rs:59-76 | an "author" array of objects with "@type" and "name" members gives exactly its recognised authors, or nothing when there are none |
| SchemaOrgGeneric.TryFindGenericAttribute | url2ref/src/schema_org/generic.rs:7-23 | nothing is found iff no key holds a string; otherwise the string of the first key that holds one |
| SchemaOrgGeneric.AttributeTypeToAttribute | url2ref/src/schema_org/generic.rs:25-45 | every attribute fills the kind asked for; plain kinds keep the string as found |
| SchemaOrgGeneric.CreateGenericAttribute | url2ref/src/schema_org/generic.rs:47-58 | nothing is found without a string value; otherwise the first string is converted |
| SchemaOrgGeneric.NonStringSkipped | url2ref/src/schema_org/generic.rs:12-18 | a key holding a non-string is passed over for the next one |
| SchemaOrgSite.NameAt | src/schema_org/site.rs:8-18 | where indexing by "name" is defined, a site name exists iff the key holds an object whose "name" is a string, and is that string |
| SchemaOrgSite.TryFindSiteAttribute | src/schema_org/site.rs:6-25 | when no object met before the deciding key lacks "name", nothing is found iff no key holds an object with a string name; otherwise the name under the first key that holds one |
| SchemaOrgSite.CreateSiteAttribute | src/schema_org/site.rs:27-37 | a site attribute exists iff a name is found, and holds that name |
| SchemaOrgSite.StringPublisherIgnored | src/schema_org/site.rs:9-17 | a plain-string publisher is passed over for the source organisation's name |
| SchemaOrgSite.ReferencedPublisherPanics | src/schema_org/site.rs:8-11 | a publisher given only as `{"@id": ...}` is an object without "name": indexing it panics, so the search is not defined |
| Text.SplitWhitespace | url2ref/src/citation.rs:37 | `split_whitespace` gives non-empty words free of whitespace |
| Text.SplitJoinRoundTrip | url2ref/src/citation.rs:32 | joining words with single spaces and splitting on whitespace gives the words back |
| Text.TrimStart | url2ref/src/html_meta.rs:110 | `trim_start` removes leading whitespace only, and all of it: what is cut is blank and the rest does not start with whitespace |
| Text.TrimEnd | url2ref/src/html_meta.rs:110 | `trim_end` removes trailing whitespace only, and all of it: what is cut is blank and the rest does not end with whitespace |
| Text.Trim | url2ref/src/html_meta.rs:110 | `trim` gives a piece of the text with only whitespace before and after it, which neither starts nor ends with whitespace |
| Text.TrimEmptyIffBlank | url2ref/src/html_meta.rs:43 | `trim().is_empty()` holds exactly for blank text |
| Text.Find | url2ref/src/generator.rs:616 | `find` gives the first position where the pattern occurs, and `None` only when it occurs nowhere |
| Text.FindChar | url2ref/src/ai_extractor.rs:309 | `find(c)` gives the first position of `c`, or `None` when it is absent |
| Text.RFindChar | url2ref/src/ai_extractor.rs:310 | `rfind(c)` gives the last position of `c`, or `None` when it is absent |
| Text.TrimStartMatches | url2ref/src/html_meta.rs:114 | `trim_start_matches` removes some number of leading copies of the pattern and nothing else, and what remains no longer starts with it; an empty pattern removes nothing |
| Text.TakeChars | url2ref/src/ai_extractor.rs:162 | `chars().take(n)` keeps a prefix of at most `n` characters, and the whole text when it is no longer |
| Text.ToLower | url2ref/src/zotero.rs:155 | `to_lowercase` lowers each character in place and keeps the length |
| Text.ToLowerIdempotent | url2ref/src/zotero.rs:155 | lowering twice is lowering once |
| Text.Utf8Len | url2ref/src/ai_extractor.rs:375 | the byte length lies between one and four bytes per character |
| Text.ParseI32 | url2ref/src/zotero.rs:193 | `parse::<i32>` gives only values within the 32-bit range |
| Text.ParseI32OfInt | url2ref/src/ai_extractor.rs:388 | every `i32` printed in decimal parses back to itself |
| Text.SplitOn | url2ref/src/generator.rs:616 | `split` always gives at least one part |
| Text.JoinSplitOn | url2ref/src/generator.rs:616 | joining the parts of a `split` with its separator gives the text back |

## Left out

- Network access: `curl.rs`, `send_doi_request`, `fetch_zotero_metadata`, the OpenAI and Anthropic calls, the DeepL and Google translation calls and the Wayback API calls. Their outcomes are parameters (functions from request to `Option`/`Result`), and the model computes with whatever they return.
- The two-second pause before the second Wayback query in the save fallback is not modelled as time. The query parameter takes an attempt number instead: the query after a save is a call of its own, which may find the page just saved.
- All logging (`println!`, `eprintln!`). It has no effect on the result.
- HTML parsing and CSS selection. A page is modelled as the list of its `meta` elements, its `time` elements and the texts the author selectors hit, in document order.
- JSON and BibTeX parsing. A JSON-LD object is a `Json.Value`; a BibTeX entry is a record of the fields the code reads. The validity test `serde_json::from_str::<Value>` in `extract_json_from_text` is a predicate parameter.
- The regular-expression HTML stripping and entity decoding of `extract_text_from_html`. Only the final truncation to 4000 characters and the trim are modelled, on the already-normalised text.
- `get_pmid` and `get_bibcode` in `zotero.rs`. They are regular-expression matches over identifiers that no modelled operation reads.
- The `ParseInfo` dispatch of `parser.rs` lines 87-91. Each source is a function from field kind to `Option<Attribute>`, because the visible dispatch covers only three of the six sources and its `ParseInfo` differs from what the sources read.
- The serde round trip and `HashSet` in `parsers_used`. Only its effect is modelled: a list of the configured sources without duplicates, in an order the model does not fix.
- Chrono's RFC 3339 reading, its `%Y-%m-%dT%H:%M:%S` reading and the textual month formats (`%B %d, %Y` and the others in `parse_zotero_date`) are parameters. Chrono's numeric `%Y-%m-%d` and `%Y%m%d%H%M%S` reading, and `%Y`/`%m`/`%d` writing, are modelled.
- Time zones. A timestamp is modelled as its UTC date and time of day.
- `to_lowercase` lowers ASCII letters only. In the DOI pattern, `\w` is ASCII letters, digits and `_`, `\d` is an ASCII digit, and `\b` is a boundary between such word characters and anything else. The Rust `regex` crate reads all three as Unicode classes by default; Unicode case mapping, Unicode digits and Unicode word characters are not modelled.
- Panics that the code reaches by design are preconditions:
  - in the Schema.org author strategy, the `todo!()` for a non-object author array element, and the `Map` indexing of an author object by "@type" and "name", which panics when either member is missing;
  - in the Schema.org site strategy, the `Map` indexing of an organisation object by "name", which panics when it is missing (as for a publisher given only by `@id`; see `SchemaOrgSite.ReferencedPublisherPanics`);
  - the `assert!` on a single BibTeX entry in `doi.rs`;
  - the `panic!` arms for authors and sites in the generic Schema.org strategy.

  A Schema.org search's precondition covers only the keys up to the one that decides it, because the loop returns there.
- The `unwrap` on a Wayback timestamp in `fetch_archive_info` is not a precondition: it is an explicit `Panicked` outcome.
- Doi.DateToAttribute: uses the corrected date conversion, see Findings. So do `Doi.AttributeTypeToAttribute` and `Doi.ParseAttribute`, which call it; the code as written is `Doi.AsWrittenShiftsDays`.
- Zotero.ShouldSkipZotero: the test's claim that a `nytimes.com` article is not skipped is not stated as a lemma. The general "skipped iff a fragment occurs" contract covers it only through the blacklist.
- Zotero.ParseZoteroDate: the RFC 3339 and textual-format branches are stated only through the parameters they call. A year and month is stated one way, as implied by a successful "-01" reading, not as an equivalence.
- HtmlMeta.CleanAuthor: the name is bounded by 200 characters. The source's 200-byte bound is stated by `HtmlMeta.CleanAuthorOf` and `HtmlMeta.UnfitTextDropped`.
- SchemaOrgAuthor.RecognisedAuthors: its own contract is only a length bound. Order and contents are stated by `SchemaOrgAuthor.RecognisedAppend`, `SchemaOrgAuthor.RecognisedSnoc`, `SchemaOrgAuthor.OneElement` and `SchemaOrgAuthor.NoneRecognised`.
- HtmlMeta.CleanAuthors: its own contract is only a length bound. When no author is found is stated by `HtmlMeta.NoCleanAuthors`, and order by `HtmlMeta.CleanAuthorsAppend`; that each author is a non-empty generic name is stated per byline by `HtmlMeta.CleanAuthor`, not for the whole list.
- Text.Utf8Len: only the one-to-four-bytes-per-character bound is stated; `Text.Utf8LenAscii` gives the exact length for ASCII text.
- AiExtractor.ParseAiDate: its contract gives the length conditions. The exact results for the accepted forms are stated by `AiExtractor.AiDateFull`, `AiExtractor.AiDateYearMonth` and `AiExtractor.AiDateYear`.
- The user interfaces (`url2ref-cli`, `url2ref-web`) and the entry points in `lib.rs` are wiring over I/O and are not part of this model.

## Findings

| source | as written | input that shows it | evidently intended | confidence | as-written member | corrected member |
|---|---|---|---|---|---|---|
| url2ref/src/ai_extractor.rs:308-312 | slices `text[start..=end]` from the first `{` to the last `}` without checking that the `}` comes after the `{` | "}x{" (not JSON; its last `}` is at 0 and its first `{` at 2) panics on the slice | report the "no JSON found" error | not executed | AiExtractor.ExtractJsonPanics | AiExtractor.CorrectedAgrees |
| url2ref/src/doi.rs:108-117 | passes biblatex's zero-based month and day to `NaiveDate::from_ymd_opt` unchanged, and the zero-based month to `Date::YearMonth` unchanged | a stored 15 January 2020 (month 0, day 14) gives no date; a stored 31 December 2020 (month 11, day 30) gives 30 November; a stored January 2020 without a day gives month 0, displayed "2020-00" | add one to month and day before building the date, and one to the month of a year and month | not executed | Doi.AsWrittenShiftsDays | Doi.DayRoundTrip |
