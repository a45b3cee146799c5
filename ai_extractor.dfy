/** The AI fallback: metadata a language model extracted from the page text,
    turned into attributes. The provider call is an input. */
module AiExtractor {
  import opened Text
  import opened ChronoDates
  import opened Attributes

  datatype AiProvider = OpenAI | Anthropic

  datatype AiExtractionOptions = AiExtractionOptions(
    enabled: bool, provider: AiProvider, apiKey: Option<string>, model: Option<string>)

  /** The fields the model is asked for; any may be missing. */
  datatype AiExtractedMetadata = AiExtractedMetadata(
    title: Option<string>, authors: Option<seq<string>>, date: Option<string>,
    site: Option<string>, publisher: Option<string>, language: Option<string>)

  const NoMetadata := AiExtractedMetadata(None, None, None, None, None, None)

  datatype AiExtractionError =
    | ApiError(message: string)
    | ParseError(message: string)
    | NoApiKey
    | CurlError
    | JsonError

  /** What the chosen provider answers, already decoded. */
  type ProviderCall = AiProvider -> Result<AiExtractedMetadata, AiExtractionError>

  /** Asks the configured provider, unless extraction is disabled. */
  function ExtractMetadata(options: AiExtractionOptions, call: ProviderCall): (r: Result<AiExtractedMetadata, AiExtractionError>)
    ensures !options.enabled ==> r == Ok(NoMetadata)
    ensures options.enabled ==> r == call(options.provider)
  {
    if !options.enabled then Ok(NoMetadata) else call(options.provider)
  }

  /** A disabled extractor yields empty metadata whatever the providers would
      answer; an enabled one yields the configured provider's answer. */
  lemma DisabledCallsNoProvider(options: AiExtractionOptions, call1: ProviderCall, call2: ProviderCall)
    ensures !options.enabled ==>
      ExtractMetadata(options, call1) == ExtractMetadata(options, call2) == Ok(NoMetadata)
    ensures options.enabled && call1(options.provider) == call2(options.provider) ==>
      ExtractMetadata(options, call1) == ExtractMetadata(options, call2)
  {
  }

  /** Every name becomes a generic author, in order. */
  function GenericAuthors(names: seq<string>): (authors: seq<Author>)
    ensures |authors| == |names|
    ensures forall i :: 0 <= i < |names| ==> authors[i] == Generic(names[i])
  {
    if |names| == 0 then [] else [Generic(names[0])] + GenericAuthors(names[1..])
  }

  /** The attribute of kind `t` the metadata provides, if any. */
  function GetAttributeFromAi(m: AiExtractedMetadata, t: AttributeType): (r: Option<Attribute>)
    ensures r.Some? ==> TypeOf(r.value) == t
  {
    match t
    case Title => if m.title.Some? then Some(Attribute.Title(m.title.value)) else None
    case Author =>
      if m.authors.Some? && |m.authors.value| > 0 then Some(Authors(GenericAuthors(m.authors.value))) else None
    case Date =>
      if m.date.Some? then
        match ParseAiDate(m.date.value)
        case Some(d) => Some(Attribute.Date(d))
        case None => None
      else None
    case Site => if m.site.Some? then Some(Attribute.Site(m.site.value)) else None
    case Publisher => if m.publisher.Some? then Some(Attribute.Publisher(m.publisher.value)) else None
    case Language => if m.language.Some? then Some(Attribute.Language(m.language.value)) else None
    case _ => None
  }

  /** A date as the model wrote it: `%Y-%m-%d` first; then a seven-byte
      `year-month` of two integers, the month unchecked; then a four-byte
      integer year. */
  function ParseAiDate(s: string): (r: Option<Date>)
    ensures r.Some? && r.value.YearMonth? ==> Utf8Len(s) == 7
    ensures r.Some? && r.value.Year? ==> Utf8Len(s) == 4
    ensures r.Some? ==> !r.value.DateTime?
  {
    match ParseYmd(s)
    case Some(d) => Some(YearMonthDay(d))
    case None =>
      var parts := SplitOn(s, "-");
      if Utf8Len(s) == 7 && |parts| == 2 && ParseI32(parts[0]).Some? && ParseI32(parts[1]).Some? then
        Some(YearMonth(ParseI32(parts[0]).value, ParseI32(parts[1]).value))
      else if Utf8Len(s) == 4 && ParseI32(s).Some? then
        Some(Year(ParseI32(s).value))
      else None
  }

  // ---------------------------------------------------------------------
  // Properties of the conversion

  /** The author list is the names in order, each a generic author; it reads
      back as the names when displayed. An empty list gives no attribute. */
  lemma AiAuthors(m: AiExtractedMetadata)
    ensures m.authors.Some? && |m.authors.value| > 0 ==>
      GetAttributeFromAi(m, AttributeType.Author) == Some(Authors(GenericAuthors(m.authors.value)))
      && DisplayAttribute(GetAttributeFromAi(m, AttributeType.Author).value) == Join(m.authors.value, ", ")
    ensures (m.authors.None? || m.authors.value == []) ==> GetAttributeFromAi(m, AttributeType.Author) == None
  {
    if m.authors.Some? && |m.authors.value| > 0 {
      var names := m.authors.value;
      var authors := GenericAuthors(names);
      assert AuthorNames(authors) == names;
    }
  }

  /** Title, site, publisher and language pass through unchanged; the model
      is not asked for the other kinds, which give nothing. */
  lemma AiPassThrough(m: AiExtractedMetadata, t: AttributeType)
    ensures m.title.Some? ==> GetAttributeFromAi(m, AttributeType.Title) == Some(Attribute.Title(m.title.value))
    ensures m.site.Some? ==> GetAttributeFromAi(m, AttributeType.Site) == Some(Attribute.Site(m.site.value))
    ensures m.publisher.Some? ==> GetAttributeFromAi(m, AttributeType.Publisher) == Some(Attribute.Publisher(m.publisher.value))
    ensures m.language.Some? ==> GetAttributeFromAi(m, AttributeType.Language) == Some(Attribute.Language(m.language.value))
    ensures (t !in {AttributeType.Title, AttributeType.Author, AttributeType.Date, AttributeType.Site,
                    AttributeType.Publisher, AttributeType.Language}) ==> GetAttributeFromAi(m, t) == None
    ensures GetAttributeFromAi(NoMetadata, t) == None
  {
  }

  /** A full ISO date is read as that day. */
  lemma AiDateFull(d: NaiveDate)
    ensures ParseAiDate(FormatYmd(d)) == Some(YearMonthDay(d))
  {
    ParseFormatYmd(d);
  }

  /** A four-digit year, a dash and a two-digit number is a year and month,
      whether or not the number is a valid month. */
  lemma AiDateYearMonth(y: nat, m: nat)
    requires 1000 <= y <= 9999 && m <= 99
    ensures ParseAiDate(NatToString(y) + "-" + FormatTwo(m)) == Some(YearMonth(y, m))
  {
    var ys, ms := NatToString(y), FormatTwo(m);
    FourDigitYear(y);
    PadZerosValue(m, 2);
    assert m < Pow10(2);
    YmdRejectsYearMonth(ys, ms);
    var s := ys + "-" + ms;
    DigitsDashAscii(ys, ms);
    Utf8LenAscii(s);
    SplitStep(ys, "-", ms);
    SplitNoSep(ms, "-");
    ParseI32OfNat(y);
    TwoDigitsRead(m);
  }

  lemma DigitsDashAscii(ys: string, ms: string)
    requires AllDigits(ys) && AllDigits(ms)
    ensures IsAscii(ys + "-" + ms)
  {
    var s := ys + "-" + ms;
    forall i | 0 <= i < |s| ensures s[i] as int < 0x80 {
      if i < |ys| { assert s[i] == ys[i]; } else if i > |ys| { assert s[i] == ms[i - |ys| - 1]; }
    }
  }

  /** A number below 100 printed on two digits reads back as itself. */
  lemma TwoDigitsRead(m: nat)
    requires m <= 99
    ensures ParseI32(FormatTwo(m)) == Some(m)
  {
    PadZerosValue(m, 2);
    ParseI32OfNat(m);
    assert FormatTwo(m) == NatToString(m) || FormatTwo(m) == "0" + NatToString(m);
    if FormatTwo(m) != NatToString(m) {
      ParseI32Padded(m);
    }
  }

  /** A four-digit year on its own is a year. */
  lemma AiDateYear(y: nat)
    requires 1000 <= y <= 9999
    ensures ParseAiDate(NatToString(y)) == Some(Year(y))
  {
    var ys := NatToString(y);
    FourDigitYear(y);
    YmdRejectsYear(ys);
    assert IsAscii(ys);
    Utf8LenAscii(ys);
    ParseI32OfNat(y);
  }

  /** Text starting with a letter is no date, whatever follows. */
  lemma AiDateRejectsLetterStart(s: string)
    requires |s| > 0 && 'a' <= s[0] <= 'z'
    ensures ParseAiDate(s) == None
  {
    YmdRejectsNonDigit(s);
    NoSignedDigits(s);
    var parts := SplitOn(s, "-");
    match Find(s, "-")
    case None =>
    case Some(j) =>
      assert j > 0;
      assert parts[0] == s[..j];
      NoSignedDigits(s[..j]);
  }

  /** The rejected input of the unit test. */
  lemma AiDateRejectsWord()
    ensures ParseAiDate("invalid") == None
  {
    AiDateRejectsLetterStart("invalid");
  }

  lemma NoSignedDigits(s: string)
    requires |s| > 0 && 'a' <= s[0] <= 'z'
    ensures ParseI32(s) == None
  {
    assert !IsAsciiDigit(s[0]);
  }

  /** A single digit padded with one zero reads back as its value. */
  lemma ParseI32Padded(m: nat)
    requires m < 10
    ensures ParseI32("0" + NatToString(m)) == Some(m)
  {
    var t := "0" + NatToString(m);
    assert NatToString(m) == [DigitChar(m)];
    assert t[..1] == "0" && t[1] == DigitChar(m);
    assert DigitsValue("0") == 0;
    assert DigitsValue(t) == DigitsValue(t[..1]) * 10 + DigitValue(t[1]);
  }

  // ---------------------------------------------------------------------
  // Locating the JSON object in a reply

  const NoJsonError := ParseError("Could not find valid JSON in response")

  /** The reply as written: the whole text if it is JSON, else the slice from
      the first `{` to the last `}` if that is JSON. The slice panics when
      the last `}` lies more than one place before the first `{`. `isJson`
      is whether `serde_json` accepts a text. */
  function ExtractJsonAsWritten(text: string, isJson: string -> bool): (r: Outcome<Result<string, AiExtractionError>>)
    ensures isJson(text) ==> r == Returned(Ok(text))
    ensures r.Returned? && r.value.Ok? ==> isJson(r.value.value)
    ensures r.Returned? && r.value.Err? ==> r.value.error == NoJsonError
    ensures r.Panicked? ==> !isJson(text)
  {
    if isJson(text) then Returned(Ok(text))
    else match (FindChar(text, '{'), RFindChar(text, '}'))
      case (Some(start), Some(end)) =>
        if start > end + 1 then Panicked
        else
          var candidate := text[start..end + 1];
          if isJson(candidate) then Returned(Ok(candidate)) else Returned(Err(NoJsonError))
      case _ => Returned(Err(NoJsonError))
  }

  /** The reply with the slice taken only when the braces are in order; any
      other text is a parse error. */
  function ExtractJsonFromText(text: string, isJson: string -> bool): (r: Result<string, AiExtractionError>)
    ensures r.Ok? ==> isJson(r.value)
    ensures r.Err? ==> r.error == NoJsonError
    ensures r.Ok? && r.value != text ==>
      Contains(text, r.value) && |r.value| > 0 && r.value[0] == '{' && r.value[|r.value| - 1] == '}'
  {
    if isJson(text) then Ok(text)
    else match (FindChar(text, '{'), RFindChar(text, '}'))
      case (Some(start), Some(end)) =>
        if end < start then Err(NoJsonError)
        else
          var candidate := text[start..end + 1];
          assert OccursAt(text, candidate, start);
          if isJson(candidate) then Ok(candidate) else Err(NoJsonError)
      case _ => Err(NoJsonError)
  }

  /** Text that is JSON as a whole is returned whole. */
  lemma WholeJsonKept(text: string, isJson: string -> bool)
    requires isJson(text)
    ensures ExtractJsonFromText(text, isJson) == Ok(text)
    ensures ExtractJsonAsWritten(text, isJson) == Returned(Ok(text))
  {
  }

  /** One object embedded in prose, as in the unit test: the object is cut
      out exactly. */
  lemma EmbeddedObjectFound(before: string, inner: string, after: string, isJson: string -> bool)
    requires forall i :: 0 <= i < |before| ==> before[i] != '{'
    requires forall i :: 0 <= i < |after| ==> after[i] != '}'
    requires !isJson(before + "{" + inner + "}" + after) && isJson("{" + inner + "}")
    ensures ExtractJsonFromText(before + "{" + inner + "}" + after, isJson) == Ok("{" + inner + "}")
  {
    var obj := "{" + inner + "}";
    var text := before + "{" + inner + "}" + after;
    var start, end := |before|, |before| + |inner| + 1;
    assert text == before + obj + after;
    assert text[start..end + 1] == obj;
    assert text[start] == '{' && text[end] == '}';
    forall j | 0 <= j < start ensures text[j] != '{' {
      assert text[j] == before[j];
    }
    forall j | end < j < |text| ensures text[j] != '}' {
      assert text[j] == after[j - end - 1];
    }
    SliceFound(text, start, end, isJson);
  }

  /** The slice between the first `{` and the last `}` is taken when it is
      JSON and the whole is not. */
  lemma SliceFound(text: string, start: nat, end: nat, isJson: string -> bool)
    requires start <= end < |text| && text[start] == '{' && text[end] == '}'
    requires forall j :: 0 <= j < start ==> text[j] != '{'
    requires forall j :: end < j < |text| ==> text[j] != '}'
    requires !isJson(text) && isJson(text[start..end + 1])
    ensures ExtractJsonFromText(text, isJson) == Ok(text[start..end + 1])
  {
    FirstIndexUnique(text, '{', start);
    LastIndexUnique(text, '}', end);
  }

  /** Text with no `{`, or no `}`, is a parse error unless it is JSON whole. */
  lemma NoBracesNoJson(text: string, isJson: string -> bool)
    requires !isJson(text)
    requires (forall i :: 0 <= i < |text| ==> text[i] != '{') || (forall i :: 0 <= i < |text| ==> text[i] != '}')
    ensures ExtractJsonFromText(text, isJson) == Err(NoJsonError)
    ensures ExtractJsonAsWritten(text, isJson) == Returned(Err(NoJsonError))
  {
    if FindChar(text, '{').Some? {
      assert RFindChar(text, '}').None?;
    }
  }

  /** The code as written panics on a reply whose only `}` comes before its
      only `{` with something between them, when the whole is not JSON. */
  lemma ExtractJsonPanics(isJson: string -> bool)
    requires !isJson("}x{")
    ensures ExtractJsonAsWritten("}x{", isJson) == Panicked
    ensures ExtractJsonFromText("}x{", isJson) == Err(NoJsonError)
  {
    assert FindChar("}x{", '{') == Some(2);
    assert RFindChar("}x{", '}') == Some(0);
  }

  /** Wherever the code as written does not panic, the corrected function
      returns the same; it panics exactly when the last `}` lies more than
      one place before the first `{`. `serde_json` rejects the empty text. */
  lemma CorrectedAgrees(text: string, isJson: string -> bool)
    requires !isJson("")
    ensures ExtractJsonAsWritten(text, isJson).Panicked? <==>
      !isJson(text) && FindChar(text, '{').Some? && RFindChar(text, '}').Some?
      && RFindChar(text, '}').value + 1 < FindChar(text, '{').value
    ensures ExtractJsonAsWritten(text, isJson).Returned? ==>
      ExtractJsonAsWritten(text, isJson).value == ExtractJsonFromText(text, isJson)
  {
    if !isJson(text) && FindChar(text, '{').Some? && RFindChar(text, '}').Some? {
      var start, end := FindChar(text, '{').value, RFindChar(text, '}').value;
      if start == end + 1 {
        assert text[start..end + 1] == "";
      }
    }
  }

  lemma FirstIndexUnique(s: string, c: char, k: nat)
    requires k < |s| && s[k] == c && forall j :: 0 <= j < k ==> s[j] != c
    ensures FindChar(s, c) == Some(k)
  {
  }

  lemma LastIndexUnique(s: string, c: char, k: nat)
    requires k < |s| && s[k] == c && forall j :: k < j < |s| ==> s[j] != c
    ensures RFindChar(s, c) == Some(k)
  {
  }

  // ---------------------------------------------------------------------
  // Page text sent to the model

  /** The whitespace-normalised page text, cut to its first 4000 characters
      and trimmed. */
  function TruncatePageText(normalized: string): (r: string)
    ensures |r| <= 4000 && |r| <= |normalized|
    ensures |r| > 0 ==> !IsWhitespace(r[0]) && !IsWhitespace(r[|r| - 1])
    ensures var head := TakeChars(normalized, 4000);
      exists i :: 0 <= i && i + |r| <= |head| && r == head[i..i + |r|] && IsBlank(head[..i]) && IsBlank(head[i + |r|..])
  {
    Trim(TakeChars(normalized, 4000))
  }

  /** Short text with no whitespace at its ends is sent as it is. */
  lemma ShortCleanTextUnchanged(normalized: string)
    requires |normalized| <= 4000
    requires |normalized| == 0 || (!IsWhitespace(normalized[0]) && !IsWhitespace(normalized[|normalized| - 1]))
    ensures TruncatePageText(normalized) == normalized
  {
    TrimClean(normalized);
  }
}
