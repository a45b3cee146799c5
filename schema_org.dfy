/** Schema.org JSON-LD: the keys consulted per field and the dispatch to
    the author, site and generic strategies. */
module SchemaOrg {
  import opened Text
  import opened Attributes
  import opened Json
  import opened Parser
  import opened SchemaOrgAuthor
  import opened SchemaOrgGeneric
  import opened SchemaOrgSite

  /** The JSON-LD objects of a page, in document order. */
  datatype HtmlDocument = HtmlDocument(schemaOrg: seq<Value>)

  /** The JSON-LD keys consulted for a field, in order. */
  function Keys(t: AttributeType): (keys: seq<string>)
    ensures (t !in {AttributeType.Title, AttributeType.Author, AttributeType.Language, AttributeType.Site,
                    AttributeType.Url, AttributeType.Date, AttributeType.Type}) ==> keys == []
  {
    match t
    case Title => ["headline", "alternativeHeadline"]
    case Author => ["author"]
    case Language => ["inLanguage"]
    case Site => ["publisher", "sourceOrganization"]
    case Url => ["mainEntityOfPage", "url"]
    case Date => ["datePublished", "dateModified"]
    case Type => ["@type"]
    case _ => []
  }

  /** The search for a field over a JSON-LD object meets nothing it panics
      on: an author array element it cannot read, or an organisation
      without a `name`. */
  predicate FieldDefined(schema: Value, t: AttributeType) {
    (t == AttributeType.Author ==> SearchDefined(schema, Keys(AttributeType.Author)))
    && (t == AttributeType.Site ==> SiteSearchDefined(schema, Keys(AttributeType.Site)))
  }

  /** The search for a field over the first JSON-LD object of the page, if
      there is one, is defined. */
  predicate ParseDefined(html: Option<HtmlDocument>, t: AttributeType) {
    html.None? || |html.value.schemaOrg| == 0 || FieldDefined(html.value.schemaOrg[0], t)
  }

  /** A field from the first JSON-LD object of the page. */
  function ParseAttribute(html: Option<HtmlDocument>, t: AttributeType, rfc3339: Rfc3339Reader): (r: Option<Attribute>)
    requires ParseDefined(html, t)
    ensures html.None? || html.value.schemaOrg == [] ==> r == None
    ensures r.Some? && t != AttributeType.Type ==> TypeOf(r.value) == t
  {
    if html.None? || |html.value.schemaOrg| == 0 then None
    else
      var schema := html.value.schemaOrg[0];
      var keys := Keys(t);
      match t
      case Author => CreateAuthorAttribute(schema, keys)
      case Site => CreateSiteAttribute(schema, keys)
      case _ => CreateGenericAttribute(schema, keys, t, rfc3339)
  }

  /** Only the first JSON-LD object counts: objects after it change nothing. */
  lemma OnlyFirstObject(first: Value, rest1: seq<Value>, rest2: seq<Value>, t: AttributeType, rfc3339: Rfc3339Reader)
    requires FieldDefined(first, t)
    ensures ParseAttribute(Some(HtmlDocument([first] + rest1)), t, rfc3339)
         == ParseAttribute(Some(HtmlDocument([first] + rest2)), t, rfc3339)
  {
  }

  /** Author goes to the author strategy, Site to the site strategy and the
      rest to the generic one. */
  lemma Dispatch(schema: Value, rest: seq<Value>, t: AttributeType, rfc3339: Rfc3339Reader)
    requires FieldDefined(schema, t)
    ensures var r := ParseAttribute(Some(HtmlDocument([schema] + rest)), t, rfc3339);
      (t == AttributeType.Author ==> r == CreateAuthorAttribute(schema, ["author"]))
      && (t == AttributeType.Site ==> r == CreateSiteAttribute(schema, ["publisher", "sourceOrganization"]))
      && (t != AttributeType.Author && t != AttributeType.Site ==> r == CreateGenericAttribute(schema, Keys(t), t, rfc3339))
  {
  }

  /** Fields without keys, such as Publisher and Journal, are never found. */
  lemma NoKeysNothingFound(html: Option<HtmlDocument>, t: AttributeType, rfc3339: Rfc3339Reader)
    requires Keys(t) == []
    ensures ParseAttribute(html, t, rfc3339) == None
  {
  }
}
