/** OpenGraph: the `og:` properties of a page, looked up by key. */
module OpenGraph {
  import opened Text
  import opened Attributes
  import opened Parser

  /** The OpenGraph keys consulted for a field, in order. */
  function Keys(t: AttributeType): (keys: seq<string>)
    ensures t == AttributeType.Date ==> keys == ["article:published_time", "article:modified_time", "updated_time"]
    ensures (t !in {AttributeType.Title, AttributeType.Author, AttributeType.Locale, AttributeType.Site,
                    AttributeType.Url, AttributeType.Date, AttributeType.Type}) ==> keys == []
  {
    match t
    case Title => ["title"]
    case Author => ["article:author"]
    case Locale => ["locale"]
    case Site => ["site_name"]
    case Url => ["url"]
    case Type => ["type"]
    case _ => if t == AttributeType.Date then ["article:published_time", "article:modified_time", "updated_time"] else []
  }

  /** The value of the first key present, however it reads. */
  function TryFindAttribute(og: map<string, string>, keys: seq<string>): (r: Option<string>)
    ensures r.None? <==> forall i :: 0 <= i < |keys| ==> keys[i] !in og
    ensures r.Some? ==> exists i :: (0 <= i < |keys| && keys[i] in og && og[keys[i]] == r.value
      && forall j :: 0 <= j < i ==> keys[j] !in og)
  {
    var r := FirstSome(keys, k => if k in og then Some(og[k]) else None);
    r
  }

  /** The attribute a found value makes. An author is one generic author;
      the page type is not used. */
  function AttributeTypeToAttribute(t: AttributeType, value: string, rfc3339: Rfc3339Reader): (r: Option<Attribute>)
    ensures r.Some? ==> TypeOf(r.value) == t
    ensures (t in {AttributeType.Title, AttributeType.Locale, AttributeType.Language,
                   AttributeType.Site, AttributeType.Url}) ==> r.Some? && DisplayAttribute(r.value) == value
    ensures t == AttributeType.Author ==> r == Some(Authors([Generic(value)]))
    ensures t == AttributeType.Type ==> r == None
  {
    if t == AttributeType.Date then
      match ParseDate(value, rfc3339)
      case Some(date) => Some(Attribute.Date(date))
      case None => None
    else
      match t
      case Title => Some(Attribute.Title(value))
      case Author => Some(Authors([Generic(value)]))
      case Locale => Some(Attribute.Locale(value))
      case Language => Some(Attribute.Language(value))
      case Site => Some(Attribute.Site(value))
      case Url => Some(Attribute.Url(value))
      case _ => None
  }

  /** A field from the page's OpenGraph properties. */
  function ParseAttribute(og: map<string, string>, t: AttributeType, rfc3339: Rfc3339Reader): (r: Option<Attribute>)
    ensures TryFindAttribute(og, Keys(t)).None? ==> r == None
    ensures TryFindAttribute(og, Keys(t)).Some? ==> r == AttributeTypeToAttribute(t, TryFindAttribute(og, Keys(t)).value, rfc3339)
  {
    match TryFindAttribute(og, Keys(t))
    case Some(value) => AttributeTypeToAttribute(t, value, rfc3339)
    case None => None
  }

  /** A key that is present wins, even with an empty value. */
  lemma PresentKeyWins(og: map<string, string>)
    requires "title" in og && og["title"] == ""
    ensures ParseAttribute(og, AttributeType.Title, s => None) == Some(Attribute.Title(""))
  {
    assert Keys(AttributeType.Title)[0] == "title";
  }

  /** The publication time is preferred to the modification time, and that
      to the update time. */
  lemma DateKeyOrder(og: map<string, string>, rfc3339: Rfc3339Reader)
    ensures "article:published_time" in og ==>
      ParseAttribute(og, AttributeType.Date, rfc3339) == AttributeTypeToAttribute(AttributeType.Date, og["article:published_time"], rfc3339)
    ensures "article:published_time" !in og && "article:modified_time" in og ==>
      ParseAttribute(og, AttributeType.Date, rfc3339) == AttributeTypeToAttribute(AttributeType.Date, og["article:modified_time"], rfc3339)
  {
    var keys := Keys(AttributeType.Date);
    var f := (k: string) => if k in og then Some(og[k]) else None;
    if "article:published_time" in og {
      FirstSomeAt(keys, f, 0);
    } else if "article:modified_time" in og {
      FirstSomeAt(keys, f, 1);
    }
  }

  /** Fields without a key, such as Language and Publisher, and the page type
      even when `og:type` is present, give nothing. */
  lemma NothingForUnkeyedOrType(og: map<string, string>, t: AttributeType, rfc3339: Rfc3339Reader)
    ensures Keys(t) == [] ==> ParseAttribute(og, t, rfc3339) == None
    ensures ParseAttribute(og, AttributeType.Type, rfc3339) == None
    ensures ParseAttribute(og, AttributeType.Language, rfc3339) == None
    ensures ParseAttribute(og, AttributeType.Publisher, rfc3339) == None
  {
  }
}
