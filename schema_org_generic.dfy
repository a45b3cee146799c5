/** The generic Schema.org strategy: the first key whose value is a JSON
    string, turned into an attribute of the field asked for. */
module SchemaOrgGeneric {
  import opened Text
  import opened Attributes
  import opened Json
  import opened Parser

  /** The string under a key, if the value there is a string. */
  function StringAt(schema: Value, key: string): Option<string> {
    var v := Index(schema, key);
    if v.String? then Some(v.s) else None
  }

  /** The string under the first key that holds one; other values are
      skipped. */
  function TryFindGenericAttribute(schema: Value, keys: seq<string>): (r: Option<string>)
    ensures r.None? <==> forall i :: 0 <= i < |keys| ==> !Index(schema, keys[i]).String?
    ensures r.Some? ==> exists i :: (0 <= i < |keys| && Index(schema, keys[i]) == String(r.value)
      && forall j :: 0 <= j < i ==> !Index(schema, keys[j]).String?)
  {
    var r := FirstSome(keys, k => StringAt(schema, k));
    assert forall i :: 0 <= i < |keys| ==> (StringAt(schema, keys[i]).None? <==> !Index(schema, keys[i]).String?);
    r
  }

  /** The attribute a found string makes for a field. Author and Site have
      strategies of their own and never come here. */
  function AttributeTypeToAttribute(t: AttributeType, value: string, rfc3339: Rfc3339Reader): (r: Option<Attribute>)
    requires t != AttributeType.Author && t != AttributeType.Site
    ensures r.Some? ==> TypeOf(r.value) == t
    ensures t in {AttributeType.Title, AttributeType.Locale, AttributeType.Language, AttributeType.Url} ==>
      r.Some? && DisplayAttribute(r.value) == value
    ensures t == AttributeType.Date ==> r == (if ParseDate(value, rfc3339).Some? then Some(Attribute.Date(ParseDate(value, rfc3339).value)) else None)
    ensures !(t in {AttributeType.Title, AttributeType.Locale, AttributeType.Language, AttributeType.Url, AttributeType.Date}) ==> r == None
  {
    if t == AttributeType.Date then
      match ParseDate(value, rfc3339)
      case Some(date) => Some(Attribute.Date(date))
      case None => None
    else
      match t
      case Title => Some(Attribute.Title(value))
      case Locale => Some(Attribute.Locale(value))
      case Language => Some(Attribute.Language(value))
      case Url => Some(Attribute.Url(value))
      case _ => None
  }

  function CreateGenericAttribute(schema: Value, keys: seq<string>, t: AttributeType, rfc3339: Rfc3339Reader): (r: Option<Attribute>)
    requires t != AttributeType.Author && t != AttributeType.Site
    ensures TryFindGenericAttribute(schema, keys).None? ==> r == None
    ensures TryFindGenericAttribute(schema, keys).Some? ==>
      r == AttributeTypeToAttribute(t, TryFindGenericAttribute(schema, keys).value, rfc3339)
  {
    match TryFindGenericAttribute(schema, keys)
    case Some(value) => AttributeTypeToAttribute(t, value, rfc3339)
    case None => None
  }

  /** A non-string value under an earlier key is passed over in favour of a
      later string. */
  lemma NonStringSkipped(schema: Value, k1: string, k2: string, s: string)
    requires !Index(schema, k1).String? && Index(schema, k2) == String(s)
    ensures TryFindGenericAttribute(schema, [k1, k2]) == Some(s)
  {
    FirstSomeAt([k1, k2], k => StringAt(schema, k), 1);
  }
}
