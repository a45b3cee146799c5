/** The Schema.org site strategy: the `name` of the first key whose value is
    an object with a string `name`. */
module SchemaOrgSite {
  import opened Text
  import opened Attributes
  import opened Json

  /** Whether the key holds an object with a string `name`: the
      organisation the strategy is after. */
  predicate HasName(schema: Value, key: string) {
    var v := Index(schema, key);
    v.Object? && "name" in v.fields && v.fields["name"].String?
  }

  /** Whether looking under the key is defined: an object there is indexed
      by `name`, which panics when the object has no such member. */
  predicate NameDefined(schema: Value, key: string) {
    Index(schema, key).Object? ==> HasMember(Index(schema, key), "name")
  }

  /** The name of the organisation under a key, if there is one. */
  function NameAt(schema: Value, key: string): (r: Option<string>)
    requires NameDefined(schema, key)
    ensures r.Some? <==> HasName(schema, key)
    ensures r.Some? ==> r.value == Index(schema, key).fields["name"].s
  {
    var v := Index(schema, key);
    if v.Object? && v.fields["name"].String? then Some(v.fields["name"].s) else None
  }

  /** Whether the search over `keys` stays clear of an object without a
      `name`, up to the key that decides it. */
  predicate SiteSearchDefined(schema: Value, keys: seq<string>) {
    |keys| == 0 ||
    (NameDefined(schema, keys[0]) && (!HasName(schema, keys[0]) ==> SiteSearchDefined(schema, keys[1..])))
  }

  /** The first name found under the keys, in order; a string value under a
      key, or an object whose name is not a string, is passed over. */
  function TryFindSiteAttribute(schema: Value, keys: seq<string>): (r: Option<string>)
    requires SiteSearchDefined(schema, keys)
    ensures r.None? <==> forall i :: 0 <= i < |keys| ==> !HasName(schema, keys[i])
    ensures r.Some? ==> exists i :: (0 <= i < |keys| && HasName(schema, keys[i])
      && r.value == Index(schema, keys[i]).fields["name"].s
      && forall j :: 0 <= j < i ==> !HasName(schema, keys[j]))
  {
    if |keys| == 0 then None
    else
      match NameAt(schema, keys[0])
      case Some(name) => Some(name)
      case None =>
        var r := TryFindSiteAttribute(schema, keys[1..]);
        assert forall i :: 1 <= i < |keys| ==> keys[i] == keys[1..][i - 1];
        if r.Some? then
          var k :| (0 <= k < |keys[1..]| && HasName(schema, keys[1..][k])
            && r.value == Index(schema, keys[1..][k]).fields["name"].s
            && forall j :: 0 <= j < k ==> !HasName(schema, keys[1..][j]));
          assert HasName(schema, keys[k + 1]);
          r
        else r
  }

  function CreateSiteAttribute(schema: Value, keys: seq<string>): (r: Option<Attribute>)
    requires SiteSearchDefined(schema, keys)
    ensures r.Some? <==> TryFindSiteAttribute(schema, keys).Some?
    ensures r.Some? ==> r.value == Attribute.Site(TryFindSiteAttribute(schema, keys).value)
  {
    match TryFindSiteAttribute(schema, keys)
    case Some(name) => Some(Attribute.Site(name))
    case None => None
  }

  /** A publisher given as a plain string is ignored, and the organisation
      under the next key is used. */
  lemma StringPublisherIgnored(schema: Value, name: string)
    requires Index(schema, "publisher").String?
    requires Index(schema, "sourceOrganization").Object?
    requires Index(Index(schema, "sourceOrganization"), "name") == String(name)
    ensures SiteSearchDefined(schema, ["publisher", "sourceOrganization"])
    ensures CreateSiteAttribute(schema, ["publisher", "sourceOrganization"]) == Some(Attribute.Site(name))
  {
    var keys := ["publisher", "sourceOrganization"];
    assert keys[1..] == ["sourceOrganization"] && keys[1..][1..] == [];
    assert NameAt(schema, keys[0]) == None;
    assert TryFindSiteAttribute(schema, keys) == TryFindSiteAttribute(schema, keys[1..]);
    assert NameAt(schema, keys[1]) == Some(name);
  }

  /** A publisher given only by reference, as in `{"@id": "#org"}`, is an
      object without a `name`: the search panics there and finds nothing,
      even when the next key names the organisation. */
  lemma ReferencedPublisherPanics(schema: Value, id: string)
    requires Index(schema, "publisher") == Object(map["@id" := String(id)])
    ensures !SiteSearchDefined(schema, ["publisher", "sourceOrganization"])
  {
    var keys := ["publisher", "sourceOrganization"];
    assert "name" !in Index(schema, keys[0]).fields;
  }
}
