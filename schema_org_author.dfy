/** Authors from Schema.org JSON-LD: an array of objects, each with a
    string `@type` of Person or Organization and a string `name`. */
module SchemaOrgAuthor {
  import opened Text
  import opened Attributes
  import opened Json

  /** The author of a declared type, if the type is one that is recognised. */
  function MatchAuthorType(authorType: string, name: string): (r: Option<Author>)
    ensures authorType == "Person" ==> r == Some(Person(name))
    ensures authorType == "Organization" ==> r == Some(Organization(name))
    ensures authorType != "Person" && authorType != "Organization" ==> r == None
  {
    if authorType == "Person" then Some(Person(name))
    else if authorType == "Organization" then Some(Organization(name))
    else None
  }

  /** An author from a `@type` value and a `name` value, both of which must
      be strings. */
  function MatchTuple(objectType: Value, nameValue: Value): (r: Option<Author>)
    ensures r.Some? ==> objectType.String? && nameValue.String? && r.value.name == nameValue.s
    ensures r.Some? ==> (r.value.Person? <==> objectType.s == "Person")
  {
    if objectType.String? && nameValue.String? then MatchAuthorType(objectType.s, nameValue.s) else None
  }

  /** An array element the array strategy can read: an object with both a
      `@type` and a `name` member. Any other element makes the strategy
      panic, on `todo!()` or on indexing its member map by a missing key. */
  predicate AuthorEntry(v: Value) {
    HasMember(v, "@type") && HasMember(v, "name")
  }

  predicate AllAuthorEntries(values: seq<Value>) {
    forall i :: 0 <= i < |values| ==> AuthorEntry(values[i])
  }

  /** The author an array element stands for: one exists iff `@type` and
      `name` are strings and the type is Person or Organization. */
  function AuthorOf(v: Value): (r: Option<Author>)
    requires AuthorEntry(v)
    ensures r.Some? <==> (v.fields["@type"].String? && v.fields["name"].String?
                          && v.fields["@type"].s in {"Person", "Organization"})
    ensures r.Some? ==> (r.value.name == v.fields["name"].s
                         && (r.value.Person? <==> v.fields["@type"].s == "Person"))
  {
    MatchTuple(v.fields["@type"], v.fields["name"])
  }

  /** The recognised authors of an array, in array order. */
  function RecognisedAuthors(values: seq<Value>): (authors: seq<Author>)
    requires AllAuthorEntries(values)
    ensures |authors| <= |values|
  {
    if |values| == 0 then []
    else
      var init := RecognisedAuthors(values[..|values| - 1]);
      match AuthorOf(values[|values| - 1])
      case Some(a) => init + [a]
      case None => init
  }

  /** An array has no recognised author exactly when none of its elements
      stands for one. */
  lemma {:induction false} NoneRecognised(values: seq<Value>)
    requires AllAuthorEntries(values)
    ensures RecognisedAuthors(values) == [] <==> forall i :: 0 <= i < |values| ==> AuthorOf(values[i]).None?
    decreases |values|
  {
    if |values| > 0 {
      var init := values[..|values| - 1];
      NoneRecognised(init);
      assert forall i :: 0 <= i < |init| ==> init[i] == values[i];
    }
  }

  /** The array strategy: nothing when no element stands for an author,
      otherwise the recognised authors. */
  function ArrayAuthors(values: seq<Value>): (r: Option<seq<Author>>)
    requires AllAuthorEntries(values)
    ensures r.None? <==> forall i :: 0 <= i < |values| ==> AuthorOf(values[i]).None?
    ensures r.Some? ==> r.value == RecognisedAuthors(values) && |r.value| > 0
  {
    NoneRecognised(values);
    var authors := RecognisedAuthors(values);
    if |authors| == 0 then None else Some(authors)
  }

  /** Collects the recognised authors of an array of objects. */
  method ArrayOfPersons(values: seq<Value>) returns (r: Option<seq<Author>>)
    requires AllAuthorEntries(values)
    ensures r == ArrayAuthors(values)
  {
    var ret: seq<Author> := [];
    for i := 0 to |values|
      invariant ret == RecognisedAuthors(values[..i])
    {
      assert values[..i + 1][..i] == values[..i];
      var fields := values[i].fields;
      var authorOption := MatchTuple(fields["@type"], fields["name"]);
      if authorOption.Some? {
        ret := ret + [authorOption.value];
      }
    }
    assert values[..|values|] == values;
    if |ret| == 0 {
      return None;
    }
    return Some(ret);
  }

  /** The authors of two arrays one after the other are the authors of each,
      one after the other: order is kept and nothing is added or lost. */
  lemma {:induction false} RecognisedAppend(xs: seq<Value>, ys: seq<Value>)
    requires AllAuthorEntries(xs) && AllAuthorEntries(ys)
    ensures AllAuthorEntries(xs + ys)
    ensures RecognisedAuthors(xs + ys) == RecognisedAuthors(xs) + RecognisedAuthors(ys)
    decreases |ys|
  {
    if |ys| == 0 {
      assert xs + ys == xs;
    } else {
      var init, last := ys[..|ys| - 1], ys[|ys| - 1];
      RecognisedAppend(xs, init);
      assert ys == init + [last];
      assert xs + ys == (xs + init) + [last];
      RecognisedSnoc(xs + init, last);
      RecognisedSnoc(init, last);
      var a, b, c := RecognisedAuthors(xs), RecognisedAuthors(init),
        if AuthorOf(last).Some? then [AuthorOf(last).value] else [];
      assert (a + b) + c == a + (b + c);
    }
  }

  lemma RecognisedSnoc(zs: seq<Value>, v: Value)
    requires AllAuthorEntries(zs) && AuthorEntry(v)
    ensures AllAuthorEntries(zs + [v])
    ensures RecognisedAuthors(zs + [v])
         == RecognisedAuthors(zs) + (if AuthorOf(v).Some? then [AuthorOf(v).value] else [])
  {
    assert (zs + [v])[..|zs|] == zs;
  }

  /** An element contributes exactly one author when its `@type` and `name`
      are strings and the type is recognised, and nothing otherwise. */
  lemma OneElement(v: Value)
    requires AuthorEntry(v)
    ensures AllAuthorEntries([v])
    ensures RecognisedAuthors([v]) == (if AuthorOf(v).Some? then [AuthorOf(v).value] else [])
    ensures RecognisedAuthors([v]) != [] ==>
      v.fields["@type"].String? && v.fields["name"].String?
      && v.fields["@type"].s in {"Person", "Organization"}
  {
    assert [v][..0] == [];
  }

  /** Whether the search over `keys` stays clear of arrays with an element
      the array strategy cannot read, up to the key that decides it. */
  predicate SearchDefined(schema: Value, keys: seq<string>) {
    |keys| == 0 ||
    var v := Index(schema, keys[0]);
    if v.Array? then AllAuthorEntries(v.items) && (ArrayAuthors(v.items).None? ==> SearchDefined(schema, keys[1..]))
    else SearchDefined(schema, keys[1..])
  }

  /** The authors under the first key holding an array with a recognised
      author; objects and scalars under a key count for nothing. */
  function FindAuthors(schema: Value, keys: seq<string>): (r: Option<seq<Author>>)
    requires SearchDefined(schema, keys)
    ensures r.Some? ==> |r.value| > 0
  {
    if |keys| == 0 then None
    else
      var v := Index(schema, keys[0]);
      var found := if v.Array? then ArrayAuthors(v.items) else None;
      if found.Some? then found else FindAuthors(schema, keys[1..])
  }

  /** The Author attribute of a JSON-LD object. */
  function CreateAuthorAttribute(schema: Value, keys: seq<string>): (r: Option<Attribute>)
    requires SearchDefined(schema, keys)
    ensures r.Some? ==> r.value.Authors? && |r.value.authors| > 0
  {
    match FindAuthors(schema, keys)
    case Some(authors) => Some(Authors(authors))
    case None => None
  }

  /** A key whose value is an object or a scalar, or an array with no
      recognised author, is passed over for the next one. */
  lemma NonArrayPassedOver(schema: Value, keys: seq<string>)
    requires |keys| > 0 && SearchDefined(schema, keys)
    requires !Index(schema, keys[0]).Array? || ArrayAuthors(Index(schema, keys[0]).items).None?
    ensures FindAuthors(schema, keys) == FindAuthors(schema, keys[1..])
  {
  }

  /** A single `author` key holding an array finds exactly its recognised
      authors, in order. */
  lemma AuthorArrayFound(schema: Value, items: seq<Value>)
    requires Index(schema, "author") == Array(items) && AllAuthorEntries(items)
    ensures SearchDefined(schema, ["author"])
    ensures CreateAuthorAttribute(schema, ["author"]) ==
      (if RecognisedAuthors(items) == [] then None else Some(Authors(RecognisedAuthors(items))))
  {
    var keys := ["author"];
    assert keys[0] == "author" && keys[1..] == [];
    assert FindAuthors(schema, keys) == ArrayAuthors(items);
  }
}
