/** Resolution of each field from the metadata sources: the sources are
    tried in priority order and the first that yields a value wins; the
    results are collected in a map keyed by field. */
module Parser {
  import opened Text
  import opened ChronoDates
  import opened Attributes
  import opened AttributeConfigs

  /** What each source yields for each field, once the page has been read. */
  type Sources = (MetadataType, AttributeType) -> Option<Attribute>

  /** How an RFC 3339 timestamp reads, converted to UTC; `chrono`'s reader
      is an input. */
  type Rfc3339Reader = string -> Option<Timestamp>

  /** `parse_date`: a date is read only as an RFC 3339 timestamp, and is then
      a date and time. */
  function ParseDate(s: string, rfc3339: Rfc3339Reader): (r: Option<Date>)
    ensures r.Some? <==> rfc3339(s).Some?
    ensures r.Some? ==> r.value.DateTime? && r.value.stamp == rfc3339(s).value
  {
    match rfc3339(s)
    case Some(stamp) => Some(DateTime(stamp))
    case None => None
  }

  /** The value of the earliest source in `order` that yields one. */
  function FirstMatch(order: seq<MetadataType>, t: AttributeType, sources: Sources): (r: Option<Attribute>)
    ensures r.None? <==> forall i :: 0 <= i < |order| ==> sources(order[i], t).None?
    ensures r.Some? ==> exists i :: (0 <= i < |order| && sources(order[i], t) == r
      && forall j :: 0 <= j < i ==> sources(order[j], t).None?)
  {
    if |order| == 0 then None
    else if sources(order[0], t).Some? then sources(order[0], t)
    else
      var r := FirstMatch(order[1..], t, sources);
      assert forall i :: 1 <= i < |order| ==> order[i] == order[1..][i - 1];
      if r.Some? then
        var k :| (0 <= k < |order[1..]| && sources(order[1..][k], t) == r
          && forall j :: 0 <= j < k ==> sources(order[1..][j], t).None?);
        assert sources(order[k + 1], t) == r;
        r
      else r
  }

  /** Tries the sources in order, returning at the first value. */
  method Parse(t: AttributeType, formats: AttributePriority, sources: Sources) returns (r: Option<Attribute>)
    ensures r == FirstMatch(formats.priority, t, sources)
  {
    var order := formats.priority;
    var i := 0;
    while i < |order|
      invariant 0 <= i <= |order|
      invariant FirstMatch(order[i..], t, sources) == FirstMatch(order, t, sources)
    {
      var attribute := sources(order[i], t);
      if attribute.Some? {
        return attribute;
      }
      assert order[i..][1..] == order[i + 1..];
      i := i + 1;
    }
    return None;
  }

  /** The order used for a field: its configured priority, else the default. */
  function EffectivePriority(config: AttributeConfig, t: AttributeType): AttributePriority {
    Get(config, t).GetOr(DefaultPriority)
  }

  /** What the field resolves to: the value of the earliest source in its
      order, the configured one or else OpenGraph, Schema.org, HTML meta. */
  function Resolve(config: AttributeConfig, t: AttributeType, sources: Sources): (r: Option<Attribute>)
    ensures Get(config, t).None? ==> r == FirstMatch([OpenGraph, SchemaOrg, HtmlMeta], t, sources)
    ensures r.None? <==> forall m :: m in EffectivePriority(config, t).priority ==> sources(m, t).None?
    ensures r.Some? ==> exists m :: m in EffectivePriority(config, t).priority && sources(m, t) == r
  {
    var order := EffectivePriority(config, t).priority;
    assert forall m :: m in order <==> exists i :: 0 <= i < |order| && order[i] == m;
    FirstMatch(order, t, sources)
  }

  /** The entry of a map as an option. */
  function Entry(m: map<AttributeType, Attribute>, t: AttributeType): (r: Option<Attribute>)
    ensures r.Some? <==> t in m
    ensures r.Some? ==> m[t] == r.value
  {
    if t in m then Some(m[t]) else None
  }

  /** The entry after inserting `o` if it is a value. */
  function Merged(m: map<AttributeType, Attribute>, t: AttributeType, o: Option<Attribute>): Option<Attribute> {
    if o.Some? then o else Entry(m, t)
  }

  class AttributeCollection {
    var attributes: map<AttributeType, Attribute>

    constructor ()
      ensures attributes == map[]
    {
      attributes := map[];
    }

    /** The resolved value of a field, if any. */
    function Get(t: AttributeType): (r: Option<Attribute>)
      reads this
      ensures r.Some? <==> t in attributes
      ensures r.Some? ==> attributes[t] == r.value
    {
      Entry(attributes, t)
    }

    /** Inserts a value, if there is one; the other fields are untouched. */
    method InsertIf(t: AttributeType, o: Option<Attribute>)
      modifies this
      ensures o.None? ==> attributes == old(attributes)
      ensures o.Some? ==> attributes == old(attributes)[t := o.value]
    {
      if o.Some? {
        attributes := attributes[t := o.value];
      }
    }

    /** Resolves one field and stores the result. */
    method Add(t: AttributeType, config: AttributeConfig, sources: Sources)
      modifies this
      ensures Entry(attributes, t) == Merged(old(attributes), t, Resolve(config, t, sources))
      ensures forall u :: u != t ==> Entry(attributes, u) == Entry(old(attributes), u)
    {
      var priorities := EffectivePriority(config, t);
      var attribute := Parse(t, priorities, sources);
      InsertIf(t, attribute);
    }

    /** Resolves every field, each once, in declaration order. */
    method AddAll(config: AttributeConfig, sources: Sources)
      modifies this
      ensures forall t :: Entry(attributes, t) == Merged(old(attributes), t, Resolve(config, t, sources))
    {
      AllTypesListsEachOnce();
      var types := AllTypes;
      for i := 0 to |types|
        invariant forall t :: t in types[..i] ==> Entry(attributes, t) == Merged(old(attributes), t, Resolve(config, t, sources))
        invariant forall t :: t !in types[..i] ==> Entry(attributes, t) == Entry(old(attributes), t)
      {
        assert types[i] !in types[..i] by {
          forall j | 0 <= j < i ensures types[j] != types[i] { }
        }
        assert forall t :: t in types[..i + 1] <==> t in types[..i] || t == types[i];
        Add(types[i], config, sources);
      }
      assert types[..|types|] == types;
    }
  }

  /** A fresh collection with every field resolved: a field is present exactly
      when some source in its priority yields a value, and then holds the
      earliest such value. */
  method Initialize(config: AttributeConfig, sources: Sources) returns (c: AttributeCollection)
    ensures forall t :: c.Get(t) == Resolve(config, t, sources)
  {
    c := new AttributeCollection();
    c.AddAll(config, sources);
  }

  // ---------------------------------------------------------------------
  // Properties

  /** The first listed source wins whenever it yields a value, whatever the
      later ones yield. */
  lemma FirstSourceWins(order: seq<MetadataType>, t: AttributeType, sources: Sources, a: Attribute)
    requires |order| > 0 && sources(order[0], t) == Some(a)
    ensures FirstMatch(order, t, sources) == Some(a)
  {
  }

  /** Sources after the first one that yields a value do not matter. */
  lemma {:induction false} LaterSourcesIrrelevant(order: seq<MetadataType>, t: AttributeType, s1: Sources, s2: Sources, k: nat)
    requires k < |order| && s1(order[k], t).Some?
    requires forall j :: 0 <= j <= k ==> s1(order[j], t) == s2(order[j], t)
    ensures FirstMatch(order, t, s1) == FirstMatch(order, t, s2)
  {
    if s1(order[0], t).None? {
      assert forall j :: 0 <= j <= k - 1 ==> order[1..][j] == order[j + 1];
      LaterSourcesIrrelevant(order[1..], t, s1, s2, k - 1);
    }
  }

  /** With no source listed nothing is found. */
  lemma EmptyPriorityFindsNothing(t: AttributeType, sources: Sources)
    ensures FirstMatch([], t, sources) == None
  {
  }

  /** The `Type` field has no configurable priority and always uses the
      default one; so does every field the configuration leaves unset. */
  lemma UnsetUsesDefault(config: AttributeConfig, t: AttributeType)
    requires Get(config, t).None?
    ensures EffectivePriority(config, t).priority == [OpenGraph, SchemaOrg, HtmlMeta]
    ensures EffectivePriority(config, AttributeType.Type).priority == [OpenGraph, SchemaOrg, HtmlMeta]
  {
  }
}
