/** Which metadata sources are consulted for which field, and in what order. */
module AttributeConfigs {
  import opened Text
  import opened Attributes

  /** The kinds of metadata source. */
  datatype MetadataType = OpenGraph | SchemaOrg | HtmlMeta | Doi | Zotero | Ai

  /** Sources in the order they are tried. */
  datatype AttributePriority = AttributePriority(priority: seq<MetadataType>)

  /** The order used for a field that has none configured. */
  const DefaultPriority := AttributePriority([OpenGraph, SchemaOrg, HtmlMeta])

  /** A priority per field; there is no slot for the `Type` field. */
  datatype AttributeConfig = AttributeConfig(
    title: Option<AttributePriority>, authors: Option<AttributePriority>,
    date: Option<AttributePriority>, archiveDate: Option<AttributePriority>,
    language: Option<AttributePriority>, locale: Option<AttributePriority>,
    site: Option<AttributePriority>, url: Option<AttributePriority>,
    archiveUrl: Option<AttributePriority>, journal: Option<AttributePriority>,
    publisher: Option<AttributePriority>, institution: Option<AttributePriority>,
    volume: Option<AttributePriority>)

  /** The configuration with no field set. */
  const DefaultConfig := AttributeConfig(None, None, None, None, None, None, None, None, None, None, None, None, None)

  /** The same priority for every field. */
  function NewConfig(p: AttributePriority): (c: AttributeConfig)
    ensures forall t: AttributeType :: t != AttributeType.Type ==> Get(c, t) == Some(p)
    ensures Get(c, AttributeType.Type) == None
  {
    AttributeConfig(Some(p), Some(p), Some(p), Some(p), Some(p), Some(p), Some(p),
                    Some(p), Some(p), Some(p), Some(p), Some(p), Some(p))
  }

  /** The priority configured for a field, if any. */
  function Get(c: AttributeConfig, t: AttributeType): Option<AttributePriority> {
    match t
    case Title => c.title
    case Author => c.authors
    case Date => c.date
    case ArchiveDate => c.archiveDate
    case Language => c.language
    case Locale => c.locale
    case Site => c.site
    case Url => c.url
    case ArchiveUrl => c.archiveUrl
    case Type => None
    case Journal => c.journal
    case Publisher => c.publisher
    case Volume => c.volume
    case Institution => c.institution
  }

  /** The configured slots, in declaration order. */
  function Slots(c: AttributeConfig): (slots: seq<Option<AttributePriority>>)
    ensures |slots| == 13
    ensures forall t: AttributeType :: t != AttributeType.Type ==> Get(c, t) in slots
    ensures forall i :: 0 <= i < |slots| ==> exists t: AttributeType :: t != AttributeType.Type && Get(c, t) == slots[i]
  {
    var slots := [c.title, c.authors, c.date, c.archiveDate, c.language, c.locale, c.site,
                  c.url, c.archiveUrl, c.journal, c.publisher, c.institution, c.volume];
    assert Get(c, AttributeType.Title) == slots[0] && Get(c, AttributeType.Author) == slots[1];
    assert Get(c, AttributeType.Date) == slots[2] && Get(c, AttributeType.ArchiveDate) == slots[3];
    assert Get(c, AttributeType.Language) == slots[4] && Get(c, AttributeType.Locale) == slots[5];
    assert Get(c, AttributeType.Site) == slots[6] && Get(c, AttributeType.Url) == slots[7];
    assert Get(c, AttributeType.ArchiveUrl) == slots[8] && Get(c, AttributeType.Journal) == slots[9];
    assert Get(c, AttributeType.Publisher) == slots[10] && Get(c, AttributeType.Institution) == slots[11];
    assert Get(c, AttributeType.Volume) == slots[12];
    slots
  }

  /** The sources of a slot, the default ones when it is unset. */
  function SourcesOf(slot: Option<AttributePriority>): seq<MetadataType> {
    slot.GetOr(DefaultPriority).priority
  }

  /** All sources of all slots, slot after slot. */
  function AllSources(slots: seq<Option<AttributePriority>>): (ms: seq<MetadataType>)
    ensures forall m :: m in ms <==> exists i :: 0 <= i < |slots| && m in SourcesOf(slots[i])
  {
    if |slots| == 0 then []
    else
      var rest := AllSources(slots[1..]);
      assert forall i :: 1 <= i < |slots| ==> slots[i] == slots[1..][i - 1];
      SourcesOf(slots[0]) + rest
  }

  /** Each element once, at its first occurrence. */
  function Dedup(ms: seq<MetadataType>, seen: set<MetadataType>): (r: seq<MetadataType>)
    ensures forall m :: m in r <==> m in ms && m !in seen
    ensures forall i, j :: 0 <= i < j < |r| ==> r[i] != r[j]
  {
    if |ms| == 0 then []
    else if ms[0] in seen then Dedup(ms[1..], seen)
    else [ms[0]] + Dedup(ms[1..], seen + {ms[0]})
  }

  /** The sources any field may consult. */
  function ParsersUsed(c: AttributeConfig): (r: seq<MetadataType>)
    ensures forall i, j :: 0 <= i < j < |r| ==> r[i] != r[j]
  {
    Dedup(AllSources(Slots(c)), {})
  }

  /** `parsers_used` lists each source of any field's priority, once; an
      unset field contributes the default sources. */
  lemma ParsersUsedExactly(c: AttributeConfig, m: MetadataType)
    ensures m in ParsersUsed(c) <==>
      exists t: AttributeType :: t != AttributeType.Type && m in SourcesOf(Get(c, t))
  {
    var slots := Slots(c);
    if m in ParsersUsed(c) {
      var i :| 0 <= i < |slots| && m in SourcesOf(slots[i]);
      var t: AttributeType :| t != AttributeType.Type && Get(c, t) == slots[i];
    }
  }

  /** When every field consults the same duplicate-free sources, those are
      exactly the sources used. */
  lemma ParsersUsedUniform(c: AttributeConfig, ms: seq<MetadataType>)
    requires forall t: AttributeType :: t != AttributeType.Type ==> SourcesOf(Get(c, t)) == ms
    requires forall i, j :: 0 <= i < j < |ms| ==> ms[i] != ms[j]
    ensures |ParsersUsed(c)| == |ms|
    ensures forall m :: m in ParsersUsed(c) <==> m in ms
  {
    forall m ensures m in ParsersUsed(c) <==> m in ms {
      ParsersUsedExactly(c, m);
      assert SourcesOf(Get(c, AttributeType.Title)) == ms;
    }
    DistinctSubset(ParsersUsed(c), ms);
  }

  /** A configuration giving every field OpenGraph and DOI uses exactly
      those two sources. */
  lemma ParsersUsedOfNew()
    ensures var r := ParsersUsed(NewConfig(AttributePriority([OpenGraph, Doi])));
      |r| == 2 && OpenGraph in r && Doi in r
  {
    ParsersUsedUniform(NewConfig(AttributePriority([OpenGraph, Doi])), [OpenGraph, Doi]);
  }

  /** The default configuration uses exactly the three default sources. */
  lemma ParsersUsedOfDefault()
    ensures var r := ParsersUsed(DefaultConfig);
      |r| == 3 && OpenGraph in r && SchemaOrg in r && HtmlMeta in r
  {
    ParsersUsedUniform(DefaultConfig, DefaultPriority.priority);
  }

  /** A duplicate-free sequence holding exactly the elements of another
      duplicate-free sequence has its length. */
  lemma DistinctSubset(r: seq<MetadataType>, e: seq<MetadataType>)
    requires forall i, j :: 0 <= i < j < |r| ==> r[i] != r[j]
    requires forall i, j :: 0 <= i < j < |e| ==> e[i] != e[j]
    requires forall m :: m in r <==> m in e
    ensures |r| == |e|
  {
    DistinctCard(r);
    DistinctCard(e);
    assert (set m | m in r) == (set m | m in e);
  }

  lemma {:induction false} DistinctCard(r: seq<MetadataType>)
    requires forall i, j :: 0 <= i < j < |r| ==> r[i] != r[j]
    ensures |set m | m in r| == |r|
  {
    if |r| > 0 {
      DistinctCard(r[1..]);
      assert (set m | m in r) == (set m | m in r[1..]) + {r[0]};
      assert r[0] !in r[1..];
    }
  }
}
