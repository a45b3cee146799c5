/** A reference of one of three shapes, and its rendering with each citation
    builder: every shape feeds its fields to a fresh builder in a fixed
    order, skipping the absent ones. */
module References {
  import opened Text
  import opened Attributes
  import opened Citation

  datatype Reference =
    | NewsArticle(title: Option<Attribute>, translatedTitle: Option<Attribute>,
                  author: Option<Attribute>, date: Option<Attribute>,
                  language: Option<Attribute>, site: Option<Attribute>,
                  url: Option<Attribute>, publisher: Option<Attribute>,
                  archiveUrl: Option<Attribute>, archiveDate: Option<Attribute>)
    | ScholarlyArticle(title: Option<Attribute>, translatedTitle: Option<Attribute>,
                       author: Option<Attribute>, date: Option<Attribute>,
                       language: Option<Attribute>, url: Option<Attribute>,
                       journal: Option<Attribute>, publisher: Option<Attribute>,
                       archiveUrl: Option<Attribute>, archiveDate: Option<Attribute>)
    | GenericReference(title: Option<Attribute>, translatedTitle: Option<Attribute>,
                       author: Option<Attribute>, date: Option<Attribute>,
                       language: Option<Attribute>, site: Option<Attribute>,
                       url: Option<Attribute>,
                       archiveUrl: Option<Attribute>, archiveDate: Option<Attribute>)

  /** The fields in the order they are given to the builder. */
  function Fields(r: Reference): (fs: seq<Option<Attribute>>)
    ensures |fs| == |SlotKinds(r)|
  {
    match r
    case NewsArticle(t, tt, a, d, l, s, u, p, au, ad) => [t, tt, a, d, l, s, u, au, ad, p]
    case ScholarlyArticle(t, tt, a, d, l, u, j, p, au, ad) => [t, tt, a, d, l, u, au, ad, j, p]
    case GenericReference(t, tt, a, d, l, s, u, au, ad) => [t, tt, a, d, l, s, u, au, ad]
  }

  /** The kind of attribute each field is meant to hold, parallel to `Fields`
      (a translated title counts as a title). */
  function SlotKinds(r: Reference): seq<AttributeType> {
    match r
    case NewsArticle(_, _, _, _, _, _, _, _, _, _) =>
      [AttributeType.Title, AttributeType.Title, AttributeType.Author, AttributeType.Date,
       AttributeType.Language, AttributeType.Site, AttributeType.Url, AttributeType.ArchiveUrl,
       AttributeType.ArchiveDate, AttributeType.Publisher]
    case ScholarlyArticle(_, _, _, _, _, _, _, _, _, _) =>
      [AttributeType.Title, AttributeType.Title, AttributeType.Author, AttributeType.Date,
       AttributeType.Language, AttributeType.Url, AttributeType.ArchiveUrl,
       AttributeType.ArchiveDate, AttributeType.Journal, AttributeType.Publisher]
    case GenericReference(_, _, _, _, _, _, _, _, _) =>
      [AttributeType.Title, AttributeType.Title, AttributeType.Author, AttributeType.Date,
       AttributeType.Language, AttributeType.Site, AttributeType.Url, AttributeType.ArchiveUrl,
       AttributeType.ArchiveDate]
  }

  /** Every present field holds an attribute of its own kind. */
  predicate WellKinded(r: Reference) {
    forall i :: 0 <= i < |Fields(r)| && Fields(r)[i].Some? ==> TypeOf(Fields(r)[i].value) == SlotKinds(r)[i]
  }

  // ---------------------------------------------------------------------
  // Rendering: a fresh builder per call

  method Wiki(r: Reference) returns (s: string)
    ensures s == WikiWrap(WikiBody(Fields(r)))
  {
    var builder := new WikiCitation();
    var fs := Fields(r);
    for i := 0 to |fs|
      invariant builder.formatted == WikiBody(fs[..i])
    {
      assert fs[..i + 1][..i] == fs[..i];
      builder.TryAdd(fs[i]);
    }
    assert fs[..|fs|] == fs;
    s := builder.Build();
  }

  method BibTeX(r: Reference) returns (s: string)
    ensures s == BibTeXWrap(BibTeXBody(Fields(r)))
  {
    var builder := new BibTeXCitation();
    var fs := Fields(r);
    for i := 0 to |fs|
      invariant builder.formatted == BibTeXBody(fs[..i])
    {
      assert fs[..i + 1][..i] == fs[..i];
      builder.TryAdd(fs[i]);
    }
    assert fs[..|fs|] == fs;
    s := builder.Build();
  }

  method Harvard(r: Reference) returns (s: string)
    ensures s == HarvardRender(HarvardFold(EmptySlots, Fields(r)))
  {
    var builder := new HarvardCitation();
    var fs := Fields(r);
    for i := 0 to |fs|
      invariant builder.Slots() == HarvardFold(EmptySlots, fs[..i])
    {
      assert fs[..i + 1][..i] == fs[..i];
      builder.TryAdd(fs[i]);
    }
    assert fs[..|fs|] == fs;
    s := builder.Build();
  }

  // ---------------------------------------------------------------------
  // Properties

  /** A scholarly article gives the news-article sequence without the site,
      with the journal just before the publisher. */
  lemma ScholarlyOrder(t: Option<Attribute>, tt: Option<Attribute>, a: Option<Attribute>,
                       d: Option<Attribute>, l: Option<Attribute>, s: Option<Attribute>,
                       u: Option<Attribute>, j: Option<Attribute>, p: Option<Attribute>,
                       au: Option<Attribute>, ad: Option<Attribute>)
    ensures var news := Fields(NewsArticle(t, tt, a, d, l, s, u, p, au, ad));
      Fields(ScholarlyArticle(t, tt, a, d, l, u, j, p, au, ad)) == news[..5] + news[6..9] + [j, p]
  {
  }

  /** A generic reference gives the news-article sequence without the
      publisher, which comes last there. */
  lemma GenericOrder(t: Option<Attribute>, tt: Option<Attribute>, a: Option<Attribute>,
                     d: Option<Attribute>, l: Option<Attribute>, s: Option<Attribute>,
                     u: Option<Attribute>, p: Option<Attribute>,
                     au: Option<Attribute>, ad: Option<Attribute>)
    ensures var news := Fields(NewsArticle(t, tt, a, d, l, s, u, p, au, ad));
      Fields(GenericReference(t, tt, a, d, l, s, u, au, ad)) == news[..9] && news[9] == p
  {
  }

  /** A well-kinded generic reference never passes a publisher or a journal
      to the builder. */
  lemma GenericHasNoPublisher(r: Reference)
    requires r.GenericReference? && WellKinded(r)
    ensures forall o :: o in Fields(r) && o.Some? ==>
      TypeOf(o.value) != AttributeType.Publisher && TypeOf(o.value) != AttributeType.Journal
  {
    forall o | o in Fields(r) && o.Some?
      ensures TypeOf(o.value) != AttributeType.Publisher && TypeOf(o.value) != AttributeType.Journal
    {
      var i :| 0 <= i < |Fields(r)| && Fields(r)[i] == o;
      assert TypeOf(o.value) == SlotKinds(r)[i];
    }
  }

  /** Hence its Harvard rendering never names a publisher: the slot stays
      empty whatever the fields hold. */
  lemma GenericHarvardHasNoPublisher(r: Reference)
    requires r.GenericReference? && WellKinded(r)
    ensures HarvardFold(EmptySlots, Fields(r)).publisher.None?
  {
    GenericHasNoPublisher(r);
    FoldKeepsPublisher(EmptySlots, Fields(r));
  }

  lemma {:induction false} FoldKeepsPublisher(h: HarvardSlots, os: seq<Option<Attribute>>)
    requires forall o :: o in os && o.Some? ==> TypeOf(o.value) != AttributeType.Publisher
    ensures HarvardFold(h, os).publisher == h.publisher
  {
    if |os| > 0 {
      var init := os[..|os| - 1];
      assert forall o :: o in init ==> o in os;
      FoldKeepsPublisher(h, init);
      assert os[|os| - 1] in os;
    }
  }

  /** An absent field contributes nothing: each rendering equals the
      rendering of the present fields alone, in the same order. */
  lemma AbsentFieldsContributeNothing(r: Reference)
    ensures WikiBody(Fields(r)) == WikiBody(PresentOnly(Fields(r)))
    ensures BibTeXBody(Fields(r)) == BibTeXBody(PresentOnly(Fields(r)))
    ensures HarvardFold(EmptySlots, Fields(r)) == HarvardFold(EmptySlots, PresentOnly(Fields(r)))
  {
    assert WikiLineOpt(None) == "" && BibTeXLineOpt(None) == "";
    AccumulatePresent(WikiLineOpt, Fields(r));
    AccumulatePresent(BibTeXLineOpt, Fields(r));
    HarvardFoldPresent(EmptySlots, Fields(r));
  }

  lemma {:induction false} HarvardFoldPresent(h: HarvardSlots, os: seq<Option<Attribute>>)
    ensures HarvardFold(h, os) == HarvardFold(h, PresentOnly(os))
  {
    if |os| > 0 {
      var init, last := os[..|os| - 1], os[|os| - 1];
      HarvardFoldPresent(h, init);
      if last.Some? {
        var ps := PresentOnly(init) + [last];
        assert ps[..|ps| - 1] == PresentOnly(init);
      } else {
        assert PresentOnly(os) == PresentOnly(init) + [];
        assert PresentOnly(init) + [] == PresentOnly(init);
      }
    }
  }

  /** A news article with only a title renders as the one-line template. */
  lemma NewsTitleOnly(t: string)
    ensures WikiWrap(WikiBody(Fields(NewsArticle(Some(Attribute.Title(t)), None, None, None, None, None, None, None, None, None))))
         == "{{cite web\n| title = " + t + "\n}}"
  {
    var rest: seq<Option<Attribute>> := [None, None, None, None, None, None, None, None, None];
    assert Fields(NewsArticle(Some(Attribute.Title(t)), None, None, None, None, None, None, None, None, None))
        == [Some(Attribute.Title(t))] + rest;
    OneThenAbsent(WikiLineOpt, Some(Attribute.Title(t)), rest);
    TitleLineWrapped(t);
  }

  lemma TitleLineWrapped(t: string)
    ensures WikiWrap(WikiLineOpt(Some(Attribute.Title(t)))) == "{{cite web\n| title = " + t + "\n}}"
  {
    var line := "| title = " + t;
    assert WikiLineOpt(Some(Attribute.Title(t))) == "\n" + line;
    assert "{{cite web" + ("\n" + line) == "{{cite web\n| title = " + t;
  }

  /** One line followed only by absent fields accumulates to that line. */
  lemma OneThenAbsent(line: Option<Attribute> -> string, o: Option<Attribute>, rest: seq<Option<Attribute>>)
    requires line(None) == ""
    requires forall i :: 0 <= i < |rest| ==> rest[i].None?
    ensures Accumulate(line, [o] + rest) == line(o)
  {
    AccumulateAppend(line, [o], rest);
    AccumulateAbsent(line, rest);
    assert [o][..0] == [];
  }

  lemma {:induction false} AccumulateAbsent(line: Option<Attribute> -> string, os: seq<Option<Attribute>>)
    requires line(None) == ""
    requires forall i :: 0 <= i < |os| ==> os[i].None?
    ensures Accumulate(line, os) == ""
  {
    if |os| > 0 {
      AccumulateAbsent(line, os[..|os| - 1]);
    }
  }
}
