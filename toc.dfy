/** The table of contents and the spine built from the chapter tree by
    `Book._add_chapters` and `Book._add_chapter` (src/xhtml2epub/book.py). */
module Toc {
  import opened Wrappers
  import opened Xml
  import opened Entities
  import opened Chapters
  import opened Expansion

  /** An XHTML page of the book: its uid, title, file name, bytes and the
      stylesheet links it carries. */
  datatype Page = Page(id: string, title: string, fileName: string, content: seq<Byte>, links: seq<Attrs>)

  /** What a chapter contributes to the table of contents: a page, or a bare
      section heading that only groups its sub-chapters. */
  datatype TocItem = PageItem(page: Page) | Section(title: string)

  /** A table-of-contents entry: an item alone, or an item with the entries of
      its sub-chapters. */
  datatype NavEntry = Leaf(item: TocItem) | Nested(item: TocItem, children: seq<NavEntry>)

  /** What the book supplies while its pages are written: the entity table,
      the stylesheet links, and the serializer of a single node. */
  datatype Context = Context(entities: EntityTable, stylesheets: seq<Attrs>, serialize: Node -> seq<Byte>)

  /** A chapter gets a page of its own when its element still has child
      nodes once its sub-chapters are detached. */
  predicate HasPage(c: ChapterContent) {
    c.element.Element? && |c.element.children| > 0
  }

  /** The item of one chapter: a page named after the chapter's id, holding
      the element's serialized contents, or a section heading. */
  function ItemOf(c: ChapterContent, ctx: Context): (r: Result<TocItem, Error>)
    requires c.element.Element?
    ensures r.Failure? ==> HasPage(c) && ElementXhtml(c.element, ctx.entities, ctx.serialize).Failure?
    ensures r.Success? ==> (r.value.PageItem? <==> HasPage(c))
    ensures r.Success? && r.value.Section? ==> r.value.title == c.title
    ensures r.Success? && r.value.PageItem? ==>
      var p := r.value.page;
      && p.id == c.id && p.title == c.title && p.fileName == c.id + ".xhtml"
      && p.links == ctx.stylesheets
      && Success(p.content) == ElementXhtml(c.element, ctx.entities, ctx.serialize)
  {
    if |c.element.children| > 0 then
      var content :- ElementXhtml(c.element, ctx.entities, ctx.serialize);
      Success(PageItem(Page(c.id, c.title, c.id + ".xhtml", content, ctx.stylesheets)))
    else
      Success(Section(c.title))
  }

  /** The pages an item puts into the spine. */
  function OwnPages(item: TocItem): seq<Page> {
    if item.PageItem? then [item.page] else []
  }

  datatype Added = Added(entry: NavEntry, spine: seq<Page>)
  datatype AddedAll = AddedAll(entries: seq<NavEntry>, spine: seq<Page>)

  /** `_add_chapter`: the chapter's own item (its page going into the spine
      first), then the entries of its sub-chapters in order. */
  function Add(ch: ChapterTree, ctx: Context): (r: Result<Added, Error>)
    requires AllHaveContent(ch)
    ensures r.Success? ==> (r.value.entry.Leaf? <==> ch.children == [])
    ensures r.Success? && r.value.entry.Nested? ==> |r.value.entry.children| == |ch.children|
    ensures r.Failure? ==> r.error.InvalidLiteral? || r.error.InvalidCodePoint?
    decreases ch, 1
  {
    var item :- ItemOf(ch.content.value, ctx);
    if ch.children == [] then
      Success(Added(Leaf(item), OwnPages(item)))
    else
      var kids :- AddAll(ch.children, ctx);
      Success(Added(Nested(item, kids.entries), OwnPages(item) + kids.spine))
  }

  /** `_add_chapters`: the entries of the top-level chapters in order; the
      spine collects the pages in the order they are added. */
  function AddAll(chs: seq<ChapterTree>, ctx: Context): (r: Result<AddedAll, Error>)
    requires forall c :: c in chs ==> AllHaveContent(c)
    ensures r.Success? ==> |r.value.entries| == |chs|
    ensures r.Failure? ==> r.error.InvalidLiteral? || r.error.InvalidCodePoint?
    decreases chs, 0
  {
    if chs == [] then
      Success(AddedAll([], []))
    else
      var first :- Add(chs[0], ctx);
      var rest :- AddAll(chs[1..], ctx);
      Success(AddedAll([first.entry] + rest.entries, first.spine + rest.spine))
  }

  /** The entries and pages already added, in front of what the remaining
      chapters add. */
  function Combine(entries: seq<NavEntry>, spine: seq<Page>, r: Result<AddedAll, Error>): Result<AddedAll, Error> {
    match r
    case Success(a) => Success(AddedAll(entries + a.entries, spine + a.spine))
    case Failure(e) => Failure(e)
  }

  lemma CombineNothing(r: Result<AddedAll, Error>)
    ensures Combine([], [], r) == r
  {
    match r
    case Success(a) =>
      assert [] + a.entries == a.entries && [] + a.spine == a.spine;
    case Failure(_) =>
  }

  lemma CombineStep(entries: seq<NavEntry>, spine: seq<Page>, a: Added, r: Result<AddedAll, Error>)
    ensures Combine(entries, spine, Combine([a.entry], a.spine, r)) ==
      Combine(entries + [a.entry], spine + a.spine, r)
  {
    match r
    case Success(b) =>
      assert entries + ([a.entry] + b.entries) == entries + [a.entry] + b.entries;
      assert spine + (a.spine + b.spine) == spine + a.spine + b.spine;
    case Failure(_) =>
  }

  /** Adding the chapters from the `i`-th on: that chapter first, then the
      rest. */
  lemma AddAllStep(chs: seq<ChapterTree>, i: nat, ctx: Context)
    requires i < |chs| && forall c :: c in chs ==> AllHaveContent(c)
    ensures Add(chs[i], ctx).Failure? ==> AddAll(chs[i..], ctx) == Failure(Add(chs[i], ctx).error)
    ensures Add(chs[i], ctx).Success? ==>
      AddAll(chs[i..], ctx) == Combine([Add(chs[i], ctx).value.entry], Add(chs[i], ctx).value.spine, AddAll(chs[i + 1..], ctx))
  {
    assert chs[i..][0] == chs[i] && chs[i..][1..] == chs[i + 1..];
  }

  /** One turn of the loop of `_add_chapters`: when the `i`-th chapter fails,
      so does adding them all; otherwise its entry and pages join those
      already added. */
  lemma AddAllAdvance(chs: seq<ChapterTree>, i: nat, ctx: Context, entries: seq<NavEntry>, spine: seq<Page>)
    requires i < |chs| && forall c :: c in chs ==> AllHaveContent(c)
    requires AddAll(chs, ctx) == Combine(entries, spine, AddAll(chs[i..], ctx))
    ensures Add(chs[i], ctx).Failure? ==> AddAll(chs, ctx) == Failure(Add(chs[i], ctx).error)
    ensures Add(chs[i], ctx).Success? ==>
      var a := Add(chs[i], ctx).value;
      AddAll(chs, ctx) == Combine(entries + [a.entry], spine + a.spine, AddAll(chs[i + 1..], ctx))
  {
    AddAllStep(chs, i, ctx);
    if Add(chs[i], ctx).Success? {
      CombineStep(entries, spine, Add(chs[i], ctx).value, AddAll(chs[i + 1..], ctx));
    }
  }

  /** A chapter div left with text but no child node gets no page: it becomes
      a section heading, even though its text is not empty. */
  lemma TextOnlyChapterIsSection(c: ChapterContent, ctx: Context)
    requires c.element.Element? && c.element.children == [] && c.element.text != ""
    ensures ItemOf(c, ctx) == Success(Section(c.title))
  {
  }

  /** A book without chapters has an empty table of contents and spine. */
  lemma NoChaptersNoToc(ctx: Context)
    ensures AddAll([], ctx) == Success(AddedAll([], []))
  {
  }

  // ---------------------------------------------------------------------------
  // The entries mirror the chapter tree

  /** The item describes the chapter: a page exactly when the chapter has one,
      with the chapter's id, title and file name, or a heading with its title. */
  predicate ItemMatches(item: TocItem, c: ChapterContent) {
    && (item.PageItem? <==> HasPage(c))
    && (item.PageItem? ==>
          item.page.id == c.id && item.page.title == c.title && item.page.fileName == c.id + ".xhtml")
    && (item.Section? ==> item.title == c.title)
  }

  /** An entry has the shape of its chapter: a leaf exactly when the chapter has
      no sub-chapters, and otherwise one entry per sub-chapter, in order. */
  predicate Mirrors(entry: NavEntry, ch: ChapterTree)
    decreases ch
  {
    && ch.content.Some?
    && ItemMatches(entry.item, ch.content.value)
    && (entry.Leaf? <==> ch.children == [])
    && (entry.Nested? ==>
          && |entry.children| == |ch.children|
          && forall i :: 0 <= i < |ch.children| ==> Mirrors(entry.children[i], ch.children[i]))
  }

  lemma {:induction false} AddMirrors(ch: ChapterTree, ctx: Context)
    requires AllHaveContent(ch)
    requires Add(ch, ctx).Success?
    ensures Mirrors(Add(ch, ctx).value.entry, ch)
    decreases ch, 1
  {
    if ch.children != [] {
      AddAllMirrors(ch.children, ctx);
    }
  }

  lemma {:induction false} AddAllMirrors(chs: seq<ChapterTree>, ctx: Context)
    requires forall c :: c in chs ==> AllHaveContent(c)
    requires AddAll(chs, ctx).Success?
    ensures |AddAll(chs, ctx).value.entries| == |chs|
    ensures forall i :: 0 <= i < |chs| ==> Mirrors(AddAll(chs, ctx).value.entries[i], chs[i])
    decreases chs, 0
  {
    if chs != [] {
      AddMirrors(chs[0], ctx);
      AddAllMirrors(chs[1..], ctx);
      var es := AddAll(chs, ctx).value.entries;
      assert es == [Add(chs[0], ctx).value.entry] + AddAll(chs[1..], ctx).value.entries;
      forall i | 1 <= i < |chs|
        ensures Mirrors(es[i], chs[i])
      {
        assert es[i] == AddAll(chs[1..], ctx).value.entries[i - 1];
        assert chs[i] == chs[1..][i - 1];
      }
    }
  }

  // ---------------------------------------------------------------------------
  // The spine is the pages of the table of contents, in reading order

  /** The pages of an entry, read in pre-order. */
  function NavPages(entry: NavEntry): seq<Page>
    decreases entry, 1
  {
    match entry
    case Leaf(item) => OwnPages(item)
    case Nested(item, kids) => OwnPages(item) + NavPagesSeq(kids)
  }

  function NavPagesSeq(entries: seq<NavEntry>): seq<Page>
    decreases entries, 0
  {
    if entries == [] then [] else NavPages(entries[0]) + NavPagesSeq(entries[1..])
  }

  lemma {:induction false} SpineIsNavPages(ch: ChapterTree, ctx: Context)
    requires AllHaveContent(ch)
    requires Add(ch, ctx).Success?
    ensures Add(ch, ctx).value.spine == NavPages(Add(ch, ctx).value.entry)
    decreases ch, 1
  {
    if ch.children != [] {
      SpineIsNavPagesSeq(ch.children, ctx);
    }
  }

  lemma {:induction false} SpineIsNavPagesSeq(chs: seq<ChapterTree>, ctx: Context)
    requires forall c :: c in chs ==> AllHaveContent(c)
    requires AddAll(chs, ctx).Success?
    ensures AddAll(chs, ctx).value.spine == NavPagesSeq(AddAll(chs, ctx).value.entries)
    decreases chs, 0
  {
    if chs != [] {
      SpineIsNavPages(chs[0], ctx);
      SpineIsNavPagesSeq(chs[1..], ctx);
      var es := AddAll(chs, ctx).value.entries;
      assert es[0] == Add(chs[0], ctx).value.entry;
      assert es[1..] == AddAll(chs[1..], ctx).value.entries;
    }
  }

  /** The ids of the chapters that get a page, in pre-order. */
  function PageIds(t: ChapterTree): seq<string>
    decreases t, 1
  {
    (if t.content.Some? && HasPage(t.content.value) then [t.content.value.id] else [])
      + PageIdsSeq(t.children)
  }

  function PageIdsSeq(ts: seq<ChapterTree>): seq<string>
    decreases ts, 0
  {
    if ts == [] then [] else PageIds(ts[0]) + PageIdsSeq(ts[1..])
  }

  function PageIdsOf(pages: seq<Page>): (r: seq<string>)
    ensures |r| == |pages|
    ensures forall i :: 0 <= i < |pages| ==> r[i] == pages[i].id
  {
    if pages == [] then [] else [pages[0].id] + PageIdsOf(pages[1..])
  }

  lemma PageIdsOfAppend(a: seq<Page>, b: seq<Page>)
    ensures PageIdsOf(a + b) == PageIdsOf(a) + PageIdsOf(b)
  {
  }

  /** The spine holds one page per chapter with content of its own, in the
      pre-order of the chapter tree. */
  lemma {:induction false} SpineFollowsChapters(ch: ChapterTree, ctx: Context)
    requires AllHaveContent(ch)
    requires Add(ch, ctx).Success?
    ensures PageIdsOf(Add(ch, ctx).value.spine) == PageIds(ch)
    decreases ch, 1
  {
    var item := ItemOf(ch.content.value, ctx).value;
    if ch.children != [] {
      SpineFollowsChaptersSeq(ch.children, ctx);
      PageIdsOfAppend(OwnPages(item), AddAll(ch.children, ctx).value.spine);
    }
  }

  lemma {:induction false} SpineFollowsChaptersSeq(chs: seq<ChapterTree>, ctx: Context)
    requires forall c :: c in chs ==> AllHaveContent(c)
    requires AddAll(chs, ctx).Success?
    ensures PageIdsOf(AddAll(chs, ctx).value.spine) == PageIdsSeq(chs)
    decreases chs, 0
  {
    if chs != [] {
      SpineFollowsChapters(chs[0], ctx);
      SpineFollowsChaptersSeq(chs[1..], ctx);
      PageIdsOfAppend(Add(chs[0], ctx).value.spine, AddAll(chs[1..], ctx).value.spine);
    }
  }

  /** Every chapter has content of its own. */
  predicate AllHavePages(t: ChapterTree) {
    && t.content.Some?
    && HasPage(t.content.value)
    && forall c :: c in t.children ==> AllHavePages(c)
  }

  /** When no chapter is a mere grouping, every chapter is a page and the
      spine lists all chapter ids. */
  lemma {:induction false} AllPagesWhenNoneEmpty(t: ChapterTree)
    requires AllHavePages(t)
    ensures PageIds(t) == Ids(t)
    decreases t, 1
  {
    AllPagesWhenNoneEmptySeq(t.children);
  }

  lemma {:induction false} AllPagesWhenNoneEmptySeq(ts: seq<ChapterTree>)
    requires forall c :: c in ts ==> AllHavePages(c)
    ensures PageIdsSeq(ts) == IdsSeq(ts)
    decreases ts, 0
  {
    if ts != [] {
      AllPagesWhenNoneEmpty(ts[0]);
      AllPagesWhenNoneEmptySeq(ts[1..]);
    }
  }

  // ---------------------------------------------------------------------------
  // When writing the pages fails

  /** Every chapter that gets a page has contents that can be written out. */
  predicate AllPagesRender(t: ChapterTree, ctx: Context)
    requires AllHaveContent(t)
  {
    && (HasPage(t.content.value) ==>
          ElementXhtml(t.content.value.element, ctx.entities, ctx.serialize).Success?)
    && forall c :: c in t.children ==> AllPagesRender(c, ctx)
  }

  /** Adding a chapter fails exactly when one of its pages cannot be written. */
  lemma {:induction false} AddSucceedsIff(ch: ChapterTree, ctx: Context)
    requires AllHaveContent(ch)
    ensures Add(ch, ctx).Success? <==> AllPagesRender(ch, ctx)
    decreases ch, 1
  {
    if ch.children != [] {
      AddAllSucceedsIff(ch.children, ctx);
    }
  }

  lemma {:induction false} AddAllSucceedsIff(chs: seq<ChapterTree>, ctx: Context)
    requires forall c :: c in chs ==> AllHaveContent(c)
    ensures AddAll(chs, ctx).Success? <==> forall c :: c in chs ==> AllPagesRender(c, ctx)
    decreases chs, 0
  {
    if chs != [] {
      AddSucceedsIff(chs[0], ctx);
      AddAllSucceedsIff(chs[1..], ctx);
      assert forall c :: c in chs <==> c == chs[0] || c in chs[1..];
    }
  }
}
