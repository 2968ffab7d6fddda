/** The nesting example of the package documentation
    (src/xhtml2epub/__init__.py): three top-level chapter divs, the middle one
    a part holding two chapters of its own, each div holding a comment. */
module Nesting {
  import opened Wrappers
  import opened Xml
  import opened Entities
  import opened Chapters
  import opened Strings

  /** `<div id="...">` with the given children. */
  function Div(id: string, kids: seq<Node>): Node {
    Element("div", map["id" := id], "", kids, "")
  }

  /** `<!-- content -->`. */
  const Remark := Element("!--", map[], " content ", [], "")

  /** The title of a chapter tree's own content; none for the body. */
  function TitleOf(t: ChapterTree): (r: Option<string>)
    ensures r.Some? <==> t.content.Some?
  {
    if t.content.Some? then Some(t.content.value.title) else None
  }

  lemma IdsSeqCons(t: ChapterTree, ts: seq<ChapterTree>)
    ensures IdsSeq([t] + ts) == Ids(t) + IdsSeq(ts)
  {
    assert ([t] + ts)[1..] == ts;
  }

  lemma IdsOfDiv(t: ChapterTree, id: string)
    requires t.content.Some? && t.content.value.id == id
    ensures Ids(t) == [id] + IdsSeq(t.children)
  {
  }

  /** A div holding only a comment is a chapter without sub-chapters. */
  lemma LeafChapter(id: string, entities: EntityTable)
    ensures Chapters.Chapters(Div(id, [Remark]), entities).Success?
    ensures Chapters.Chapters(Div(id, [Remark]), entities).value.children == []
    ensures Ids(Chapters.Chapters(Div(id, [Remark]), entities).value) == [id]
    ensures Chapters.Chapters(Div(id, [Remark]), entities).value.content.value.title == IdTitle(id)
  {
    var d := Div(id, [Remark]);
    assert Sections(d.children) == [];
    assert SectionTrees(d.children, entities) == Success([]);
    assert Remaining(d.children) == [Remark];
    assert HeadingTexts(d.children, entities) == Success([]);
  }

  /** A section in front adds its chapter in front. */
  lemma SectionTreesCons(x: Node, rest: seq<Node>, entities: EntityTable)
    requires IsSection(x) && Chapters.Chapters(x, entities).Success? && SectionTrees(rest, entities).Success?
    ensures SectionTrees([x] + rest, entities) ==
      Success([Chapters.Chapters(x, entities).value] + SectionTrees(rest, entities).value)
  {
    assert ([x] + rest)[1..] == rest;
  }

  /** The children of a part: a remark, then two leaf chapters. */
  lemma PartChildren(a: string, b: string, entities: EntityTable)
    ensures var da, db := Div(a, [Remark]), Div(b, [Remark]);
      && Chapters.Chapters(da, entities).Success? && Chapters.Chapters(db, entities).Success?
      && SectionTrees([Remark, da, db], entities) ==
           Success([Chapters.Chapters(da, entities).value, Chapters.Chapters(db, entities).value])
      && Remaining([Remark, da, db]) == [Remark]
  {
    LeafChapter(a, entities);
    LeafChapter(b, entities);
    var da, db := Div(a, [Remark]), Div(b, [Remark]);
    var ca := Chapters.Chapters(da, entities).value;
    var cb := Chapters.Chapters(db, entities).value;
    var kids := [Remark, da, db];
    SectionTreesCons(db, [], entities);
    SectionTreesCons(da, [db], entities);
    assert kids[1..] == [da] + [db] && [da, db][1..] == [db] && [db][1..] == [];
    assert !IsSection(Remark) && IsSection(da) && IsSection(db);
    assert SectionTrees([db], entities) == Success([cb]) by {
      assert [db] + [] == [db] && [cb] + [] == [cb];
    }
    assert SectionTrees([da] + [db], entities) == Success([ca, cb]) by {
      assert [ca] + [cb] == [ca, cb];
    }
    assert Remaining([db]) == [];
    assert Remaining([da, db]) == [];
  }

  /** A part holding two chapter divs is a chapter with two sub-chapters. */
  lemma GroupChapter(id: string, a: string, b: string, entities: EntityTable)
    ensures var part := Div(id, [Remark, Div(a, [Remark]), Div(b, [Remark])]);
      && Chapters.Chapters(part, entities).Success?
      && |Chapters.Chapters(part, entities).value.children| == 2
      && Ids(Chapters.Chapters(part, entities).value) == [id, a, b]
      && var p := Chapters.Chapters(part, entities).value;
      && p.content.value.title == IdTitle(id)
      && TitleOf(p.children[0]) == Some(IdTitle(a))
      && TitleOf(p.children[1]) == Some(IdTitle(b))
  {
    PartChildren(a, b, entities);
    LeafChapter(a, entities);
    LeafChapter(b, entities);
    var da, db := Div(a, [Remark]), Div(b, [Remark]);
    var ca := Chapters.Chapters(da, entities).value;
    var cb := Chapters.Chapters(db, entities).value;
    assert HeadingTexts([Remark], entities) == Success([]);
    var p := Chapters.Chapters(Div(id, [Remark, da, db]), entities).value;
    assert p.children == [ca, cb] && p.content.Some? && p.content.value.id == id;
    IdsOfDiv(p, id);
    IdsSeqCons(cb, []);
    IdsSeqCons(ca, [cb]);
    assert [ca] + [cb] == [ca, cb] && [cb] + [] == [cb];
  }

  /** A body holding three sections has their three chapters and no content. */
  lemma ThreeSections(x: Node, y: Node, z: Node, entities: EntityTable)
    requires IsSection(x) && IsSection(y) && IsSection(z)
    requires Chapters.Chapters(x, entities).Success?
    requires Chapters.Chapters(y, entities).Success?
    requires Chapters.Chapters(z, entities).Success?
    ensures Chapters.Chapters(Element("body", map[], "", [x, y, z], ""), entities) ==
      Success(ChapterTree([Chapters.Chapters(x, entities).value, Chapters.Chapters(y, entities).value,
                           Chapters.Chapters(z, entities).value], None))
  {
    var cx, cy, cz := Chapters.Chapters(x, entities).value, Chapters.Chapters(y, entities).value,
      Chapters.Chapters(z, entities).value;
    SectionTreesCons(z, [], entities);
    assert [z] + [] == [z] && [cz] + [] == [cz];
    SectionTreesCons(y, [z], entities);
    SectionTreesCons(x, [y] + [z], entities);
    assert [x] + ([y] + [z]) == [x, y, z];
    assert [cx] + ([cy] + [cz]) == [cx, cy, cz];
  }

  lemma IdsSeqThree(x: ChapterTree, y: ChapterTree, z: ChapterTree)
    ensures IdsSeq([x, y, z]) == Ids(x) + Ids(y) + Ids(z)
  {
    IdsSeqCons(z, []);
    IdsSeqCons(y, [z]);
    IdsSeqCons(x, [y] + [z]);
    assert [z] + [] == [z] && [x] + ([y] + [z]) == [x, y, z];
  }

  /** The body of the example gives three top-level chapters, the second with
      two sub-chapters, and the ids in document order. */
  lemma NestedChapters(first: string, id: string, a: string, b: string, last: string, entities: EntityTable)
    ensures var body := Element("body", map[], "", [
        Div(first, [Remark]),
        Div(id, [Remark, Div(a, [Remark]), Div(b, [Remark])]),
        Div(last, [Remark])], "");
      && Chapters.Chapters(body, entities).Success?
      && var t := Chapters.Chapters(body, entities).value;
      && t.content.None?
      && |t.children| == 3
      && |t.children[1].children| == 2
      && IdsSeq(t.children) == [first, id, a, b, last]
      && TitleOf(t.children[0]) == Some(IdTitle(first))
      && TitleOf(t.children[1]) == Some(IdTitle(id))
      && TitleOf(t.children[1].children[0]) == Some(IdTitle(a))
      && TitleOf(t.children[1].children[1]) == Some(IdTitle(b))
      && TitleOf(t.children[2]) == Some(IdTitle(last))
  {
    LeafChapter(first, entities);
    LeafChapter(last, entities);
    GroupChapter(id, a, b, entities);
    var d1, d4 := Div(first, [Remark]), Div(last, [Remark]);
    var part := Div(id, [Remark, Div(a, [Remark]), Div(b, [Remark])]);
    ThreeSections(d1, part, d4, entities);
    var c1 := Chapters.Chapters(d1, entities).value;
    var c4 := Chapters.Chapters(d4, entities).value;
    var p := Chapters.Chapters(part, entities).value;
    IdsSeqThree(c1, p, c4);
    assert [first] + [id, a, b] + [last] == [first, id, a, b, last];
  }

  /** An id "word-N", a lower-case word and one digit, gets the fallback
      title "Word N". */
  lemma WordNumberTitle(w: string, d: char)
    requires w != [] && forall i :: 0 <= i < |w| ==> IsLower(w[i])
    requires '0' <= d <= '9'
    ensures IdTitle(w + "-" + [d]) == [Upper(w[0])] + w[1..] + " " + [d]
  {
    var id := w + "-" + [d];
    IdTitleShape(id);
    var t := IdTitle(id);
    var e := [Upper(w[0])] + w[1..] + " " + [d];
    assert |t| == |e|;
    forall i | 0 <= i < |id|
      ensures t[i] == e[i]
    {
      if i < |w| {
        assert id[i] == w[i];
        if i > 0 {
          assert id[i - 1] == w[i - 1];
        }
      }
    }
  }

  /** "chapter-N" is titled "Chapter N". */
  lemma ChapterNumberTitle(id: string, title: string, d: char)
    requires '0' <= d <= '9'
    requires id == "chapter-" + [d] && title == "Chapter " + [d]
    ensures IdTitle(id) == title
  {
    WordNumberTitle("chapter", d);
    assert "chapter" + "-" + [d] == id;
    assert [Upper('c')] + "chapter"[1..] + " " + [d] == title;
  }

  /** "part-N" is titled "Part N". */
  lemma PartNumberTitle(id: string, title: string, d: char)
    requires '0' <= d <= '9'
    requires id == "part-" + [d] && title == "Part " + [d]
    ensures IdTitle(id) == title
  {
    WordNumberTitle("part", d);
    assert "part" + "-" + [d] == id;
    assert [Upper('p')] + "part"[1..] + " " + [d] == title;
  }

  /** The example with its own ids: the chapters come out in document order. */
  lemma DocumentedExample(entities: EntityTable)
    ensures var body := Element("body", map[], "", [
        Div("chapter-1", [Remark]),
        Div("part-1", [Remark, Div("chapter-2", [Remark]), Div("chapter-3", [Remark])]),
        Div("chapter-4", [Remark])], "");
      && Chapters.Chapters(body, entities).Success?
      && var t := Chapters.Chapters(body, entities).value;
      && |t.children| == 3 && |t.children[1].children| == 2
      && IdsSeq(t.children) == ["chapter-1", "part-1", "chapter-2", "chapter-3", "chapter-4"]
  {
    NestedChapters("chapter-1", "part-1", "chapter-2", "chapter-3", "chapter-4", entities);
  }

  /** The fallback titles of the example's ids, one by one. */
  lemma Chapter1Title() ensures IdTitle("chapter-1") == "Chapter 1" {
    ChapterNumberTitle("chapter-1", "Chapter 1", '1');
  }

  lemma Chapter2Title() ensures IdTitle("chapter-2") == "Chapter 2" {
    ChapterNumberTitle("chapter-2", "Chapter 2", '2');
  }

  lemma Chapter3Title() ensures IdTitle("chapter-3") == "Chapter 3" {
    ChapterNumberTitle("chapter-3", "Chapter 3", '3');
  }

  lemma Chapter4Title() ensures IdTitle("chapter-4") == "Chapter 4" {
    ChapterNumberTitle("chapter-4", "Chapter 4", '4');
  }

  lemma Part1Title() ensures IdTitle("part-1") == "Part 1" {
    PartNumberTitle("part-1", "Part 1", '1');
  }

  /** The example's chapters carry the titles their ids give them. */
  lemma TitledNestedChapters(first: string, id: string, a: string, b: string, last: string,
                             t1: string, t2: string, t3: string, t4: string, t5: string, entities: EntityTable)
    requires IdTitle(first) == t1 && IdTitle(id) == t2 && IdTitle(a) == t3 && IdTitle(b) == t4 && IdTitle(last) == t5
    ensures var body := Element("body", map[], "", [
        Div(first, [Remark]),
        Div(id, [Remark, Div(a, [Remark]), Div(b, [Remark])]),
        Div(last, [Remark])], "");
      && Chapters.Chapters(body, entities).Success?
      && var t := Chapters.Chapters(body, entities).value;
      && |t.children| == 3 && |t.children[1].children| == 2
      && TitleOf(t.children[0]) == Some(t1)
      && TitleOf(t.children[1]) == Some(t2)
      && TitleOf(t.children[1].children[0]) == Some(t3)
      && TitleOf(t.children[1].children[1]) == Some(t4)
      && TitleOf(t.children[2]) == Some(t5)
  {
    NestedChapters(first, id, a, b, last, entities);
  }

  /** ... and each is titled from its id, "Chapter 1", "Part 1", "Chapter 2",
      "Chapter 3" and "Chapter 4". */
  lemma DocumentedTitles(entities: EntityTable)
    ensures var body := Element("body", map[], "", [
        Div("chapter-1", [Remark]),
        Div("part-1", [Remark, Div("chapter-2", [Remark]), Div("chapter-3", [Remark])]),
        Div("chapter-4", [Remark])], "");
      && Chapters.Chapters(body, entities).Success?
      && var t := Chapters.Chapters(body, entities).value;
      && |t.children| == 3 && |t.children[1].children| == 2
      && TitleOf(t.children[0]) == Some("Chapter 1")
      && TitleOf(t.children[1]) == Some("Part 1")
      && TitleOf(t.children[1].children[0]) == Some("Chapter 2")
      && TitleOf(t.children[1].children[1]) == Some("Chapter 3")
      && TitleOf(t.children[2]) == Some("Chapter 4")
  {
    Chapter1Title();
    Part1Title();
    Chapter2Title();
    Chapter3Title();
    Chapter4Title();
    TitledNestedChapters("chapter-1", "part-1", "chapter-2", "chapter-3", "chapter-4",
      "Chapter 1", "Part 1", "Chapter 2", "Chapter 3", "Chapter 4", entities);
  }
}
