/** Chapter detection in `Book` (src/xhtml2epub/book.py): `_find_chapters`
    detaches every direct `div[@id]` child of an element and recurses into it,
    and `_extract_chapter` gives a detached div its id and title. */
module Chapters {
  import opened Wrappers
  import opened Xml
  import opened Strings
  import opened Entities

  /** The contents of a single chapter: the div, once its sub-chapters have been
      detached from it. */
  datatype ChapterContent = ChapterContent(id: string, title: string, element: Node)

  /** A chapter and the chapters nested under it; only the root built from
      `body` has no content. */
  datatype ChapterTree = ChapterTree(children: seq<ChapterTree>, content: Option<ChapterContent>)

  // ---------------------------------------------------------------------------
  // Sections and their removal

  /** `div[@id]`: a `div` carrying an `id` attribute (possibly empty). */
  predicate IsSection(n: Node) {
    n.Element? && n.tag == "div" && "id" in n.attrs
  }

  /** `element.xpath("div[@id]")`: the section children, in order. */
  function Sections(ns: seq<Node>): (r: seq<Node>)
    ensures |r| <= |ns|
    ensures forall i :: 0 <= i < |r| ==> IsSection(r[i])
  {
    if ns == [] then []
    else (if IsSection(ns[0]) then [ns[0]] else []) + Sections(ns[1..])
  }

  /** The children that are not sections, in order. */
  function Remaining(ns: seq<Node>): (r: seq<Node>)
    ensures |r| <= |ns|
    ensures forall i :: 0 <= i < |r| ==> !IsSection(r[i])
  {
    if ns == [] then []
    else (if IsSection(ns[0]) then [] else [ns[0]]) + Remaining(ns[1..])
  }

  /** Taking the sections out splits the children in two without losing or
      adding any, and both parts keep their relative order (the split commutes
      with concatenation). */
  lemma {:induction false} SectionsAreChildren(ns: seq<Node>)
    ensures forall x :: x in Sections(ns) ==> x in ns
    ensures forall x :: x in Remaining(ns) ==> x in ns
  {
    if ns != [] {
      SectionsAreChildren(ns[1..]);
    }
  }

  lemma {:induction false} SectionsPartition(ns: seq<Node>)
    ensures multiset(Sections(ns)) + multiset(Remaining(ns)) == multiset(ns)
    ensures |Sections(ns)| + |Remaining(ns)| == |ns|
  {
    if ns != [] {
      SectionsPartition(ns[1..]);
      assert ns == [ns[0]] + ns[1..];
    }
  }

  lemma {:induction false} SplitAppend(a: seq<Node>, b: seq<Node>)
    ensures Sections(a + b) == Sections(a) + Sections(b)
    ensures Remaining(a + b) == Remaining(a) + Remaining(b)
  {
    SectionsAppend(a, b);
    RemainingAppend(a, b);
  }

  lemma {:induction false} SectionsAppend(a: seq<Node>, b: seq<Node>)
    ensures Sections(a + b) == Sections(a) + Sections(b)
  {
    if a == [] {
      assert a + b == b;
    } else {
      var head := if IsSection(a[0]) then [a[0]] else [];
      assert (a + b)[0] == a[0] && (a + b)[1..] == a[1..] + b;
      assert Sections(a + b) == head + Sections(a[1..] + b);
      assert Sections(a) == head + Sections(a[1..]);
      SectionsAppend(a[1..], b);
    }
  }

  lemma {:induction false} RemainingAppend(a: seq<Node>, b: seq<Node>)
    ensures Remaining(a + b) == Remaining(a) + Remaining(b)
  {
    if a == [] {
      assert a + b == b;
    } else {
      var head := if IsSection(a[0]) then [] else [a[0]];
      assert (a + b)[0] == a[0] && (a + b)[1..] == a[1..] + b;
      assert Remaining(a + b) == head + Remaining(a[1..] + b);
      assert Remaining(a) == head + Remaining(a[1..]);
      RemainingAppend(a[1..], b);
    }
  }

  /** `element.remove(child)`: the first child equal to `x` is taken out. */
  function RemoveFirst(ns: seq<Node>, x: Node): (r: seq<Node>)
    ensures x in ns ==> |r| == |ns| - 1
    ensures x !in ns ==> r == ns
  {
    if ns == [] then []
    else if ns[0] == x then ns[1..]
    else [ns[0]] + RemoveFirst(ns[1..], x)
  }

  /** One occurrence of `x` is taken out, and nothing else. */
  lemma {:induction false} RemoveFirstMultiset(ns: seq<Node>, x: Node)
    ensures multiset(RemoveFirst(ns, x)) == multiset(ns) - multiset{x}
  {
    if ns != [] {
      assert ns == [ns[0]] + ns[1..];
      if ns[0] != x {
        RemoveFirstMultiset(ns[1..], x);
      }
    }
  }

  /** The child taken out is the first occurrence: everything before it and
      everything after it stays, in order. */
  lemma {:induction false} RemoveFirstAt(ns: seq<Node>, x: Node, i: nat)
    requires i < |ns| && ns[i] == x && x !in ns[..i]
    ensures RemoveFirst(ns, x) == ns[..i] + ns[i + 1..]
  {
    if i > 0 {
      assert ns[1..][..i - 1] == ns[1..i];
      assert x !in ns[1..i] by {
        assert forall k :: 1 <= k < i ==> ns[k] == ns[..i][k];
      }
      RemoveFirstAt(ns[1..], x, i - 1);
      assert ns[..i] == [ns[0]] + ns[1..i];
    }
  }

  /** Removing each of `xs` in turn. */
  function RemoveEach(ns: seq<Node>, xs: seq<Node>): (r: seq<Node>)
    ensures |ns| - |xs| <= |r| <= |ns|
    decreases xs
  {
    if xs == [] then ns else RemoveEach(RemoveFirst(ns, xs[0]), xs[1..])
  }

  /** One occurrence of each of `xs` is taken out, and nothing else. */
  lemma {:induction false} RemoveEachMultiset(ns: seq<Node>, xs: seq<Node>)
    ensures multiset(RemoveEach(ns, xs)) == multiset(ns) - multiset(xs)
    decreases xs
  {
    if xs != [] {
      assert xs == [xs[0]] + xs[1..];
      RemoveFirstMultiset(ns, xs[0]);
      RemoveEachMultiset(RemoveFirst(ns, xs[0]), xs[1..]);
    }
  }

  lemma {:induction false} RemoveEachSkips(x: Node, ns: seq<Node>, xs: seq<Node>)
    requires x !in xs
    ensures RemoveEach([x] + ns, xs) == [x] + RemoveEach(ns, xs)
    decreases xs
  {
    if xs != [] {
      assert ([x] + ns)[1..] == ns;
      RemoveEachSkips(x, RemoveFirst(ns, xs[0]), xs[1..]);
    }
  }

  /** Removing the detected sections one by one leaves exactly the other
      children, in their original order. */
  lemma {:induction false} RemovingSectionsLeavesRest(ns: seq<Node>)
    ensures RemoveEach(ns, Sections(ns)) == Remaining(ns)
  {
    if ns != [] {
      RemovingSectionsLeavesRest(ns[1..]);
      var ss := Sections(ns[1..]);
      if IsSection(ns[0]) {
        assert Sections(ns) == [ns[0]] + ss;
        assert RemoveFirst(ns, ns[0]) == ns[1..];
      } else {
        assert Sections(ns) == ss;
        assert ns[0] !in ss;
        RemoveEachSkips(ns[0], ns[1..], ss);
        assert [ns[0]] + ns[1..] == ns;
        assert Remaining(ns) == [ns[0]] + Remaining(ns[1..]);
      }
    }
  }

  /** The element with its sections detached. */
  function Detached(e: Node): (r: Node)
    requires e.Element?
    ensures r.Element? && r.tag == e.tag && r.attrs == e.attrs
    ensures forall i :: 0 <= i < |r.children| ==> !IsSection(r.children[i])
  {
    e.(children := Remaining(e.children))
  }

  // ---------------------------------------------------------------------------
  // Titles

  predicate IsHeading(n: Node) {
    n.Element? && n.tag in {"h1", "h2", "h3"}
  }

  /** `_text` of each node of the leading run of headings, stopping at the first
      child that is not one; the first failing extraction is the result. */
  function HeadingTexts(ns: seq<Node>, entities: EntityTable): (r: Result<seq<string>, Error>)
    ensures r.Failure? ==> r.error.UnknownEntity? && r.error.entity !in entities
  {
    if ns == [] || !IsHeading(ns[0]) then Success([])
    else
      var first :- Text(ns[0], entities);
      var rest :- HeadingTexts(ns[1..], entities);
      Success([first] + rest)
  }

  /** `_text` of every node, failing on the first failure. */
  function Texts(ns: seq<Node>, entities: EntityTable): Result<seq<string>, Error>
  {
    if ns == [] then Success([])
    else
      var first :- Text(ns[0], entities);
      var rest :- Texts(ns[1..], entities);
      Success([first] + rest)
  }

  /** The heading run is taken up to the first non-heading child; nothing after
      it counts, heading or not. */
  lemma {:induction false} HeadingRunStops(hs: seq<Node>, rest: seq<Node>, entities: EntityTable)
    requires forall h :: h in hs ==> IsHeading(h)
    requires rest == [] || !IsHeading(rest[0])
    ensures HeadingTexts(hs + rest, entities) == Texts(hs, entities)
  {
    if hs != [] {
      assert (hs + rest)[0] == hs[0];
      assert (hs + rest)[1..] == hs[1..] + rest;
      HeadingRunStops(hs[1..], rest, entities);
    } else {
      assert hs + rest == rest;
    }
  }

  /** `re.sub("[-_]", " ", chapter_id).title()`. */
  function IdTitle(id: string): (r: string)
    ensures |r| == |id|
    ensures forall i :: 0 <= i < |id| && id[i] in "-_" ==> r[i] == ' '
    ensures forall i :: 0 <= i < |id| && id[i] !in "-_" && !IsLetter(id[i]) ==> r[i] == id[i]
  {
    Title(SeparatorsToSpaces(id))
  }

  /** The fallback title at one position: `-` and `_` become spaces, other
      non-letters stay, and a letter is upper-cased at the start of a word
      (after a non-letter) and lower-cased inside one. */
  function IdTitleChar(id: string, i: nat): char
    requires i < |id|
  {
    if id[i] == '-' || id[i] == '_' then ' '
    else if !IsLetter(id[i]) then id[i]
    else if i > 0 && IsLetter(id[i - 1]) then Lower(id[i])
    else Upper(id[i])
  }

  /** The fallback title is the id rewritten position by position. */
  lemma IdTitleShape(id: string)
    ensures |IdTitle(id)| == |id|
    ensures forall i :: 0 <= i < |id| ==> IdTitle(id)[i] == IdTitleChar(id, i)
  {
    var s := SeparatorsToSpaces(id);
    forall i | 0 <= i < |id| ensures IdTitle(id)[i] == IdTitleChar(id, i) {
      TitleAt(s, i);
      if i > 0 {
        assert IsLetter(s[i - 1]) == IsLetter(id[i - 1]);
      }
    }
  }

  /** `"chapter_one"` gets the fallback title `"Chapter One"`. */
  lemma IdTitleExample(id: string)
    requires id == "chapter_one"
    ensures IdTitle(id) == "Chapter One"
  {
    IdTitleShape(id);
    var t := IdTitle(id);
    assert t[0] == 'C';
    assert t[1] == 'h';
    assert t[2] == 'a';
    assert t[3] == 'p';
    assert t[4] == 't';
    assert t[5] == 'e';
    assert t[6] == 'r';
    assert t[7] == ' ';
    assert t[8] == 'O';
    assert t[9] == 'n';
    assert t[10] == 'e';
    assert |t| == |"Chapter One"|;
  }

  /** The title `_extract_chapter` picks: a non-empty `title` attribute, else the
      `": "`-joined text of the leading headings, else the id title-cased. */
  function ChapterTitle(e: Node, entities: EntityTable): (r: Result<string, Error>)
    requires e.Element? && "id" in e.attrs
    ensures "title" in e.attrs && e.attrs["title"] != "" ==> r == Success(e.attrs["title"])
    ensures r.Failure? ==> r.error.UnknownEntity? && r.error.entity !in entities
  {
    if "title" in e.attrs && e.attrs["title"] != "" then Success(e.attrs["title"])
    else
      var parts :- HeadingTexts(e.children, entities);
      if parts != [] then Success(Join(parts, ": ")) else Success(IdTitle(e.attrs["id"]))
  }

  function ContentOf(e: Node, entities: EntityTable): (r: Result<ChapterContent, Error>)
    requires e.Element? && "id" in e.attrs
    ensures r.Success? <==> ChapterTitle(e, entities).Success?
    ensures r.Success? ==>
      r.value.id == e.attrs["id"] && r.value.element == e && r.value.title == ChapterTitle(e, entities).value
    ensures r.Failure? ==> r.error.UnknownEntity? && r.error.entity !in entities
  {
    var title :- ChapterTitle(e, entities);
    Success(ChapterContent(e.attrs["id"], title, e))
  }

  /** Title priority. With a non-empty `title` attribute that is the title and
      the headings are not even read; otherwise, when the children open with
      headings `hs` followed by a non-heading, the title is their texts joined by
      ": "; and with no leading heading it is the id title-cased. */
  lemma TitlePriority(e: Node, hs: seq<Node>, rest: seq<Node>, entities: EntityTable)
    requires e.Element? && "id" in e.attrs
    requires e.children == hs + rest
    requires forall h :: h in hs ==> IsHeading(h)
    requires rest == [] || !IsHeading(rest[0])
    ensures "title" in e.attrs && e.attrs["title"] != "" ==> ChapterTitle(e, entities) == Success(e.attrs["title"])
    ensures !("title" in e.attrs && e.attrs["title"] != "") && hs != [] && Texts(hs, entities).Success? ==>
      ChapterTitle(e, entities) == Success(Join(Texts(hs, entities).value, ": "))
    ensures !("title" in e.attrs && e.attrs["title"] != "") && hs == [] ==>
      ChapterTitle(e, entities) == Success(IdTitle(e.attrs["id"]))
  {
    HeadingRunStops(hs, rest, entities);
    if hs != [] && Texts(hs, entities).Success? {
      assert Texts(hs, entities).value != [];
    }
  }

  /** The text after a heading, up to the next element, is part of its title. */
  lemma HeadingTailInTitle(id: string, heading: string, tail: string, body: seq<Node>, entities: EntityTable)
    requires body == [] || !IsHeading(body[0])
    ensures var h := Element("h1", map[], heading, [], tail);
      var div := Element("div", map["id" := id], "", [h] + body, "");
      ChapterTitle(div, entities) == Success(heading + tail)
  {
    var h := Element("h1", map[], heading, [], tail);
    HeadingRunStops([h], body, entities);
    assert TextSeq([], entities) == Success("");
    assert heading + "" + tail == heading + tail;
    assert Text(h, entities) == Success(heading + tail);
    assert [h][1..] == [];
    assert Texts([], entities) == Success([]);
    assert [heading + tail] + [] == [heading + tail];
    assert Texts([h], entities) == Success([heading + tail]);
  }

  /** `Book._extract_chapter`: the heading loop, which stops at the first child
      that is not a heading. */
  method ExtractChapter(e: Node, entities: EntityTable) returns (r: Result<ChapterContent, Error>)
    requires e.Element? && "id" in e.attrs
    ensures r == ContentOf(e, entities)
  {
    var id := e.attrs["id"];
    var title: string;
    if "title" in e.attrs && e.attrs["title"] != "" {
      title := e.attrs["title"];
    } else {
      var parts: seq<string> := [];
      var i := 0;
      assert e.children[0..] == e.children;
      PrependToNothing(HeadingTexts(e.children, entities));
      while i < |e.children|
        invariant 0 <= i <= |e.children|
        invariant HeadingTexts(e.children, entities) == PrependTo(parts, HeadingTexts(e.children[i..], entities))
      {
        var child := e.children[i];
        if !IsHeading(child) {
          break;
        }
        assert e.children[i..][0] == child && e.children[i..][1..] == e.children[i + 1..];
        var text := Text(child, entities);
        if text.Failure? {
          return Failure(text.error);
        }
        PrependToTwice(parts, [text.value], HeadingTexts(e.children[i + 1..], entities));
        parts := parts + [text.value];
        i := i + 1;
      }
      assert i == |e.children| || e.children[i..][0] == e.children[i];
      assert HeadingTexts(e.children[i..], entities) == Success([]);
      assert parts + [] == parts;
      title := if parts != [] then Join(parts, ": ") else IdTitle(id);
    }
    return Success(ChapterContent(id, title, e));
  }

  // ---------------------------------------------------------------------------
  // The chapter tree

  /** `_find_chapters`: the sub-chapters come from the section children, in
      order, and a `div` gets its own content, extracted after its sections have
      been detached. */
  function Chapters(e: Node, entities: EntityTable): (r: Result<ChapterTree, Error>)
    requires e.Element? && (e.tag == "div" ==> "id" in e.attrs)
    ensures r.Success? ==> (r.value.content.Some? <==> e.tag == "div")
    ensures r.Success? && e.tag == "div" ==>
      r.value.content.value.id == e.attrs["id"] && r.value.content.value.element == Detached(e)
    ensures r.Failure? ==> r.error.UnknownEntity? && r.error.entity !in entities
    decreases e, 1
  {
    var kids :- SectionTrees(e.children, entities);
    if e.tag == "div" then
      var content :- ContentOf(Detached(e), entities);
      Success(ChapterTree(kids, Some(content)))
    else Success(ChapterTree(kids, None))
  }

  /** The trees of the section nodes of `ns`, in order; other nodes are skipped. */
  function SectionTrees(ns: seq<Node>, entities: EntityTable): (r: Result<seq<ChapterTree>, Error>)
    ensures r.Failure? ==> r.error.UnknownEntity? && r.error.entity !in entities
    ensures r.Success? ==> |r.value| == |Sections(ns)|
    decreases ns, 0
  {
    if ns == [] then Success([])
    else if IsSection(ns[0]) then
      var first :- Chapters(ns[0], entities);
      var rest :- SectionTrees(ns[1..], entities);
      Success([first] + rest)
    else SectionTrees(ns[1..], entities)
  }

  /** Only the sections matter to the list of sub-chapters. */
  lemma {:induction false} SectionTreesOfSections(ns: seq<Node>, entities: EntityTable)
    ensures SectionTrees(ns, entities) == SectionTrees(Sections(ns), entities)
  {
    if ns != [] {
      SectionTreesOfSections(ns[1..], entities);
      var ss := Sections(ns);
      if IsSection(ns[0]) {
        assert ss == [ns[0]] + Sections(ns[1..]);
        assert ss[0] == ns[0] && ss[1..] == Sections(ns[1..]);
      } else {
        assert ss == Sections(ns[1..]);
      }
    }
  }

  /** Each section child becomes exactly one sub-chapter, in source order. */
  lemma {:induction false} SectionTreesOnePerSection(ns: seq<Node>, entities: EntityTable)
    requires SectionTrees(ns, entities).Success?
    ensures var ts := SectionTrees(ns, entities).value;
      && |ts| == |Sections(ns)|
      && forall i :: 0 <= i < |ts| ==> Chapters(Sections(ns)[i], entities) == Success(ts[i])
  {
    if ns != [] {
      SectionTreesOnePerSection(ns[1..], entities);
      var ts := SectionTrees(ns, entities).value;
      var rest := SectionTrees(ns[1..], entities).value;
      if IsSection(ns[0]) {
        var first := Chapters(ns[0], entities).value;
        assert ts == [first] + rest;
        assert Sections(ns) == [ns[0]] + Sections(ns[1..]);
        forall i | 1 <= i < |ts|
          ensures Chapters(Sections(ns)[i], entities) == Success(ts[i])
        {
          assert Sections(ns)[i] == Sections(ns[1..])[i - 1];
          assert ts[i] == rest[i - 1];
        }
      } else {
        assert ts == rest;
        assert Sections(ns) == Sections(ns[1..]);
      }
    }
  }

  /** The preceding lemma for the children of a chapter. */
  lemma ChapterChildrenAreSections(e: Node, entities: EntityTable)
    requires e.Element? && (e.tag == "div" ==> "id" in e.attrs)
    requires Chapters(e, entities).Success?
    ensures var t := Chapters(e, entities).value;
      && |t.children| == |Sections(e.children)|
      && (forall i :: 0 <= i < |t.children| ==> Chapters(Sections(e.children)[i], entities) == Success(t.children[i]))
      && (t.content.Some? <==> e.tag == "div")
      && (t.content.Some? ==> t.content.value.element == Detached(e) && t.content.value.id == e.attrs["id"])
  {
    SectionTreesOnePerSection(e.children, entities);
  }

  /** Every chapter below the root has content. */
  predicate AllHaveContent(t: ChapterTree) {
    && t.content.Some?
    && t.content.value.element.Element?
    && forall c :: c in t.children ==> AllHaveContent(c)
  }

  /** No chapter's element keeps a section as a direct child. */
  predicate NoNestedSections(t: ChapterTree) {
    && (t.content.Some? ==>
          && t.content.value.element.Element?
          && forall c :: c in t.content.value.element.children ==> !IsSection(c))
    && forall c :: c in t.children ==> NoNestedSections(c)
  }

  /** The shape of the chapter tree: no detected section is left inside any
      chapter's content, every chapter below the root has content, and the root
      has content exactly when it is a div itself. */
  lemma {:induction false} ChapterTreeShape(e: Node, entities: EntityTable)
    requires e.Element? && (e.tag == "div" ==> "id" in e.attrs)
    requires Chapters(e, entities).Success?
    ensures NoNestedSections(Chapters(e, entities).value)
    ensures forall c :: c in Chapters(e, entities).value.children ==> AllHaveContent(c)
    ensures Chapters(e, entities).value.content.Some? <==> e.tag == "div"
    decreases e, 1
  {
    SectionTreesShape(e.children, entities);
  }

  lemma {:induction false} SectionTreesShape(ns: seq<Node>, entities: EntityTable)
    requires SectionTrees(ns, entities).Success?
    ensures forall c :: c in SectionTrees(ns, entities).value ==> NoNestedSections(c) && AllHaveContent(c)
    decreases ns, 0
  {
    if ns != [] {
      SectionTreesShape(ns[1..], entities);
      if IsSection(ns[0]) {
        ChapterTreeShape(ns[0], entities);
        var t := Chapters(ns[0], entities).value;
        assert AllHaveContent(t);
      }
    }
  }

  /** The ids of the chapters of a tree, in pre-order. */
  function Ids(t: ChapterTree): seq<string>
  {
    (if t.content.Some? then [t.content.value.id] else []) + IdsSeq(t.children)
  }

  function IdsSeq(ts: seq<ChapterTree>): seq<string>
  {
    if ts == [] then [] else Ids(ts[0]) + IdsSeq(ts[1..])
  }

  /** The ids of the sections reachable from a node through sections only, in
      document order. */
  function SectionIds(n: Node): seq<string>
    decreases n, 1
  {
    if IsSection(n) then [n.attrs["id"]] + SectionIdsSeq(n.children) else []
  }

  function SectionIdsSeq(ns: seq<Node>): seq<string>
    decreases ns, 0
  {
    if ns == [] then [] else SectionIds(ns[0]) + SectionIdsSeq(ns[1..])
  }

  /** Reading the tree in pre-order visits the chapters in document order. */
  lemma {:induction false} ChapterIdsInDocumentOrder(e: Node, entities: EntityTable)
    requires e.Element? && (e.tag == "div" ==> "id" in e.attrs)
    requires Chapters(e, entities).Success?
    ensures IdsSeq(Chapters(e, entities).value.children) == SectionIdsSeq(e.children)
    decreases e, 1
  {
    SectionTreesIds(e.children, entities);
  }

  lemma {:induction false} SectionTreesIds(ns: seq<Node>, entities: EntityTable)
    requires SectionTrees(ns, entities).Success?
    ensures IdsSeq(SectionTrees(ns, entities).value) == SectionIdsSeq(ns)
    decreases ns, 0
  {
    if ns != [] {
      SectionTreesIds(ns[1..], entities);
      if IsSection(ns[0]) {
        ChapterIdsInDocumentOrder(ns[0], entities);
        var ts := SectionTrees(ns, entities).value;
        assert ts[1..] == SectionTrees(ns[1..], entities).value;
      }
    }
  }

  /** The first half of `_find_chapters`: the `div[@id]` children are found and
      removed one by one; what is left is the other children, in order. */
  method DetachSections(children: seq<Node>) returns (divs: seq<Node>, kids: seq<Node>)
    ensures divs == Sections(children)
    ensures kids == Remaining(children)
  {
    divs := Sections(children);
    kids := children;
    assert divs[0..] == divs;
    for i := 0 to |divs|
      invariant RemoveEach(children, divs) == RemoveEach(kids, divs[i..])
    {
      assert divs[i..][1..] == divs[i + 1..];
      kids := RemoveFirst(kids, divs[i]);
    }
    RemovingSectionsLeavesRest(children);
  }

  /** `Book._find_chapters`: the `div[@id]` children are found, removed from the
      element one by one, turned into sub-chapters in order, and a `div` then
      gets its own content. */
  method FindChapters(e: Node, entities: EntityTable) returns (r: Result<ChapterTree, Error>)
    requires e.Element? && (e.tag == "div" ==> "id" in e.attrs)
    ensures r == Chapters(e, entities)
    decreases e
  {
    var divs, kids := DetachSections(e.children);
    var element := e.(children := kids);
    SectionTreesOfSections(e.children, entities);
    var children: seq<ChapterTree> := [];
    assert divs[0..] == divs;
    PrependToNothing(SectionTrees(divs, entities));
    SectionsAreChildren(e.children);
    for i := 0 to |divs|
      invariant SectionTrees(divs, entities) == PrependTo(children, SectionTrees(divs[i..], entities))
    {
      assert divs[i..][1..] == divs[i + 1..];
      assert divs[i] in e.children;
      var child := FindChapters(divs[i], entities);
      if child.Failure? {
        return Failure(child.error);
      }
      PrependToTwice(children, [child.value], SectionTrees(divs[i + 1..], entities));
      children := children + [child.value];
    }
    assert divs[|divs|..] == [] && children + [] == children;
    assert element == Detached(e);
    if element.tag == "div" {
      var content := ExtractChapter(element, entities);
      if content.Failure? {
        return Failure(content.error);
      }
      return Success(ChapterTree(children, Some(content.value)));
    }
    return Success(ChapterTree(children, None));
  }
}
