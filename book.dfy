/** Class `Book` (src/xhtml2epub/book.py): reading a parsed document into a
    book (namespace stripping, metadata, entity table, images, stylesheets and
    chapters), and writing its table of contents and spine. */
module Books {
  import opened Wrappers
  import opened Xml
  import opened Strings
  import opened Paths
  import opened Entities
  import opened Assets
  import opened Chapters
  import opened Toc

  // ---------------------------------------------------------------------------
  // The XHTML namespace

  const XhtmlUri := "http://www.w3.org/1999/xhtml"

  /** The XHTML namespace in the parser's `{uri}tag` notation. */
  const XhtmlNamespace := "{" + XhtmlUri + "}"

  lemma XhtmlUriHasNoBrace()
    ensures '{' !in XhtmlUri && '}' !in XhtmlUri
    ensures XhtmlNamespace[0] == '{'
  {
  }

  /** Whether `pat` occurs in `s` starting at index `i`. */
  predicate OccursAt(s: string, pat: string, i: nat) {
    i + |pat| <= |s| && s[i..i + |pat|] == pat
  }

  /** `s.replace(pat, "")`: the occurrences of `pat` found scanning left to
      right without overlap are deleted. */
  function RemoveAll(s: string, pat: string): (r: string)
    requires pat != ""
    ensures |r| <= |s|
    decreases |s|
  {
    if s == [] then []
    else if OccursAt(s, pat, 0) then RemoveAll(s[|pat|..], pat)
    else [s[0]] + RemoveAll(s[1..], pat)
  }

  /** A string in which `pat` never occurs is left as it is. */
  lemma {:induction false} RemoveAllAbsent(s: string, pat: string)
    requires pat != ""
    requires forall i :: 0 <= i < |s| ==> !OccursAt(s, pat, i)
    ensures RemoveAll(s, pat) == s
    decreases |s|
  {
    if s != [] {
      assert !OccursAt(s, pat, 0);
      forall i | 0 <= i < |s[1..]|
        ensures !OccursAt(s[1..], pat, i)
      {
        assert !OccursAt(s, pat, i + 1);
        if i + |pat| <= |s[1..]| {
          assert s[1..][i..i + |pat|] == s[i + 1..i + 1 + |pat|];
        }
      }
      RemoveAllAbsent(s[1..], pat);
    }
  }

  /** Characters that do not start an occurrence are kept in order, and the
      first occurrence after them is deleted: with `RemoveAllAbsent` this says
      every occurrence found left to right is removed and nothing else. */
  lemma {:induction false} RemoveAllSkips(p: string, pat: string, rest: string)
    requires pat != ""
    requires forall i :: 0 <= i < |p| ==> !OccursAt(p + pat + rest, pat, i)
    ensures RemoveAll(p + pat + rest, pat) == p + RemoveAll(rest, pat)
    decreases |p|
  {
    var s := p + pat + rest;
    if p == [] {
      assert s == pat + rest;
      assert OccursAt(s, pat, 0) by {
        assert s[0..|pat|] == pat;
      }
      assert s[|pat|..] == rest;
    } else {
      assert !OccursAt(s, pat, 0);
      assert s[1..] == p[1..] + pat + rest;
      forall i | 0 <= i < |p[1..]|
        ensures !OccursAt(p[1..] + pat + rest, pat, i)
      {
        assert !OccursAt(s, pat, i + 1);
        if i + |pat| <= |s[1..]| {
          assert s[1..][i..i + |pat|] == s[i + 1..i + 1 + |pat|];
        }
      }
      RemoveAllSkips(p[1..], pat, rest);
      assert [p[0]] + (p[1..] + RemoveAll(rest, pat)) == p + RemoveAll(rest, pat);
    }
  }

  /** A namespace-qualified XHTML tag loses its namespace, and a tag in no
      namespace keeps its name. */
  lemma StripXhtmlTag(tag: string)
    requires '{' !in tag
    ensures RemoveAll(XhtmlNamespace + tag, XhtmlNamespace) == tag
    ensures RemoveAll(tag, XhtmlNamespace) == tag
  {
    var s := XhtmlNamespace + tag;
    var n := |XhtmlNamespace|;
    assert OccursAt(s, XhtmlNamespace, 0) by {
      assert s[0..n] == XhtmlNamespace;
    }
    assert s[n..] == tag;
    forall i | 0 <= i < |tag|
      ensures !OccursAt(tag, XhtmlNamespace, i)
    {
      if i + n <= |tag| {
        assert tag[i..i + n][0] == tag[i];
        assert XhtmlNamespace[0] == '{';
      }
    }
    RemoveAllAbsent(tag, XhtmlNamespace);
  }

  /** Two brace-delimited names without a closing brace inside are told
      apart by the first characters of a string that starts with one of them. */
  lemma BracedPrefix(a: string, b: string, rest: string)
    requires '}' !in a && '}' !in b
    requires OccursAt("{" + a + "}" + rest, "{" + b + "}", 0)
    ensures a == b
  {
    var s := "{" + a + "}" + rest;
    var t := "{" + b + "}";
    assert s[..|t|] == t;
    var m := if |a| < |b| then |a| else |b|;
    assert s[m + 1] == t[m + 1];
    assert |a| == |b|;
    assert forall k :: 0 <= k < |a| ==> a[k] == s[k + 1] == t[k + 1] == b[k];
  }

  /** `{uri}local` has its only opening brace at the start. */
  lemma BracedHasOneOpening(uri: string, local: string)
    requires '{' !in uri && '{' !in local
    ensures var s := "{" + uri + "}" + local;
      forall k :: 1 <= k < |s| ==> s[k] != '{'
  {
    var p := "{" + uri + "}";
    var s := p + local;
    assert s == "{" + uri + "}" + local;
    assert forall k :: 1 <= k <= |uri| ==> p[k] == uri[k - 1];
    assert forall k :: |p| <= k < |s| ==> s[k] == local[k - |p|];
  }

  /** A tag in another namespace, `{uri}local`, keeps its namespace. */
  lemma StripOtherNamespace(uri: string, local: string)
    requires uri != XhtmlUri
    requires '{' !in uri && '}' !in uri && '{' !in local
    ensures RemoveAll("{" + uri + "}" + local, XhtmlNamespace) == "{" + uri + "}" + local
  {
    var s := "{" + uri + "}" + local;
    XhtmlUriHasNoBrace();
    BracedHasOneOpening(uri, local);
    forall i | 0 <= i < |s|
      ensures !OccursAt(s, XhtmlNamespace, i)
    {
      if OccursAt(s, XhtmlNamespace, i) {
        assert s[i] == s[i..i + |XhtmlNamespace|][0];
        if i == 0 {
          BracedPrefix(uri, XhtmlUri, local);
        }
      }
    }
    RemoveAllAbsent(s, XhtmlNamespace);
  }

  /** `Book.parse`: every element's tag loses the XHTML namespace; other
      namespaces, attributes and text are kept. */
  function StripNamespaces(n: Node): (r: Node)
    ensures r.Element? <==> n.Element?
    ensures r.Entity? ==> r == n
    ensures r.Element? ==> r.attrs == n.attrs && r.text == n.text && r.tail == n.tail
    ensures r.Element? ==> r.tag == RemoveAll(n.tag, XhtmlNamespace)
    ensures r.Element? ==> |r.children| == |n.children|
    ensures r.Element? ==> forall i :: 0 <= i < |n.children| ==> r.children[i] == StripNamespaces(n.children[i])
    decreases n, 1
  {
    match n
    case Entity(_, _) => n
    case Element(tag, attrs, text, kids, tail) =>
      Element(RemoveAll(tag, XhtmlNamespace), attrs, text, StripNamespacesSeq(kids), tail)
  }

  function StripNamespacesSeq(ns: seq<Node>): (r: seq<Node>)
    ensures |r| == |ns|
    ensures forall i :: 0 <= i < |ns| ==> r[i] == StripNamespaces(ns[i])
    decreases ns, 0
  {
    if ns == [] then [] else [StripNamespaces(ns[0])] + StripNamespacesSeq(ns[1..])
  }

  /** A tree without a brace in any tag comes out of the stripping unchanged. */
  predicate NoBraces(n: Node)
    decreases n
  {
    n.Element? ==> '{' !in n.tag && forall i :: 0 <= i < |n.children| ==> NoBraces(n.children[i])
  }

  lemma {:induction false} StripNamespacesUnchanged(n: Node)
    requires NoBraces(n)
    ensures StripNamespaces(n) == n
    decreases n, 1
  {
    match n
    case Entity(_, _) =>
    case Element(tag, _, _, kids, _) =>
      StripXhtmlTag(tag);
      StripNamespacesSeqUnchanged(kids);
  }

  lemma {:induction false} StripNamespacesSeqUnchanged(ns: seq<Node>)
    requires forall i :: 0 <= i < |ns| ==> NoBraces(ns[i])
    ensures StripNamespacesSeq(ns) == ns
    decreases ns, 0
  {
    if ns != [] {
      StripNamespacesUnchanged(ns[0]);
      StripNamespacesSeqUnchanged(ns[1..]);
      assert [ns[0]] + ns[1..] == ns;
    }
  }

  // ---------------------------------------------------------------------------
  // What `_parse_content` finds

  /** `find(tag)` on the root: the index of its first child with that tag. */
  function FindChild(ns: seq<Node>, tag: string): (r: Option<nat>)
    ensures r.Some? ==> r.value < |ns| && IsTag(ns[r.value], tag)
    ensures r.Some? ==> forall j :: 0 <= j < r.value ==> !IsTag(ns[j], tag)
    ensures r.None? ==> forall j :: 0 <= j < |ns| ==> !IsTag(ns[j], tag)
  {
    if ns == [] then None
    else if IsTag(ns[0], tag) then Some(0)
    else match FindChild(ns[1..], tag)
      case None => None
      case Some(k) => Some(k + 1)
  }

  /** The state `_parse_content` leaves a book in. */
  datatype Structure = Structure(
    content: Node,
    entities: EntityTable,
    images: seq<ImageEntry>,
    cover: Option<string>,
    stylesheets: seq<Attrs>,
    chapters: seq<ChapterTree>)

  /** `Book._parse_content`: the merged entity table; the image table and the
      default `alt` texts; the stylesheet links of the updated tree; the chapters
      under the root's first `body` child, whose sections are then detached. */
  function StructureOf(root: Node, declared: EntityTable, builtins: EntityTable): (r: Result<Structure, Error>)
    requires root.Element?
    ensures r.Failure? ==>
      || r.error == MissingAttribute("src")
      || r.error == NoBody
      || (r.error.UnknownEntity? && r.error.entity !in Merge(builtins, declared))
    ensures r.Success? ==>
      && AllHaveSrc(ImgsSeq(root.children))
      && r.value.entities == Merge(builtins, declared)
      && r.value.images == Table(Srcs(ImgsSeq(root.children)))
      && r.value.cover == CoverOf(r.value.images)
  {
    var entities := Merge(builtins, declared);
    var imgs := ImgsSeq(root.children);
    if !AllHaveSrc(imgs) then Failure(MissingAttribute("src"))
    else
      var images := Table(Srcs(imgs));
      var tree := root.(children := SetImgsSeq(root.children, WithAlts(imgs)));
      var sheets := Stylesheets(tree);
      match FindChild(tree.children, "body")
      case None => Failure(NoBody)
      case Some(b) =>
        var body := tree.children[b];
        var chapters :- Chapters.Chapters(body, entities);
        var content := tree.(children := tree.children[b := Detached(body)]);
        Success(Structure(content, entities, images, CoverOf(images), sheets, chapters.children))
  }

  /** `_internal_entities` then the rest of `_parse_content`: a document
      without an internal DTD raises (AttributeError on `internalDTD`) before
      anything else is read. */
  function ReadDocument(doc: Document, builtins: EntityTable): (r: Result<Structure, Error>)
    requires doc.root.Element?
    ensures doc.dtd.None? ==> r == Failure(NoInternalDtd)
    ensures doc.dtd.Some? ==> r == StructureOf(doc.root, doc.dtd.value, builtins)
  {
    match doc.dtd
    case None => Failure(NoInternalDtd)
    case Some(declared) => StructureOf(doc.root, declared, builtins)
  }

  /** Children whose skeletons agree have the same first `body`. */
  lemma {:induction false} FindChildOfSkeleton(a: seq<Node>, b: seq<Node>, tag: string)
    requires |a| == |b| && forall i :: 0 <= i < |a| ==> SameSkeleton(a[i], b[i])
    ensures FindChild(a, tag) == FindChild(b, tag)
  {
    if a != [] {
      assert IsTag(a[0], tag) <==> IsTag(b[0], tag);
      FindChildOfSkeleton(a[1..], b[1..], tag);
    }
  }

  /** ... and the same number of sections. */
  lemma {:induction false} SectionsOfSkeleton(a: seq<Node>, b: seq<Node>)
    requires |a| == |b| && forall i :: 0 <= i < |a| ==> SameSkeleton(a[i], b[i])
    ensures |Sections(a)| == |Sections(b)|
  {
    if a != [] {
      assert IsSection(a[0]) <==> IsSection(b[0]);
      SectionsOfSkeleton(a[1..], b[1..]);
    }
  }

  /** Reading a document fails with a missing `src` when an `img` lacks one,
      and then with a missing body when the root has no `body` child; once it
      succeeds, there is one top-level chapter per section child of that body
      (none, and so the warning, exactly when the body has no `div[@id]`
      child), every chapter has content, and no chapter's content keeps a
      section. */
  lemma StructureShape(root: Node, declared: EntityTable, builtins: EntityTable)
    requires root.Element?
    ensures var r := StructureOf(root, declared, builtins);
      var imgs := ImgsSeq(root.children);
      var b := FindChild(root.children, "body");
      && (!AllHaveSrc(imgs) ==> r == Failure(MissingAttribute("src")))
      && (AllHaveSrc(imgs) && b.None? ==> r == Failure(NoBody))
      && (r.Success? ==>
            && b.Some?
            && |r.value.chapters| == |Sections(root.children[b.value].children)|
            && forall c :: c in r.value.chapters ==> AllHaveContent(c) && NoNestedSections(c))
  {
    var imgs := ImgsSeq(root.children);
    if AllHaveSrc(imgs) {
      var kids := SetImgsSeq(root.children, WithAlts(imgs));
      SetImgsSeqSkeleton(root.children, WithAlts(imgs));
      FindChildOfSkeleton(kids, root.children, "body");
      var b := FindChild(kids, "body");
      if b.Some? {
        var body := kids[b.value];
        var entities := Merge(builtins, declared);
        assert SameSkeleton(body, root.children[b.value]);
        SectionsOfSkeleton(body.children, root.children[b.value].children);
        if Chapters.Chapters(body, entities).Success? {
          ChapterTreeShape(body, entities);
          ChapterChildrenAreSections(body, entities);
        }
      }
    }
  }

  /** The walk of `_parse_content` over the tree, once the internal DTD is
      found: the `img` attributes are
      scanned and updated in place, the stylesheets collected from the updated
      tree, and the chapters found under the first `body` child, whose sections
      are detached from it. */
  method ReadStructure(doc: Document, builtins: EntityTable) returns (r: Result<Structure, Error>)
    requires doc.root.Element?
    ensures r == ReadDocument(doc, builtins)
    ensures r.Success? ==> doc.dtd.Some? && r.value.entities == Merge(builtins, doc.dtd.value)
    ensures r.Success? ==> forall c :: c in r.value.chapters ==> AllHaveContent(c)
  {
    if doc.dtd.None? {
      return Failure(NoInternalDtd);
    }
    var root, declared := doc.root, doc.dtd.value;
    var entities := Merge(builtins, declared);
    var imgs := ImgsSeq(root.children);
    var attrs := new Attrs[|imgs|](i requires 0 <= i < |imgs| => imgs[i]);
    assert attrs[..] == imgs;
    var scan := FindImages(attrs);
    if scan.Failure? {
      return Failure(scan.error);
    }
    var tree := root.(children := SetImgsSeq(root.children, attrs[..]));
    var sheets := Stylesheets(tree);
    var b := FindChild(tree.children, "body");
    if b.None? {
      return Failure(NoBody);
    }
    var body := tree.children[b.value];
    var found := FindChapters(body, entities);
    if found.Failure? {
      return Failure(found.error);
    }
    ChapterTreeShape(body, entities);
    var content := tree.(children := tree.children[b.value := Detached(body)]);
    var images := scan.value.images;
    return Success(Structure(content, entities, images, scan.value.cover, sheets, found.value.children));
  }

  // ---------------------------------------------------------------------------
  // The book

  /** The suggested name when a value is missing or empty. */
  function OrElse(s: Option<string>, default: string): (r: string)
    requires default != ""
    ensures r != ""
    ensures s.Some? && s.value != "" ==> r == s.value
    ensures s.None? || s.value == "" ==> r == default
  {
    if s.Some? && s.value != "" then s.value else default
  }

  /** The directory files of a book are looked up in: that of its source file,
      and none when the book has no (or an empty) source path. */
  function SourceDir(source: Option<string>): (r: Option<string>)
    ensures r.Some? <==> source.Some? && source.value != ""
  {
    if source.Some? && source.value != "" then Some(Dirname(source.value)) else None
  }

  class Book {
    const source: Option<string>
    const sourceDir: Option<string>
    const title: Option<string>
    const author: Option<string>
    const language: Option<string>
    const uid: Option<string>

    var content: Node
    var entities: EntityTable
    var images: seq<ImageEntry>
    var cover: Option<string>
    var stylesheets: seq<Attrs>
    var chapters: seq<ChapterTree>
    /** Whether the "no chapters found" warning was issued. */
    var warned: bool
    var spine: seq<Page>

    /** Every chapter can be written out. */
    ghost predicate Valid()
      reads this
    {
      forall c :: c in chapters ==> AllHaveContent(c)
    }

    /** The metadata half of `__init__`: a book with a source remembers that
        source's directory. */
    constructor (root: Node, source: Option<string>, title: Option<string>, author: Option<string>,
                 language: Option<string>, uid: Option<string>)
      ensures this.source == source && this.title == title && this.author == author
      ensures this.language == language && this.uid == uid
      ensures sourceDir == SourceDir(source)
      ensures content == root && entities == map[] && images == [] && cover == None
      ensures stylesheets == [] && chapters == [] && !warned && spine == []
      ensures Valid()
    {
      this.source := source;
      sourceDir := SourceDir(source);
      this.title := title;
      this.author := author;
      this.language := language;
      this.uid := uid;
      content := root;
      entities := map[];
      images := [];
      cover := None;
      stylesheets := [];
      chapters := [];
      warned := false;
      spine := [];
    }

    /** `Book._parse_content`: on success the book holds what `ReadDocument`
        describes, and the warning is issued exactly when no chapter was found;
        on failure the error is the one `ReadDocument` reports. */
    method ParseContent(doc: Document, builtins: EntityTable) returns (r: Result<(), Error>)
      requires doc.root.Element?
      modifies this
      ensures r.Success? <==> ReadDocument(doc, builtins).Success?
      ensures r.Failure? ==> r.error == ReadDocument(doc, builtins).error
      ensures r.Success? ==>
        Structure(content, entities, images, cover, stylesheets, chapters) == ReadDocument(doc, builtins).value
      ensures r.Success? ==> warned == (chapters == []) && spine == old(spine) && Valid()
    {
      content := doc.root;
      entities := builtins;
      var found := ReadStructure(doc, builtins);
      if found.Failure? {
        return Failure(found.error);
      }
      Install(found.value);
      return Success(());
    }

    /** The assignments of `_parse_content` once the walk has succeeded, with
        the warning issued when there are no chapters. */
    method Install(st: Structure)
      requires forall c :: c in st.chapters ==> AllHaveContent(c)
      modifies this
      ensures Structure(content, entities, images, cover, stylesheets, chapters) == st
      ensures warned == (chapters == []) && spine == old(spine) && Valid()
    {
      content, entities, images, cover := st.content, st.entities, st.images, st.cover;
      stylesheets, chapters := st.stylesheets, st.chapters;
      warned := chapters == [];
    }

    /** `Book.epub_filename`: "author - title.epub", with "Unknown Author" and
        "Unknown Title" standing in for a missing or empty value. */
    function EpubFilename(): (r: string)
      ensures var a := OrElse(author, "Unknown Author");
        |a| + 3 <= |r| && r[..|a|] == a && r[|a|..|a| + 3] == " - "
      ensures var t := OrElse(title, "Unknown Title");
        |t| + 5 <= |r| && r[|r| - 5 - |t|..|r| - 5] == t && r[|r| - 5..] == ".epub"
      ensures |r| == |OrElse(author, "Unknown Author")| + 3 + |OrElse(title, "Unknown Title")| + 5
    {
      OrElse(author, "Unknown Author") + " - " + OrElse(title, "Unknown Title") + ".epub"
    }

    /** The path choice of `Book._read_book_file`: an absolute path, or any
        path when the source directory is empty, is used as it is; a relative
        path is otherwise joined onto the source directory; a book without a
        source has no directory to consult. */
    function ResolvePath(path: string): (r: Result<string, Error>)
      ensures r.Failure? <==> !IsAbs(path) && sourceDir.None?
      ensures r.Failure? ==> r.error == MissingSourceDir
      ensures IsAbs(path) ==> r == Success(path)
      ensures !IsAbs(path) && sourceDir == Some("") ==> r == Success(path)
      ensures !IsAbs(path) && sourceDir.Some? && sourceDir.value != "" ==> r == Success(JoinPath(sourceDir.value, path))
      ensures r.Success? ==> FileName(r.value) == FileName(path)
      ensures r.Success? && !IsAbs(path) ==>
        var d := sourceDir.value;
        |d| + |path| <= |r.value| && r.value[..|d|] == d && r.value[|r.value| - |path|..] == path
    {
      if IsAbs(path) then Success(path)
      else if sourceDir.None? then Failure(MissingSourceDir)
      else if sourceDir.value == "" then Success(path)
      else
        FileNameOfJoinPath(sourceDir.value, path);
        Success(JoinPath(sourceDir.value, path))
    }

    /** `Book._add_chapter`: the chapter's page, if it has one, is appended to
        the spine before those of its sub-chapters; the entry and the appended
        pages are those `Add` describes. */
    method AddChapter(ch: ChapterTree, serialize: Node -> seq<Byte>) returns (r: Result<NavEntry, Error>)
      requires AllHaveContent(ch)
      modifies this`spine
      ensures var a := Add(ch, Context(entities, stylesheets, serialize));
        && (r.Success? <==> a.Success?)
        && (r.Failure? ==> r.error == a.error)
        && (r.Success? ==> r.value == a.value.entry && spine == old(spine) + a.value.spine)
      decreases ch, 1
    {
      ghost var ctx := Context(entities, stylesheets, serialize);
      var item := ItemOf(ch.content.value, Context(entities, stylesheets, serialize));
      if item.Failure? {
        assert Add(ch, ctx) == Failure(item.error);
        return Failure(item.error);
      }
      spine := spine + OwnPages(item.value);
      if ch.children == [] {
        assert Add(ch, ctx) == Success(Added(Leaf(item.value), OwnPages(item.value)));
        return Success(Leaf(item.value));
      }
      var kids := AddChildren(ch.children, serialize);
      ghost var all := AddAll(ch.children, ctx);
      if kids.Failure? {
        assert Add(ch, ctx) == Failure(all.error);
        return Failure(kids.error);
      }
      assert Add(ch, ctx) == Success(Added(Nested(item.value, all.value.entries), OwnPages(item.value) + all.value.spine));
      return Success(Nested(item.value, kids.value));
    }

    /** The list comprehension of `_add_chapter` and the loop of
        `_add_chapters`: each chapter is added in turn, its pages appended to the
        spine; the entries and the appended pages are those `AddAll`
        describes. */
    method AddChildren(chs: seq<ChapterTree>, serialize: Node -> seq<Byte>) returns (r: Result<seq<NavEntry>, Error>)
      requires forall c :: c in chs ==> AllHaveContent(c)
      modifies this`spine
      ensures var a := AddAll(chs, Context(entities, stylesheets, serialize));
        && (r.Success? <==> a.Success?)
        && (r.Failure? ==> r.error == a.error)
        && (r.Success? ==> r.value == a.value.entries && spine == old(spine) + a.value.spine)
      decreases chs, 0
    {
      var ctx := Context(entities, stylesheets, serialize);
      var entries: seq<NavEntry> := [];
      ghost var added: seq<Page> := [];
      CombineNothing(AddAll(chs, ctx));
      assert chs[0..] == chs;
      for i := 0 to |chs|
        invariant spine == old(spine) + added
        invariant AddAll(chs, ctx) == Combine(entries, added, AddAll(chs[i..], ctx))
      {
        assert chs[i] in chs;
        var entry := AddChapter(chs[i], serialize);
        AddAllAdvance(chs, i, ctx, entries, added);
        if entry.Failure? {
          return Failure(entry.error);
        }
        ghost var a := Add(chs[i], ctx).value;
        entries := entries + [entry.value];
        added := added + a.spine;
      }
      assert chs[|chs|..] == [];
      assert entries + [] == entries && added + [] == added;
      return Success(entries);
    }

    /** `Book._add_chapters`: the spine is restarted and the top-level chapters
        are added in turn. */
    method AddChapters(serialize: Node -> seq<Byte>) returns (r: Result<seq<NavEntry>, Error>)
      requires Valid()
      modifies this`spine
      ensures var a := AddAll(chapters, Context(entities, stylesheets, serialize));
        && (r.Success? <==> a.Success?)
        && (r.Failure? ==> r.error == a.error)
        && (r.Success? ==> r.value == a.value.entries && spine == a.value.spine)
    {
      spine := [];
      r := AddChildren(chapters, serialize);
    }
  }

  /** `Book.__init__`: the metadata are stored and the content is read at once;
      a document that cannot be read gives no book, and one that can always
      gives one. */
  method Open(doc: Document, builtins: EntityTable, source: Option<string>,
              title: Option<string>, author: Option<string>, language: Option<string>, uid: Option<string>)
    returns (r: Result<Book, Error>)
    requires doc.root.Element?
    ensures ReadDocument(doc, builtins).Failure? ==> r == Failure(ReadDocument(doc, builtins).error)
    ensures ReadDocument(doc, builtins).Success? ==> r.Success?
    ensures r.Success? ==>
      var b := r.value;
      var s := ReadDocument(doc, builtins);
      && fresh(b) && b.Valid() && s.Success?
      && b.source == source && b.sourceDir == SourceDir(source)
      && b.title == title && b.author == author && b.language == language && b.uid == uid
      && b.content == s.value.content && b.entities == s.value.entities
      && b.images == s.value.images && b.cover == s.value.cover
      && b.stylesheets == s.value.stylesheets && b.chapters == s.value.chapters
      && b.warned == (b.chapters == []) && b.spine == []
  {
    var b := new Book(doc.root, source, title, author, language, uid);
    var parsed := b.ParseContent(doc, builtins);
    if parsed.Failure? {
      return Failure(parsed.error);
    }
    return Success(b);
  }

  /** `Book.parse` on a document already read: the XHTML namespace is stripped
      from the tags, the internal DTD must exist, and the title, author,
      language and uid come from the entities it declares; the book then holds
      what `StructureOf` finds in the stripped tree. */
  method Parse(doc: Document, source: string, builtins: EntityTable) returns (r: Result<Book, Error>)
    requires doc.root.Element?
    ensures doc.dtd.None? ==> r == Failure(NoInternalDtd)
    ensures doc.dtd.Some? ==>
      var root := StripNamespaces(doc.root);
      var m := MetadataOf(doc.dtd.value);
      var s := StructureOf(root, doc.dtd.value, builtins);
      && (s.Failure? ==> r == Failure(s.error))
      && (s.Success? ==> r.Success?)
      && (r.Success? ==>
            var b := r.value;
            && fresh(b) && b.Valid() && s.Success?
            && b.source == Some(source) && b.sourceDir == SourceDir(Some(source))
            && b.title == m.title && b.author == m.author
            && b.language == m.language && b.uid == m.uid
            && b.content == s.value.content && b.entities == Merge(builtins, doc.dtd.value)
            && b.images == s.value.images && b.cover == s.value.cover
            && b.stylesheets == s.value.stylesheets && b.chapters == s.value.chapters
            && b.warned == (b.chapters == []) && b.spine == [])
  {
    if doc.dtd.None? {
      return Failure(NoInternalDtd);
    }
    var stripped := Document(StripNamespaces(doc.root), doc.dtd);
    var m := MetadataOf(doc.dtd.value);
    r := Open(stripped, builtins, Some(source), m.title, m.author, m.language, m.uid);
  }

  /** A book read from "dir/name" finds a relative path "p" at "dir/p". */
  lemma ResolveBesideSource(b: Book, dir: string, name: string, path: string)
    requires b.sourceDir == SourceDir(Some(dir + "/" + name))
    requires '/' !in name && dir != [] && dir[|dir| - 1] != '/' && !IsAbs(path)
    ensures b.ResolvePath(path) == Success(dir + "/" + path)
  {
    DirnameOfJoined(dir, name);
  }

  /** A book read from a bare file name ("book.xhtml") has the empty directory,
      so a relative path is looked up as it stands. */
  lemma ResolveBesideBareSource(b: Book, name: string, path: string)
    requires b.sourceDir == SourceDir(Some(name))
    requires name != "" && '/' !in name && !IsAbs(path)
    ensures b.sourceDir == Some("")
    ensures b.ResolvePath(path) == Success(path)
  {
  }
}
