/** The asset scans of `Book` (src/xhtml2epub/book.py): `_find_images`, which
    builds the insertion-ordered image table, picks the cover and fills in
    missing `alt` attributes in place, and `_find_stylesheets`. */
module Assets {
  import opened Wrappers
  import opened Xml
  import opened Strings
  import opened Paths

  // ---------------------------------------------------------------------------
  // The `img` elements of a tree, and writing their attribute maps back

  predicate IsImg(n: Node) {
    n.Element? && n.tag == "img"
  }

  /** The attribute maps of the `img` elements among `es`, in order. */
  function ImgAttrs(es: seq<Node>): seq<Attrs> {
    if es == [] then []
    else (if IsImg(es[0]) then [es[0].attrs] else []) + ImgAttrs(es[1..])
  }

  lemma {:induction false} ImgAttrsAppend(a: seq<Node>, b: seq<Node>)
    ensures ImgAttrs(a + b) == ImgAttrs(a) + ImgAttrs(b)
  {
    if a != [] {
      assert (a + b)[1..] == a[1..] + b;
      ImgAttrsAppend(a[1..], b);
    } else {
      assert a + b == b;
    }
  }

  /** `content.iter("img")`: the attribute maps of the `img` elements of a
      subtree (itself included), taken in document order from all of its
      elements. */
  function Imgs(n: Node): (r: seq<Attrs>)
    ensures n.Entity? ==> r == []
    ensures IsImg(n) ==> r != [] && r[0] == n.attrs
    decreases n, 1
  {
    match n
    case Entity(_, _) => []
    case Element(tag, attrs, _, kids, _) => (if tag == "img" then [attrs] else []) + ImgsSeq(kids)
  }

  /** The same for a list of sibling subtrees. */
  function ImgsSeq(ns: seq<Node>): (r: seq<Attrs>)
    ensures ns == [] ==> r == []
    decreases ns, 0
  {
    if ns == [] then [] else Imgs(ns[0]) + ImgsSeq(ns[1..])
  }

  /** The `img` maps are those of the `img` elements among all elements of the
      subtree, in document order. */
  lemma {:induction false} ImgsInDocumentOrder(n: Node)
    ensures Imgs(n) == ImgAttrs(Elements(n))
    decreases n, 1
  {
    match n
    case Entity(_, _) =>
    case Element(_, _, _, kids, _) =>
      ImgsSeqInDocumentOrder(kids);
      ImgAttrsAppend([n], ElementsSeq(kids));
  }

  lemma {:induction false} ImgsSeqInDocumentOrder(ns: seq<Node>)
    ensures ImgsSeq(ns) == ImgAttrs(ElementsSeq(ns))
    decreases ns, 0
  {
    if ns != [] {
      ImgsInDocumentOrder(ns[0]);
      ImgsSeqInDocumentOrder(ns[1..]);
      ImgAttrsAppend(Elements(ns[0]), ElementsSeq(ns[1..]));
    }
  }

  /** The subtree with the attribute maps of its `img` elements replaced, in
      document order, by `xs`; nothing else changes. This is what writing
      `img.attrib[...]` in place does to the tree. */
  function SetImgs(n: Node, xs: seq<Attrs>): (r: Node)
    requires |xs| == |Imgs(n)|
    ensures n.Entity? ==> r == n
    ensures n.Element? ==> r.Element? && r.tag == n.tag && r.text == n.text && r.tail == n.tail
    ensures n.Element? ==> |r.children| == |n.children|
    ensures IsImg(n) ==> r.attrs == xs[0]
    ensures n.Element? && !IsImg(n) ==> r.attrs == n.attrs
    decreases n, 1
  {
    match n
    case Entity(_, _) => n
    case Element(tag, attrs, text, kids, tail) =>
      if tag == "img" then Element(tag, xs[0], text, SetImgsSeq(kids, xs[1..]), tail)
      else Element(tag, attrs, text, SetImgsSeq(kids, xs), tail)
  }

  function SetImgsSeq(ns: seq<Node>, xs: seq<Attrs>): (r: seq<Node>)
    requires |xs| == |ImgsSeq(ns)|
    ensures |r| == |ns|
    decreases ns, 0
  {
    if ns == [] then []
    else
      var k := |Imgs(ns[0])|;
      [SetImgs(ns[0], xs[..k])] + SetImgsSeq(ns[1..], xs[k..])
  }

  /** Reading the `img` attributes back after writing them gives what was written. */
  lemma {:induction false} ImgsOfSetImgs(n: Node, xs: seq<Attrs>)
    requires |xs| == |Imgs(n)|
    ensures Imgs(SetImgs(n, xs)) == xs
    decreases n, 1
  {
    match n
    case Entity(_, _) =>
    case Element(tag, attrs, text, kids, tail) =>
      if tag == "img" {
        ImgsSeqOfSetImgsSeq(kids, xs[1..]);
        assert SetImgs(n, xs) == Element(tag, xs[0], text, SetImgsSeq(kids, xs[1..]), tail);
        assert [xs[0]] + xs[1..] == xs;
      } else {
        ImgsSeqOfSetImgsSeq(kids, xs);
        assert SetImgs(n, xs) == Element(tag, attrs, text, SetImgsSeq(kids, xs), tail);
      }
  }

  lemma {:induction false} ImgsSeqOfSetImgsSeq(ns: seq<Node>, xs: seq<Attrs>)
    requires |xs| == |ImgsSeq(ns)|
    ensures ImgsSeq(SetImgsSeq(ns, xs)) == xs
    decreases ns, 0
  {
    if ns != [] {
      var k := |Imgs(ns[0])|;
      ImgsOfSetImgs(ns[0], xs[..k]);
      ImgsSeqOfSetImgsSeq(ns[1..], xs[k..]);
      var r := SetImgsSeq(ns, xs);
      assert r[0] == SetImgs(ns[0], xs[..k]);
      assert r[1..] == SetImgsSeq(ns[1..], xs[k..]);
      assert xs[..k] + xs[k..] == xs;
    }
  }

  /** Writing back the maps a tree already has leaves it as it is. */
  lemma {:induction false} SetImgsUnchanged(n: Node)
    ensures SetImgs(n, Imgs(n)) == n
    decreases n, 1
  {
    match n
    case Entity(_, _) =>
    case Element(tag, attrs, text, kids, tail) =>
      SetImgsSeqUnchanged(kids);
      if tag == "img" {
        assert Imgs(n)[1..] == ImgsSeq(kids);
      } else {
        assert Imgs(n) == ImgsSeq(kids);
      }
  }

  lemma {:induction false} SetImgsSeqUnchanged(ns: seq<Node>)
    ensures SetImgsSeq(ns, ImgsSeq(ns)) == ns
    decreases ns, 0
  {
    if ns != [] {
      var xs := ImgsSeq(ns);
      var k := |Imgs(ns[0])|;
      assert xs[..k] == Imgs(ns[0]) && xs[k..] == ImgsSeq(ns[1..]);
      SetImgsUnchanged(ns[0]);
      SetImgsSeqUnchanged(ns[1..]);
      assert [ns[0]] + ns[1..] == ns;
    }
  }

  /** Two trees with the same nodes, tags, texts, tails and children, whose
      attributes can differ only on `img` elements. */
  predicate SameSkeleton(a: Node, b: Node)
    decreases a
  {
    && (a.Element? <==> b.Element?)
    && (a.Entity? ==> a == b)
    && (a.Element? ==>
          && a.tag == b.tag && a.text == b.text && a.tail == b.tail
          && (a.tag != "img" ==> a.attrs == b.attrs)
          && |a.children| == |b.children|
          && forall i :: 0 <= i < |a.children| ==> SameSkeleton(a.children[i], b.children[i]))
  }

  /** Writing the `img` attributes changes nothing but the `img` attributes. */
  lemma {:induction false} SetImgsSkeleton(n: Node, xs: seq<Attrs>)
    requires |xs| == |Imgs(n)|
    ensures SameSkeleton(SetImgs(n, xs), n)
    decreases n, 1
  {
    match n
    case Entity(_, _) =>
    case Element(tag, attrs, text, kids, tail) =>
      if tag == "img" {
        SetImgsSeqSkeleton(kids, xs[1..]);
      } else {
        SetImgsSeqSkeleton(kids, xs);
      }
  }

  lemma {:induction false} SetImgsSeqSkeleton(ns: seq<Node>, xs: seq<Attrs>)
    requires |xs| == |ImgsSeq(ns)|
    ensures |SetImgsSeq(ns, xs)| == |ns|
    ensures forall i :: 0 <= i < |ns| ==> SameSkeleton(SetImgsSeq(ns, xs)[i], ns[i])
    decreases ns, 0
  {
    if ns != [] {
      var k := |Imgs(ns[0])|;
      SetImgsSkeleton(ns[0], xs[..k]);
      SetImgsSeqSkeleton(ns[1..], xs[k..]);
      var r := SetImgsSeq(ns, xs);
      assert r[1..] == SetImgsSeq(ns[1..], xs[k..]);
      forall i | 1 <= i < |ns|
        ensures SameSkeleton(r[i], ns[i])
      {
        assert r[i] == r[1..][i - 1] && ns[i] == ns[1..][i - 1];
      }
    }
  }

  // ---------------------------------------------------------------------------
  // The image table

  /** `f"img.{_basename(src)}"`. */
  function ImageId(src: string): (r: string)
    ensures |r| >= 4 && r[..4] == "img." && '/' !in r
  {
    "img." + Basename(src)
  }

  /** The id of "dir/stem.ext" is "img.stem": the directory and the extension
      play no part. */
  lemma ImageIdOfPath(dir: string, stem: string, ext: string)
    requires '/' !in stem && '/' !in ext && '.' !in ext
    requires exists i :: 0 <= i < |stem| && stem[i] != '.'
    ensures ImageId(dir + "/" + stem + "." + ext) == "img." + stem
    ensures ImageId(stem + "." + ext) == "img." + stem
  {
    BasenameOfJoined(dir, stem, ext);
    BasenameOfName(stem, ext);
  }

  datatype ImageEntry = ImageEntry(id: string, src: string)

  /** The result of `_find_images`: the table in insertion order, and the cover. */
  datatype ImageScan = ImageScan(images: seq<ImageEntry>, cover: Option<string>)

  predicate AllHaveSrc(imgs: seq<Attrs>) {
    forall i :: 0 <= i < |imgs| ==> "src" in imgs[i]
  }

  function Srcs(imgs: seq<Attrs>): (r: seq<string>)
    requires AllHaveSrc(imgs)
    ensures |r| == |imgs|
  {
    seq(|imgs|, i requires 0 <= i < |imgs| => imgs[i]["src"])
  }

  /** The keys of the table, in order. */
  function Ids(table: seq<ImageEntry>): (r: seq<string>)
    ensures |r| == |table|
  {
    seq(|table|, i requires 0 <= i < |table| => table[i].id)
  }

  /** The id of every image, one per `img`, duplicates included. */
  function IdsOf(srcs: seq<string>): (r: seq<string>)
    ensures |r| == |srcs|
  {
    seq(|srcs|, i requires 0 <= i < |srcs| => ImageId(srcs[i]))
  }

  /** One step of the loop: an id already a key leaves the table as it is;
      otherwise the entry is appended. */
  function Insert(table: seq<ImageEntry>, id: string, src: string): seq<ImageEntry> {
    if id in Ids(table) then table else table + [ImageEntry(id, src)]
  }

  /** The table after the loop has seen images with ids `ids` and sources `srcs`. */
  function TableOf(ids: seq<string>, srcs: seq<string>): (r: seq<ImageEntry>)
    requires |ids| == |srcs|
    ensures |r| <= |ids|
    ensures r == [] <==> ids == []
  {
    if ids == [] then []
    else
      var n := |ids| - 1;
      Insert(TableOf(ids[..n], srcs[..n]), ids[n], srcs[n])
  }

  /** The table `_find_images` builds from the `src` of every `img`. */
  function Table(srcs: seq<string>): (r: seq<ImageEntry>)
    ensures |r| <= |srcs|
    ensures r == [] <==> srcs == []
  {
    TableOf(IdsOf(srcs), srcs)
  }

  /** `cover` is set at the first insertion and never again. */
  function CoverOf(table: seq<ImageEntry>): (r: Option<string>)
    ensures r.Some? <==> table != []
    ensures r.Some? ==> r.value == table[0].id
  {
    if table == [] then None else Some(table[0].id)
  }

  /** `ids.index(id)`, or -1 when absent. */
  function FirstIndex(ids: seq<string>, id: string): (k: int)
    ensures -1 <= k < |ids|
    ensures k >= 0 ==> ids[k] == id && forall j :: 0 <= j < k ==> ids[j] != id
    ensures k < 0 <==> id !in ids
  {
    if ids == [] then -1
    else if ids[0] == id then 0
    else
      var k := FirstIndex(ids[1..], id);
      if k < 0 then -1 else k + 1
  }

  lemma FirstIndexOfPrefix(ids: seq<string>, x: string, id: string)
    ensures id in ids ==> FirstIndex(ids + [x], id) == FirstIndex(ids, id)
    ensures id !in ids && id == x ==> FirstIndex(ids + [x], id) == |ids|
  {
    var k' := FirstIndex(ids, id);
    if id in ids {
      assert (ids + [x])[k'] == id;
      assert forall j :: 0 <= j < k' ==> (ids + [x])[j] == ids[j];
    } else if id == x {
      assert (ids + [x])[|ids|] == id;
      assert forall j :: 0 <= j < |ids| ==> (ids + [x])[j] == ids[j];
    }
  }

  /** The table has a key exactly for every id seen. */
  lemma {:induction false} TableOfKeys(ids: seq<string>, srcs: seq<string>)
    requires |ids| == |srcs|
    ensures forall id :: id in Ids(TableOf(ids, srcs)) <==> id in ids
  {
    if ids != [] {
      var n := |ids| - 1;
      TableOfKeys(ids[..n], srcs[..n]);
      assert ids == ids[..n] + [ids[n]];
      var t := TableOf(ids[..n], srcs[..n]);
      if ids[n] !in Ids(t) {
        assert Ids(t + [ImageEntry(ids[n], srcs[n])]) == Ids(t) + [ids[n]];
      }
    }
  }

  /** The keys are the distinct ids in order of first appearance, each mapping to
      the source at its first appearance. */
  predicate FirstOccurrences(t: seq<ImageEntry>, ids: seq<string>, srcs: seq<string>)
    requires |ids| == |srcs|
  {
    && (forall i :: 0 <= i < |t| ==>
          0 <= FirstIndex(ids, t[i].id) && t[i].src == srcs[FirstIndex(ids, t[i].id)])
    && (forall i, j :: 0 <= i < j < |t| ==> FirstIndex(ids, t[i].id) < FirstIndex(ids, t[j].id))
  }

  lemma InsertKeepsFirstOccurrences(t: seq<ImageEntry>, ids: seq<string>, srcs: seq<string>, id: string, src: string)
    requires |ids| == |srcs| && FirstOccurrences(t, ids, srcs)
    requires forall x :: x in Ids(t) <==> x in ids
    ensures FirstOccurrences(Insert(t, id, src), ids + [id], srcs + [src])
  {
    var ids', srcs' := ids + [id], srcs + [src];
    forall i | 0 <= i < |t|
      ensures 0 <= FirstIndex(ids', t[i].id) == FirstIndex(ids, t[i].id) < |ids|
      ensures t[i].src == srcs'[FirstIndex(ids', t[i].id)]
    {
      assert Ids(t)[i] == t[i].id;
      FirstIndexOfPrefix(ids, id, t[i].id);
      var k := FirstIndex(ids, t[i].id);
      assert srcs[k] == srcs'[k];
    }
    if id !in Ids(t) {
      FirstIndexOfPrefix(ids, id, id);
      var t' := t + [ImageEntry(id, src)];
      assert srcs'[|ids|] == src;
      forall i | 0 <= i < |t'|
        ensures 0 <= FirstIndex(ids', t'[i].id) && t'[i].src == srcs'[FirstIndex(ids', t'[i].id)]
      {
        if i < |t| { assert t'[i] == t[i]; }
      }
      forall i, j | 0 <= i < j < |t'| ensures FirstIndex(ids', t'[i].id) < FirstIndex(ids', t'[j].id) {
        assert t'[i] == t[i];
        if j < |t| {
          assert t'[j] == t[j];
          assert FirstIndex(ids, t[i].id) < FirstIndex(ids, t[j].id);
        }
      }
    } else {
      forall i, j | 0 <= i < j < |t| ensures FirstIndex(ids', t[i].id) < FirstIndex(ids', t[j].id) {
        assert FirstIndex(ids, t[i].id) < FirstIndex(ids, t[j].id);
      }
    }
  }

  lemma {:induction false} TableOfFirstOccurrences(ids: seq<string>, srcs: seq<string>)
    requires |ids| == |srcs|
    ensures FirstOccurrences(TableOf(ids, srcs), ids, srcs)
  {
    if ids != [] {
      var n := |ids| - 1;
      TableOfFirstOccurrences(ids[..n], srcs[..n]);
      TableOfKeys(ids[..n], srcs[..n]);
      InsertKeepsFirstOccurrences(TableOf(ids[..n], srcs[..n]), ids[..n], srcs[..n], ids[n], srcs[n]);
      assert ids == ids[..n] + [ids[n]] && srcs == srcs[..n] + [srcs[n]];
    }
  }

  /** The image table: its keys are exactly the ids of the images, in order of
      first appearance, each mapping to the `src` of the first `img` with that
      id. */
  lemma TableIsFirstOccurrences(srcs: seq<string>)
    ensures var t := Table(srcs);
      && (forall id :: id in Ids(t) <==> id in IdsOf(srcs))
      && (forall i :: 0 <= i < |t| ==>
            0 <= FirstIndex(IdsOf(srcs), t[i].id) && t[i].src == srcs[FirstIndex(IdsOf(srcs), t[i].id)])
      && (forall i, j :: 0 <= i < j < |t| ==>
            FirstIndex(IdsOf(srcs), t[i].id) < FirstIndex(IdsOf(srcs), t[j].id))
  {
    var ids := IdsOf(srcs);
    assert Table(srcs) == TableOf(ids, srcs);
    TableOfKeys(ids, srcs);
    TableOfFirstOccurrences(ids, srcs);
  }

  /** Distinct keys: the table is a dictionary. */
  lemma TableKeysDistinct(srcs: seq<string>)
    ensures forall i, j :: 0 <= i < j < |Table(srcs)| ==> Table(srcs)[i].id != Table(srcs)[j].id
  {
    TableIsFirstOccurrences(srcs);
  }

  /** A later `img` whose id is already a key leaves the table unchanged. */
  lemma DuplicateLeavesTable(srcs: seq<string>, src: string)
    requires ImageId(src) in IdsOf(srcs)
    ensures Table(srcs + [src]) == Table(srcs)
  {
    var ids := IdsOf(srcs + [src]);
    assert ids[..|srcs|] == IdsOf(srcs);
    assert (srcs + [src])[..|srcs|] == srcs;
    assert ids[|srcs|] == ImageId(src);
    TableIsFirstOccurrences(srcs);
  }

  /** The cover is the id of the very first image, or None without images. */
  /** In a table ordered by first occurrence, the entry of the very first id
      comes first. */
  lemma EarliestIsFirst(t: seq<ImageEntry>, ids: seq<string>, i: nat)
    requires i < |t| && FirstIndex(ids, t[i].id) == 0 && 0 <= FirstIndex(ids, t[0].id)
    requires forall i, j :: 0 <= i < j < |t| ==> FirstIndex(ids, t[i].id) < FirstIndex(ids, t[j].id)
    ensures i == 0
  {
  }

  lemma CoverIsFirstImage(srcs: seq<string>)
    ensures CoverOf(Table(srcs)) == if srcs == [] then None else Some(ImageId(srcs[0]))
  {
    if srcs != [] {
      var ids := IdsOf(srcs);
      var t := Table(srcs);
      TableIsFirstOccurrences(srcs);
      assert ids[0] in Ids(t);
      var i :| 0 <= i < |t| && Ids(t)[i] == ids[0];
      assert FirstIndex(ids, t[i].id) == 0;
      EarliestIsFirst(t, ids, i);
      assert CoverOf(t) == Some(t[0].id);
    }
  }


  // ---------------------------------------------------------------------------
  // The default `alt` attribute

  /** One `img` after the loop body, given the ids of the `img`s before it: it
      gains `alt = basename.capitalize()` when its id is new (not yet a key) and
      it has no `alt`. */
  function AltDefault(attrs: Attrs, seen: seq<string>): (r: Attrs)
    requires "src" in attrs
    ensures forall a :: a in attrs ==> a in r && r[a] == attrs[a]
    ensures r.Keys <= attrs.Keys + {"alt"}
    ensures ImageId(attrs["src"]) !in seen ==> "alt" in r
    ensures ImageId(attrs["src"]) !in seen && "alt" !in attrs ==> r["alt"] == Capitalize(Basename(attrs["src"]))
    ensures ImageId(attrs["src"]) in seen ==> r == attrs
  {
    var src := attrs["src"];
    if ImageId(src) !in seen && "alt" !in attrs then attrs["alt" := Capitalize(Basename(src))] else attrs
  }

  /** Every `img` after the whole loop. */
  function WithAlts(imgs: seq<Attrs>): (r: seq<Attrs>)
    requires AllHaveSrc(imgs)
    ensures |r| == |imgs|
    ensures forall k :: 0 <= k < |imgs| ==> "src" in r[k] && r[k]["src"] == imgs[k]["src"]
  {
    var ids := IdsOf(Srcs(imgs));
    seq(|imgs|, k requires 0 <= k < |imgs| => AltDefault(imgs[k], ids[..k]))
  }

  lemma WithAltsAt(imgs: seq<Attrs>, k: nat)
    requires AllHaveSrc(imgs) && k < |imgs|
    ensures WithAlts(imgs)[k] == AltDefault(imgs[k], IdsOf(Srcs(imgs))[..k])
  {
  }

  /** The default `alt` keeps every attribute already present and can add
      only `alt`. */
  lemma DefaultAltsKeep(imgs: seq<Attrs>)
    requires AllHaveSrc(imgs)
    ensures var r := WithAlts(imgs);
      && (forall k, a :: 0 <= k < |imgs| && a in imgs[k] ==> a in r[k] && r[k][a] == imgs[k][a])
      && (forall k :: 0 <= k < |imgs| ==> r[k].Keys <= imgs[k].Keys + {"alt"})
  {
    forall k | 0 <= k < |imgs| {
      WithAltsAt(imgs, k);
    }
  }

  /** The first `img` of every id ends up with an `alt`; when it had none, the
      `alt` is its capitalised basename. */
  lemma DefaultAltsFirst(imgs: seq<Attrs>)
    requires AllHaveSrc(imgs)
    ensures forall id :: id in IdsOf(Srcs(imgs)) ==> "alt" in WithAlts(imgs)[FirstIndex(IdsOf(Srcs(imgs)), id)]
    ensures forall id :: id in IdsOf(Srcs(imgs)) ==>
      var k := FirstIndex(IdsOf(Srcs(imgs)), id);
      "alt" !in imgs[k] ==> WithAlts(imgs)[k]["alt"] == Capitalize(Basename(imgs[k]["src"]))
  {
    var ids := IdsOf(Srcs(imgs));
    forall id | id in ids
      ensures "alt" in WithAlts(imgs)[FirstIndex(ids, id)]
      ensures var k := FirstIndex(ids, id);
        "alt" !in imgs[k] ==> WithAlts(imgs)[k]["alt"] == Capitalize(Basename(imgs[k]["src"]))
    {
      var k := FirstIndex(ids, id);
      WithAltsAt(imgs, k);
      assert ids[k] == ImageId(imgs[k]["src"]);
      assert id !in ids[..k];
    }
  }

  /** An `img` whose id came earlier is left untouched. */
  lemma DefaultAltsLater(imgs: seq<Attrs>)
    requires AllHaveSrc(imgs)
    ensures forall k :: 0 <= k < |imgs| && ImageId(imgs[k]["src"]) in IdsOf(Srcs(imgs))[..k] ==>
      WithAlts(imgs)[k] == imgs[k]
  {
    forall k | 0 <= k < |imgs| {
      WithAltsAt(imgs, k);
    }
  }

  /** The default `alt`: attributes already present are kept and only `alt` can
      be added; the first `img` of every id ends up with an `alt`, its
      capitalised basename when it had none; an `img`
      whose id came earlier is left untouched. */
  lemma DefaultAlts(imgs: seq<Attrs>)
    requires AllHaveSrc(imgs)
    ensures var r := WithAlts(imgs);
      && (forall k, a :: 0 <= k < |imgs| && a in imgs[k] ==> a in r[k] && r[k][a] == imgs[k][a])
      && (forall k :: 0 <= k < |imgs| ==> r[k].Keys <= imgs[k].Keys + {"alt"})
      && (forall id :: id in IdsOf(Srcs(imgs)) ==> "alt" in r[FirstIndex(IdsOf(Srcs(imgs)), id)])
      && (forall id :: id in IdsOf(Srcs(imgs)) ==>
            var k := FirstIndex(IdsOf(Srcs(imgs)), id);
            "alt" !in imgs[k] ==> r[k]["alt"] == Capitalize(Basename(imgs[k]["src"])))
      && (forall k :: 0 <= k < |imgs| && ImageId(imgs[k]["src"]) in IdsOf(Srcs(imgs))[..k] ==> r[k] == imgs[k])
  {
    DefaultAltsKeep(imgs);
    DefaultAltsFirst(imgs);
    DefaultAltsLater(imgs);
  }

  /** Handling one more `img` appends its own default to the others'. */
  lemma WithAltsSnoc(imgs: seq<Attrs>, i: nat)
    requires i < |imgs| && AllHaveSrc(imgs[..i + 1])
    ensures AllHaveSrc(imgs[..i])
    ensures WithAlts(imgs[..i + 1]) == WithAlts(imgs[..i]) + [AltDefault(imgs[i], IdsOf(Srcs(imgs[..i])))]
  {
    SrcsSnoc(imgs, i);
    var a, b := imgs[..i + 1], imgs[..i];
    IdsOfSnoc(Srcs(b), imgs[i]["src"]);
    var ia, ib := IdsOf(Srcs(a)), IdsOf(Srcs(b));
    assert ia == ib + [ImageId(imgs[i]["src"])];
    forall k | 0 <= k < i
      ensures WithAlts(a)[k] == WithAlts(b)[k]
    {
      WithAltsAt(a, k);
      WithAltsAt(b, k);
      assert ia[..k] == ib[..k];
      assert a[k] == b[k];
    }
    WithAltsAt(a, i);
    assert ia[..i] == ib;
  }

  lemma IdsOfSnoc(srcs: seq<string>, src: string)
    ensures IdsOf(srcs + [src]) == IdsOf(srcs) + [ImageId(src)]
  {
  }

  lemma TableSnoc(srcs: seq<string>, src: string)
    ensures Table(srcs + [src]) == Insert(Table(srcs), ImageId(src), src)
  {
    IdsOfSnoc(srcs, src);
    var ids := IdsOf(srcs + [src]);
    assert ids[..|srcs|] == IdsOf(srcs);
    assert (srcs + [src])[..|srcs|] == srcs;
  }

  lemma SrcsSnoc(imgs: seq<Attrs>, i: nat)
    requires i < |imgs| && AllHaveSrc(imgs[..i + 1])
    ensures AllHaveSrc(imgs[..i])
    ensures Srcs(imgs[..i + 1]) == Srcs(imgs[..i]) + [imgs[i]["src"]]
  {
    assert imgs[..i + 1][..i] == imgs[..i];
  }

  /** What one pass of the `_find_images` loop adds, for an `img` with a `src`
      after `i` earlier ones that all have one. */
  lemma ImageStep(orig: seq<Attrs>, i: nat)
    requires i < |orig| && AllHaveSrc(orig[..i]) && "src" in orig[i]
    ensures AllHaveSrc(orig[..i + 1])
    ensures Srcs(orig[..i + 1]) == Srcs(orig[..i]) + [orig[i]["src"]]
    ensures IdsOf(Srcs(orig[..i + 1])) == IdsOf(Srcs(orig[..i])) + [ImageId(orig[i]["src"])]
    ensures Table(Srcs(orig[..i + 1])) == Insert(Table(Srcs(orig[..i])), ImageId(orig[i]["src"]), orig[i]["src"])
    ensures WithAlts(orig[..i + 1]) + orig[i + 1..]
         == (WithAlts(orig[..i]) + orig[i..])[i := AltDefault(orig[i], IdsOf(Srcs(orig[..i])))]
  {
    assert AllHaveSrc(orig[..i + 1]) by {
      assert forall k :: 0 <= k < i ==> orig[..i + 1][k] == orig[..i][k];
    }
    SrcsSnoc(orig, i);
    var srcs := Srcs(orig[..i]);
    TableSnoc(srcs, orig[i]["src"]);
    IdsOfSnoc(srcs, orig[i]["src"]);
    WithAltsSnoc(orig, i);
    UpdateAtSeam(WithAlts(orig[..i]), orig[i..], AltDefault(orig[i], IdsOf(srcs)));
    assert orig[i..][1..] == orig[i + 1..];
  }

  /** Overwriting the first element after a prefix. */
  lemma UpdateAtSeam<T>(w: seq<T>, rest: seq<T>, x: T)
    requires |rest| > 0
    ensures (w + rest)[|w| := x] == w + [x] + rest[1..]
  {
  }

  /** `Book._find_images`, over the attribute maps of the `img` elements in
      document order (the tree's own maps, updated in place). A missing `src`
      raises KeyError; the `img`s before it have then already been updated. */
  method FindImages(imgs: array<Attrs>) returns (r: Result<ImageScan, Error>)
    modifies imgs
    ensures r.Success? <==> AllHaveSrc(old(imgs[..]))
    ensures r.Success? ==>
      && r.value.images == Table(Srcs(old(imgs[..])))
      && r.value.cover == CoverOf(r.value.images)
      && imgs[..] == WithAlts(old(imgs[..]))
    ensures r.Failure? ==> r.error == MissingAttribute("src")
    ensures r.Failure? ==>
      exists m :: (0 <= m < imgs.Length
        && "src" !in old(imgs[m]) && AllHaveSrc(old(imgs[..m]))
        && imgs[..m] == WithAlts(old(imgs[..m])) && imgs[m..] == old(imgs[m..]))
  {
    ghost var orig := imgs[..];
    ghost var srcs: seq<string> := [];
    ghost var seen: seq<string> := [];
    var images: seq<ImageEntry> := [];
    var cover: Option<string> := None;
    var i := 0;
    assert orig[..0] == [] && orig[0..] == orig;
    while i < imgs.Length
      invariant 0 <= i <= imgs.Length
      invariant AllHaveSrc(orig[..i]) && srcs == Srcs(orig[..i]) && seen == IdsOf(srcs)
      invariant images == Table(srcs)
      invariant cover == CoverOf(images)
      invariant imgs[..] == WithAlts(orig[..i]) + orig[i..]
    {
      var attrs := imgs[i];
      assert attrs == orig[i] by {
        assert imgs[..][i] == (WithAlts(orig[..i]) + orig[i..])[i];
      }
      if "src" !in attrs {
        assert imgs[..i] == WithAlts(orig[..i]) && imgs[i..] == orig[i..] by {
          assert imgs[..i] == imgs[..][..i] && imgs[i..] == imgs[..][i..];
        }
        return Failure(MissingAttribute("src"));
      }
      var source := attrs["src"];
      var basename := Basename(source);
      var id := "img." + basename;
      assert id == ImageId(source);
      TableOfKeys(seen, srcs);
      ImageStep(orig, i);
      ghost var before := imgs[..];
      ghost var next := AltDefault(attrs, seen);
      if id !in Ids(images) {
        images := images + [ImageEntry(id, source)];
        if "alt" !in attrs {
          imgs[i] := attrs["alt" := Capitalize(basename)];
        }
        if cover.None? {
          cover := Some(id);
        }
      }
      assert imgs[..] == before[i := next];
      srcs := srcs + [source];
      seen := seen + [id];
      i := i + 1;
    }
    assert orig[..i] == orig && orig[i..] == [];
    return Success(ImageScan(images, cover));
  }

  // ---------------------------------------------------------------------------
  // Stylesheets

  /** `link[@rel="stylesheet"]`. */
  predicate IsStylesheetLink(n: Node) {
    n.Element? && n.tag == "link" && "rel" in n.attrs && n.attrs["rel"] == "stylesheet"
  }

  /** `Book._find_stylesheets`: a copy of the attributes of every stylesheet link
      of the subtree (itself included), in document order, duplicates kept. */
  function Stylesheets(n: Node): (r: seq<Attrs>)
    ensures forall a :: a in r ==> "rel" in a && a["rel"] == "stylesheet"
    decreases n, 1
  {
    match n
    case Entity(_, _) => []
    case Element(_, attrs, _, kids, _) =>
      (if IsStylesheetLink(n) then [attrs] else []) + StylesheetsSeq(kids)
  }

  function StylesheetsSeq(ns: seq<Node>): (r: seq<Attrs>)
    ensures forall a :: a in r ==> "rel" in a && a["rel"] == "stylesheet"
    decreases ns, 0
  {
    if ns == [] then [] else Stylesheets(ns[0]) + StylesheetsSeq(ns[1..])
  }

  /** The attributes of the stylesheet links among a list of elements, in order. */
  function LinkAttrs(es: seq<Node>): seq<Attrs> {
    if es == [] then []
    else (if IsStylesheetLink(es[0]) then [es[0].attrs] else []) + LinkAttrs(es[1..])
  }

  lemma {:induction false} LinkAttrsAppend(a: seq<Node>, b: seq<Node>)
    ensures LinkAttrs(a + b) == LinkAttrs(a) + LinkAttrs(b)
  {
    if a != [] {
      assert (a + b)[1..] == a[1..] + b;
      LinkAttrsAppend(a[1..], b);
    } else {
      assert a + b == b;
    }
  }

  /** The stylesheet list is exactly the stylesheet links among all elements of
      the document, taken in document order. */
  lemma {:induction false} StylesheetsInDocumentOrder(n: Node)
    ensures Stylesheets(n) == LinkAttrs(Elements(n))
    decreases n, 1
  {
    match n
    case Entity(_, _) =>
    case Element(_, _, _, kids, _) =>
      StylesheetsSeqInDocumentOrder(kids);
      LinkAttrsAppend([n], ElementsSeq(kids));
  }

  lemma {:induction false} StylesheetsSeqInDocumentOrder(ns: seq<Node>)
    ensures StylesheetsSeq(ns) == LinkAttrs(ElementsSeq(ns))
    decreases ns, 0
  {
    if ns != [] {
      StylesheetsInDocumentOrder(ns[0]);
      StylesheetsSeqInDocumentOrder(ns[1..]);
      LinkAttrsAppend(Elements(ns[0]), ElementsSeq(ns[1..]));
    }
  }

  /** The item id of a stylesheet in the package, `_basename(sheet["href"])`;
      a link without `href` raises KeyError. */
  function StylesheetId(sheet: Attrs): (r: Result<string, Error>)
    ensures r.Success? <==> "href" in sheet
    ensures r.Success? ==> '/' !in r.value && r.value == Basename(sheet["href"])
    ensures r.Failure? ==> r.error == MissingAttribute("href")
  {
    if "href" in sheet then Success(Basename(sheet["href"])) else Failure(MissingAttribute("href"))
  }

  /** A stylesheet linked as "dir/stem.css" (or "stem.css") gets the id "stem". */
  lemma StylesheetIdOfPath(sheet: Attrs, dir: string, stem: string, ext: string)
    requires '/' !in stem && '/' !in ext && '.' !in ext
    requires exists i :: 0 <= i < |stem| && stem[i] != '.'
    requires "href" in sheet && sheet["href"] in {dir + "/" + stem + "." + ext, stem + "." + ext}
    ensures StylesheetId(sheet) == Success(stem)
  {
    BasenameOfJoined(dir, stem, ext);
    BasenameOfName(stem, ext);
  }
}
