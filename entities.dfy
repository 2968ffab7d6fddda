/** The entity table, the book metadata read from the document's DTD, and the
    strict text extraction `Book._text` (src/xhtml2epub/book.py). */
module Entities {
  import opened Wrappers
  import opened Xml

  type EntityTable = map<string, string>

  /** `entities = builtins.copy(); entities.update(declared)`: every name of
      either table, the document's declaration winning on a clash. */
  function Merge(builtins: EntityTable, declared: EntityTable): (r: EntityTable)
    ensures r.Keys == builtins.Keys + declared.Keys
    ensures forall k :: k in declared ==> r[k] == declared[k]
    ensures forall k :: k in builtins && k !in declared ==> r[k] == builtins[k]
  {
    builtins + declared
  }

  datatype Metadata = Metadata(
    title: Option<string>,
    author: Option<string>,
    language: Option<string>,
    uid: Option<string>)

  function Get(m: EntityTable, k: string): Option<string> {
    if k in m then Some(m[k]) else None
  }

  /** `Book.parse`: the metadata are the document's own declared entities
      `title`, `author`, `language` and `uid`; the language falls back to "en". */
  function MetadataOf(declared: EntityTable): (m: Metadata)
    ensures m.title == (if "title" in declared then Some(declared["title"]) else None)
    ensures m.author == (if "author" in declared then Some(declared["author"]) else None)
    ensures m.uid == (if "uid" in declared then Some(declared["uid"]) else None)
    ensures "language" in declared ==> m.language == Some(declared["language"])
    ensures "language" !in declared ==> m.language == Some("en")
  {
    Metadata(
      Get(declared, "title"),
      Get(declared, "author"),
      Some(if "language" in declared then declared["language"] else "en"),
      Get(declared, "uid"))
  }

  /** `Book._text`: an entity reference gives its replacement text and then its
      tail, and an unknown name is a KeyError; an element gives its own text,
      the text of each child in order, then its own tail. */
  function Text(n: Node, entities: EntityTable): (r: Result<string, Error>)
    ensures r.Failure? ==> r.error.UnknownEntity? && r.error.entity !in entities
    decreases n, 1
  {
    match n
    case Entity(name, tail) =>
      if name in entities then Success(entities[name] + tail)
      else Failure(UnknownEntity(name))
    case Element(_, _, text, kids, tail) =>
      var inner :- TextSeq(kids, entities);
      Success(text + inner + tail)
  }

  function TextSeq(ns: seq<Node>, entities: EntityTable): (r: Result<string, Error>)
    ensures r.Failure? ==> r.error.UnknownEntity? && r.error.entity !in entities
    decreases ns, 0
  {
    if ns == [] then Success("")
    else
      var first :- Text(ns[0], entities);
      var rest :- TextSeq(ns[1..], entities);
      Success(first + rest)
  }

  /** The entity names referenced anywhere in a subtree. */
  function EntityNames(n: Node): set<string>
    decreases n, 1
  {
    match n
    case Entity(name, _) => {name}
    case Element(_, _, _, kids, _) => EntityNamesSeq(kids)
  }

  function EntityNamesSeq(ns: seq<Node>): set<string>
    decreases ns, 0
  {
    if ns == [] then {} else EntityNames(ns[0]) + EntityNamesSeq(ns[1..])
  }

  /** Strictness: extraction fails exactly when the subtree references a name
      missing from the table, and then it names one of the missing names. */
  lemma {:induction false} TextFailsIffUnknown(n: Node, entities: EntityTable)
    ensures Text(n, entities).Failure? <==> !(EntityNames(n) <= entities.Keys)
    ensures Text(n, entities).Failure? ==>
      Text(n, entities).error.UnknownEntity? &&
      Text(n, entities).error.entity in EntityNames(n) - entities.Keys
    decreases n, 1
  {
    match n
    case Entity(_, _) =>
    case Element(_, _, _, kids, _) =>
      TextSeqFailsIffUnknown(kids, entities);
  }

  lemma {:induction false} TextSeqFailsIffUnknown(ns: seq<Node>, entities: EntityTable)
    ensures TextSeq(ns, entities).Failure? <==> !(EntityNamesSeq(ns) <= entities.Keys)
    ensures TextSeq(ns, entities).Failure? ==>
      TextSeq(ns, entities).error.UnknownEntity? &&
      TextSeq(ns, entities).error.entity in EntityNamesSeq(ns) - entities.Keys
    decreases ns, 0
  {
    if ns != [] {
      TextFailsIffUnknown(ns[0], entities);
      TextSeqFailsIffUnknown(ns[1..], entities);
    }
  }

  /** Two tables that agree on the names a subtree references give it the same
      text (or the same failure). */
  lemma {:induction false} TextOnlyReadsReferencedNames(n: Node, e1: EntityTable, e2: EntityTable)
    requires forall k :: k in EntityNames(n) ==> (k in e1 <==> k in e2)
    requires forall k :: k in EntityNames(n) && k in e1 ==> e1[k] == e2[k]
    ensures Text(n, e1) == Text(n, e2)
    decreases n, 1
  {
    match n
    case Entity(_, _) =>
    case Element(_, _, _, kids, _) =>
      TextSeqOnlyReadsReferencedNames(kids, e1, e2);
  }

  lemma {:induction false} TextSeqOnlyReadsReferencedNames(ns: seq<Node>, e1: EntityTable, e2: EntityTable)
    requires forall k :: k in EntityNamesSeq(ns) ==> (k in e1 <==> k in e2)
    requires forall k :: k in EntityNamesSeq(ns) && k in e1 ==> e1[k] == e2[k]
    ensures TextSeq(ns, e1) == TextSeq(ns, e2)
    decreases ns, 0
  {
    if ns != [] {
      TextOnlyReadsReferencedNames(ns[0], e1, e2);
      TextSeqOnlyReadsReferencedNames(ns[1..], e1, e2);
    }
  }

  /** A document-declared entity overrides the built-in of the same name in
      extracted text, and a built-in not redeclared still expands. */
  lemma DeclaredEntityWins(builtins: EntityTable, declared: EntityTable, name: string, tail: string)
    requires name in builtins || name in declared
    ensures Text(Entity(name, tail), Merge(builtins, declared)) ==
      Success((if name in declared then declared[name] else builtins[name]) + tail)
  {
  }
}
