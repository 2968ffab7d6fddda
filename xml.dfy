/** The parsed XHTML tree, as the converter sees it after parsing.

    A node is either an element (tag, attribute map, leading text, ordered
    children, trailing tail text) or a named entity reference kept unexpanded by
    the parser (name, tail). Comments and processing instructions behave, for
    every operation modelled here, like elements whose tag matches nothing, so
    they are Elements too. A missing `text`/`tail` (None in the parser) is "". */
module Xml {
  import opened Wrappers

  type Byte = b: int | 0 <= b < 256

  type Attrs = map<string, string>

  datatype Node =
    | Element(tag: string, attrs: Attrs, text: string, children: seq<Node>, tail: string)
    | Entity(name: string, tail: string)

  /** A parsed document: its root element and the entities declared in its
      internal DTD subset (name to replacement text), None when the document
      has no DOCTYPE and so no internal subset. */
  datatype Document = Document(root: Node, dtd: Option<map<string, string>>)

  /** The exceptions the converter can raise while building a book. */
  datatype Error =
    | MissingAttribute(attr: string)       // KeyError on an attribute lookup
    | NoBody                               // the root has no `body` child
    | UnknownEntity(entity: string)        // KeyError on the entity table
    | InvalidLiteral(code: seq<Byte>)      // int() rejects a numeric reference
    | InvalidCodePoint(codePoint: int)     // chr() or UTF-8 encoding rejects it
    | MissingSourceDir                     // `source_dir` was never assigned
    | NoInternalDtd                        // AttributeError: the document has no internal DTD

  predicate IsTag(n: Node, tag: string) {
    n.Element? && n.tag == tag
  }

  /** Every element of the subtree rooted at `n` (itself included), in document
      (pre-)order; entity references are not elements. */
  function Elements(n: Node): (r: seq<Node>)
    ensures forall e :: e in r ==> e.Element?
    decreases n, 1
  {
    match n
    case Entity(_, _) => []
    case Element(_, _, _, kids, _) => [n] + ElementsSeq(kids)
  }

  function ElementsSeq(ns: seq<Node>): (r: seq<Node>)
    ensures forall e :: e in r ==> e.Element?
    decreases ns, 0
  {
    if ns == [] then [] else Elements(ns[0]) + ElementsSeq(ns[1..])
  }
}
