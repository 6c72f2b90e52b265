/**
 * The part of the DOM that trade extraction reads: a tree of element,
 * text and comment nodes, `getElementsByTagName` and `textContent`.
 * Producing the tree from text (the browser's XML parser) is not modelled;
 * a parse failure shows up, as in the browser, as a `parsererror` element
 * in the tree.
 */
module Xml {

  import opened Wrappers

  datatype Node =
    | Element(name: string, children: seq<Node>)
    | Text(data: string)
    | Comment(data: string)

  /** A document: the nodes directly under the document node. */
  datatype Document = Document(children: seq<Node>)

  /**
   * `getElementsByTagName(tag)` below a list of sibling nodes: every element
   * named `tag` among them or at any depth under them, in document order
   * (an element comes before its descendants, and before its later siblings).
   */
  function ElementsByTagName(nodes: seq<Node>, tag: string): (r: seq<Node>)
    ensures forall i | 0 <= i < |r| :: r[i].Element? && r[i].name == tag
    decreases nodes
  {
    if nodes == [] then [] else ElementsUnder(nodes[0], tag) + ElementsByTagName(nodes[1..], tag)
  }

  /** The elements named `tag` in the subtree rooted at `n`, `n` itself first. */
  function ElementsUnder(n: Node, tag: string): (r: seq<Node>)
    ensures forall i | 0 <= i < |r| :: r[i].Element? && r[i].name == tag
    decreases n
  {
    match n
    case Element(name, children) =>
      (if name == tag then [n] else []) + ElementsByTagName(children, tag)
    case _ => []
  }

  /** `textContent`: all descendant text, in document order; comments contribute nothing. */
  function TextContent(n: Node): string
    decreases n
  {
    match n
    case Element(_, children) => TextOfAll(children)
    case Text(data) => data
    case Comment(_) => []
  }

  function TextOfAll(nodes: seq<Node>): string
    decreases nodes
  {
    if nodes == [] then [] else TextContent(nodes[0]) + TextOfAll(nodes[1..])
  }

  /** `e.getElementsByTagName(tag)[0]?.textContent`: the text of the first match, if any. */
  function FirstTextContent(e: Node, tag: string): (t: Option<string>)
    requires e.Element?
    ensures t.None? <==> ElementsByTagName(e.children, tag) == []
  {
    var found := ElementsByTagName(e.children, tag);
    if found == [] then None else Some(TextContent(found[0]))
  }

  // --------------------------------------------------- an independent reading

  /** Every element of the forest in document (pre-)order. */
  function PreOrder(nodes: seq<Node>): seq<Node>
    decreases nodes
  {
    if nodes == [] then [] else PreOrderOf(nodes[0]) + PreOrder(nodes[1..])
  }

  function PreOrderOf(n: Node): seq<Node>
    decreases n
  {
    match n
    case Element(_, children) => [n] + PreOrder(children)
    case _ => []
  }

  /** The elements of a list of elements that are named `tag`, in order. */
  function Named(es: seq<Node>, tag: string): seq<Node>
  {
    if es == [] then []
    else (if es[0].Element? && es[0].name == tag then [es[0]] else []) + Named(es[1..], tag)
  }

  lemma {:induction false} NamedAppend(a: seq<Node>, b: seq<Node>, tag: string)
    ensures Named(a + b, tag) == Named(a, tag) + Named(b, tag)
  {
    if a == [] {
      assert a + b == b;
    } else {
      assert (a + b)[1..] == a[1..] + b;
      NamedAppend(a[1..], b, tag);
    }
  }

  /**
   * `getElementsByTagName` is the document-order list of all elements,
   * filtered by name: what the DOM standard calls the elements of the
   * subtree "in tree order" whose qualified name is `tag`.
   */
  lemma {:induction false} ElementsByTagNameIsFilteredPreOrder(nodes: seq<Node>, tag: string)
    ensures ElementsByTagName(nodes, tag) == Named(PreOrder(nodes), tag)
    decreases nodes
  {
    if nodes != [] {
      ElementsUnderIsFilteredPreOrder(nodes[0], tag);
      ElementsByTagNameIsFilteredPreOrder(nodes[1..], tag);
      NamedAppend(PreOrderOf(nodes[0]), PreOrder(nodes[1..]), tag);
    }
  }

  lemma {:induction false} ElementsUnderIsFilteredPreOrder(n: Node, tag: string)
    ensures ElementsUnder(n, tag) == Named(PreOrderOf(n), tag)
    decreases n
  {
    match n
    case Element(name, children) =>
      ElementsByTagNameIsFilteredPreOrder(children, tag);
      assert ([n] + PreOrder(children))[1..] == PreOrder(children);
    case _ =>
  }

  /** Results for consecutive siblings follow each other: the search keeps document order. */
  lemma {:induction false} ElementsByTagNameAppend(a: seq<Node>, b: seq<Node>, tag: string)
    ensures ElementsByTagName(a + b, tag) == ElementsByTagName(a, tag) + ElementsByTagName(b, tag)
  {
    if a == [] {
      assert a + b == b;
    } else {
      assert (a + b)[1..] == a[1..] + b;
      ElementsByTagNameAppend(a[1..], b, tag);
    }
  }

  /**
   * The search looks at every depth: whatever is found under one of the
   * nodes' children is found under the nodes as well.
   */
  lemma {:induction false} ElementsByTagNameDeep(nodes: seq<Node>, k: nat, tag: string, x: Node)
    requires k < |nodes| && nodes[k].Element?
    requires x in ElementsByTagName(nodes[k].children, tag)
    ensures x in ElementsByTagName(nodes, tag)
  {
    if k > 0 {
      ElementsByTagNameDeep(nodes[1..], k - 1, tag, x);
    }
  }
}
