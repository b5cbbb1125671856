/** The parsed document as the extractor sees it: a tree of element and text nodes. The HTML
    parser that builds it is not part of this model; it is taken to have lower-cased every tag
    name, as an HTML parser does. */
module Dom {
  import opened Wrappers

  datatype Node =
    | Element(tag: string, attrs: map<string, string>, children: seq<Node>)
    | Text(data: string)

  /** The child nodes of `n` (a text node has none). */
  function ChildrenOf(n: Node): seq<Node> {
    if n.Element? then n.children else []
  }

  /** The text of a forest of nodes, in document order: what `textContent` concatenates. */
  function TextOf(cs: seq<Node>): string {
    if cs == [] then ""
    else
      (match cs[0]
       case Text(d) => d
       case Element(_, _, ch) => TextOf(ch))
      + TextOf(cs[1..])
  }

  /** `node.textContent`: a text node's own data, an element's descendant text. */
  function TextContent(n: Node): string {
    match n
    case Text(d) => d
    case Element(_, _, cs) => TextOf(cs)
  }

  /** `element.getAttribute(name)`, `None` standing for `null`. */
  function GetAttribute(n: Node, name: string): (r: Option<string>)
    ensures r.Some? <==> n.Element? && name in n.attrs
  {
    if n.Element? && name in n.attrs then Some(n.attrs[name]) else None
  }

  /** An element met during a traversal, with the chain of its ancestors, outermost first. */
  datatype Hit = Hit(node: Node, ancestors: seq<Node>)

  /** Every element of the forest `cs` and below it, in pre-order (document order), each with its
      ancestors; `ancestors` are those of the forest's roots. */
  function Hits(cs: seq<Node>, ancestors: seq<Node>): seq<Hit> {
    if cs == [] then []
    else
      (match cs[0]
       case Text(_) => []
       case Element(_, _, ch) => [Hit(cs[0], ancestors)] + Hits(ch, ancestors + [cs[0]]))
      + Hits(cs[1..], ancestors)
  }

  /** A traversal meets elements only: text nodes are never hits. */
  lemma {:induction false} HitsAreElements(cs: seq<Node>, ancestors: seq<Node>)
    ensures forall i :: 0 <= i < |Hits(cs, ancestors)| ==> Hits(cs, ancestors)[i].node.Element?
  {
    if cs != [] {
      HitsAreElements(cs[1..], ancestors);
      if cs[0].Element? {
        HitsAreElements(cs[0].children, ancestors + [cs[0]]);
      }
    }
  }
}
