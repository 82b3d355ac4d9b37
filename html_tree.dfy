/**
 * The document trees the conversion passes rewrite. One datatype covers the node
 * kinds the passes look at, from both tree dialects the pipeline goes through:
 * HTML trees (elements, text, raw html) and Markdown trees (emphasis, strong,
 * inline code, code blocks, and every other parent kind under `Parent`).
 */
module HtmlTree {
  import opened Json

  datatype Node =
    | Element(tag: string, props: seq<Field>, children: seq<Node>)
    | Text(value: string)
    /** Raw markup the serializer copies as it is (`raw` in HTML trees, `html` in Markdown trees). */
    | Html(value: string)
    | Emphasis(children: seq<Node>)
    | Strong(children: seq<Node>)
    | InlineCode(value: string)
    | Code(value: string)
    /** Any other Markdown parent (paragraph, heading, link, list, ...); `kind` names none of the above. */
    | Parent(kind: string, children: seq<Node>)

  predicate HasChildren(n: Node)
  {
    n.Element? || n.Emphasis? || n.Strong? || n.Parent?
  }

  /** Nodes with a string `value` property. */
  predicate HasValue(n: Node)
  {
    n.Text? || n.Html? || n.InlineCode? || n.Code?
  }

  /** `n` with its children replaced, everything else kept. */
  function WithChildren(n: Node, cs: seq<Node>): (r: Node)
    requires HasChildren(n)
    ensures HasChildren(r) && r.children == cs && SameKind(n, r)
  {
    match n
    case Element(tag, props, _) => Element(tag, props, cs)
    case Emphasis(_) => Emphasis(cs)
    case Strong(_) => Strong(cs)
    case Parent(kind, _) => Parent(kind, cs)
  }

  /** `n` with its `value` replaced (`n.value = v`). */
  function WithValue(n: Node, v: string): (r: Node)
    requires HasValue(n)
    ensures HasValue(r) && r.value == v && SameKind(n, r)
  {
    match n
    case Text(_) => Text(v)
    case Html(_) => Html(v)
    case InlineCode(_) => InlineCode(v)
    case Code(_) => Code(v)
  }

  /** The same node type (and tag, properties or kind), whatever the children or value. */
  predicate SameKind(a: Node, b: Node)
  {
    match a
    case Element(tag, props, _) => b.Element? && b.tag == tag && b.props == props
    case Text(_) => b.Text?
    case Html(_) => b.Html?
    case Emphasis(_) => b.Emphasis?
    case Strong(_) => b.Strong?
    case InlineCode(_) => b.InlineCode?
    case Code(_) => b.Code?
    case Parent(kind, _) => b.Parent? && b.kind == kind
  }

  /** Every node of a forest in the order a depth-first, pre-order walk visits them. */
  function NodesOf(n: Node): (ns: seq<Node>)
    ensures |ns| >= 1 && ns[0] == n
    decreases n, 1
  {
    [n] + (if HasChildren(n) then NodesIn(n.children) else [])
  }

  function NodesIn(s: seq<Node>): seq<Node>
    decreases s, 0
  {
    if s == [] then [] else NodesOf(s[0]) + NodesIn(s[1..])
  }

  /** The root of a tree. The passes receive it and rewrite its children in place. */
  class Tree {
    var children: seq<Node>

    constructor (children: seq<Node>)
      ensures this.children == children
    {
      this.children := children;
    }
  }
}
