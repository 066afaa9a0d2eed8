/** The commonmark document tree, reduced to what the transformation layer
    reads and writes: the ordered top-level block nodes of a document. */
module Markdown {
  import opened Wrappers

  /** A commonmark node. Only headings are inspected as containers. The
      nodes that carry a `literal` each have their own case: `text`, inline
      `code`, `html_inline`, `html_block` and `code_block`. Every other
      node (paragraphs, lists, emphasis, links, images, breaks, ...) has a
      null `literal` and is `Other`. */
  datatype Node =
    | Heading(level: nat, children: seq<Node>)
    | Text(literal: string)
    | Code(literal: string)
    | HtmlInline(literal: string)
    | HtmlBlock(literal: string)
    | CodeBlock(literal: string)
    | Other

  /** `node.literal`: the text of a text, code or raw-HTML node, `null`
      on every other node. */
  function Literal(n: Node): Option<string> {
    match n
    case Text(s) => Some(s)
    case Code(s) => Some(s)
    case HtmlInline(s) => Some(s)
    case HtmlBlock(s) => Some(s)
    case CodeBlock(s) => Some(s)
    case _ => None
  }

  /** A parsed document: its top-level children in order. */
  class Document {
    var children: seq<Node>

    constructor (children: seq<Node>)
      ensures this.children == children
    {
      this.children := children;
    }

    /** `document.appendChild(node)` */
    method AppendChild(node: Node)
      modifies this
      ensures children == old(children) + [node]
    {
      children := children + [node];
    }

    /** `document.prependChild(node)` */
    method PrependChild(node: Node)
      modifies this
      ensures children == [node] + old(children)
    {
      children := [node] + children;
    }
  }
}
