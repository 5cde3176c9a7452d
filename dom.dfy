/**
 * The host environment, as narrow as the entry points see it: the JavaScript values they are called with,
 * the document's nodes whose text they rewrite, and a record of the steps run on those nodes.
 */
module Dom {

  /**
   * A JavaScript argument, as far as the entry points inspect it: a string primitive, a `String` wrapper
   * object (both carry their text), or anything else.
   */
  datatype Value = Primitive(s: string) | StringObject(s: string) | NonString

  /** A selected DOM node. */
  class Element {
    /** The node's markup; highlighting reads it once and writes it once. */
    var innerHTML: string
    /** The class names of the `<pre>` containers wrapped around the node, outermost first. */
    var containers: seq<string>
  }

  /** One step the entry points run on a node. */
  datatype Step = Formatted(node: Element, theme: string) | Parsed(node: Element)

  class Document {
    /** The steps run on the document's nodes, in the order they ran. */
    ghost var trace: seq<Step>
  }

  /** For each node in order: format it with the theme, then parse it. */
  ghost function FormatThenParse(nodes: seq<Element>, theme: string): seq<Step>
    decreases |nodes|
  {
    if nodes == [] then []
    else FormatThenParse(nodes[..|nodes| - 1], theme) + [Formatted(nodes[|nodes| - 1], theme), Parsed(nodes[|nodes| - 1])]
  }

  /** For each node in order: parse it. */
  ghost function ParseEach(nodes: seq<Element>): seq<Step>
    decreases |nodes|
  {
    if nodes == [] then [] else ParseEach(nodes[..|nodes| - 1]) + [Parsed(nodes[|nodes| - 1])]
  }

  /** Node k is formatted at step 2k and parsed at step 2k + 1, and there are no other steps. */
  lemma {:induction false} FormatThenParseAt(nodes: seq<Element>, theme: string, k: nat)
    requires k < |nodes|
    ensures |FormatThenParse(nodes, theme)| == 2 * |nodes|
    ensures FormatThenParse(nodes, theme)[2 * k] == Formatted(nodes[k], theme)
    ensures FormatThenParse(nodes, theme)[2 * k + 1] == Parsed(nodes[k])
    decreases |nodes|
  {
    var front := nodes[..|nodes| - 1];
    if k < |front| {
      FormatThenParseAt(front, theme, k);
    } else if front != [] {
      FormatThenParseAt(front, theme, 0);
    }
  }

  /** Node k is parsed at step k, and there are no other steps. */
  lemma {:induction false} ParseEachAt(nodes: seq<Element>, k: nat)
    requires k < |nodes|
    ensures |ParseEach(nodes)| == |nodes|
    ensures ParseEach(nodes)[k] == Parsed(nodes[k])
    decreases |nodes|
  {
    var front := nodes[..|nodes| - 1];
    if k < |front| {
      ParseEachAt(front, k);
    } else if front != [] {
      ParseEachAt(front, 0);
    }
  }
}
