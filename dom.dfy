/**
 * The parts of a parsed SVG document that the icon checks read: the
 * document's child nodes and its document element with its attributes.
 * The XML parser that builds these values is not part of this model.
 */
module Dom {
  import opened Wrappers

  /** A DOM node; `nodeName` is None where the node's name is `undefined` or `null`. */
  datatype Node = Node(nodeName: Option<string>)

  /** An element, seen through its attributes (name to value). */
  datatype Element = Element(attributes: map<string, string>)

  /** A parsed document: its child nodes in order and its root element, if any. */
  datatype Document = Document(childNodes: seq<Node>, documentElement: Option<Element>)

  /** `element.hasAttribute(name)`. */
  predicate HasAttribute(e: Element, name: string)
  {
    name in e.attributes
  }

  /** `element.getAttribute(name)` where the attribute is present; None where it is absent. */
  function GetAttribute(e: Element, name: string): Option<string>
  {
    if name in e.attributes then Some(e.attributes[name]) else None
  }
}
