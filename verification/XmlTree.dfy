/** Element trees and what the printer writes for them in stream mode. */
module XmlTree {
  import opened Prelude
  import opened XmlBytes
  import opened XmlText

  datatype Attribute = Attribute(name: Bytes, value: Bytes)

  datatype Node =
    | Element(name: Bytes, attributes: seq<Attribute>, children: seq<Node>)
    | Text(value: Bytes, cdata: bool)
    | Comment(value: Bytes)
    | Unrecognised(value: Bytes)
    | Declaration(version: Bytes, encoding: Bytes, standalone: Bytes)

  const COMMENT_OPEN: Bytes := [60, 33, 45, 45]                        // <!--
  const COMMENT_CLOSE: Bytes := [45, 45, 62]                           // -->
  const CDATA_OPEN: Bytes := [60, 33, 91, 67, 68, 65, 84, 65, 91]      // <![CDATA[
  const CDATA_CLOSE: Bytes := [93, 93, 62]                             // ]]>
  const DTD_OPEN: Bytes := [60, 33]                                    // <!
  const XML_OPEN: Bytes := [60, 63, 120, 109, 108]                     // <?xml
  const END_OPEN: Bytes := [60, 47]                                    // </
  const EMPTY_CLOSE: Bytes := [32, 47, 62]                             // " />"
  const DECLARATION_CLOSE: Bytes := [63, 62]                           // ?>
  const VERSION: Bytes := [118, 101, 114, 115, 105, 111, 110]
  const ENCODING: Bytes := [101, 110, 99, 111, 100, 105, 110, 103]
  const STANDALONE: Bytes := [115, 116, 97, 110, 100, 97, 108, 111, 110, 101]

  /** The quote `TiXmlAttribute::Print` picks. */
  function QuoteFor(value: Bytes): Byte {
    if QUOT in value then APOS else QUOT
  }

  function PrintAttribute(a: Attribute): Bytes {
    Encode(a.name) + [EQUALS, QuoteFor(a.value)] + Encode(a.value) + [QuoteFor(a.value)]
  }

  predicate DistinctNames(attributes: seq<Attribute>) {
    forall i, j :: 0 <= i < j < |attributes| ==> attributes[i].name != attributes[j].name
  }

  /** `TiXmlAttribute::Next` takes an attribute with neither name nor value for
      the sentinel. */
  predicate LooksLikeSentinel(a: Attribute) {
    a.name == [] && a.value == []
  }

  /** The attributes a walk from `First()` by `Next()` visits. */
  function Walked(attributes: seq<Attribute>): seq<Attribute> {
    if |attributes| <= 1 then attributes
    else if LooksLikeSentinel(attributes[1]) then attributes[..1]
    else attributes[..1] + Walked(attributes[1..])
  }

  function PrintAttributes(attributes: seq<Attribute>): Bytes {
    if attributes == [] then []
    else [SPACE] + PrintAttribute(attributes[0]) + PrintAttributes(attributes[1..])
  }

  function PrintDeclarationPart(key: Bytes, value: Bytes): Bytes {
    if value == [] then [] else key + [EQUALS, QUOT] + value + [QUOT, SPACE]
  }

  function OpenTag(e: Node): Bytes
    requires e.Element?
  {
    [LT] + CStr(e.name) + PrintAttributes(Walked(e.attributes)) + (if e.children == [] then EMPTY_CLOSE else [GT])
  }

  function CloseTag(e: Node): Bytes
    requires e.Element?
  {
    if e.children == [] then [] else END_OPEN + CStr(e.name) + [GT]
  }

  /** What the printer writes before and after a node: `SetIndent`, `SetLineBreak`. */
  datatype Format = Format(indent: Bytes, lineBreak: Bytes)

  /** `SetStreamPrinting` */
  const STREAM: Format := Format([], [])

  function Indentation(depth: nat, f: Format): Bytes {
    if depth == 0 then [] else Indentation(depth - 1, f) + f.indent
  }

  predicate IsPlainText(n: Node) {
    n.Text? && !n.cdata
  }

  /** A lone text child is printed between the tags without line breaks. */
  predicate IsSimple(e: Node)
    requires e.Element?
  {
    |e.children| == 1 && IsPlainText(e.children[0])
  }

  /** The document text of a node from its first to its last byte. */
  function PrintNode(n: Node, depth: nat, f: Format): Bytes {
    match n
    case Element(_, _, children) =>
      OpenTag(n)
      + (if children == [] then []
         else if IsSimple(n) then Encode(children[0].value)
         else f.lineBreak + PrintNodes(children, depth + 1, f) + Indentation(depth, f))
      + CloseTag(n)
    case Text(value, cdata) => if cdata then CDATA_OPEN + CStr(value) + CDATA_CLOSE else Encode(value)
    case Comment(value) => COMMENT_OPEN + CStr(value) + COMMENT_CLOSE
    case Unrecognised(value) => [LT] + CStr(value) + [GT]
    case Declaration(version, encoding, standalone) =>
      XML_OPEN + [SPACE] + PrintDeclarationPart(VERSION, version) + PrintDeclarationPart(ENCODING, encoding)
      + PrintDeclarationPart(STANDALONE, standalone) + DECLARATION_CLOSE
  }

  /** Nodes on lines of their own. */
  function PrintNodes(ns: seq<Node>, depth: nat, f: Format): Bytes {
    if ns == [] then []
    else Indentation(depth, f) + PrintNode(ns[0], depth, f) + f.lineBreak + PrintNodes(ns[1..], depth, f)
  }
}
