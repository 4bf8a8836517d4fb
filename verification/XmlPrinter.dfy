/** `TiXmlPrinter`, the visitor that writes a tree into its buffer. */
module XmlPrinter {
  import opened Prelude
  import opened XmlBytes
  import opened XmlText
  import opened XmlTree
  import opened XmlParser
  import opened XmlReader
  import opened XmlRoundTrip

  class Printer {
    var depth: nat
    var simpleTextPrint: bool
    var buffer: Bytes
    var indent: Bytes
    var lineBreak: Bytes

    /** Four spaces of indentation and line feeds, until set otherwise. */
    constructor ()
      ensures depth == 0 && !simpleTextPrint && buffer == []
      ensures Formatting() == Format([SPACE, SPACE, SPACE, SPACE], [10])
    {
      depth, simpleTextPrint, buffer := 0, false, [];
      indent, lineBreak := [SPACE, SPACE, SPACE, SPACE], [10];
    }

    function Formatting(): Format
      reads this
    {
      Format(indent, lineBreak)
    }

    method SetStreamPrinting()
      modifies this`indent, this`lineBreak
      ensures Formatting() == STREAM
    {
      indent := [];
      lineBreak := [];
    }

    method DoIndent()
      modifies this`buffer
      ensures buffer == old(buffer) + Indentation(depth, Formatting())
    {
      for i := 0 to depth
        invariant buffer == old(buffer) + Indentation(i, Formatting())
      {
        buffer := buffer + indent;
      }
    }

    method DoLineBreak()
      modifies this`buffer
      ensures buffer == old(buffer) + lineBreak
    {
      buffer := buffer + lineBreak;
    }

    /** `TiXmlAttribute::Print` into the buffer. */
    method PrintOne(a: Attribute)
      modifies this`buffer
      ensures buffer == old(buffer) + PrintAttribute(a)
    {
      hide Encode;
      var n := EncodeString(a.name, []);
      var v := EncodeString(a.value, []);
      assert n == Encode(a.name) && v == Encode(a.value);
      var quote := QUOT;
      if QUOT in a.value {
        quote := APOS;
      }
      Assoc4(buffer, n, [EQUALS, quote], v, [quote]);
      buffer := buffer + n;
      buffer := buffer + [EQUALS, quote];
      buffer := buffer + v;
      buffer := buffer + [quote];
    }

    method PrintAll(attributes: seq<Attribute>)
      modifies this`buffer
      ensures buffer == old(buffer) + PrintAttributes(Walked(attributes))
    {
      var i := 0;
      while i < |attributes|
        invariant 0 <= i <= |attributes|
        invariant buffer + PrintAttributes(Walked(attributes[i..])) == old(buffer) + PrintAttributes(Walked(attributes))
      {
        ghost var before, left := buffer, attributes[i..];
        buffer := buffer + [SPACE];
        PrintOne(attributes[i]);
        assert left[1..] == attributes[i + 1..];
        WalkStep(left, before, buffer);
        i := i + 1;
        if i < |attributes| && LooksLikeSentinel(attributes[i]) {
          break;
        }
      }
    }

    method VisitEnter(e: Node)
      requires e.Element?
      modifies this`buffer, this`simpleTextPrint, this`depth
      ensures depth == old(depth) + 1
      ensures simpleTextPrint == (old(simpleTextPrint) || IsSimple(e))
      ensures buffer == old(buffer) + Indentation(old(depth), Formatting()) + OpenTag(e)
                        + (if IsSimple(e) then [] else lineBreak)
    {
      hide Indentation, Walked, PrintAttributes, CStr;
      ghost var start := buffer + Indentation(depth, Formatting());
      DoIndent();
      buffer := buffer + [LT];
      buffer := buffer + CStr(e.name);
      PrintAll(e.attributes);
      if e.children == [] {
        buffer := buffer + EMPTY_CLOSE;
        assert buffer == start + OpenTag(e);
        DoLineBreak();
      } else {
        buffer := buffer + [GT];
        assert buffer == start + OpenTag(e);
        if e.children[0].Text? && |e.children| == 1 && !e.children[0].cdata {
          simpleTextPrint := true;
        } else {
          DoLineBreak();
        }
      }
      depth := depth + 1;
    }

    method VisitExit(e: Node)
      requires e.Element? && depth > 0
      modifies this`buffer, this`simpleTextPrint, this`depth
      ensures depth == old(depth) - 1
      ensures simpleTextPrint == (old(simpleTextPrint) && e.children == [])
      ensures buffer == old(buffer) +
                        (if e.children == [] then []
                         else (if old(simpleTextPrint) then [] else Indentation(depth, Formatting()))
                              + CloseTag(e) + lineBreak)
    {
      hide Indentation, CStr;
      depth := depth - 1;
      if e.children != [] {
        ghost var pad := if simpleTextPrint then [] else Indentation(depth, Formatting());
        if simpleTextPrint {
          simpleTextPrint := false;
          assert buffer == old(buffer) + pad;
        } else {
          DoIndent();
        }
        ghost var start := buffer;
        buffer := buffer + END_OPEN;
        buffer := buffer + CStr(e.name);
        buffer := buffer + [GT];
        Assoc4(start, END_OPEN, CStr(e.name), [GT], []);
        assert buffer == start + CloseTag(e);
        DoLineBreak();
        Assoc4(old(buffer), pad, CloseTag(e), lineBreak, []);
        assert buffer == old(buffer) + (pad + CloseTag(e) + lineBreak);
      }
    }

    /** The `Visit` overloads: everything but elements. */
    method Visit(n: Node)
      requires !n.Element?
      modifies this`buffer
      ensures buffer == old(buffer) +
                        (if simpleTextPrint && IsPlainText(n) then Encode(n.value)
                         else Indentation(depth, Formatting()) + PrintNode(n, depth, Formatting()) + lineBreak)
    {
      hide Indentation, Encode, CStr, PrintNode;
      if simpleTextPrint && IsPlainText(n) {
        buffer := EncodeString(n.value, buffer);
        return;
      }
      ghost var pad := Indentation(depth, Formatting());
      DoIndent();
      Body(n);
      DoLineBreak();
      Assoc4(old(buffer), pad, PrintNode(n, depth, Formatting()), lineBreak, []);
    }

    method Body(n: Node)
      requires !n.Element?
      modifies this`buffer
      ensures buffer == old(buffer) + PrintNode(n, depth, Formatting())
    {
      hide Encode, CStr;
      match n {
        case Text(value, cdata) =>
          if cdata {
            Assoc4(buffer, CDATA_OPEN, CStr(value), CDATA_CLOSE, []);
            buffer := buffer + CDATA_OPEN + CStr(value) + CDATA_CLOSE;
          } else {
            buffer := EncodeString(value, buffer);
          }
        case Comment(value) =>
          Assoc4(buffer, COMMENT_OPEN, CStr(value), COMMENT_CLOSE, []);
          buffer := buffer + COMMENT_OPEN + CStr(value) + COMMENT_CLOSE;
        case Unrecognised(value) =>
          Assoc4(buffer, [LT], CStr(value), [GT], []);
          buffer := buffer + [LT] + CStr(value) + [GT];
        case Declaration(version, encoding, standalone) =>
          PrintDeclaration(version, encoding, standalone);
      }
    }

    /** `TiXmlDeclaration::Print` into the buffer. */
    method PrintDeclaration(version: Bytes, encoding: Bytes, standalone: Bytes)
      modifies this`buffer
      ensures buffer == old(buffer) + (XML_OPEN + [SPACE] + PrintDeclarationPart(VERSION, version)
                        + PrintDeclarationPart(ENCODING, encoding) + PrintDeclarationPart(STANDALONE, standalone)
                        + DECLARATION_CLOSE)
    {
      hide PrintDeclarationPart;
      ghost var v, e, s := PrintDeclarationPart(VERSION, version), PrintDeclarationPart(ENCODING, encoding),
                           PrintDeclarationPart(STANDALONE, standalone);
      Assoc4(buffer, XML_OPEN + [SPACE], v, e, s);
      buffer := buffer + (XML_OPEN + [SPACE]);
      PrintPart(VERSION, version);
      PrintPart(ENCODING, encoding);
      PrintPart(STANDALONE, standalone);
      buffer := buffer + DECLARATION_CLOSE;
    }

    method PrintPart(key: Bytes, value: Bytes)
      modifies this`buffer
      ensures buffer == old(buffer) + PrintDeclarationPart(key, value)
    {
      if value != [] {
        buffer := buffer + (key + [EQUALS, QUOT] + value + [QUOT, SPACE]);
      }
    }

    /** `Accept` on a node that is not the text of a simple element: a whole
        subtree goes into the buffer, and the printer is ready for the next. */
    method Accept(n: Node)
      requires !simpleTextPrint
      modifies this`buffer, this`simpleTextPrint, this`depth
      ensures depth == old(depth) && !simpleTextPrint
      ensures buffer == old(buffer) + Indentation(depth, Formatting()) + PrintNode(n, depth, Formatting()) + lineBreak
      decreases n, 1
    {
      if !n.Element? {
        Visit(n);
        return;
      }
      hide Indentation, OpenTag, CloseTag, PrintNodes, PrintNode, Encode;
      ghost var f, start := Formatting(), buffer + Indentation(depth, Formatting());
      VisitEnter(n);
      ghost var inner := buffer;
      if IsSimple(n) {
        Visit(n.children[0]);
        VisitExit(n);
        SimpleWritten(n, depth, f, start);
      } else {
        AcceptAll(n.children);
        VisitExit(n);
        ElementWritten(n, depth, f, start);
      }
    }

    /** The child loop of `Accept`. */
    method AcceptAll(ns: seq<Node>)
      requires !simpleTextPrint
      modifies this`buffer, this`simpleTextPrint, this`depth
      ensures depth == old(depth) && !simpleTextPrint
      ensures buffer == old(buffer) + PrintNodes(ns, depth, Formatting())
      decreases ns, 0
    {
      hide Indentation, PrintNode;
      ghost var f := Formatting();
      for i := 0 to |ns|
        invariant depth == old(depth) && !simpleTextPrint
        invariant buffer + PrintNodes(ns[i..], depth, f) == old(buffer) + PrintNodes(ns, depth, f)
      {
        ghost var before := buffer;
        Accept(ns[i]);
        assert ns[i..][1..] == ns[i + 1..];
        NodeWritten(ns[i..], depth, f, before, buffer);
      }
      assert ns[|ns|..] == [];
    }
  }

  lemma Assoc4(b: Bytes, x: Bytes, y: Bytes, z: Bytes, w: Bytes)
    ensures b + x + y + z + w == b + (x + y + z + w)
    ensures w == [] ==> b + x + y + z == b + (x + y + z)
  {
  }

  /** One attribute of the walk has been written. */
  lemma WalkStep(left: seq<Attribute>, before: Bytes, now: Bytes)
    requires left != [] && now == before + [SPACE] + PrintAttribute(left[0])
    ensures var rest := if |left| > 1 && !LooksLikeSentinel(left[1]) then PrintAttributes(Walked(left[1..])) else [];
            now + rest == before + PrintAttributes(Walked(left))
    ensures |left| == 1 ==> now + PrintAttributes(Walked(left[1..])) == before + PrintAttributes(Walked(left))
  {
    hide PrintAttribute, LooksLikeSentinel;
    var w := Walked(left);
    var more := if |left| > 1 && !LooksLikeSentinel(left[1]) then Walked(left[1..]) else [];
    assert w[0] == left[0] && w[1..] == more;
    assert PrintAttributes(w) == [SPACE] + PrintAttribute(left[0]) + PrintAttributes(more);
    Assoc4(before, [SPACE], PrintAttribute(left[0]), PrintAttributes(more), []);
  }

  lemma NodeWritten(ns: seq<Node>, depth: nat, f: Format, before: Bytes, now: Bytes)
    requires ns != [] && now == before + Indentation(depth, f) + PrintNode(ns[0], depth, f) + f.lineBreak
    ensures now + PrintNodes(ns[1..], depth, f) == before + PrintNodes(ns, depth, f)
  {
    hide Indentation, PrintNode;
  }

  lemma SimpleWritten(e: Node, depth: nat, f: Format, start: Bytes)
    requires e.Element? && IsSimple(e)
    ensures start + OpenTag(e) + [] + Encode(e.children[0].value) + ([] + CloseTag(e) + f.lineBreak) ==
            start + PrintNode(e, depth, f) + f.lineBreak
  {
    hide OpenTag, CloseTag, Encode;
    Assoc4(start, OpenTag(e), Encode(e.children[0].value), CloseTag(e), []);
    Assoc4(start + OpenTag(e) + Encode(e.children[0].value), [], CloseTag(e), f.lineBreak, []);
  }

  lemma ElementWritten(e: Node, depth: nat, f: Format, start: Bytes)
    requires e.Element? && !IsSimple(e)
    ensures e.children != [] ==>
              start + OpenTag(e) + f.lineBreak + PrintNodes(e.children, depth + 1, f)
              + (Indentation(depth, f) + CloseTag(e) + f.lineBreak) == start + PrintNode(e, depth, f) + f.lineBreak
    ensures e.children == [] ==>
              start + OpenTag(e) + f.lineBreak + PrintNodes(e.children, depth + 1, f) + [] ==
              start + PrintNode(e, depth, f) + f.lineBreak
  {
    hide Indentation, OpenTag, PrintNodes;
    if e.children == [] {
      NothingPrinted(depth + 1, f, [], []);
      assert PrintNodes([], depth + 1, f) == [];
      assert PrintNode(e, depth, f) == OpenTag(e);
    } else {
      var x, y := f.lineBreak + PrintNodes(e.children, depth + 1, f), Indentation(depth, f);
      Assoc4(start, OpenTag(e), x + y, CloseTag(e), []);
      Assoc4(start + OpenTag(e) + x, y, CloseTag(e), f.lineBreak, []);
      Assoc4(start + OpenTag(e), f.lineBreak, PrintNodes(e.children, depth + 1, f), [], []);
      assert start + OpenTag(e) + x + y == start + OpenTag(e) + (x + y);
    }
  }

  /** Printing an element and parsing the buffer gives the element back. */
  method PrintAndParse(printer: Printer, e: Node, m: Mode) returns (r: Parsed)
    requires e.Element? && Printable(e, m) && FormatOk(printer.Formatting(), m)
    requires !printer.simpleTextPrint && printer.buffer == []
    modifies printer
    ensures r == Parsed(e, Some(printer.lineBreak))
  {
    hide ParseElement, Printable, PrintNode, Indentation;
    printer.Accept(e);
    IndentedElement(e, printer.depth, printer.Formatting(), m);
    r := ParseElementAt(printer.buffer, m);
  }
}
