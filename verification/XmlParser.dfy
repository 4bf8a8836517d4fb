/** The TinyXML parsers as functions of the input from a pointer onwards.  Every
    parser yields the node as far as it got and the pointer it returns. */
module XmlParser {
  import opened Prelude
  import opened XmlBytes
  import opened XmlText
  import opened XmlTree

  /** The encoding in force and the global `condenseWhiteSpace` switch. */
  datatype Mode = Mode(enc: Encoding, condense: bool)

  datatype Parsed = Parsed(node: Node, next: Ptr)
  datatype ParsedAttribute = ParsedAttribute(attribute: Attribute, next: Ptr)
  datatype ParsedNodes = ParsedNodes(nodes: seq<Node>, next: Ptr)

  /** Bytes up to a tag: the loop of comments and CDATA sections. */
  function RawUntil(s: Bytes, endTag: Bytes): (n: nat)
    ensures n <= |s|
    ensures n == |s| || s[n] == 0 || StartsWith(s[n..], endTag)
    ensures forall i :: 0 <= i < n ==> s[i] != 0 && !StartsWith(s[i..], endTag)
  {
    if !Live(s) || StartsWith(s, endTag) then 0
    else
      var n := RawUntil(s[1..], endTag);
      assert s[1..][n..] == s[n + 1..];
      assert forall i :: 1 <= i < n + 1 ==> s[i..] == s[1..][i - 1..];
      1 + n
  }

  /** Unquoted attribute values run to white space, `/` or `>`; a quote in one is an error. */
  function UnquotedLength(s: Bytes): (r: Option<nat>)
    ensures r.Some? ==> r.value <= |s|
  {
    if !Live(s) || IsWhiteSpace(s[0]) || s[0] == SLASH || s[0] == GT then Some(0)
    else if s[0] == APOS || s[0] == QUOT then None
    else match UnquotedLength(s[1..]) case None => None case Some(n) => Some(n + 1)
  }

  /** The bytes read before `UnquotedLength` gives up. */
  function UnquotedPrefix(s: Bytes): Bytes {
    if !Live(s) || IsWhiteSpace(s[0]) || s[0] == SLASH || s[0] == GT || s[0] == APOS || s[0] == QUOT then []
    else [s[0]] + UnquotedPrefix(s[1..])
  }

  /** `TiXmlAttribute::Parse` */
  function ParseAttribute(s: Bytes, enc: Encoding): (r: ParsedAttribute)
    ensures r.next.Some? ==> |r.next.value| < |s|
  {
    match SkipWhiteSpace(s, enc)
    case None => ParsedAttribute(Attribute([], []), None)
    case Some(a) =>
      var named := ReadName(Some(a));
      if !LivePtr(named.next) then ParsedAttribute(Attribute(named.name, []), None)
      else match SkipWhiteSpace(named.next.value, enc)
        case None => ParsedAttribute(Attribute(named.name, []), None)
        case Some(b) =>
          if At(b, 0) != EQUALS then ParsedAttribute(Attribute(named.name, []), None)
          else match SkipWhiteSpace(b[1..], enc)
            case None => ParsedAttribute(Attribute(named.name, []), None)
            case Some(c) => ParseAttributeValue(named.name, c, enc)
  }

  function ParseAttributeValue(name: Bytes, s: Bytes, enc: Encoding): (r: ParsedAttribute)
    ensures r.next.Some? ==> |r.next.value| <= |s|
  {
    if !Live(s) then ParsedAttribute(Attribute(name, []), None)
    else if s[0] == APOS || s[0] == QUOT then
      var r := ReadText(s[1..], false, [s[0]], enc);
      ParsedAttribute(Attribute(name, r.bytes), r.next)
    else match UnquotedLength(s)
      case None => ParsedAttribute(Attribute(name, UnquotedPrefix(s)), None)
      case Some(n) => ParsedAttribute(Attribute(name, s[..n]), Some(s[n..]))
  }

  predicate HasAttribute(attributes: seq<Attribute>, name: Bytes) {
    exists i :: 0 <= i < |attributes| && attributes[i].name == name
  }

  /** `TiXmlText::Blank` */
  predicate Blank(value: Bytes) {
    forall i :: 0 <= i < |value| ==> IsWhiteSpace(value[i])
  }

  function StepBack(r: Read): (p: Ptr)
    ensures p.Some? ==> r.next.Some? && |p.value| == |r.next.value| + 1
  {
    match r.next case None => None case Some(s) => Some([LT] + s)
  }

  /** `TiXmlText::Parse` on text that does not start a CDATA section. */
  function ParseText(s: Bytes, m: Mode): (r: Parsed)
    ensures r.node.Text? && !r.node.cdata
  {
    var r := ReadText(s, m.condense, [LT], m.enc);
    Parsed(Text(r.bytes, false), StepBack(r))
  }

  /** `TiXmlText::Parse` on a CDATA section. */
  function ParseCData(s: Bytes): (r: Parsed)
    requires StartsWith(s, CDATA_OPEN)
    ensures r.next.Some? ==> |r.next.value| < |s|
  {
    var t := s[|CDATA_OPEN|..];
    var n := RawUntil(t, CDATA_CLOSE);
    Parsed(Text(t[..n], true), if Live(t[n..]) then NullIfEnd(t[n..][|CDATA_CLOSE|..]) else None)
  }

  /** `TiXmlComment::Parse` */
  function ParseComment(s: Bytes): (r: Parsed)
    requires StartsWith(s, COMMENT_OPEN)
    ensures r.next.Some? && |r.next.value| < |s|
  {
    var t := s[|COMMENT_OPEN|..];
    var n := RawUntil(t, COMMENT_CLOSE);
    Parsed(Comment(t[..n]), Some(if Live(t[n..]) then t[n..][|COMMENT_CLOSE|..] else t[n..]))
  }

  /** `TiXmlUnknown::Parse` */
  function ParseUnrecognised(s: Bytes): (r: Parsed)
    requires s != [] && s[0] == LT
    ensures r.next.Some? && |r.next.value| < |s|
  {
    var t := s[1..];
    var n := RawUntil(t, [GT]);
    Parsed(Unrecognised(t[..n]), Some(if Live(t[n..]) then t[n + 1..] else t[n..]))
  }

  /** `TiXmlDeclaration::Parse`, after its header. */
  function ParseDeclarationRest(p: Ptr, d: Node, enc: Encoding): (r: Parsed)
    requires d.Declaration?
    ensures r.next.Some? ==> p.Some? && |r.next.value| < |p.value|
    decreases p.Some?, if p.Some? then |p.value| else 0
  {
    if !LivePtr(p) then Parsed(d, None)
    else if p.value[0] == GT then Parsed(d, Some(p.value[1..]))
    else
      var s := SkipRun(p.value, enc);
      if StartsWithNoCase(s, VERSION) then
        var a := ParseAttribute(s, enc);
        ParseDeclarationRest(a.next, d.(version := a.attribute.value), enc)
      else if StartsWithNoCase(s, ENCODING) then
        var a := ParseAttribute(s, enc);
        ParseDeclarationRest(a.next, d.(encoding := a.attribute.value), enc)
      else if StartsWithNoCase(s, STANDALONE) then
        var a := ParseAttribute(s, enc);
        ParseDeclarationRest(a.next, d.(standalone := a.attribute.value), enc)
      else
        assert s == p.value ==> JunkLength(s) > 0;
        ParseDeclarationRest(Some(s[JunkLength(s)..]), d, enc)
  }

  function JunkLength(s: Bytes): (n: nat)
    ensures n <= |s|
  {
    if Live(s) && s[0] != GT && !IsWhiteSpace(s[0]) then 1 + JunkLength(s[1..]) else 0
  }

  /** `TiXmlElement::Parse` */
  function ParseElement(s: Bytes, m: Mode): (r: Parsed)
    ensures r.node.Element?
    ensures r.next.Some? ==> |r.next.value| < |s|
    decreases |s|, 0
  {
    match SkipWhiteSpace(s, m.enc)
    case None => Parsed(Element([], [], []), None)
    case Some(a) =>
      if At(a, 0) != LT then Parsed(Element([], [], []), None)
      else
        var named := ReadName(SkipWhiteSpace(a[1..], m.enc));
        if !LivePtr(named.next) then Parsed(Element(named.name, [], []), None)
        else ParseTagRest(named.name, [], named.next.value, m)
  }

  /** The attribute loop of `TiXmlElement::Parse`, and the element's content and
      end tag once the start tag closes. */
  function ParseTagRest(name: Bytes, attributes: seq<Attribute>, s: Bytes, m: Mode): (r: Parsed)
    ensures r.node.Element?
    ensures Live(s) && r.next.Some? ==> |r.next.value| < |s|
    ensures r.next.Some? ==> |r.next.value| <= |s|
    decreases |s|, 0
  {
    var soFar := Element(name, attributes, []);
    if !Live(s) then Parsed(soFar, Some(s))
    else
      var d := SkipRun(s, m.enc);
      if !Live(d) then Parsed(soFar, None)
      else if d[0] == SLASH then
        if At(d, 1) == GT then Parsed(soFar, Some(d[2..])) else Parsed(soFar, None)
      else if d[0] == GT then
        var content := ReadValue(d[1..], m);
        Parsed(soFar.(children := content.nodes),
               if LivePtr(content.next) then ParseEndTag(name, content.next.value, m) else None)
      else
        var a := ParseAttribute(d, m.enc);
        if !LivePtr(a.next) || HasAttribute(attributes, a.attribute.name) then Parsed(soFar, None)
        else ParseTagRest(name, attributes + [a.attribute], a.next.value, m)
  }

  /** The end tag of `TiXmlElement::Parse`. */
  function ParseEndTag(name: Bytes, s: Bytes, m: Mode): (r: Ptr)
    ensures r.Some? ==> |r.value| < |s|
  {
    if !StartsWith(s, END_OPEN + name) then None
    else match SkipWhiteSpace(s[2 + |name|..], m.enc)
      case None => None
      case Some(t) => if At(t, 0) == GT then Some(t[1..]) else None
  }

  /** `Identify` and the parse of the node it names, at a `<`. */
  function ParseMarkup(s: Bytes, m: Mode): (r: Parsed)
    requires s != [] && s[0] == LT
    ensures r.next.Some? ==> |r.next.value| < |s|
    decreases |s|, 1
  {
    if StartsWithNoCase(s, XML_OPEN) then ParseDeclarationRest(Some(s[5..]), Declaration([], [], []), m.enc)
    else if StartsWith(s, COMMENT_OPEN) then ParseComment(s)
    else if StartsWith(s, CDATA_OPEN) then ParseCData(s)
    else if StartsWith(s, DTD_OPEN) then ParseUnrecognised(s)
    else if IsNameStart(At(s, 1)) then ParseElement(s, m)
    else ParseUnrecognised(s)
  }

  /** `TiXmlElement::ReadValue`: content up to an end tag. */
  function ReadValue(s: Bytes, m: Mode): (r: ParsedNodes)
    ensures r.next.Some? ==> |r.next.value| <= |s|
    decreases |s|, 2
  {
    match SkipWhiteSpace(s, m.enc)
    case None => ParsedNodes([], None)
    case Some(a) =>
      if !Live(a) then ParsedNodes([], Some(a))
      else if a[0] != LT then
        var text := ParseText(if m.condense then a else s, m);
        TextAdvances(s, a, m);
        var rest := if text.next.Some? then ReadValue(text.next.value, m) else ParsedNodes([], None);
        if Blank(text.node.value) then rest else ParsedNodes([text.node] + rest.nodes, rest.next)
      else if StartsWith(a, END_OPEN) then ParsedNodes([], Some(a))
      else
        var child := ParseMarkup(a, m);
        var rest := if child.next.Some? then ReadValue(child.next.value, m) else ParsedNodes([], None);
        ParsedNodes([child.node] + rest.nodes, rest.next)
  }

  /** Reading a text node moves on: a text never starts at its own delimiter. */
  lemma TextAdvances(s: Bytes, a: Bytes, m: Mode)
    requires SkipWhiteSpace(s, m.enc) == Some(a) && Live(a) && a[0] != LT
    ensures var text := ParseText(if m.condense then a else s, m);
            text.next.Some? ==> |text.next.value| < |s|
  {
    if m.condense {
      assert SkipWhiteSpace(a, m.enc) == Some(a) by { SkipRunStops(a, m.enc); }
      assert MoreText(Some(a), [LT]);
    } else {
      assert s[0] != LT;
      assert MoreText(Some(s), [LT]);
    }
  }

  lemma SkipRunStops(a: Bytes, enc: Encoding)
    requires a != [] && !IsWhiteSpace(a[0]) && (enc == Utf8 ==> !StartsWithMark(a))
    ensures SkipRun(a, enc) == a
  {
  }
}
