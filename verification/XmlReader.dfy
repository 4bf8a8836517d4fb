/** The parsers as the source writes them: loops that advance a pointer and
    append to the node being read.  Each is proved equal to its function. */
module XmlReader {
  import opened Prelude
  import opened XmlBytes
  import opened XmlUtf8
  import opened XmlText
  import opened XmlTree
  import opened XmlParser

  /** `TiXmlBase::entity` */
  const ENTITIES: seq<(Bytes, Byte)> :=
    [(AMP_ENTITY, AMP), (LT_ENTITY, LT), (GT_ENTITY, GT), (QUOT_ENTITY, QUOT), (APOS_ENTITY, APOS)]

  /** The digit loops of `GetEntity`, from the semicolon back to the marker. */
  method ReadDigits(s: Bytes, hex: bool) returns (r: Option<nat>)
    ensures r == ScanBack(s, hex, 1, 0)
  {
    var q: nat, mult: nat, ucs: nat := |s|, 1, 0;
    assert s[..q] == s;
    while q > 0 && s[q - 1] != (if hex then LOWER_X else HASH)
      invariant 0 <= q <= |s|
      invariant ScanBack(s[..q], hex, mult, ucs) == ScanBack(s, hex, 1, 0)
    {
      var b := s[q - 1];
      assert s[..q][..q - 1] == s[..q - 1];
      match DigitValue(b, hex)
      case None => return None;
      case Some(d) =>
        ucs := ucs + mult * d % WORD;
        mult := mult * (if hex then 16 else 10) % WORD;
      q := q - 1;
    }
    return if q > 0 then Some(ucs) else None;
  }

  method GetEntityAt(s: Bytes, enc: Encoding) returns (r: Read)
    requires |s| > 0
    ensures r == GetEntity(s, enc)
  {
    if At(s, 1) == HASH && At(s, 2) != 0 {
      var hex := At(s, 2) == LOWER_X;
      if hex && At(s, 3) == 0 {
        return Read([], None);
      }
      var q := FindByte(s, if hex then 3 else 2, SEMI);
      if q.None? {
        return Read([], None);
      }
      var ucs := ReadDigits(s[..q.value], hex);
      if ucs.None? {
        return Read([], None);
      }
      if enc == Utf8 {
        var value := new Byte[4](_ => 0);
        var length := ConvertUTF32ToUTF8(ucs.value, value);
        return Read(value[..length], Some(s[q.value + 1..]));
      }
      return Read([ucs.value % 256], Some(s[q.value + 1..]));
    }
    for i := 0 to 5
      invariant forall j :: 0 <= j < i ==> !StartsWith(s, ENTITIES[j].0)
    {
      var e := ENTITIES[i];
      if StartsWith(s, e.0) {
        assert i > 0 ==> !StartsWith(s, ENTITIES[0].0);
        assert i > 1 ==> !StartsWith(s, ENTITIES[1].0);
        assert i > 2 ==> !StartsWith(s, ENTITIES[2].0);
        assert i > 3 ==> !StartsWith(s, ENTITIES[3].0);
        return Read([e.1], Some(s[|e.0|..]));
      }
    }
    assert !StartsWith(s, ENTITIES[0].0) && !StartsWith(s, ENTITIES[1].0) && !StartsWith(s, ENTITIES[2].0)
        && !StartsWith(s, ENTITIES[3].0) && !StartsWith(s, ENTITIES[4].0);
    return Read([], Some(s[1..]));
  }

  method GetCharAt(s: Bytes, enc: Encoding) returns (r: Read)
    requires |s| > 0
    ensures r == GetChar(s, enc)
  {
    var length := if enc == Utf8 then ByteTable(s[0]) else 1;
    if length == 1 {
      if s[0] == AMP {
        r := GetEntityAt(s, enc);
        return;
      }
      return Read([s[0]], Some(s[1..]));
    }
    var value: Bytes, i := [], 0;
    while i < length && At(s, i) != 0
      invariant 0 <= i <= length && i <= |s|
      invariant CopyChar(s, length) == value + CopyChar(s[i..], length - i)
    {
      assert s[i..][1..] == s[i + 1..];
      value := value + [s[i]];
      i := i + 1;
    }
    assert CopyChar(s[i..], length - i) == seq(length - i, _ => 0);
    return Read(value + seq(length - i, _ => 0), Some(Drop(s, length)));
  }

  /** The loop of `ReadText` that keeps all white space. */
  method ReadKeptAt(start: Ptr, endTag: Bytes, enc: Encoding) returns (r: Read)
    ensures r == ReadKept(start, endTag, enc)
  {
    hide GetChar;
    var text: Bytes, p := [], start;
    while MoreText(p, endTag)
      invariant ReadKept(start, endTag, enc) == Prepend(text, ReadKept(p, endTag, enc))
      decreases p.Some?, if p.Some? then |p.value| else 0
    {
      var c := GetCharAt(p.value, enc);
      PrependTwice(text, c.bytes, ReadKept(c.next, endTag, enc));
      p := c.next;
      text := text + c.bytes;
    }
    return Read(text, p);
  }

  /** The loop of `ReadText` that condenses white space. */
  method ReadCondensedAt(start: Ptr, endTag: Bytes, enc: Encoding) returns (r: Read)
    ensures r == ReadCondensed(start, false, endTag, enc)
  {
    hide GetChar;
    var text: Bytes, p, whitespace := [], start, false;
    while MoreText(p, endTag)
      invariant ReadCondensed(start, false, endTag, enc) == Prepend(text, ReadCondensed(p, whitespace, endTag, enc))
      decreases p.Some?, if p.Some? then |p.value| else 0
    {
      if IsWhiteSpace(p.value[0]) {
        whitespace := true;
        p := Some(p.value[1..]);
      } else {
        ghost var gap := if whitespace then [SPACE] else [];
        ghost var before := text;
        if whitespace {
          text := text + [SPACE];
          whitespace := false;
        }
        var c := GetCharAt(p.value, enc);
        text := text + c.bytes;
        PrependTwice(before, gap + c.bytes, ReadCondensed(c.next, false, endTag, enc));
        assert text == before + (gap + c.bytes);
        p := c.next;
      }
    }
    return Read(text, p);
  }

  function Prepend(text: Bytes, r: Read): Read {
    Read(text + r.bytes, r.next)
  }

  lemma PrependTwice(a: Bytes, b: Bytes, r: Read)
    ensures Prepend(a, Prepend(b, r)) == Prepend(a + b, r)
  {
  }

  /** `TiXmlBase::ReadText` */
  method ReadTextAt(start: Bytes, condense: bool, endTag: Bytes, enc: Encoding) returns (r: Read)
    ensures r == ReadText(start, condense, endTag, enc)
  {
    hide ReadKept, ReadCondensed, SkipRun;
    if !condense {
      r := ReadKeptAt(Some(start), endTag, enc);
    } else {
      var p := SkipWhiteSpaceLoop(start, enc);
      if p.None? {
        return Read([], None);
      }
      r := ReadCondensedAt(p, endTag, enc);
    }
    if LivePtr(r.next) {
      r := Read(r.bytes, NullIfEnd(r.next.value[|endTag|..]));
    } else {
      r := Read(r.bytes, None);
    }
  }

  method ParseAttributeAt(start: Bytes, enc: Encoding) returns (r: ParsedAttribute)
    ensures r == ParseAttribute(start, enc)
  {
    hide ReadText, ReadName, SkipRun;
    var p := SkipWhiteSpaceLoop(start, enc);
    if !LivePtr(p) {
      DeadNames(p);
      return ParsedAttribute(Attribute([], []), None);
    }
    var named := ReadNameLoop(p);
    if !LivePtr(named.next) {
      return ParsedAttribute(Attribute(named.name, []), None);
    }
    p := SkipWhiteSpaceLoop(named.next.value, enc);
    if !LivePtr(p) || p.value[0] != EQUALS {
      return ParsedAttribute(Attribute(named.name, []), None);
    }
    p := SkipWhiteSpaceLoop(p.value[1..], enc);
    if !LivePtr(p) {
      return ParsedAttribute(Attribute(named.name, []), None);
    }
    if p.value[0] == APOS || p.value[0] == QUOT {
      var text := ReadTextAt(p.value[1..], false, [p.value[0]], enc);
      return ParsedAttribute(Attribute(named.name, text.bytes), text.next);
    }
    r := ParseUnquoted(named.name, p.value, enc);
  }

  lemma DeadNames(p: Ptr)
    requires !LivePtr(p)
    ensures ReadName(p) == Named([], None)
  {
  }

  /** The loop for an attribute value without quotes. */
  method ParseUnquoted(name: Bytes, start: Bytes, enc: Encoding) returns (r: ParsedAttribute)
    requires Live(start) && start[0] != APOS && start[0] != QUOT
    ensures r == ParseAttributeValue(name, start, enc)
  {
    hide UnquotedLength, UnquotedPrefix;
    var value: Bytes, p := [], start;
    ghost var i := 0;
    assert [] + UnquotedPrefix(p) == UnquotedPrefix(p);
    while Live(p) && !IsWhiteSpace(p[0]) && p[0] != SLASH && p[0] != GT
      invariant 0 <= i <= |start| && p == start[i..] && value == start[..i]
      invariant UnquotedLength(start) == match UnquotedLength(p) case None => None case Some(n) => Some(i + n)
      invariant UnquotedPrefix(start) == value + UnquotedPrefix(p)
      decreases |p|
    {
      UnquotedStep(p, value);
      if p[0] == APOS || p[0] == QUOT {
        return ParsedAttribute(Attribute(name, value), None);
      }
      value := value + [p[0]];
      p := p[1..];
      i := i + 1;
    }
    UnquotedStep(p, value);
    return ParsedAttribute(Attribute(name, value), Some(p));
  }

  lemma UnquotedStep(p: Bytes, value: Bytes)
    ensures if !Live(p) || IsWhiteSpace(p[0]) || p[0] == SLASH || p[0] == GT then
              UnquotedLength(p) == Some(0)
            else if p[0] == APOS || p[0] == QUOT then
              UnquotedLength(p) == None && value + UnquotedPrefix(p) == value
            else
              && UnquotedLength(p) == (match UnquotedLength(p[1..]) case None => None case Some(n) => Some(n + 1))
              && value + UnquotedPrefix(p) == value + [p[0]] + UnquotedPrefix(p[1..])
  {
  }

  lemma RawStep(p: Bytes, endTag: Bytes)
    ensures Live(p) && !StartsWith(p, endTag) ==> p != [] && RawUntil(p, endTag) == 1 + RawUntil(p[1..], endTag)
    ensures !(Live(p) && !StartsWith(p, endTag)) ==> RawUntil(p, endTag) == 0
  {
  }

  /** The byte-by-byte loops of comments, CDATA sections and unrecognised tags. */
  method ReadRaw(start: Bytes, endTag: Bytes) returns (value: Bytes, p: Bytes)
    ensures value == start[..RawUntil(start, endTag)] && p == start[RawUntil(start, endTag)..]
  {
    hide RawUntil, Live, StartsWith;
    value, p := [], start;
    ghost var i := 0;
    RawStep(p, endTag);
    while Live(p) && !StartsWith(p, endTag)
      invariant 0 <= i <= |start| && p == start[i..] && value == start[..i]
      invariant RawUntil(start, endTag) == i + RawUntil(p, endTag)
      decreases |p|
    {
      RawStep(p, endTag);
      value := value + [p[0]];
      p := p[1..];
      i := i + 1;
    }
    RawStep(p, endTag);
  }

  method ParseRawMarkup(s: Bytes) returns (r: Parsed)
    requires s != [] && s[0] == LT
    ensures StartsWith(s, COMMENT_OPEN) ==> r == ParseComment(s)
    ensures !StartsWith(s, COMMENT_OPEN) && StartsWith(s, CDATA_OPEN) ==> r == ParseCData(s)
    ensures !StartsWith(s, COMMENT_OPEN) && !StartsWith(s, CDATA_OPEN) ==> r == ParseUnrecognised(s)
  {
    hide RawUntil;
    if StartsWith(s, COMMENT_OPEN) {
      var value, p := ReadRaw(s[|COMMENT_OPEN|..], COMMENT_CLOSE);
      return Parsed(Comment(value), Some(if Live(p) then p[|COMMENT_CLOSE|..] else p));
    }
    if StartsWith(s, CDATA_OPEN) {
      var value, p := ReadRaw(s[|CDATA_OPEN|..], CDATA_CLOSE);
      var dummy := ReadTextAt(p, false, CDATA_CLOSE, Unknown);
      AtEndTag(p, CDATA_CLOSE);
      return Parsed(Text(value, true), dummy.next);
    }
    var value, p := ReadRaw(s[1..], [GT]);
    return Parsed(Unrecognised(value), Some(if Live(p) then p[1..] else p));
  }

  /** After the CDATA loop there is nothing left for `ReadText` to read. */
  lemma AtEndTag(p: Bytes, endTag: Bytes)
    requires Live(p) ==> StartsWith(p, endTag)
    ensures ReadText(p, false, endTag, Unknown) ==
            Read([], if Live(p) then NullIfEnd(p[|endTag|..]) else None)
  {
  }

  method ParseDeclarationAt(start: Bytes, enc: Encoding) returns (r: Parsed)
    ensures r == ParseDeclarationRest(Some(start), Declaration([], [], []), enc)
  {
    hide ParseAttribute, SkipRun;
    var d, p := Declaration([], [], []), Some(start);
    while LivePtr(p)
      invariant d.Declaration?
      invariant ParseDeclarationRest(p, d, enc) == ParseDeclarationRest(Some(start), Declaration([], [], []), enc)
      decreases p.Some?, if p.Some? then |p.value| else 0
    {
      if p.value[0] == GT {
        return Parsed(d, Some(p.value[1..]));
      }
      ghost var before := p.value;
      p := SkipWhiteSpaceLoop(p.value, enc);
      SkipStep(before, enc);
      var s := p.value;
      if StartsWithNoCase(s, VERSION) {
        var a := ParseAttributeAt(s, enc);
        p, d := a.next, d.(version := a.attribute.value);
      } else if StartsWithNoCase(s, ENCODING) {
        var a := ParseAttributeAt(s, enc);
        p, d := a.next, d.(encoding := a.attribute.value);
      } else if StartsWithNoCase(s, STANDALONE) {
        var a := ParseAttributeAt(s, enc);
        p, d := a.next, d.(standalone := a.attribute.value);
      } else {
        var q := SkipJunk(s);
        p := Some(q);
      }
    }
    return Parsed(d, None);
  }

  lemma SkipStep(s: Bytes, enc: Encoding)
    requires Live(s) && s[0] != GT
    ensures var r := SkipRun(s, enc); |r| < |s| || (r == s && JunkLength(s) > 0)
  {
  }

  method SkipJunk(start: Bytes) returns (p: Bytes)
    ensures p == start[JunkLength(start)..]
  {
    p := start;
    ghost var i := 0;
    while Live(p) && p[0] != GT && !IsWhiteSpace(p[0])
      invariant 0 <= i <= |start| && p == start[i..]
      invariant JunkLength(start) == i + JunkLength(p)
      decreases |p|
    {
      p, i := p[1..], i + 1;
    }
  }

  method FindAttribute(attributes: seq<Attribute>, name: Bytes) returns (found: bool)
    ensures found == HasAttribute(attributes, name)
  {
    for i := 0 to |attributes|
      invariant forall j :: 0 <= j < i ==> attributes[j].name != name
    {
      if attributes[i].name == name {
        return true;
      }
    }
    return false;
  }

  /** `TiXmlElement::Parse` */
  method ParseElementAt(start: Bytes, m: Mode) returns (r: Parsed)
    ensures r == ParseElement(start, m)
    decreases |start|, 0
  {
    hide ReadValue, ParseAttribute, SkipRun, ReadName, ParseEndTag, HasAttribute;
    var p := SkipWhiteSpaceLoop(start, m.enc);
    if !LivePtr(p) || p.value[0] != LT {
      return Parsed(Element([], [], []), None);
    }
    var nameAt := SkipWhiteSpaceLoop(p.value[1..], m.enc);
    var named := ReadNameLoop(nameAt);
    if !LivePtr(named.next) {
      return Parsed(Element(named.name, [], []), None);
    }
    var name, attributes, s := named.name, [], named.next.value;
    while true
      invariant |s| < |start| && Live(s)
      invariant ParseTagRest(name, attributes, s, m) == ParseElement(start, m)
      decreases |s|
    {
      p := SkipWhiteSpaceLoop(s, m.enc);
      if !LivePtr(p) {
        return Parsed(Element(name, attributes, []), None);
      }
      var d := p.value;
      if d[0] == SLASH {
        return Parsed(Element(name, attributes, []), if At(d, 1) == GT then Some(d[2..]) else None);
      } else if d[0] == GT {
        var content := ReadValueAt(d[1..], m);
        var next: Ptr := None;
        if LivePtr(content.next) {
          next := ParseEndTagAt(name, content.next.value, m);
        }
        return Parsed(Element(name, attributes, content.nodes), next);
      }
      var a := ParseAttributeAt(d, m.enc);
      if !LivePtr(a.next) {
        return Parsed(Element(name, attributes, []), None);
      }
      var found := FindAttribute(attributes, a.attribute.name);
      if found {
        return Parsed(Element(name, attributes, []), None);
      }
      attributes := attributes + [a.attribute];
      s := a.next.value;
    }
  }

  method ParseEndTagAt(name: Bytes, s: Bytes, m: Mode) returns (r: Ptr)
    ensures r == ParseEndTag(name, s, m)
  {
    if StartsWith(s, END_OPEN + name) {
      var p := SkipWhiteSpaceLoop(s[2 + |name|..], m.enc);
      if LivePtr(p) && p.value[0] == GT {
        return Some(p.value[1..]);
      }
    }
    return None;
  }

  /** `TiXmlElement::ReadValue` */
  method ReadValueAt(start: Bytes, m: Mode) returns (r: ParsedNodes)
    ensures r == ReadValue(start, m)
    decreases |start|, 2
  {
    hide ReadValue, ParseMarkup, ParseText, SkipRun, Blank, StartsWith, After;
    var nodes: seq<Node> := [];
    var s := start;
    AfterNothing(ReadValue(s, m));
    while true
      invariant |s| <= |start|
      invariant ReadValue(start, m) == After(nodes, ReadValue(s, m))
      decreases |s|
    {
      ReadValueStep(s, m);
      var p := SkipWhiteSpaceLoop(s, m.enc);
      AfterAll(nodes, p);
      if !LivePtr(p) {
        return ParsedNodes(nodes, p);
      }
      var a := p.value;
      var next: Ptr;
      if a[0] != LT {
        TextAdvances(s, a, m);
        var text := ParseTextAt(if m.condense then a else s, m);
        next := text.next;
        ghost var rest := if next.Some? then ReadValue(next.value, m) else ParsedNodes([], None);
        AfterNothing(rest);
        AfterTwice(nodes, [text.node], rest);
        if !Blank(text.node.value) {
          nodes := nodes + [text.node];
        }
      } else if StartsWith(a, END_OPEN) {
        return ParsedNodes(nodes, Some(a));
      } else {
        var child := ParseMarkupAt(a, m);
        next := child.next;
        AfterTwice(nodes, [child.node], if next.Some? then ReadValue(next.value, m) else ParsedNodes([], None));
        nodes := nodes + [child.node];
      }
      AfterAll(nodes, None);
      if next.None? {
        return ParsedNodes(nodes, None);
      }
      s := next.value;
    }
  }

  function After(nodes: seq<Node>, r: ParsedNodes): ParsedNodes {
    ParsedNodes(nodes + r.nodes, r.next)
  }

  lemma AfterNothing(r: ParsedNodes)
    ensures After([], r) == r
  {
  }

  lemma AfterAll(nodes: seq<Node>, p: Ptr)
    ensures After(nodes, ParsedNodes([], p)) == ParsedNodes(nodes, p)
  {
  }

  lemma AfterTwice(a: seq<Node>, b: seq<Node>, r: ParsedNodes)
    ensures After(a, After(b, r)) == After(a + b, r)
  {
  }

  /** One round of the content loop. */
  lemma ReadValueStep(s: Bytes, m: Mode)
    ensures var p := SkipWhiteSpace(s, m.enc);
            if !LivePtr(p) then ReadValue(s, m) == ParsedNodes([], p)
            else if p.value[0] != LT then
              var text := ParseText(if m.condense then p.value else s, m);
              ReadValue(s, m) == After(if Blank(text.node.value) then [] else [text.node],
                                       if text.next.Some? then ReadValue(text.next.value, m) else ParsedNodes([], None))
            else if StartsWith(p.value, END_OPEN) then ReadValue(s, m) == ParsedNodes([], p)
            else
              var child := ParseMarkup(p.value, m);
              ReadValue(s, m) == After([child.node],
                                       if child.next.Some? then ReadValue(child.next.value, m)
                                       else ParsedNodes([], None))
  {
    hide ParseMarkup, ParseText, SkipRun, Blank;
  }

  method ParseTextAt(s: Bytes, m: Mode) returns (r: Parsed)
    ensures r == ParseText(s, m)
  {
    var text := ReadTextAt(s, m.condense, [LT], m.enc);
    r := Parsed(Text(text.bytes, false), StepBack(text));
  }

  method ParseMarkupAt(s: Bytes, m: Mode) returns (r: Parsed)
    requires s != [] && s[0] == LT
    ensures r == ParseMarkup(s, m)
    decreases |s|, 1
  {
    hide ParseComment, ParseCData, ParseUnrecognised, ParseElement, ParseDeclarationRest;
    if StartsWithNoCase(s, XML_OPEN) {
      r := ParseDeclarationAt(s[5..], m.enc);
    } else if StartsWith(s, COMMENT_OPEN) || StartsWith(s, CDATA_OPEN) || StartsWith(s, DTD_OPEN) {
      r := ParseRawMarkup(s);
    } else if IsNameStart(At(s, 1)) {
      r := ParseElementAt(s, m);
    } else {
      r := ParseRawMarkup(s);
    }
  }
}
