/** What the parser accepts, from any input at all, and printing it again. */
module XmlReprint {
  import opened Prelude
  import opened XmlBytes
  import opened XmlText
  import opened XmlTextLaws
  import opened XmlTree
  import opened XmlParser
  import opened XmlReader
  import opened XmlRoundTrip

  /** What holds of a tree by its structure: valid names, no attribute twice,
      no blank text, no text next to a text, and no raw section that contains
      its own end. */
  predicate Shaped(n: Node, m: Mode) {
    match n
    case Element(name, attributes, children) =>
      && NameOk(name, m.enc)
      && (forall i :: 0 <= i < |attributes| ==> NameOk(attributes[i].name, m.enc))
      && DistinctNames(attributes)
      && AllShaped(children, m)
    case Text(v, cdata) => if cdata then RawOk(v, CDATA_CLOSE) else !Blank(v)
    case Comment(v) => RawOk(v, COMMENT_CLOSE)
    case Unrecognised(v) => UnrecognisedOk(v)
    case Declaration(_, _, _) => true
  }

  predicate AllShaped(ns: seq<Node>, m: Mode) {
    ns != [] ==>
      && Shaped(ns[0], m)
      && (|ns| > 1 && IsPlainText(ns[0]) ==> !IsPlainText(ns[1]))
      && AllShaped(ns[1..], m)
  }

  /** What holds of the strings of a tree: each one survives escaping. */
  predicate StringsOk(n: Node, m: Mode) {
    match n
    case Element(_, attributes, children) =>
      && (forall i :: 0 <= i < |attributes| ==> Chunked(attributes[i].value, m.enc) && !HasRef(attributes[i].value))
      && AllStringsOk(children, m)
    case Text(v, cdata) => cdata || TextOk(v, m)
    case Comment(_) => true
    case Unrecognised(_) => true
    case Declaration(_, _, _) => false
  }

  predicate AllStringsOk(ns: seq<Node>, m: Mode) {
    ns != [] ==> StringsOk(ns[0], m) && AllStringsOk(ns[1..], m)
  }

  /** The printable trees are those of the right structure with strings that
      survive. */
  lemma {:induction false} PrintableParts(n: Node, m: Mode)
    ensures Printable(n, m) <==> Shaped(n, m) && StringsOk(n, m)
    decreases n, 1
  {
    if n.Element? {
      AllPrintableParts(n.children, m);
    }
  }

  lemma {:induction false} AllPrintableParts(ns: seq<Node>, m: Mode)
    ensures AllPrintable(ns, m) <==> AllShaped(ns, m) && AllStringsOk(ns, m)
    decreases ns, 0
  {
    hide Printable, Shaped, StringsOk;
    if ns != [] {
      PrintableParts(ns[0], m);
      AllPrintableParts(ns[1..], m);
    }
  }

  // ---------------------------------------------------------------- the leaves

  /** A name that was read is a valid one. */
  lemma ReadNameOk(s: Bytes, enc: Encoding)
    requires enc == Utf8 ==> !StartsWithMark(s)
    requires ReadName(Some(s)).next.Some?
    ensures NameOk(ReadName(Some(s)).name, enc)
  {
    var name := ReadName(Some(s)).name;
    assert name == s[..|name|];
    assert forall i :: 0 <= i < |name| ==> name[i] == s[i];
  }

  lemma ParsedAttributeOk(s: Bytes, enc: Encoding)
    requires ParseAttribute(s, enc).next.Some?
    ensures NameOk(ParseAttribute(s, enc).attribute.name, enc)
  {
    hide ParseAttributeValue, ReadName, NameOk;
    var a := SkipRun(s, enc);
    var named := ReadName(Some(a));
    ReadNameOk(a, enc);
    AttributeNameKept(named.name, enc);
  }

  lemma AttributeNameKept(name: Bytes, enc: Encoding)
    ensures forall s :: ParseAttributeValue(name, s, enc).attribute.name == name
  {
  }

  /** The bytes up to the end tag do not contain it. */
  lemma RawUntilOk(s: Bytes, endTag: Bytes)
    ensures RawOk(s[..RawUntil(s, endTag)], endTag)
  {
    var n := RawUntil(s, endTag);
    var v := s[..n];
    forall i | 0 <= i < |v|
      ensures v[i] != 0 && !StartsWith(v[i..], endTag)
    {
      SliceStarts(s, n, i, endTag);
    }
  }

  lemma SliceStarts(s: Bytes, n: nat, i: nat, tag: Bytes)
    requires i <= n <= |s|
    ensures StartsWith(s[..n][i..], tag) ==> StartsWith(s[i..], tag)
  {
    assert s[..n][i..] == s[i..n];
    if |tag| <= n - i {
      assert s[i..n][..|tag|] == s[i..i + |tag|] == s[i..][..|tag|];
    }
  }

  /** Behind a `<` that starts none of the known things. */
  lemma UnrecognisedParsed(s: Bytes)
    requires s != [] && s[0] == LT && !StartsWith(s, END_OPEN)
    requires !StartsWithNoCase(s, XML_OPEN) && !StartsWith(s, COMMENT_OPEN) && !StartsWith(s, CDATA_OPEN)
    requires !IsNameStart(At(s, 1))
    ensures UnrecognisedOk(ParseUnrecognised(s).node.value)
  {
    var t := s[1..];
    RawUntilOk(t, [GT]);
    var v := t[..RawUntil(t, [GT])];
    PrefixOf(s, v, COMMENT_OPEN);
    PrefixOf(s, v, CDATA_OPEN);
    if v != [] {
      assert v[0] == s[1];
      SlashEnds(s);
    }
    NoCasePrefixOf(s, v, XML_OPEN);
  }

  lemma NoCasePrefixOf(s: Bytes, v: Bytes, tag: Bytes)
    requires s != [] && tag != [] && s[0] == tag[0] && v <= s[1..]
    ensures StartsWithNoCase(v, tag[1..]) ==> StartsWithNoCase(s, tag)
  {
    if StartsWithNoCase(v, tag[1..]) {
      assert forall i :: 1 <= i < |tag| ==> s[i] == v[i - 1] && tag[i] == tag[1..][i - 1];
    }
  }

  lemma SlashEnds(s: Bytes)
    ensures |s| >= 2 && s[0] == LT && s[1] == SLASH ==> StartsWith(s, END_OPEN)
  {
    if |s| >= 2 && s[0] == LT && s[1] == SLASH {
      assert s[..2] == END_OPEN;
    }
  }

  lemma PrefixOf(s: Bytes, v: Bytes, tag: Bytes)
    requires s != [] && tag != [] && s[0] == tag[0] && v <= s[1..]
    ensures StartsWith(v, tag[1..]) ==> StartsWith(s, tag)
  {
    if StartsWith(v, tag[1..]) {
      assert forall i :: 1 <= i < |tag| ==> s[i] == v[i - 1] == v[..|tag| - 1][i - 1] == tag[i];
    }
  }

  lemma {:induction false} DeclarationParsed(p: Ptr, d: Node, enc: Encoding)
    requires d.Declaration?
    ensures ParseDeclarationRest(p, d, enc).node.Declaration?
    decreases p.Some?, if p.Some? then |p.value| else 0
  {
    hide ParseAttribute, StartsWithNoCase, SkipRun;
    if LivePtr(p) && p.value[0] != GT {
      var s := SkipRun(p.value, enc);
      var a := ParseAttribute(s, enc).attribute.value;
      if StartsWithNoCase(s, VERSION) {
        DeclarationParsed(ParseAttribute(s, enc).next, d.(version := a), enc);
      } else if StartsWithNoCase(s, ENCODING) {
        DeclarationParsed(ParseAttribute(s, enc).next, d.(encoding := a), enc);
      } else if StartsWithNoCase(s, STANDALONE) {
        DeclarationParsed(ParseAttribute(s, enc).next, d.(standalone := a), enc);
      } else {
        SkipStep(p.value, enc);
        DeclarationParsed(Some(s[JunkLength(s)..]), d, enc);
      }
    }
  }

  // --------------------------------------------------------------- the parsers

  /** Whatever the input, an element that is read to its end is well shaped. */
  lemma {:induction false} ElementShaped(s: Bytes, m: Mode)
    requires ParseElement(s, m).next.Some?
    ensures Shaped(ParseElement(s, m).node, m)
    decreases |s|, 0
  {
    hide ParseTagRest, Shaped, SkipRun, ReadName, NameOk;
    var a := SkipRun(s, m.enc);
    var b := SkipWhiteSpace(a[1..], m.enc);
    var named := ReadName(b);
    SkippedNoMark(a[1..], m.enc);
    ReadNameOk(b.value, m.enc);
    TagRestShaped(named.name, [], named.next.value, m);
  }

  lemma SkippedNoMark(s: Bytes, enc: Encoding)
    ensures SkipWhiteSpace(s, enc).Some? && enc == Utf8 ==> !StartsWithMark(SkipWhiteSpace(s, enc).value)
    ensures SkipWhiteSpace(s, enc) == None ==> ReadName(SkipWhiteSpace(s, enc)).next == None
  {
  }

  lemma {:induction false} TagRestShaped(name: Bytes, attributes: seq<Attribute>, s: Bytes, m: Mode)
    requires NameOk(name, m.enc) && DistinctNames(attributes)
    requires forall i :: 0 <= i < |attributes| ==> NameOk(attributes[i].name, m.enc)
    requires ParseTagRest(name, attributes, s, m).next.Some?
    ensures Shaped(ParseTagRest(name, attributes, s, m).node, m)
    decreases |s|, 0
  {
    hide SkipRun, NameOk, ReadValue, ParseAttribute, ParseEndTag;
    if Live(s) {
      var d := SkipRun(s, m.enc);
      if d[0] == GT {
        ValueShaped(d[1..], m);
      } else if d[0] != SLASH {
        var a := ParseAttribute(d, m.enc);
        ParsedAttributeOk(d, m.enc);
        TagRestShaped(name, attributes + [a.attribute], a.next.value, m);
      }
    }
  }

  lemma {:induction false} MarkupShaped(s: Bytes, m: Mode)
    requires s != [] && s[0] == LT && !StartsWith(s, END_OPEN)
    ensures !IsPlainText(ParseMarkup(s, m).node)
    ensures ParseMarkup(s, m).next.Some? ==> Shaped(ParseMarkup(s, m).node, m)
    decreases |s|, 1
  {
    hide ParseElement, ParseDeclarationRest, StartsWith, StartsWithNoCase, RawOk, UnrecognisedOk, NameOk;
    Openings(s);
    if StartsWithNoCase(s, XML_OPEN) {
      DeclarationParsed(Some(s[5..]), Declaration([], [], []), m.enc);
    } else if StartsWith(s, COMMENT_OPEN) {
      RawUntilOk(s[|COMMENT_OPEN|..], COMMENT_CLOSE);
    } else if StartsWith(s, CDATA_OPEN) {
      RawUntilOk(s[|CDATA_OPEN|..], CDATA_CLOSE);
    } else if !StartsWith(s, DTD_OPEN) && IsNameStart(At(s, 1)) {
      if ParseElement(s, m).next.Some? {
        ElementShaped(s, m);
      }
    } else {
      UnrecognisedParsed(s);
    }
  }

  lemma Openings(s: Bytes)
    ensures StartsWithNoCase(s, XML_OPEN) ==> |s| >= 5
    ensures StartsWith(s, COMMENT_OPEN) ==> |s| >= |COMMENT_OPEN|
    ensures StartsWith(s, CDATA_OPEN) ==> |s| >= |CDATA_OPEN|
    ensures StartsWith(s, DTD_OPEN) ==> !IsNameStart(At(s, 1))
  {
    if StartsWith(s, DTD_OPEN) {
      assert s[1] == s[..2][1] == DTD_OPEN[1];
    }
  }

  lemma {:induction false} ValueShaped(s: Bytes, m: Mode)
    requires ReadValue(s, m).next.Some?
    ensures AllShaped(ReadValue(s, m).nodes, m)
    ensures s != [] && s[0] == LT && ReadValue(s, m).nodes != [] ==> !IsPlainText(ReadValue(s, m).nodes[0])
    decreases |s|, 2
  {
    hide ParseMarkup, ParseText, SkipRun, Shaped, StartsWith, Blank;
    var a := SkipWhiteSpace(s, m.enc).value;
    MarkupNotSkipped(s, m.enc);
    if Live(a) && a[0] != LT {
      var text := ParseText(if m.condense then a else s, m);
      TextAdvances(s, a, m);
      TextShaped(if m.condense then a else s, m);
      ValueShaped(text.next.value, m);
      if !Blank(text.node.value) {
        Joined(text.node, ReadValue(text.next.value, m).nodes, m);
      }
    } else if Live(a) && !StartsWith(a, END_OPEN) {
      var child := ParseMarkup(a, m);
      MarkupShaped(a, m);
      ValueShaped(child.next.value, m);
      Joined(child.node, ReadValue(child.next.value, m).nodes, m);
    }
  }

  lemma MarkupNotSkipped(s: Bytes, enc: Encoding)
    ensures s != [] && s[0] == LT ==> SkipRun(s, enc) == s
    ensures |SkipRun(s, enc)| <= |s|
  {
  }

  /** A text ends at markup, and is well shaped unless it is blank. */
  lemma TextShaped(s: Bytes, m: Mode)
    ensures var r := ParseText(s, m);
            && (!Blank(r.node.value) ==> Shaped(r.node, m))
            && (r.next.Some? ==> r.next.value != [] && r.next.value[0] == LT)
  {
  }

  /** A node in front of nodes that do not go on with a text of their own. */
  lemma Joined(n: Node, ns: seq<Node>, m: Mode)
    requires AllShaped(ns, m) && Shaped(n, m)
    requires IsPlainText(n) && ns != [] ==> !IsPlainText(ns[0])
    ensures AllShaped([n] + ns, m)
  {
    hide Shaped;
    assert ([n] + ns)[1..] == ns;
  }

  // -------------------------------------------------------------- main result

  /** Any input at all: an element the parser reads to its end, and whose
      strings survive escaping, is printed so that parsing gives it again. */
  lemma ReprintIsStable(s: Bytes, depth: nat, f: Format, rest: Bytes, m: Mode)
    requires ParseElement(s, m).next.Some? && StringsOk(ParseElement(s, m).node, m) && FormatOk(f, m)
    ensures ParseElement(PrintNode(ParseElement(s, m).node, depth, f) + rest, m)
         == Parsed(ParseElement(s, m).node, Some(rest))
  {
    hide ParseElement, PrintNode, Printable, Shaped, StringsOk;
    var n := ParseElement(s, m).node;
    ElementShaped(s, m);
    PrintableParts(n, m);
    ElementRoundTrip(n, depth, f, rest, m);
  }
}
