/** The character classes, and which elements are refused: the parser then answers
    with a null pointer. */
module XmlErrors {
  import opened Prelude
  import opened XmlBytes
  import opened XmlUtf8
  import opened XmlText
  import opened XmlTextLaws
  import opened XmlTree
  import opened XmlParser
  import opened XmlRoundTrip
  import opened XmlSyntax

  // ------------------------------------------------------- character classes

  predicate IsOneOf(b: Byte, low: char, high: char) {
    low as int <= b <= high as int
  }

  /** White space is space, tab, line feed, vertical tab, form feed and carriage
      return. */
  lemma WhiteSpaceBytes(b: Byte)
    ensures IsWhiteSpace(b) <==> b in Ascii(" \t\n\r") + [11, 12]
  {
    assert Ascii(" \t\n\r") == [32, 9, 10, 13];
  }

  /** Text is blank if all of its bytes are white space. */
  lemma BlankMeans(v: Bytes)
    ensures Blank(v) <==> forall b: Byte :: b in v ==> b in Ascii(" \t\n\r") + [11, 12]
  {
    forall b: Byte
      ensures IsWhiteSpace(b) <==> b in Ascii(" \t\n\r") + [11, 12]
    {
      WhiteSpaceBytes(b);
    }
    if !Blank(v) {
      var i :| 0 <= i < |v| && !IsWhiteSpace(v[i]);
      assert v[i] in v;
    }
  }

  const LOWER_LETTERS := "abcdefghijklmnopqrstuvwxyz"
  const UPPER_LETTERS := "ABCDEFGHIJKLMNOPQRSTUVWXYZ"

  /** Letter case is that of the ASCII letters. */
  lemma LetterCase(b: Byte)
    ensures forall i :: 0 <= i < 26 && b == UPPER_LETTERS[i] as int ==> ToLower(b) == LOWER_LETTERS[i] as int
    ensures (forall i :: 0 <= i < 26 ==> b != UPPER_LETTERS[i] as int) ==> ToLower(b) == b
  {
    assert forall i :: 0 <= i < 26 ==> UPPER_LETTERS[i] as int == 65 + i;
    assert forall i :: 0 <= i < 26 ==> LOWER_LETTERS[i] as int == 97 + i;
    if 65 <= b <= 90 {
      assert UPPER_LETTERS[b - 65] as int == b;
    }
  }

  /** A name starts with a letter or an underscore, and goes on with letters,
      digits, underscores, hyphens, dots and colons; any byte from 127 upwards is a
      letter. */
  lemma NameAlphabet(b: Byte)
    ensures IsNameStart(b) <==> b >= 127 || IsOneOf(b, 'a', 'z') || IsOneOf(b, 'A', 'Z') || b == '_' as int
    ensures IsNameByte(b) <==>
            || b >= 127 || IsOneOf(b, 'a', 'z') || IsOneOf(b, 'A', 'Z') || IsOneOf(b, '0', '9')
            || b in Ascii("_-.:")
  {
    assert Ascii("_-.:") == [95, 45, 46, 58];
  }

  /** The mark of UTF-8 (section 6 of RFC 3629) and the two non-characters at the
      end of the sixteen-bit range are skipped with white space. */
  lemma MarksAreSkipped(s: Bytes)
    requires |s| >= 3
    ensures StartsWithMark(s) <==> s[..3] in [[0xEF, 0xBB, 0xBF], [0xEF, 0xBF, 0xBE], [0xEF, 0xBF, 0xBF]]
    ensures StartsWithMark(s) ==> SkipRun(s, Utf8) == SkipRun(s[3..], Utf8)
    ensures !IsWhiteSpace(s[0]) && StartsWithMark(s) ==> SkipRun(s, Legacy) == s
  {
    assert s[..3] == [s[0], s[1], s[2]];
  }

  // ---------------------------------------------------------------- refusals

  /** What stands behind some attributes of a start tag decides about the rest. */
  lemma AttributesRead(name: Bytes, attributes: seq<Spaced>, tail: Bytes, m: Mode)
    requires TagOk(name, attributes, [], m.enc) && Live(tail) && EndsBare(tail[0])
    ensures ParseElement(Ascii("<") + (name + (AttributesText(attributes) + tail)), m) ==
            ParseTagRest(name, AttributesOf(attributes, m.enc), tail, m)
  {
    hide AttributesText, ParseTagRest, AttributesOk, NameOk, ReadName, SkipRun, AttributesOf;
    var t := AttributesText(attributes) + tail;
    var s := Ascii("<") + (name + t);
    AfterName(attributes, tail, m.enc);
    SkipRunStops(s, m.enc);
    assert s[1..] == name + t;
    NameNotSkipped(name, t, m.enc);
    ReadNameExact(name, t, m.enc);
    AttributesParse(name, [], attributes, tail, m);
    assert [] + AttributesOf(attributes, m.enc) == AttributesOf(attributes, m.enc);
  }

  /** A slash in a start tag that no closing bracket follows. */
  lemma LoneSlashRefused(name: Bytes, attributes: seq<Spaced>, end: Bytes, rest: Bytes, m: Mode)
    requires TagOk(name, attributes, end, m.enc) && At(rest, 0) != '>' as int
    ensures ParseElement(Ascii("<") + (name + (AttributesText(attributes) + (end + (Ascii("/") + rest)))),
                         m).next == None
  {
    hide AttributesText, AttributesOf, ReadValue;
    var t := Ascii("/") + rest;
    PadEndsBare(end, t);
    AttributesRead(name, attributes, end + t, m);
    SkipRunStops(t, m.enc);
    SkipPad(end, t, m.enc);
    assert At(t, 1) == At(rest, 0);
  }

  /** White space, and then an attribute that cannot be read. */
  lemma BadAttribute(name: Bytes, attributes: seq<Spaced>, space: Bytes, d: Bytes, m: Mode)
    requires TagOk(name, attributes, [], m.enc) && AllWhite(space) && space != []
    requires Live(d) && SkipRun(d, m.enc) == d && d[0] != '/' as int && d[0] != '>' as int
    requires var a := ParseAttribute(d, m.enc);
             !LivePtr(a.next) || exists i :: 0 <= i < |attributes| && attributes[i].syntax.name == a.attribute.name
    ensures ParseElement(Ascii("<") + (name + (AttributesText(attributes) + (space + d))), m).next == None
  {
    hide AttributesText, AttributesOf, ReadValue, ParseAttribute;
    AttributesRead(name, attributes, space + d, m);
    SkipPad(space, d, m.enc);
    var a := ParseAttribute(d, m.enc);
    if LivePtr(a.next) {
      var i :| 0 <= i < |attributes| && attributes[i].syntax.name == a.attribute.name;
      assert AttributesOf(attributes, m.enc)[i].name == a.attribute.name;
    }
  }

  /** An attribute whose name the element has already. */
  lemma DuplicateRefused(name: Bytes, attributes: seq<Spaced>, space: Bytes, a: AttributeSyntax, rest: Bytes, m: Mode)
    requires TagOk(name, attributes, [], m.enc) && AllWhite(space) && space != []
    requires AttributeSyntaxOk(a, m.enc) && MayFollow(a, rest)
    requires exists i :: 0 <= i < |attributes| && attributes[i].syntax.name == a.name
    ensures ParseElement(Ascii("<") + (name + (AttributesText(attributes) + (space + (AttributeText(a) + rest)))),
                         m).next == None
  {
    hide AttributesText, AttributeText, ParseAttribute, AttributeSyntaxOk, AttributesOk;
    SyntaxNamed(a, m.enc);
    AttributeHead(a, rest, m.enc);
    AttributeParses(a, rest, m.enc);
    BadAttribute(name, attributes, space, AttributeText(a) + rest, m);
  }

  /** An attribute name without an equals sign behind it. */
  lemma MissingEqualsRefused(name: Bytes, attributes: seq<Spaced>, space: Bytes, key: Bytes, gap: Bytes, t: Bytes,
                             m: Mode)
    requires TagOk(name, attributes, [], m.enc) && AllWhite(space) && space != []
    requires NameOk(key, m.enc) && AllWhite(gap)
    requires Live(t) && t[0] < 0x80 && !IsNameByte(t[0]) && !IsWhiteSpace(t[0]) && t[0] != '=' as int
    ensures ParseElement(Ascii("<") + (name + (AttributesText(attributes) + (space + (key + (gap + t))))),
                         m).next == None
  {
    hide AttributesText, AttributesOk, NameOk, SkipRun, ReadName, AllWhite;
    NameThen(key, gap, t, m.enc);
    NameHead(key, gap + t, m.enc);
    SkipRunStops(t, m.enc);
    SkipPad(gap, t, m.enc);
    SkipRunStops(key + (gap + t), m.enc) by { SkippedNoMark(key, gap + t, m.enc); }
    BadAttribute(name, attributes, space, key + (gap + t), m);
  }

  lemma NameHead(key: Bytes, rest: Bytes, enc: Encoding)
    requires NameOk(key, enc)
    ensures var s := key + rest;
            Live(s) && !IsWhiteSpace(s[0]) && s[0] != SLASH && s[0] != GT && IsNameStart(s[0])
  {
  }

  lemma SkippedNoMark(key: Bytes, rest: Bytes, enc: Encoding)
    requires SkipWhiteSpace(key + rest, enc) == Some(key + rest)
    ensures enc == Utf8 ==> !StartsWithMark(key + rest)
  {
  }

  /** A value without quotes that holds a quote. */
  lemma QuoteInBareRefused(name: Bytes, attributes: seq<Spaced>, space: Bytes, a: AttributeSyntax, quote: Byte,
                           rest: Bytes, m: Mode)
    requires TagOk(name, attributes, [], m.enc) && AllWhite(space) && space != []
    requires AttributeSyntaxOk(a, m.enc) && a.value.Bare? && (quote == '"' as int || quote == '\'' as int)
    ensures ParseElement(
              Ascii("<") + (name + (AttributesText(attributes) + (space + (AttributeText(a) + ([quote] + rest))))),
              m).next == None
  {
    hide AttributesText, AttributeText, ParseAttribute, AttributeSyntaxOk, AttributesOk;
    SyntaxNamed(a, m.enc);
    AttributeHead(a, [quote] + rest, m.enc);
    QuoteInBare(a, quote, rest, m.enc);
    BadAttribute(name, attributes, space, AttributeText(a) + ([quote] + rest), m);
  }

  lemma QuoteInBare(a: AttributeSyntax, quote: Byte, rest: Bytes, enc: Encoding)
    requires AttributeSyntaxOk(a, enc) && a.value.Bare? && (quote == QUOT || quote == APOS)
    ensures ParseAttribute(AttributeText(a) + ([quote] + rest), enc).next == None
  {
    hide ReadName, NameOk, SkipWhiteSpace, UnquotedLength, AllWhite, UnquotedPrefix;
    var v := a.value.bytes + ([quote] + rest);
    var c := a.afterEquals + v;
    var b := [EQUALS] + c;
    var s := AttributeText(a) + ([quote] + rest);
    assert s == a.name + (a.beforeEquals + b);
    NameThen(a.name, a.beforeEquals, b, enc);
    SkipRunStops(b, enc);
    SkipPad(a.beforeEquals, b, enc);
    assert b[1..] == c;
    BareStops(a.value.bytes, quote, rest);
    BareStarts(a.value.bytes, [quote] + rest, enc);
    SkipPad(a.afterEquals, v, enc);
  }

  lemma {:induction false} BareStops(bytes: Bytes, quote: Byte, rest: Bytes)
    requires forall i :: 0 <= i < |bytes| ==> bytes[i] != 0 && !EndsBare(bytes[i])
    requires quote == QUOT || quote == APOS
    ensures UnquotedLength(bytes + ([quote] + rest)) == None
  {
    var s := bytes + ([quote] + rest);
    if bytes == [] {
      assert s[0] == quote;
    } else {
      assert s[1..] == bytes[1..] + ([quote] + rest);
      BareStops(bytes[1..], quote, rest);
    }
  }

  lemma BareStarts(bytes: Bytes, rest: Bytes, enc: Encoding)
    requires ValueOk(Bare(bytes), enc) && rest != [] && rest[0] < 0x80
    ensures var s := bytes + rest; Live(s) && SkipRun(s, enc) == s && s[0] != QUOT && s[0] != APOS
  {
    var s := bytes + rest;
    assert s[0] == bytes[0];
    assert s[|bytes|] == rest[0];
    SkipRunStops(s, enc);
  }

  // ------------------------------------------------------------------ end tags

  /** Nothing but zero-width marks, which are name bytes too. */
  predicate OnlyMarks(v: Bytes)
    decreases |v|
  {
    v == [] || (StartsWithMark(v) && OnlyMarks(v[3..]))
  }

  lemma {:induction false} MarksSkipped(v: Bytes, t: Bytes, enc: Encoding)
    requires forall i :: 0 <= i < |v| ==> IsNameByte(v[i])
    requires Live(t) && t[0] < 0x80 && !IsNameByte(t[0])
    ensures v != [] ==> Live(v + t)
    ensures v == [] || (enc == Utf8 && OnlyMarks(v)) ==> SkipRun(v + t, enc) == SkipRun(t, enc)
    ensures !(v == [] || (enc == Utf8 && OnlyMarks(v))) ==>
              SkipRun(v + t, enc) != [] && SkipRun(v + t, enc)[0] >= 45 && IsNameByte(SkipRun(v + t, enc)[0])
    decreases |v|
  {
    hide SkipRun;
    var s := v + t;
    if v == [] {
      assert s == t;
    } else {
      assert s[0] == v[0];
      assert s[|v|] == t[0];
      if enc == Utf8 && StartsWithMark(v) {
        assert s[3..] == v[3..] + t;
        MarksSkipped(v[3..], t, enc);
        OneMarkSkipped(s, enc);
        assert OnlyMarks(v) == OnlyMarks(v[3..]);
        if v[3..] == [] {
          assert OnlyMarks(v[3..]) && v[3..] + t == t;
        }
      } else {
        assert |v| >= 3 ==> s[1] == v[1] && s[2] == v[2];
        assert enc == Utf8 ==> !StartsWithMark(s);
        SkipRunStops(s, enc);
      }
    }
  }

  lemma OneMarkSkipped(s: Bytes, enc: Encoding)
    requires enc == Utf8 && StartsWithMark(s)
    ensures SkipRun(s, enc) == SkipRun(s[3..], enc)
  {
  }

  lemma SameHead(a: Bytes, x: Bytes, y: Bytes)
    ensures StartsWith(a + x, a + y) <==> StartsWith(x, y)
  {
    if |y| <= |x| {
      assert (a + x)[..|a| + |y|] == a + x[..|y|];
      if a + x[..|y|] == a + y {
        assert x[..|y|] == (a + x[..|y|])[|a|..] == (a + y)[|a|..] == y;
      }
    }
  }

  lemma PrefixBytes(s: Bytes, tag: Bytes)
    ensures StartsWith(s, tag) ==> |tag| <= |s| && forall k :: 0 <= k < |tag| ==> s[k] == tag[k]
  {
    if StartsWith(s, tag) {
      assert forall k :: 0 <= k < |tag| ==> s[k] == s[..|tag|][k];
    }
  }

  lemma NamePrefix(name: Bytes, other: Bytes, t: Bytes)
    requires forall i :: 0 <= i < |name| ==> IsNameByte(name[i])
    requires t != [] && !IsNameByte(t[0])
    ensures StartsWith(other + t, name) <==> name <= other
  {
    var s, n := other + t, |name|;
    assert s[|other|] == t[0];
    PrefixBytes(s, name);
    assert StartsWith(s, name) ==> n <= |other|;
    if StartsWith(s, name) {
      assert other[..n] == s[..n];
    }
    if name <= other {
      assert s[..n] == other[..n];
    }
  }

  lemma EndTagPrefix(name: Bytes, other: Bytes, t: Bytes)
    requires forall i :: 0 <= i < |name| ==> IsNameByte(name[i])
    requires t != [] && !IsNameByte(t[0])
    ensures StartsWith(Ascii("</") + other + t, END_OPEN + name) <==> name <= other
    ensures name <= other ==> (Ascii("</") + other + t)[2 + |name|..] == other[|name|..] + t
  {
    hide StartsWith, IsNameByte;
    assert Ascii("</") == END_OPEN;
    Reassociate(END_OPEN, other, t);
    SameHead(END_OPEN, other + t, name);
    NamePrefix(name, other, t);
  }

  /** An end tag closes an element if it is of its name, or if nothing but
      zero-width marks follow the name in a UTF-8 document; any other end tag is
      refused. */
  lemma EndTagMatches(name: Bytes, other: Bytes, close: Bytes, rest: Bytes, m: Mode)
    requires NameOk(name, m.enc) && NameOk(other, m.enc) && AllWhite(close)
    ensures var s := Ascii("</") + other + (close + (Ascii(">") + rest));
            && StartsWith(s, END_OPEN)
            && (ParseEndTag(name, s, m) == Some(rest) <==>
                other == name || (m.enc == Utf8 && name <= other && OnlyMarks(other[|name|..])))
            && (ParseEndTag(name, s, m) == Some(rest) || ParseEndTag(name, s, m) == None)
  {
    hide SkipRun, OnlyMarks;
    var b := Ascii(">") + rest;
    var t := close + b;
    var s := Ascii("</") + other + t;
    var n := |name|;
    assert s[..2] == END_OPEN;
    assert b[0] == GT && b[1..] == rest;
    assert t[0] == if close == [] then GT else close[0];
    SkipRunStops(b, m.enc);
    SkipPad(close, b, m.enc);
    EndTagPrefix(name, other, t);
    if name <= other {
      MarksSkipped(other[n..], t, m.enc);
      if other[n..] == [] {
        assert other == name;
        assert other[n..] + t == t;
      }
    }
  }

  /** An element that some other end tag follows. */
  lemma WrongEndTagRefused(i: Item, other: Bytes, close: Bytes, rest: Bytes, m: Mode)
    requires ItemOk(i, m) && i.Tag? && NameOk(other, m.enc) && AllWhite(close)
    requires other != i.name && !(m.enc == Utf8 && i.name <= other && OnlyMarks(other[|i.name|..]))
    ensures ParseElement(StartTag(i.name, i.attributes, i.end, Ascii(">")) +
                         (ContentText(i.content) + (i.last + (Ascii("</") + other + (close + (Ascii(">") + rest))))),
                         m).next == None
  {
    hide ContentText, ReadValue, ParseTagRest, StartTag, AttributesOf, ParseEndTag, NodesOf, OnlyMarks;
    var tail := Ascii("</") + other + (close + (Ascii(">") + rest));
    var c := ContentText(i.content) + (i.last + tail);
    TagParts(i, m);
    EndTagMatches(i.name, other, close, rest, m);
    EndStart(tail);
    ContentParses(i.content, i.last, tail, m);
    StartTagParses(i.name, i.attributes, i.end, Ascii(">"), c, m);
    TagCloses(i.name, AttributesOf(i.attributes, m.enc), i.end, c, m);
  }

  lemma TagParts(i: Item, m: Mode)
    requires ItemOk(i, m) && i.Tag?
    ensures TagOk(i.name, i.attributes, i.end, m.enc) && ContentOk(i.content, i.last, m)
    ensures AllWhite(i.last) && NameOk(i.name, m.enc)
  {
  }

  // ------------------------------------------------------------ missing ends

  /** A character that the input cuts short is filled up with zeros, and nothing is
      left to read. */
  lemma CutCharacter(s: Bytes)
    requires s != [] && |s| < ByteTable(s[0]) && NulFree(s)
    ensures GetChar(s, Utf8) == Read(s + seq(ByteTable(s[0]) - |s|, _ => 0), Some([]))
  {
    hide GetEntity;
    CopiedThenZeros(s, ByteTable(s[0]));
  }

  lemma {:induction false} CopiedThenZeros(s: Bytes, n: nat)
    requires |s| <= n && NulFree(s)
    ensures CopyChar(s, n) == s + seq(n - |s|, _ => 0)
  {
    if n > 0 {
      if s == [] {
        assert s + seq(n, _ => 0) == seq(n, _ => 0);
      } else {
        CopiedThenZeros(s[1..], n - 1);
        assert [s[0]] + (s[1..] + seq(n - |s|, _ => 0)) == s + seq(n - |s|, _ => 0);
      }
    }
  }

  lemma {:induction false} RawToEnd(v: Bytes, endTag: Bytes)
    requires RawOk(v, endTag)
    ensures RawUntil(v, endTag) == |v|
    decreases |v|
  {
    if v != [] {
      assert v[0..] == v;
      assert RawOk(v[1..], endTag) by {
        assert forall i :: 0 <= i < |v[1..]| ==> v[1..][i..] == v[i + 1..];
      }
      RawToEnd(v[1..], endTag);
    }
  }

  /** A comment or an unrecognised tag without its end runs to the end of the input;
      so does a CDATA section, which is refused. */
  lemma OpenMarkup(v: Bytes)
    ensures RawOk(v, Ascii("-->")) ==> ParseComment(Ascii("<!--") + v) == Parsed(Comment(v), Some([]))
    ensures RawOk(v, Ascii("]]>")) ==> ParseCData(Ascii("<![CDATA[") + v) == Parsed(Text(v, true), None)
    ensures RawOk(v, Ascii(">")) ==> ParseUnrecognised(Ascii("<") + v) == Parsed(Unrecognised(v), Some([]))
  {
    hide RawOk, RawUntil;
    RawMarks();
    assert v[..|v|] == v && v[|v|..] == [];
    if RawOk(v, COMMENT_CLOSE) {
      RawToEnd(v, COMMENT_CLOSE);
      assert (COMMENT_OPEN + v)[4..] == v && (COMMENT_OPEN + v)[..4] == COMMENT_OPEN;
    }
    if RawOk(v, CDATA_CLOSE) {
      RawToEnd(v, CDATA_CLOSE);
      assert (CDATA_OPEN + v)[9..] == v && (CDATA_OPEN + v)[..9] == CDATA_OPEN;
    }
    if RawOk(v, [GT]) {
      RawToEnd(v, [GT]);
      assert ([LT] + v)[1..] == v;
    }
  }

  lemma RawMarks()
    ensures Ascii("<!--") == COMMENT_OPEN && Ascii("-->") == COMMENT_CLOSE
    ensures Ascii("<![CDATA[") == CDATA_OPEN && Ascii("]]>") == CDATA_CLOSE
    ensures Ascii("<") == [LT] && Ascii(">") == [GT]
  {
  }

  /** Content that white space and the end of the input follow. */
  lemma {:induction false} ContentEnds(ps: seq<Placed>, last: Bytes, m: Mode)
    requires ContentOk(ps, last, m) && AllWhite(last) && last != []
    ensures ReadValue(ContentText(ps) + last, m).next == Some([])
    decreases ps
  {
    hide ContentText, ReadValue, ItemText, ItemOk, ParseMarkup, NodeOf, TextOf, NodesOf, AllWhite, PiecesText;
    if ps == [] {
      NoContent(last, [], m);
      assert ContentText([]) + last == last by { assert last + [] == last; }
      WhiteEnds(last, m);
    } else {
      var p, t := ps[0], ContentText(ps[1..]) + last;
      ContentUnfold(ps, last);
      ContentEnds(ps[1..], last, m);
      if p.item.TextItem? {
        var r := [LT];
        MarkupComesNext(ps, last, m);
        TextItemShape(p, m);
        TextParses(p.space, p.item.pieces, t, m);
      } else {
        MoreLives(ps[1..], last, m);
        ItemStarts(p.item, t, m);
        ItemParses(p.item, p.space, t, m);
        PadBeforeTag(p.space, ItemText(p.item) + t, m);
        MarkupRead(NodeOf(p.item, p.space, m), ItemText(p.item) + t, t, m);
      }
    }
  }

  lemma WhiteEnds(last: Bytes, m: Mode)
    requires AllWhite(last) && last != []
    ensures ReadValue(last, m).next == Some([])
  {
    hide SkipRun, ParseText, ParseMarkup;
    SkipRunOfPad(last, [], m.enc);
    assert last + [] == last;
    assert SkipRun([], m.enc) == [] by { NothingToSkip(m.enc); }
  }

  lemma NothingToSkip(enc: Encoding)
    ensures SkipRun([], enc) == []
  {
  }

  lemma MarkupComesNext(ps: seq<Placed>, last: Bytes, m: Mode)
    requires ps != [] && ps[0].item.TextItem? && ContentOk(ps, last, m) && last != []
    ensures var t := ContentText(ps[1..]) + last; |t| > 1 && t[0] == LT && t[1] != 0
  {
    hide ItemText, ItemOk, ContentText;
    var more := ps[1..];
    var t := ContentText(more[1..]) + last;
    ContentUnfold(more, last);
    assert ContentOk(more, last, m) && PlacedOk(more[0], m) && more[0] == ps[1];
    ItemStarts(more[0].item, t, m);
    assert [] + (ItemText(more[0].item) + t) == ItemText(more[0].item) + t;
  }

  lemma MoreLives(ps: seq<Placed>, last: Bytes, m: Mode)
    requires ContentOk(ps, last, m) && AllWhite(last) && last != []
    ensures Live(ContentText(ps) + last)
  {
    hide ItemText, ItemOk, ContentText, PiecesText;
    if ps == [] {
      NoContent(last, [], m);
      assert last + [] == last && ContentText([]) + last == last;
    } else {
      var p, t := ps[0], ContentText(ps[1..]) + last;
      ContentUnfold(ps, last);
      if p.item.TextItem? {
        TextItemShape(p, m);
        TextLives(p.item.pieces, t, m.enc);
      } else {
        ItemStarts(p.item, t, m);
      }
      LivePad(p.space, ItemText(p.item) + t);
    }
  }

  /** An element whose end tag is missing. */
  lemma MissingEndTagRefused(i: Item, m: Mode)
    requires ItemOk(i, m) && i.Tag? && i.last != []
    ensures ParseElement(StartTag(i.name, i.attributes, i.end, Ascii(">")) + (ContentText(i.content) + i.last),
                         m).next == None
  {
    hide ContentText, ReadValue, ParseTagRest, StartTag, AttributesOf, ParseEndTag;
    var c := ContentText(i.content) + i.last;
    TagParts(i, m);
    ContentEnds(i.content, i.last, m);
    StartTagParses(i.name, i.attributes, i.end, Ascii(">"), c, m);
    TagCloses(i.name, AttributesOf(i.attributes, m.enc), i.end, c, m);
  }
}
