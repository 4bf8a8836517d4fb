/** What the printer writes, seen from a reader: a declaration comes back, and a
    page as it looks. */
module XmlPrinted {
  import opened Prelude
  import opened XmlBytes
  import opened XmlUtf8
  import opened XmlText
  import opened XmlTextLaws
  import opened XmlTree
  import opened XmlParser
  import opened XmlRoundTrip
  import opened XmlSyntax

  // ------------------------------------------------------------- declarations

  /** Text that stands for itself between double quotes. */
  predicate Verbatim(v: Bytes, enc: Encoding)
    decreases |v|
  {
    v == [] ||
    (var n := ChunkLength(v, enc);
     && v[0] != '"' as int && v[0] != '&' as int
     && n <= |v| && NulFree(v[..n]) && Verbatim(v[n..], enc))
  }

  function Characters(v: Bytes, enc: Encoding): seq<Piece>
    requires Verbatim(v, enc)
    decreases |v|
  {
    if v == [] then [] else [Char(v[..ChunkLength(v, enc)])] + Characters(v[ChunkLength(v, enc)..], enc)
  }

  lemma {:induction false} CharactersOk(v: Bytes, enc: Encoding)
    requires Verbatim(v, enc)
    ensures PiecesOk(Characters(v, enc), enc) && Without(Characters(v, enc), QUOT)
    ensures PiecesText(Characters(v, enc)) == v && PiecesValue(Characters(v, enc), enc) == v
    decreases |v|
  {
    hide PieceOk, PiecesText, PiecesValue, PieceText, PieceValue, PiecesOk, Without, ChunkLength;
    if v == [] {
      NoPieces(enc);
    } else {
      var n := ChunkLength(v, enc);
      FirstCharacter(v, enc);
      CharactersOk(v[n..], enc);
      OnePieceMore(v[..n], Characters(v[n..], enc), enc);
      assert v == v[..n] + v[n..];
    }
  }

  lemma NoPieces(enc: Encoding)
    ensures PiecesOk([], enc) && Without([], QUOT) && PiecesText([]) == [] && PiecesValue([], enc) == []
  {
  }

  lemma FirstCharacter(v: Bytes, enc: Encoding)
    requires Verbatim(v, enc) && v != []
    ensures var n := ChunkLength(v, enc);
            0 < n <= |v| && PieceOk(Char(v[..n]), enc) && v[..n][0] != QUOT && Verbatim(v[n..], enc)
  {
    hide Verbatim;
    VerbatimUnfold(v, enc);
    assert v[..ChunkLength(v, enc)][0] == v[0];
  }

  lemma VerbatimUnfold(v: Bytes, enc: Encoding)
    requires Verbatim(v, enc) && v != []
    ensures var n := ChunkLength(v, enc);
            v[0] != QUOT && v[0] != AMP && 0 < n <= |v| && NulFree(v[..n]) && Verbatim(v[n..], enc)
  {
  }

  lemma OnePieceMore(c: Bytes, more: seq<Piece>, enc: Encoding)
    requires c != [] && PieceOk(Char(c), enc) && c[0] != QUOT && PiecesOk(more, enc) && Without(more, QUOT)
    ensures PiecesOk([Char(c)] + more, enc) && Without([Char(c)] + more, QUOT)
    ensures PiecesText([Char(c)] + more) == c + PiecesText(more)
    ensures PiecesValue([Char(c)] + more, enc) == c + PiecesValue(more, enc)
  {
    hide PieceOk;
    assert ([Char(c)] + more)[1..] == more;
  }

  function PartOf(key: string, value: Bytes, enc: Encoding): seq<Spaced>
    requires Verbatim(value, enc)
  {
    if value == [] then []
    else [Spaced([SPACE], AttributeSyntax(Ascii(key), [], [], Quoted(QUOT, Characters(value, enc))))]
  }

  lemma PartText(key: string, tag: Bytes, value: Bytes, enc: Encoding, rest: Bytes)
    requires Verbatim(value, enc) && tag == Ascii(key)
    ensures [SPACE] + (PrintDeclarationPart(tag, value) + rest) ==
            AttributesText(PartOf(key, value, enc)) + ([SPACE] + rest)
  {
    hide Ascii, Characters, PiecesText, PiecesValue, Verbatim, AttributeText;
    if value == [] {
      assert PrintDeclarationPart(tag, value) + rest == rest;
      assert AttributesText(PartOf(key, value, enc)) + ([SPACE] + rest) == [SPACE] + rest;
    } else {
      var a := PartOf(key, value, enc)[0];
      assert PartOf(key, value, enc)[1..] == [];
      PartAttribute(key, value, enc);
      var t := tag + [EQUALS, QUOT] + value + [QUOT];
      assert AttributesText(PartOf(key, value, enc)) == [SPACE] + t + [];
      assert PrintDeclarationPart(tag, value) == t + [SPACE];
      assert [SPACE] + (t + [SPACE] + rest) == [SPACE] + t + [] + ([SPACE] + rest);
    }
  }

  lemma PartAttribute(key: string, value: Bytes, enc: Encoding)
    requires Verbatim(value, enc) && value != []
    ensures AttributeText(PartOf(key, value, enc)[0].syntax) == Ascii(key) + [EQUALS, QUOT] + value + [QUOT]
  {
    hide Ascii, Characters, PiecesText, PiecesValue, Verbatim;
    CharactersOk(value, enc);
    EqualsSign();
    assert Ascii(key) + [] + [EQUALS] + [] + ([QUOT] + value + [QUOT]) == Ascii(key) + [EQUALS, QUOT] + value + [QUOT];
  }

  lemma EqualsSign()
    ensures Ascii("=") == [EQUALS]
  {
  }

  lemma {:induction false} TextOfBoth(a: seq<Spaced>, b: seq<Spaced>)
    ensures AttributesText(a + b) == AttributesText(a) + AttributesText(b)
  {
    hide AttributeText;
    if a == [] {
      assert a + b == b;
    } else {
      assert (a + b)[1..] == a[1..] + b;
      TextOfBoth(a[1..], b);
    }
  }

  lemma {:induction false} LastOfBoth(a: seq<Spaced>, b: seq<Spaced>, key: string, before: Bytes, enc: Encoding)
    ensures LastOf(a + b, key, before, enc) == LastOf(b, key, LastOf(a, key, before, enc), enc)
    decreases |a|
  {
    hide ValueOf, IsKey;
    if a == [] {
      assert a + b == b;
    } else {
      assert (a + b)[1..] == a[1..] + b;
      LastOfBoth(a[1..], b, key, if IsKey(a[0].syntax.name, key) then ValueOf(a[0].syntax.value, enc) else before, enc);
    }
  }

  predicate IsDeclarationKey(key: string) {
    key == "version" || key == "encoding" || key == "standalone"
  }

  lemma KeyIs(key: string, other: string)
    requires IsDeclarationKey(key) && IsDeclarationKey(other)
    ensures IsKey(Ascii(key), other) <==> key == other
  {
    assert forall b: Byte :: 97 <= b <= 122 ==> ToLower(b) == b;
  }

  lemma KeyNamed(key: string, enc: Encoding)
    requires IsDeclarationKey(key)
    ensures NameOk(Ascii(key), enc)
  {
    if key == "version" {
      assert Ascii(key) == VERSION;
    } else if key == "encoding" {
      assert Ascii(key) == ENCODING;
    } else {
      assert Ascii(key) == STANDALONE;
    }
  }

  lemma PartOk(key: string, value: Bytes, enc: Encoding)
    requires IsDeclarationKey(key) && Verbatim(value, enc)
    ensures SpacingOk(PartOf(key, value, enc), enc)
    ensures forall i :: 0 <= i < |PartOf(key, value, enc)| ==>
              var a := PartOf(key, value, enc)[i].syntax; a.value.Quoted? && a.name == Ascii(key)
    ensures forall other, before :: IsDeclarationKey(other) ==>
              LastOf(PartOf(key, value, enc), other, before, enc) ==
              if key == other && value != [] then value else before
  {
    hide Ascii, Characters, PiecesText, PiecesValue, PiecesOk, Without, NameOk, IsKey;
    CharactersOk(value, enc);
    KeyNamed(key, enc);
    KeyIs(key, key);
    if value != [] {
      var p := PartOf(key, value, enc);
      assert p[1..] == [];
      forall other, before | IsDeclarationKey(other)
        ensures LastOf(p, other, before, enc) == if key == other then value else before
      {
        KeyIs(key, other);
        assert LastOf(p[1..], other, value, enc) == value && LastOf(p[1..], other, before, enc) == before;
      }
    }
  }

  function PartsOf(d: Node, enc: Encoding): seq<Spaced>
    requires d.Declaration? && Verbatim(d.version, enc) && Verbatim(d.encoding, enc) && Verbatim(d.standalone, enc)
  {
    PartOf("version", d.version, enc) + (PartOf("encoding", d.encoding, enc) + PartOf("standalone", d.standalone, enc))
  }

  lemma PartsAreOk(d: Node, enc: Encoding)
    requires d.Declaration? && Verbatim(d.version, enc) && Verbatim(d.encoding, enc) && Verbatim(d.standalone, enc)
    ensures PartsOk(PartsOf(d, enc), [SPACE], enc)
    ensures Declared(Declaration([], [], []), PartsOf(d, enc), enc) == d
  {
    hide PartOf, LastOf, Ascii, SpacingOk, IsKey;
    var a, b, c := PartOf("version", d.version, enc), PartOf("encoding", d.encoding, enc),
                   PartOf("standalone", d.standalone, enc);
    PartOk("version", d.version, enc);
    PartOk("encoding", d.encoding, enc);
    PartOk("standalone", d.standalone, enc);
    SpacedBoth(b, c, enc);
    SpacedBoth(a, b + c, enc);
    KeyIs("version", "version");
    KeyIs("encoding", "encoding");
    KeyIs("standalone", "standalone");
    forall key | IsDeclarationKey(key)
      ensures LastOf(a + (b + c), key, [], enc) == LastOf(c, key, LastOf(b, key, LastOf(a, key, [], enc), enc), enc)
    {
      LastOfBoth(b, c, key, LastOf(a, key, [], enc), enc);
      LastOfBoth(a, b + c, key, [], enc);
    }
  }

  lemma SpacedBoth(a: seq<Spaced>, b: seq<Spaced>, enc: Encoding)
    requires SpacingOk(a, enc) && SpacingOk(b, enc)
    requires forall i :: 0 <= i < |a| ==> a[i].syntax.value.Quoted?
    ensures SpacingOk(a + b, enc)
  {
    hide AttributeSyntaxOk;
  }

  lemma DeclarationText(d: Node, depth: nat, f: Format, rest: Bytes, enc: Encoding)
    requires d.Declaration? && Verbatim(d.version, enc) && Verbatim(d.encoding, enc) && Verbatim(d.standalone, enc)
    ensures PrintNode(d, depth, f) + rest ==
            Ascii("<?xml") + AttributesText(PartsOf(d, enc)) + [SPACE] + Ascii("?>") + rest
  {
    hide PartOf, AttributesText, PrintDeclarationPart, Verbatim;
    var a, b, c := PartOf("version", d.version, enc), PartOf("encoding", d.encoding, enc),
                   PartOf("standalone", d.standalone, enc);
    var v, e, s := PrintDeclarationPart(VERSION, d.version), PrintDeclarationPart(ENCODING, d.encoding),
                   PrintDeclarationPart(STANDALONE, d.standalone);
    Keywords();
    DeclarationMarks();
    var t := DECLARATION_CLOSE + rest;
    PartText("standalone", STANDALONE, d.standalone, enc, t);
    PartText("encoding", ENCODING, d.encoding, enc, s + t);
    PartText("version", VERSION, d.version, enc, e + (s + t));
    TextOfBoth(b, c);
    TextOfBoth(a, b + c);
    Flatten(XML_OPEN, [SPACE], v, e, s, DECLARATION_CLOSE, rest);
    assert PrintNode(d, depth, f) + rest == XML_OPEN + ([SPACE] + (v + (e + (s + t))));
    FiveParts(XML_OPEN, AttributesText(a), AttributesText(b), AttributesText(c), [SPACE], DECLARATION_CLOSE, rest);
  }

  lemma DeclarationMarks()
    ensures XML_OPEN == Ascii("<?xml") && DECLARATION_CLOSE == Ascii("?>")
  {
  }

  lemma FiveParts(x: Bytes, a: Bytes, b: Bytes, c: Bytes, y: Bytes, z: Bytes, rest: Bytes)
    ensures x + (a + (b + (c + (y + (z + rest))))) == x + (a + (b + c)) + y + z + rest
  {
    Flatten(x, a, b, c, y, z, rest);
    Flatten(x, a + (b + c), y, z, rest, [], []);
    assert rest + ([] + []) == rest;
    Reassociate(x + a, b, c);
    Reassociate(x, a, b + c);
    Reassociate(x, a, b);
  }

  /** A declaration whose parts stand for themselves comes back as it was printed,
      and reading stops right behind it. */
  lemma DeclarationRoundTrip(d: Node, depth: nat, f: Format, rest: Bytes, m: Mode)
    requires d.Declaration?
    requires Verbatim(d.version, m.enc) && Verbatim(d.encoding, m.enc) && Verbatim(d.standalone, m.enc)
    ensures var s := PrintNode(d, depth, f) + rest;
            s != [] && s[0] == LT && ParseMarkup(s, m) == Parsed(d, Some(rest))
  {
    hide *;
    PartsAreOk(d, m.enc);
    DeclarationText(d, depth, f, rest, m.enc);
    DeclarationItemParses(PartsOf(d, m.enc), [SPACE], rest, m);
  }

  // ------------------------------------------------------------------ escapes

  const HEX_DIGITS := "0123456789ABCDEF"

  /** What is written for each byte: five names, two upper-case hexadecimal digits
      for a control byte, and any other byte as it is. */
  lemma EscapeTable(c: Byte)
    ensures c == '&' as int ==> EncodeByte(c) == Ascii("&amp;")
    ensures c == '<' as int ==> EncodeByte(c) == Ascii("&lt;")
    ensures c == '>' as int ==> EncodeByte(c) == Ascii("&gt;")
    ensures c == '"' as int ==> EncodeByte(c) == Ascii("&quot;")
    ensures c == '\'' as int ==> EncodeByte(c) == Ascii("&apos;")
    ensures c < 32 ==>
              EncodeByte(c) == Ascii("&#x") + [HEX_DIGITS[c / 16] as int, HEX_DIGITS[c % 16] as int] + Ascii(";")
    ensures IsPlainByte(c) ==> EncodeByte(c) == [c]
  {
    if c < 32 {
      HexDigit(c / 16);
      HexDigit(c % 16);
    }
  }

  lemma HexDigit(d: nat)
    requires d < 16
    ensures HexUpper(d) == HEX_DIGITS[d] as int
  {
  }

  lemma RefHead()
    ensures Ascii("&#x") == [AMP, HASH, LOWER_X]
  {
  }

  /** The bytes of `a` from the marker on, up to the byte the copying stops at. */
  lemma PassesTo(a: Bytes, u: Bytes)
    requires StartsRef(a) && (forall i :: 1 <= i < |a| ==> a[i] != SEMI)
    requires u != [] && (u[0] == SEMI || |u| == 1)
    ensures Encode(a + u) == a + Encode(u)
  {
    hide Encode, EncodeByte, PassLength;
    var v, k := a + u, |a|;
    assert v[k] == u[0] && forall i :: 0 <= i < k ==> v[i] == a[i];
    PassLengthIs(v, k);
    EncodeUnfold(v);
    assert v[..k] == a && v[k..] == u;
  }

  lemma MarkedText(t: Bytes)
    requires forall i :: 0 <= i < |t| ==> t[i] != SEMI
    ensures StartsRef(Ascii("&#x") + t) && forall i :: 1 <= i < 3 + |t| ==> (Ascii("&#x") + t)[i] != SEMI
  {
    RefHead();
    var a := Ascii("&#x") + t;
    assert forall i :: 3 <= i < |a| ==> a[i] == t[i - 3];
  }

  /** What looks like a hexadecimal reference is written as it is, up to its
      semicolon and whatever stands before that. */
  lemma ReferencePasses(t: Bytes, rest: Bytes)
    requires forall i :: 0 <= i < |t| ==> t[i] != ';' as int
    ensures Encode(Ascii("&#x") + t + ([SEMI] + rest)) == Ascii("&#x") + t + ([SEMI] + Encode(rest))
  {
    hide Encode, EncodeByte, StartsRef, Ascii;
    MarkedText(t);
    PassesTo(Ascii("&#x") + t, [SEMI] + rest);
    EncodeOne(SEMI, rest);
    SemiIsPlain();
  }

  /** Without a semicolon it is written as it is but for the last byte. */
  lemma OpenReferencePasses(t: Bytes, c: Byte)
    requires c != ';' as int && forall i :: 0 <= i < |t| ==> t[i] != ';' as int
    ensures Encode(Ascii("&#x") + t + [c]) == Ascii("&#x") + t + EncodeByte(c)
  {
    hide Encode, EncodeByte, StartsRef, Ascii;
    MarkedText(t);
    PassesTo(Ascii("&#x") + t, [c]);
    EncodeOne(c, []);
    EncodeEmpty();
    assert [c] + [] == [c] && EncodeByte(c) + [] == EncodeByte(c);
  }

  lemma {:induction false} PassLengthIs(v: Bytes, k: nat)
    requires 1 <= k < |v| && (v[k] == SEMI || k == |v| - 1) && forall i :: 1 <= i < k ==> v[i] != SEMI
    ensures PassLength(v) == k
    decreases k
  {
    PassLengthStep(v);
    if k > 1 {
      PassLengthIs(v[1..], k - 1);
    }
  }

  predicate IsPlainByte(b: Byte) {
    b >= 32 && b != '&' as int && b != '<' as int && b != '>' as int && b != '"' as int && b != '\'' as int
  }

  // ------------------------------------------------------------------- a page

  /** Bytes that need no escape, and one that does. */
  lemma {:induction false} EncodeFrom(a: Bytes, b: Bytes)
    requires forall i :: 0 <= i < |a| ==> IsPlainByte(a[i])
    ensures Encode(a + b) == a + Encode(b)
  {
    hide Encode;
    if a == [] {
      assert a + b == b;
    } else {
      var v := a + b;
      EncodeUnfold(v);
      assert v[1..] == a[1..] + b && !StartsRef(v);
      assert EncodeByte(v[0]) == [v[0]];
      EncodeFrom(a[1..], b);
      Reassociate([a[0]], a[1..], Encode(b));
      assert [a[0]] + a[1..] == a;
    }
  }

  lemma EncodeOne(c: Byte, b: Bytes)
    requires c != AMP || b == [] || b[0] != HASH
    ensures Encode([c] + b) == EncodeByte(c) + Encode(b)
  {
    hide Encode, EncodeByte;
    EncodeUnfold([c] + b);
    assert ([c] + b)[1..] == b;
  }

  const PAGE: Node :=
    Element(Ascii("a"), [Attribute(Ascii("x"), Ascii("1 < 2")), Attribute(Ascii("y"), Ascii("\"q\""))],
            [Element(Ascii("b"), [], []),
             Element(Ascii("c"), [], [Text(Ascii("A & B"), false)]),
             Element(Ascii("d"), [], [Comment(Ascii("n")), Text(Ascii("t"), false), Text(Ascii("<"), true),
                                      Unrecognised(Ascii("!u"))])])

  const FIRST_LINE: Bytes := Ascii("<a") + Ascii(" x=\"1 &lt; 2\"") + Ascii(" y='&quot;q&quot;'") + Ascii(">")

  const INNER_LINES: Bytes :=
    Ascii("        <!--n-->\n")
    + (Ascii("        t\n")
    + (Ascii("        <![CDATA[<]]>\n")
    + Ascii("        <!u>\n")))

  const LINES: Bytes :=
    (FIRST_LINE + Ascii("\n"))
    + (Ascii("    <b />\n")
    + (Ascii("    <c>A &amp; B</c>\n")
    + (Ascii("    <d>\n")
    + (INNER_LINES
    + (Ascii("    </d>\n")
    + Ascii("</a>"))))))

  const PRETTY: Format := Format(Ascii("    "), Ascii("\n"))

  lemma Escapes()
    ensures EncodeByte(LT) == Ascii("&lt;") && EncodeByte(QUOT) == Ascii("&quot;") && EncodeByte(AMP) == Ascii("&amp;")
  {
  }

  lemma FirstValue()
    ensures Encode(Ascii("1 < 2")) == Ascii("1 &lt; 2")
  {
    hide Encode, EncodeByte;
    EncodeEmpty();
    Escapes();
    EncodeFrom(Ascii("1 "), Ascii("< 2"));
    EncodeOne(LT, Ascii(" 2"));
    EncodeFrom(Ascii(" 2"), []);
    assert Ascii("1 ") + Ascii("< 2") == Ascii("1 < 2") && [LT] + Ascii(" 2") == Ascii("< 2");
    assert Ascii(" 2") + [] == Ascii(" 2");
    assert Ascii("1 ") + (Ascii("&lt;") + Ascii(" 2")) == Ascii("1 &lt; 2");
  }

  lemma SecondValue()
    ensures Encode(Ascii("\"q\"")) == Ascii("&quot;q&quot;")
  {
    hide Encode, EncodeByte;
    EncodeEmpty();
    Escapes();
    EncodeOne(QUOT, Ascii("q\""));
    EncodeFrom(Ascii("q"), Ascii("\""));
    EncodeOne(QUOT, []);
    assert [QUOT] + Ascii("q\"") == Ascii("\"q\"") && Ascii("q") + Ascii("\"") == Ascii("q\"");
    assert [QUOT] + [] == Ascii("\"") && Ascii("&quot;") + [] == Ascii("&quot;");
    assert Ascii("&quot;") + (Ascii("q") + Ascii("&quot;")) == Ascii("&quot;q&quot;");
  }

  lemma SimpleText()
    ensures Encode(Ascii("A & B")) == Ascii("A &amp; B")
  {
    hide Encode, EncodeByte;
    EncodeEmpty();
    Escapes();
    EncodeFrom(Ascii("A "), Ascii("& B"));
    EncodeOne(AMP, Ascii(" B"));
    EncodeFrom(Ascii(" B"), []);
    assert Ascii("A ") + Ascii("& B") == Ascii("A & B") && [AMP] + Ascii(" B") == Ascii("& B");
    assert Ascii(" B") + [] == Ascii(" B");
    assert Ascii("A ") + (Ascii("&amp;") + Ascii(" B")) == Ascii("A &amp; B");
  }

  lemma OneLetter(v: Bytes)
    requires |v| == 1 && IsPlainByte(v[0])
    ensures Encode(v) == v && CStr(v) == v
  {
    hide Encode;
    EncodeEmpty();
    EncodeFrom(v, []);
    assert v + [] == v && v[1..] == [];
    CStrOfNulFree(v);
  }

  lemma PrintedFirst(ns: seq<Node>, depth: nat, f: Format)
    requires ns != []
    ensures PrintNodes(ns, depth, f) ==
            Indentation(depth, f) + PrintNode(ns[0], depth, f) + f.lineBreak + PrintNodes(ns[1..], depth, f)
  {
  }

  lemma IndentStep(depth: nat, f: Format)
    ensures Indentation(0, f) == [] && Indentation(depth + 1, f) == Indentation(depth, f) + f.indent
  {
  }

  lemma Indented()
    ensures Indentation(0, PRETTY) == [] && Indentation(1, PRETTY) == Ascii("    ")
    ensures Indentation(2, PRETTY) == Ascii("        ")
  {
    hide *;
    PrettyParts();
    IndentStep(0, PRETTY);
    IndentStep(1, PRETTY);
    Blanks();
  }

  lemma PrettyParts()
    ensures PRETTY.indent == Ascii("    ") && PRETTY.lineBreak == Ascii("\n")
  {
  }

  lemma Blanks()
    ensures [] + Ascii("    ") == Ascii("    ") && Ascii("    ") + Ascii("    ") == Ascii("        ")
  {
    hide *;
    var a, b := Ascii("    "), Ascii("        ");
    assert |a + a| == |b|;
    assert forall i :: 0 <= i < 4 ==> a[i] == 32;
    assert forall i :: 0 <= i < 8 ==> b[i] == 32;
  }

  /** An element without children. */
  lemma LineB()
    ensures PrintNode(PAGE.children[0], 1, PRETTY) == Ascii("<b />")
  {
    hide Encode;
    OneLetter(Ascii("b"));
    var n := PAGE.children[0];
    assert OpenTag(n) == [LT] + Ascii("b") + [] + EMPTY_CLOSE;
    assert Ascii("<b />") == [LT] + Ascii("b") + EMPTY_CLOSE;
  }

  /** An element that holds nothing but a text. */
  lemma LineC()
    ensures PrintNode(PAGE.children[1], 1, PRETTY) == Ascii("<c>A &amp; B</c>")
  {
    hide Encode;
    OneLetter(Ascii("c"));
    SimpleText();
    var n := PAGE.children[1];
    assert OpenTag(n) == [LT] + Ascii("c") + [] + [GT] && CloseTag(n) == END_OPEN + Ascii("c") + [GT];
    assert OpenTag(n) == Ascii("<c>") && CloseTag(n) == Ascii("</c>");
    assert PrintNode(n, 1, PRETTY) == Ascii("<c>") + Ascii("A &amp; B") + Ascii("</c>");
  }

  /** Children that are no elements. */
  lemma Leaves()
    ensures PrintNode(Comment(Ascii("n")), 2, PRETTY) == Ascii("<!--n-->")
    ensures PrintNode(Text(Ascii("t"), false), 2, PRETTY) == Ascii("t")
  {
    hide Encode, CStr;
    OneLetter(Ascii("n"));
    OneLetter(Ascii("t"));
    assert COMMENT_OPEN + Ascii("n") + COMMENT_CLOSE == Ascii("<!--n-->");
  }

  lemma RawLeaves()
    ensures PrintNode(Text(Ascii("<"), true), 2, PRETTY) == Ascii("<![CDATA[<]]>")
    ensures PrintNode(Unrecognised(Ascii("!u")), 2, PRETTY) == Ascii("<!u>")
  {
    hide Encode, CStr;
    CStrOfNulFree(Ascii("<"));
    CStrOfNulFree(Ascii("!u"));
    assert CDATA_OPEN + Ascii("<") + CDATA_CLOSE == Ascii("<![CDATA[<]]>");
    assert [LT] + Ascii("!u") + [GT] == Ascii("<!u>");
  }

  /** Four nodes, each on a line of its own. */
  lemma FourLines(ns: seq<Node>, depth: nat, f: Format)
    requires |ns| == 4
    ensures var i, b := Indentation(depth, f), f.lineBreak;
            PrintNodes(ns, depth, f) ==
            (i + PrintNode(ns[0], depth, f) + b) + ((i + PrintNode(ns[1], depth, f) + b)
            + ((i + PrintNode(ns[2], depth, f) + b) + (i + PrintNode(ns[3], depth, f) + b)))
  {
    hide PrintNode, PrintNodes, Indentation;
    PrintedFirst(ns, depth, f);
    PrintedFirst(ns[1..], depth, f);
    PrintedFirst(ns[1..][1..], depth, f);
    PrintedFirst(ns[1..][1..][1..], depth, f);
    assert ns[1..][1..][1..][1..] == [];
    assert PrintNodes([], depth, f) == [] by { NoNodes(depth, f); }
    assert ns[1..][0] == ns[1] && ns[1..][1..][0] == ns[2] && ns[1..][1..][1..][0] == ns[3];
    var l := Indentation(depth, f) + PrintNode(ns[3], depth, f) + f.lineBreak;
    assert l + [] == l;
  }

  lemma NoNodes(depth: nat, f: Format)
    ensures PrintNodes([], depth, f) == []
  {
  }

  lemma ThreeLines(ns: seq<Node>, depth: nat, f: Format)
    requires |ns| == 3
    ensures var i, b := Indentation(depth, f), f.lineBreak;
            PrintNodes(ns, depth, f) ==
            (i + PrintNode(ns[0], depth, f) + b) + ((i + PrintNode(ns[1], depth, f) + b)
            + (i + PrintNode(ns[2], depth, f) + b))
  {
    hide PrintNode, PrintNodes, Indentation;
    PrintedFirst(ns, depth, f);
    PrintedFirst(ns[1..], depth, f);
    PrintedFirst(ns[1..][1..], depth, f);
    assert ns[1..][1..][1..] == [];
    NoNodes(depth, f);
    assert ns[1..][0] == ns[1] && ns[1..][1..][0] == ns[2];
    var l := Indentation(depth, f) + PrintNode(ns[2], depth, f) + f.lineBreak;
    assert l + [] == l;
  }

  lemma InnerLines()
    ensures PrintNodes(PAGE.children[2].children, 2, PRETTY) == INNER_LINES
  {
    hide PrintNode, PrintNodes, Indentation, OpenTag, CloseTag, Ascii, Encode, CStr, Walked, PrintAttributes;
    FourLines(PAGE.children[2].children, 2, PRETTY);
    Indented();
    Leaves();
    RawLeaves();
    PrettyParts();
    LineNT();
    LineCU();
  }

  lemma LineNT()
    ensures Ascii("        ") + Ascii("<!--n-->") + Ascii("\n") == Ascii("        <!--n-->\n")
    ensures Ascii("        ") + Ascii("t") + Ascii("\n") == Ascii("        t\n")
  {
  }

  lemma LineCU()
    ensures Ascii("        ") + Ascii("<![CDATA[<]]>") + Ascii("\n") == Ascii("        <![CDATA[<]]>\n")
    ensures Ascii("        ") + Ascii("<!u>") + Ascii("\n") == Ascii("        <!u>\n")
  {
  }

  /** An element printed over several lines. */
  lemma PrintedOver(n: Node, depth: nat, f: Format)
    requires n.Element? && |n.children| > 1
    ensures PrintNode(n, depth, f) ==
            OpenTag(n) + (f.lineBreak + PrintNodes(n.children, depth + 1, f) + Indentation(depth, f)) + CloseTag(n)
  {
  }

  lemma TagsOfD()
    ensures OpenTag(PAGE.children[2]) == Ascii("<d>") && CloseTag(PAGE.children[2]) == Ascii("</d>")
  {
    OneLetter(Ascii("d"));
    assert [LT] + Ascii("d") + [] + [GT] == Ascii("<d>");
    assert END_OPEN + Ascii("d") + [GT] == Ascii("</d>");
  }

  lemma TagsOfPage()
    ensures OpenTag(PAGE) == FIRST_LINE && CloseTag(PAGE) == Ascii("</a>")
  {
    hide Encode, PrintAttribute, Ascii;
    OneLetter(Ascii("a"));
    var x, y := PAGE.attributes[0], PAGE.attributes[1];
    TwoAttributes(x, y);
    AttributeX();
    AttributeY();
    TagJoins();
    XJoins();
    YJoins();
    Reassociate(Ascii("<a"), Ascii(" x=\"1 &lt; 2\""), Ascii(" y='&quot;q&quot;'"));
    EndJoins();
  }

  lemma TwoAttributes(x: Attribute, y: Attribute)
    requires !LooksLikeSentinel(y)
    ensures PrintAttributes(Walked([x, y])) == [SPACE] + PrintAttribute(x) + ([SPACE] + PrintAttribute(y))
  {
    hide PrintAttribute;
    assert [x, y][1..] == [y] && [x, y][..1] == [x] && [x] + [y] == [x, y] && [y][1..] == [];
    assert Walked([y]) == [y];
    assert PrintAttributes([y]) == [SPACE] + PrintAttribute(y) + PrintAttributes([]);
    assert [SPACE] + PrintAttribute(y) + [] == [SPACE] + PrintAttribute(y);
  }

  lemma TagJoins()
    ensures [LT] + Ascii("a") == Ascii("<a") && [GT] == Ascii(">")
  {
  }

  lemma XJoins()
    ensures [SPACE] + Ascii("x=\"1 &lt; 2\"") == Ascii(" x=\"1 &lt; 2\"")
  {
  }

  lemma YJoins()
    ensures [SPACE] + Ascii("y='&quot;q&quot;'") == Ascii(" y='&quot;q&quot;'")
  {
  }

  lemma EndJoins()
    ensures END_OPEN + Ascii("a") + [GT] == Ascii("</a>")
  {
  }

  lemma AttributeX()
    ensures PrintAttribute(PAGE.attributes[0]) == Ascii("x=\"1 &lt; 2\"")
  {
    hide Encode;
    FirstValue();
    OneLetter(Ascii("x"));
    assert QUOT !in Ascii("1 < 2");
    assert Ascii("x") + [EQUALS, QUOT] + Ascii("1 &lt; 2") + [QUOT] == Ascii("x=\"1 &lt; 2\"");
  }

  lemma AttributeY()
    ensures PrintAttribute(PAGE.attributes[1]) == Ascii("y='&quot;q&quot;'")
  {
    hide Encode;
    SecondValue();
    OneLetter(Ascii("y"));
    assert Ascii("\"q\"")[0] == QUOT;
    assert Ascii("y") + [EQUALS, APOS] + Ascii("&quot;q&quot;") + [APOS] == Ascii("y='&quot;q&quot;'");
  }

  lemma LineD()
    ensures PrintNode(PAGE.children[2], 1, PRETTY) ==
            Ascii("<d>") + (Ascii("\n") + INNER_LINES + Ascii("    ")) + Ascii("</d>")
  {
    hide PrintNode, PrintNodes, Indentation, OpenTag, CloseTag;
    PrintedOver(PAGE.children[2], 1, PRETTY);
    TagsOfD();
    InnerLines();
    Indented();
    PrettyParts();
  }

  /** A page with nested elements, as it looks: one line for each node, four spaces
      for each level, a text alone in its element on the element's line, attributes
      in the quotes they do not hold, and everything escaped. */
  lemma PageLooks()
    ensures PrintNode(PAGE, 0, PRETTY) == LINES
  {
    hide PrintNode, PrintNodes, Indentation, OpenTag, CloseTag, Ascii, Encode, CStr, Walked, PrintAttributes;
    PrintedOver(PAGE, 0, PRETTY);
    TagsOfPage();
    ThreeLines(PAGE.children, 1, PRETTY);
    Indented();
    PrettyParts();
    LineB();
    LineC();
    LineD();
    LineB1();
    LineC1();
    LineD1();
    LinesJoin(FIRST_LINE, Ascii("    "), Ascii("\n"), Ascii("<b />"),
              Ascii("<c>A &amp; B</c>"), Ascii("<d>"), INNER_LINES, Ascii("</d>"), Ascii("</a>"));
  }

  lemma LineB1()
    ensures Ascii("    ") + Ascii("<b />") + Ascii("\n") == Ascii("    <b />\n")
  {
  }

  lemma LineC1()
    ensures Ascii("    ") + Ascii("<c>A &amp; B</c>") + Ascii("\n") == Ascii("    <c>A &amp; B</c>\n")
  {
  }

  lemma LineD1()
    ensures Ascii("    ") + Ascii("<d>") + Ascii("\n") == Ascii("    <d>\n")
    ensures Ascii("    ") + Ascii("</d>") + Ascii("\n") == Ascii("    </d>\n")
  {
  }

  /** The line breaks of an outer element and of its last child fall into place. */
  lemma LinesJoin(o: Bytes, i: Bytes, b: Bytes, x: Bytes, y: Bytes, d: Bytes, inner: Bytes, e: Bytes, close: Bytes)
    ensures o + (b + ((i + x + b) + ((i + y + b) + (i + (d + (b + inner + i) + e) + b))) + []) + close ==
            (o + b) + ((i + x + b) + ((i + y + b) + ((i + d + b) + (inner + ((i + e + b) + close)))))
  {
    var last := (i + d + b) + (inner + (i + e + b));
    LastJoins(i, b, d, inner, e);
    var rest := (i + x + b) + ((i + y + b) + last);
    assert b + rest + [] == b + rest;
    Reassociate(o, b, rest);
    Reassociate(o + b, rest, close);
    Reassociate(i + x + b, (i + y + b) + last, close);
    Reassociate(i + y + b, last, close);
    Reassociate(i + d + b, inner + (i + e + b), close);
    Reassociate(inner, i + e + b, close);
  }

  lemma LastJoins(i: Bytes, b: Bytes, d: Bytes, inner: Bytes, e: Bytes)
    ensures i + (d + (b + inner + i) + e) + b == (i + d + b) + (inner + (i + e + b))
  {
    Flatten(i, d, b, inner, i, e, b);
    Reassociate(d, b + inner + i, e);
    Reassociate(i, d + (b + inner + i) + e, b);
    Reassociate(i, d, b);
  }
}
