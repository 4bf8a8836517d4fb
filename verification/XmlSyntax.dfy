/** Documents as authors write them - any quoting, spacing, references and kind of
    empty tag - and the trees they stand for. */
module XmlSyntax {
  import opened Prelude
  import opened XmlBytes
  import opened XmlUtf8
  import opened XmlText
  import opened XmlTextLaws
  import opened XmlTree
  import opened XmlParser
  import opened XmlReferences
  import opened XmlRoundTrip

  // --------------------------------------------------------- character data

  /** One character of text: as it is, as one of the five named entities, or as a
      reference to its number. */
  datatype Piece = Char(bytes: Bytes) | Entity(byte: Byte) | Number(digits: Bytes, hex: bool, n: nat)

  function EntityText(b: Byte): Bytes {
    if b == '&' as int then Ascii("&amp;")
    else if b == '<' as int then Ascii("&lt;")
    else if b == '>' as int then Ascii("&gt;")
    else if b == '"' as int then Ascii("&quot;")
    else Ascii("&apos;")
  }

  /** A character is a single byte or, in UTF-8, what its first byte announces. */
  predicate PieceOk(p: Piece, enc: Encoding) {
    match p
    case Char(bytes) =>
      && bytes != [] && NulFree(bytes) && bytes[0] != '&' as int
      && |bytes| == if enc == Utf8 then ByteTable(bytes[0]) else 1
    case Entity(b) => b in [38, 60, 62, 34, 39]
    case Number(digits, hex, n) => n < 0x1_0000_0000 && Writes(digits, n, Base(hex))
  }

  predicate PiecesOk(ps: seq<Piece>, enc: Encoding) {
    forall i :: 0 <= i < |ps| ==> PieceOk(ps[i], enc)
  }

  function PieceText(p: Piece): Bytes {
    match p
    case Char(bytes) => bytes
    case Entity(b) => EntityText(b)
    case Number(digits, hex, _) => Reference(digits, hex)
  }

  /** The bytes a piece stands for. */
  function PieceValue(p: Piece, enc: Encoding): Bytes {
    match p
    case Char(bytes) => bytes
    case Entity(b) => [b]
    case Number(_, _, n) => if enc == Utf8 then Convert(n) else [n % 256]
  }

  function PiecesText(ps: seq<Piece>): Bytes {
    if ps == [] then [] else PieceText(ps[0]) + PiecesText(ps[1..])
  }

  function PiecesValue(ps: seq<Piece>, enc: Encoding): Bytes {
    if ps == [] then [] else PieceValue(ps[0], enc) + PiecesValue(ps[1..], enc)
  }

  predicate IsWhite(p: Piece) {
    p.Char? && p.bytes != [] && IsWhiteSpace(p.bytes[0])
  }

  /** Every run of white space counts as one space, and as none at the end; a
      space written as a reference is no white space. */
  function Condensed(ps: seq<Piece>, gap: bool, enc: Encoding): Bytes {
    if ps == [] then []
    else if IsWhite(ps[0]) then Condensed(ps[1..], true, enc)
    else (if gap then [SPACE] else []) + PieceValue(ps[0], enc) + Condensed(ps[1..], false, enc)
  }

  /** No character among the pieces is the delimiter. */
  predicate Without(ps: seq<Piece>, q: Byte) {
    forall i :: 0 <= i < |ps| && ps[i].Char? && ps[i].bytes != [] ==> ps[i].bytes[0] != q
  }

  lemma EntityRead(b: Byte, tail: Bytes, enc: Encoding)
    requires b in [38, 60, 62, 34, 39]
    ensures GetEntity(EntityText(b) + tail, enc) == Read([b], Some(tail))
    ensures |EntityText(b)| > 0 && EntityText(b)[0] == AMP
  {
    hide GetEntity;
    assert EntityText(b) == EncodeByte(b);
    NamedDecodes(b, tail, enc);
  }

  lemma CharRead(bytes: Bytes, tail: Bytes, enc: Encoding)
    requires PieceOk(Char(bytes), enc)
    ensures GetChar(bytes + tail, enc) == Read(bytes, Some(tail))
  {
    hide GetEntity;
    var s := bytes + tail;
    assert s[..|bytes|] == bytes && s[|bytes|..] == tail && s[0] == bytes[0];
    CopyCharIs(s, |bytes|);
  }

  lemma ReferenceStarts(digits: Bytes, hex: bool, tail: Bytes)
    ensures var s := Reference(digits, hex) + tail; |s| > 1 && s[0] == AMP && s[1] == HASH
  {
    assert Reference(digits, hex)[0] == AMP && Reference(digits, hex)[1] == HASH;
  }

  /** Each piece is read as the bytes it stands for. */
  lemma PieceRead(p: Piece, tail: Bytes, enc: Encoding)
    requires PieceOk(p, enc)
    ensures GetChar(PieceText(p) + tail, enc) == Read(PieceValue(p, enc), Some(tail))
    ensures PieceText(p) != [] && PieceText(p)[0] != 0
    ensures p.Char? ==> p.bytes != [] && PieceText(p)[0] == p.bytes[0]
    ensures !p.Char? ==> PieceText(p)[0] == AMP
  {
    hide GetEntity, Convert, Writes, Reference;
    match p
    case Char(bytes) => CharRead(bytes, tail, enc);
    case Entity(b) =>
      EntityRead(b, tail, enc);
    case Number(digits, hex, n) =>
      ReferenceRead(digits, n, hex, tail, enc);
      ReferenceStarts(digits, hex, tail);
      assert (Reference(digits, hex) + tail)[0] == Reference(digits, hex)[0];
  }

  lemma PiecesUnfold(ps: seq<Piece>, tail: Bytes)
    requires ps != []
    ensures PiecesText(ps) + tail == PieceText(ps[0]) + (PiecesText(ps[1..]) + tail)
  {
    hide PieceText;
    Reassociate(PieceText(ps[0]), PiecesText(ps[1..]), tail);
  }

  /** Where white space is kept, text up to its delimiter is what its pieces stand
      for. */
  lemma {:induction false} KeptPieces(ps: seq<Piece>, q: Byte, rest: Bytes, enc: Encoding)
    requires PiecesOk(ps, enc) && Without(ps, q) && IsDelimiter(q)
    ensures ReadKept(Some(PiecesText(ps) + ([q] + rest)), [q], enc) == Read(PiecesValue(ps, enc), Some([q] + rest))
  {
    hide PieceText, PieceValue, PieceOk, GetChar;
    var tail := [q] + rest;
    var s := PiecesText(ps) + tail;
    if ps == [] {
      assert s == tail;
    } else {
      PiecesUnfold(ps, tail);
      PieceRead(ps[0], PiecesText(ps[1..]) + tail, enc);
      assert s[0] == PieceText(ps[0])[0] != q;
      assert s[..1][0] == s[0];
      KeptPieces(ps[1..], q, rest, enc);
    }
  }

  lemma {:induction false} CondensedPieces(ps: seq<Piece>, gap: bool, rest: Bytes, enc: Encoding)
    requires PiecesOk(ps, enc) && Without(ps, LT)
    ensures ReadCondensed(Some(PiecesText(ps) + ([LT] + rest)), gap, [LT], enc) ==
            Read(Condensed(ps, gap, enc), Some([LT] + rest))
  {
    hide PieceText, PieceValue, PieceOk, GetChar;
    var tail := [LT] + rest;
    var s := PiecesText(ps) + tail;
    if ps == [] {
      assert s == tail;
    } else {
      PiecesUnfold(ps, tail);
      PieceRead(ps[0], PiecesText(ps[1..]) + tail, enc);
      assert s[0] == PieceText(ps[0])[0] != LT;
      assert s[..1][0] == s[0];
      if IsWhite(ps[0]) {
        WhiteIsOneByte(ps[0], enc);
        assert s[1..] == PiecesText(ps[1..]) + tail;
        CondensedPieces(ps[1..], true, rest, enc);
      } else {
        CondensedPieces(ps[1..], false, rest, enc);
      }
    }
  }

  lemma WhiteIsOneByte(p: Piece, enc: Encoding)
    requires PieceOk(p, enc) && IsWhite(p)
    ensures |PieceText(p)| == 1
  {
  }

  // --------------------------------------------------------------- attributes

  datatype ValueSyntax = Quoted(quote: Byte, pieces: seq<Piece>) | Bare(bytes: Bytes)

  datatype AttributeSyntax = AttributeSyntax(name: Bytes, beforeEquals: Bytes, afterEquals: Bytes, value: ValueSyntax)

  /** An attribute and the white space in front of it. */
  datatype Spaced = Spaced(space: Bytes, syntax: AttributeSyntax)

  predicate EndsBare(b: Byte) {
    IsWhiteSpace(b) || b == '/' as int || b == '>' as int
  }

  predicate ValueOk(v: ValueSyntax, enc: Encoding) {
    match v
    case Quoted(q, pieces) => (q == '"' as int || q == '\'' as int) && PiecesOk(pieces, enc) && Without(pieces, q)
    case Bare(bytes) =>
      && bytes != []
      && (forall i :: 0 <= i < |bytes| ==>
            bytes[i] != 0 && !EndsBare(bytes[i]) && bytes[i] != '"' as int && bytes[i] != '\'' as int)
      && (enc == Utf8 ==> !StartsWithMark(bytes))
  }

  function ValueText(v: ValueSyntax): Bytes {
    match v
    case Quoted(q, pieces) => [q] + PiecesText(pieces) + [q]
    case Bare(bytes) => bytes
  }

  function ValueOf(v: ValueSyntax, enc: Encoding): Bytes {
    match v
    case Quoted(_, pieces) => PiecesValue(pieces, enc)
    case Bare(bytes) => bytes
  }

  predicate AttributeSyntaxOk(a: AttributeSyntax, enc: Encoding) {
    NameOk(a.name, enc) && AllWhite(a.beforeEquals) && AllWhite(a.afterEquals) && ValueOk(a.value, enc)
  }

  function AttributeText(a: AttributeSyntax): Bytes {
    a.name + a.beforeEquals + Ascii("=") + a.afterEquals + ValueText(a.value)
  }

  function AttributeOf(a: AttributeSyntax, enc: Encoding): Attribute {
    Attribute(a.name, ValueOf(a.value, enc))
  }

  /** What may stand behind an attribute. */
  predicate MayFollow(a: AttributeSyntax, tail: Bytes) {
    Live(tail) && (a.value.Bare? ==> EndsBare(tail[0]))
  }

  lemma {:induction false} BareLength(bytes: Bytes, tail: Bytes)
    requires forall i :: 0 <= i < |bytes| ==>
               bytes[i] != 0 && !EndsBare(bytes[i]) && bytes[i] != QUOT && bytes[i] != APOS
    requires Live(tail) && EndsBare(tail[0])
    ensures UnquotedLength(bytes + tail) == Some(|bytes|)
  {
    if bytes == [] {
      assert bytes + tail == tail;
    } else {
      assert (bytes + tail)[1..] == bytes[1..] + tail;
      BareLength(bytes[1..], tail);
    }
  }

  lemma ValueParses(name: Bytes, v: ValueSyntax, tail: Bytes, enc: Encoding)
    requires ValueOk(v, enc) && Live(tail) && (v.Bare? ==> EndsBare(tail[0]))
    ensures ParseAttributeValue(name, ValueText(v) + tail, enc) ==
            ParsedAttribute(Attribute(name, ValueOf(v, enc)), Some(tail))
    ensures var s := ValueText(v) + tail; Live(s) && SkipRun(s, enc) == s
  {
    hide PiecesText, PiecesValue, ParseAttributeValue, PieceOk, PiecesOk, SkipRun;
    match v
    case Quoted(q, pieces) => QuotedParses(name, q, pieces, tail, enc);
    case Bare(bytes) => BareParses(name, bytes, tail, enc);
  }

  lemma QuotedParses(name: Bytes, q: Byte, pieces: seq<Piece>, tail: Bytes, enc: Encoding)
    requires ValueOk(Quoted(q, pieces), enc) && Live(tail)
    ensures var s := [q] + PiecesText(pieces) + [q] + tail;
            && ParseAttributeValue(name, s, enc) ==
               ParsedAttribute(Attribute(name, PiecesValue(pieces, enc)), Some(tail))
            && Live(s) && SkipRun(s, enc) == s
  {
    hide PiecesText, PiecesValue, ReadKept, UnquotedLength, PiecesOk;
    var s := [q] + PiecesText(pieces) + [q] + tail;
    assert s[1..] == PiecesText(pieces) + ([q] + tail);
    KeptPieces(pieces, q, tail, enc);
    PastEndTagInverse(Read(PiecesValue(pieces, enc), Some([q] + tail)), PiecesValue(pieces, enc), q, tail);
    SkipRunStops(s, enc);
  }

  lemma BareParses(name: Bytes, bytes: Bytes, tail: Bytes, enc: Encoding)
    requires ValueOk(Bare(bytes), enc) && Live(tail) && EndsBare(tail[0])
    ensures var s := bytes + tail;
            && ParseAttributeValue(name, s, enc) == ParsedAttribute(Attribute(name, bytes), Some(tail))
            && Live(s) && SkipRun(s, enc) == s
  {
    hide UnquotedLength, ReadText, SkipRun;
    var s := bytes + tail;
    BareLength(bytes, tail);
    assert s[..|bytes|] == bytes && s[|bytes|..] == tail && s[0] == bytes[0];
    if |bytes| < 3 {
      assert s[|bytes|] == tail[0];
    }
    SkipRunStops(s, enc);
  }

  lemma SkipPad(pad: Bytes, s: Bytes, enc: Encoding)
    requires AllWhite(pad) && Live(s) && SkipRun(s, enc) == s
    ensures SkipWhiteSpace(pad + s, enc) == Some(s) && Live(pad + s)
  {
    SkipRunOfPad(pad, s, enc);
    LivePad(pad, s);
  }

  /** An attribute with any quotes, or none, and any white space around its equals
      sign. */
  lemma AttributeParses(a: AttributeSyntax, tail: Bytes, enc: Encoding)
    requires AttributeSyntaxOk(a, enc) && MayFollow(a, tail)
    ensures ParseAttribute(AttributeText(a) + tail, enc) == ParsedAttribute(AttributeOf(a, enc), Some(tail))
  {
    hide ValueText, ValueOf, ReadName, NameOk, ParseAttributeValue, SkipWhiteSpace, ValueOk, AllWhite;
    var v := ValueText(a.value) + tail;
    var c := a.afterEquals + v;
    var b := [EQUALS] + c;
    var s := AttributeText(a) + tail;
    assert s == a.name + (a.beforeEquals + b);
    NameThen(a.name, a.beforeEquals, b, enc);
    SkipRunStops(b, enc);
    SkipPad(a.beforeEquals, b, enc);
    assert b[1..] == c;
    ValueParses(a.name, a.value, tail, enc);
    SkipPad(a.afterEquals, v, enc);
  }

  /** A name is read up to white space or a byte that no name holds. */
  lemma NameThen(name: Bytes, space: Bytes, s: Bytes, enc: Encoding)
    requires NameOk(name, enc) && AllWhite(space) && Live(s) && !IsNameByte(s[0]) && s[0] < 0x80
    ensures SkipWhiteSpace(name + (space + s), enc) == Some(name + (space + s))
    ensures ReadName(Some(name + (space + s))) == Named(name, Some(space + s))
  {
    var rest := space + s;
    assert rest[0] == if space == [] then s[0] else space[0];
    NameNotSkipped(name, rest, enc);
    ReadNameExact(name, rest, enc);
  }

  function AttributesText(attributes: seq<Spaced>): Bytes {
    if attributes == [] then []
    else attributes[0].space + AttributeText(attributes[0].syntax) + AttributesText(attributes[1..])
  }

  function AttributesOf(attributes: seq<Spaced>, enc: Encoding): (r: seq<Attribute>)
    ensures |r| == |attributes|
    ensures forall i :: 0 <= i < |r| ==> r[i] == AttributeOf(attributes[i].syntax, enc)
  {
    seq(|attributes|, i requires 0 <= i < |attributes| => AttributeOf(attributes[i].syntax, enc))
  }

  /** A value without quotes is followed by white space if another attribute comes
      next. */
  predicate SpacingOk(attributes: seq<Spaced>, enc: Encoding) {
    && (forall i :: 0 <= i < |attributes| ==>
          AllWhite(attributes[i].space) && AttributeSyntaxOk(attributes[i].syntax, enc))
    && (forall i :: 0 < i < |attributes| && attributes[i - 1].syntax.value.Bare? ==> attributes[i].space != [])
  }

  /** No name occurs twice. */
  predicate AttributesOk(attributes: seq<Spaced>, enc: Encoding) {
    && SpacingOk(attributes, enc)
    && (forall i, j :: 0 <= i < j < |attributes| ==> attributes[i].syntax.name != attributes[j].syntax.name)
  }

  lemma AttributesUnfold(attributes: seq<Spaced>, tail: Bytes)
    requires attributes != []
    ensures AttributesText(attributes) + tail ==
            attributes[0].space + (AttributeText(attributes[0].syntax) + (AttributesText(attributes[1..]) + tail))
  {
    hide AttributeText;
    var a := attributes[0];
    Reassociate(a.space + AttributeText(a.syntax), AttributesText(attributes[1..]), tail);
    Reassociate(a.space, AttributeText(a.syntax), AttributesText(attributes[1..]) + tail);
  }

  lemma AttributeHead(a: AttributeSyntax, rest: Bytes, enc: Encoding)
    requires NameOk(a.name, enc)
    ensures var s := AttributeText(a) + rest;
            && Live(s) && s[0] == a.name[0] && IsNameStart(s[0]) && s[0] != SLASH && s[0] != GT
            && (AllWhite(a.beforeEquals) ==> SkipRun(s, enc) == s)
  {
    hide ValueText;
    var s := AttributeText(a) + rest;
    var b := [EQUALS] + a.afterEquals + ValueText(a.value) + rest;
    assert s == a.name + (a.beforeEquals + b);
    if AllWhite(a.beforeEquals) {
      NameThen(a.name, a.beforeEquals, b, enc);
    }
  }

  lemma RestFollows(attributes: seq<Spaced>, tail: Bytes, enc: Encoding)
    requires SpacingOk(attributes, enc) && attributes != [] && Live(tail)
    requires attributes[|attributes| - 1].syntax.value.Bare? ==> EndsBare(tail[0])
    ensures MayFollow(attributes[0].syntax, AttributesText(attributes[1..]) + tail)
    ensures SpacingOk(attributes[1..], enc)
  {
    hide AttributeText, AttributeSyntaxOk;
    var more := attributes[1..];
    if more == [] {
      assert AttributesText(more) + tail == tail;
    } else {
      assert attributes[1] == more[0];
      AttributesUnfold(more, tail);
      var a := more[0];
      var d := AttributeText(a.syntax) + (AttributesText(more[1..]) + tail);
      SyntaxNamed(a.syntax, enc);
      AttributeHead(a.syntax, AttributesText(more[1..]) + tail, enc);
      LivePad(a.space, d);
    }
  }

  lemma SyntaxNamed(a: AttributeSyntax, enc: Encoding)
    requires AttributeSyntaxOk(a, enc)
    ensures NameOk(a.name, enc) && AllWhite(a.beforeEquals)
  {
  }

  lemma OneMoreAttribute(name: Bytes, done: seq<Attribute>, space: Bytes, a: AttributeSyntax, rest: Bytes, m: Mode)
    requires AllWhite(space) && AttributeSyntaxOk(a, m.enc) && MayFollow(a, rest)
    requires forall i :: 0 <= i < |done| ==> done[i].name != a.name
    ensures ParseTagRest(name, done, space + (AttributeText(a) + rest), m) ==
            ParseTagRest(name, done + [AttributeOf(a, m.enc)], rest, m)
  {
    hide AttributeText, ParseAttribute, AttributeSyntaxOk, ReadValue, AllWhite;
    var d := AttributeText(a) + rest;
    SyntaxNamed(a, m.enc);
    AttributeHead(a, rest, m.enc);
    SkipPad(space, d, m.enc);
    AttributeParses(a, rest, m.enc);
    assert !HasAttribute(done, a.name);
  }

  lemma AttributeNamedSo(a: AttributeSyntax, enc: Encoding)
    ensures AttributeOf(a, enc).name == a.name
  {
  }

  lemma AttributesJoined(done: seq<Attribute>, todo: seq<Spaced>, enc: Encoding)
    requires todo != []
    ensures (done + [AttributeOf(todo[0].syntax, enc)]) + AttributesOf(todo[1..], enc) == done + AttributesOf(todo, enc)
  {
    hide AttributeOf;
  }

  lemma {:induction false} AttributesParse(name: Bytes, done: seq<Attribute>, todo: seq<Spaced>, tail: Bytes, m: Mode)
    requires AttributesOk(todo, m.enc) && Live(tail) && EndsBare(tail[0])
    requires forall i, j :: 0 <= i < |done| && 0 <= j < |todo| ==> done[i].name != todo[j].syntax.name
    ensures ParseTagRest(name, done, AttributesText(todo) + tail, m) ==
            ParseTagRest(name, done + AttributesOf(todo, m.enc), tail, m)
    decreases |todo|
  {
    hide AttributeText, AttributeSyntaxOk, ParseTagRest, AllWhite, AttributeOf, MayFollow;
    if todo == [] {
      assert AttributesText(todo) + tail == tail && done + AttributesOf(todo, m.enc) == done;
    } else {
      var a := AttributeOf(todo[0].syntax, m.enc);
      assert a.name == todo[0].syntax.name by { AttributeNamedSo(todo[0].syntax, m.enc); }
      AttributesUnfold(todo, tail);
      RestFollows(todo, tail, m.enc);
      OneMoreAttribute(name, done, todo[0].space, todo[0].syntax, AttributesText(todo[1..]) + tail, m);
      AttributesParse(name, done + [a], todo[1..], tail, m);
      AttributesJoined(done, todo, m.enc);
    }
  }

  // ------------------------------------------------------------------ content

  datatype Item =
    | EmptyTag(name: Bytes, attributes: seq<Spaced>, end: Bytes)
    | Tag(name: Bytes, attributes: seq<Spaced>, end: Bytes, content: seq<Placed>, last: Bytes, close: Bytes)
    | TextItem(pieces: seq<Piece>)
    | CommentItem(value: Bytes)
    | CDataItem(value: Bytes)
    | OtherItem(value: Bytes)
    | DeclarationItem(parts: seq<Spaced>, end: Bytes)

  /** An item and the white space in front of it. */
  datatype Placed = Placed(space: Bytes, item: Item)

  function StartTag(name: Bytes, attributes: seq<Spaced>, end: Bytes, closer: Bytes): Bytes {
    Ascii("<") + name + AttributesText(attributes) + end + closer
  }

  function ItemText(i: Item): Bytes
    decreases i, 0
  {
    match i
    case EmptyTag(name, attributes, end) => StartTag(name, attributes, end, Ascii("/>"))
    case Tag(name, attributes, end, content, last, close) =>
      StartTag(name, attributes, end, Ascii(">")) + ContentText(content) + last + Ascii("</") + name + close
      + Ascii(">")
    case TextItem(pieces) => PiecesText(pieces)
    case CommentItem(value) => Ascii("<!--") + value + Ascii("-->")
    case CDataItem(value) => Ascii("<![CDATA[") + value + Ascii("]]>")
    case OtherItem(value) => Ascii("<") + value + Ascii(">")
    case DeclarationItem(parts, end) => Ascii("<?xml") + AttributesText(parts) + end + Ascii("?>")
  }

  function PlacedText(p: Placed): Bytes
    decreases p, 1
  {
    p.space + ItemText(p.item)
  }

  function ContentText(ps: seq<Placed>): Bytes
    decreases ps
  {
    if ps == [] then [] else PlacedText(ps[0]) + ContentText(ps[1..])
  }

  /** A text keeps the white space around it, or has none of it left. */
  function TextOf(space: Bytes, pieces: seq<Piece>, m: Mode): Bytes {
    if m.condense then Condensed(pieces, false, m.enc) else space + PiecesValue(pieces, m.enc)
  }

  /** The last value given for a key, or the one there was before. */
  function LastOf(parts: seq<Spaced>, key: string, before: Bytes, enc: Encoding): Bytes {
    if parts == [] then before
    else
      var a := parts[0].syntax;
      LastOf(parts[1..], key, if IsKey(a.name, key) then ValueOf(a.value, enc) else before, enc)
  }

  /** The name is the key, in whatever letter case. */
  predicate IsKey(name: Bytes, key: string) {
    |name| == |key| && forall i :: 0 <= i < |name| ==> ToLower(name[i]) == key[i] as int
  }

  /** The node an item stands for. */
  function NodeOf(i: Item, space: Bytes, m: Mode): Node
    decreases i, 0
  {
    match i
    case EmptyTag(name, attributes, _) => Element(name, AttributesOf(attributes, m.enc), [])
    case Tag(name, attributes, _, content, _, _) =>
      Element(name, AttributesOf(attributes, m.enc), NodesOf(content, m))
    case TextItem(pieces) => Text(TextOf(space, pieces, m), false)
    case CommentItem(value) => Comment(value)
    case CDataItem(value) => Text(value, true)
    case OtherItem(value) => Unrecognised(value)
    case DeclarationItem(parts, _) =>
      Declaration(LastOf(parts, "version", [], m.enc), LastOf(parts, "encoding", [], m.enc),
                  LastOf(parts, "standalone", [], m.enc))
  }

  /** Text that is nothing but white space, references to it included, is no node. */
  function PlacedNodes(p: Placed, m: Mode): seq<Node>
    decreases p, 1
  {
    if p.item.TextItem? && Blank(TextOf(p.space, p.item.pieces, m)) then [] else [NodeOf(p.item, p.space, m)]
  }

  function NodesOf(ps: seq<Placed>, m: Mode): seq<Node>
    decreases ps
  {
    if ps == [] then [] else PlacedNodes(ps[0], m) + NodesOf(ps[1..], m)
  }

  predicate TextItemOk(pieces: seq<Piece>, enc: Encoding) {
    && PiecesOk(pieces, enc) && Without(pieces, LT)
    && pieces != [] && !IsWhite(pieces[0])
    && (enc == Utf8 ==> !StartsWithMark(PiecesText(pieces)))
  }

  predicate TagOk(name: Bytes, attributes: seq<Spaced>, end: Bytes, enc: Encoding) {
    && NameOk(name, enc) && AttributesOk(attributes, enc) && AllWhite(end)
    && (attributes != [] ==> attributes[0].space != [])
  }

  predicate PartsOk(parts: seq<Spaced>, end: Bytes, enc: Encoding) {
    && AllWhite(end) && SpacingOk(parts, enc)
    && (forall i :: 0 <= i < |parts| ==>
          var name := parts[i].syntax.name;
          IsKey(name, "version") || IsKey(name, "encoding") || IsKey(name, "standalone"))
    && (parts != [] && parts[|parts| - 1].syntax.value.Bare? ==> end != [])
  }

  predicate ItemOk(i: Item, m: Mode)
    decreases i, 0
  {
    match i
    case EmptyTag(name, attributes, end) => TagOk(name, attributes, end, m.enc)
    case Tag(name, attributes, end, content, last, close) =>
      TagOk(name, attributes, end, m.enc) && ContentOk(content, last, m) && AllWhite(last) && AllWhite(close)
    case TextItem(pieces) => TextItemOk(pieces, m.enc)
    case CommentItem(value) => RawOk(value, Ascii("-->"))
    case CDataItem(value) => RawOk(value, Ascii("]]>"))
    case OtherItem(value) => UnrecognisedOk(value)
    case DeclarationItem(parts, end) => PartsOk(parts, end, m.enc)
  }

  predicate PlacedOk(p: Placed, m: Mode)
    decreases p, 1
  {
    AllWhite(p.space) && ItemOk(p.item, m)
  }

  /** White space behind a text belongs to the text. */
  predicate ContentOk(ps: seq<Placed>, last: Bytes, m: Mode)
    decreases ps
  {
    ps != [] ==>
      && PlacedOk(ps[0], m)
      && (ps[0].item.TextItem? ==> if |ps| == 1 then last == [] else ps[1].space == [] && !ps[1].item.TextItem?)
      && ContentOk(ps[1..], last, m)
  }

  // ----------------------------------------------------------------- elements

  lemma AfterName(attributes: seq<Spaced>, tail: Bytes, enc: Encoding)
    requires AttributesOk(attributes, enc) && (attributes != [] ==> attributes[0].space != [])
    requires Live(tail) && EndsBare(tail[0])
    ensures var t := AttributesText(attributes) + tail; Live(t) && EndsBare(t[0])
  {
    hide AttributeText, AttributeSyntaxOk;
    if attributes == [] {
      assert AttributesText(attributes) + tail == tail;
    } else {
      AttributesUnfold(attributes, tail);
    }
  }

  lemma StartTagText(name: Bytes, attributes: seq<Spaced>, end: Bytes, closer: Bytes, rest: Bytes)
    ensures StartTag(name, attributes, end, closer) + rest ==
            [LT] + (name + (AttributesText(attributes) + (end + (closer + rest))))
  {
    hide AttributesText;
    assert Ascii("<") == [LT];
    Flatten([LT], name, AttributesText(attributes), end, closer, rest, []);
    assert rest + [] == rest;
    assert [LT] + name + AttributesText(attributes) + end + closer + rest + [] ==
           StartTag(name, attributes, end, closer) + rest;
  }

  lemma PadEndsBare(end: Bytes, tail: Bytes)
    requires AllWhite(end) && Live(tail) && EndsBare(tail[0])
    ensures Live(end + tail) && EndsBare((end + tail)[0])
  {
    if end == [] {
      assert end + tail == tail;
    }
  }

  /** A start tag up to its closing bracket. */
  lemma StartTagParses(name: Bytes, attributes: seq<Spaced>, end: Bytes, closer: Bytes, rest: Bytes, m: Mode)
    requires TagOk(name, attributes, end, m.enc) && closer != [] && (closer[0] == SLASH || closer[0] == GT)
    ensures ParseElement(StartTag(name, attributes, end, closer) + rest, m) ==
            ParseTagRest(name, AttributesOf(attributes, m.enc), end + (closer + rest), m)
  {
    hide AttributesText, ParseTagRest, AttributesOk, NameOk, ReadName, StartTag, SkipRun;
    var tail := end + (closer + rest);
    var t := AttributesText(attributes) + tail;
    var s := StartTag(name, attributes, end, closer) + rest;
    StartTagText(name, attributes, end, closer, rest);
    PadEndsBare(end, closer + rest);
    AfterName(attributes, tail, m.enc);
    SkipRunStops(s, m.enc);
    assert s[1..] == name + t;
    NameNotSkipped(name, t, m.enc);
    ReadNameExact(name, t, m.enc);
    AttributesParse(name, [], attributes, tail, m);
    assert [] + AttributesOf(attributes, m.enc) == AttributesOf(attributes, m.enc);
  }

  /** The start tag of an empty element. */
  lemma EmptyTagCloses(name: Bytes, attributes: seq<Attribute>, end: Bytes, rest: Bytes, m: Mode)
    requires AllWhite(end)
    ensures ParseTagRest(name, attributes, end + (Ascii("/>") + rest), m) ==
            Parsed(Element(name, attributes, []), Some(rest))
  {
    var t := Ascii("/>") + rest;
    assert t[0] == SLASH && t[1] == GT && t[2..] == rest;
    SkipRunStops(t, m.enc);
    SkipPad(end, t, m.enc);
  }

  lemma TagCloses(name: Bytes, attributes: seq<Attribute>, end: Bytes, c: Bytes, m: Mode)
    requires AllWhite(end)
    ensures ParseTagRest(name, attributes, end + (Ascii(">") + c), m) ==
            (var content := ReadValue(c, m);
             Parsed(Element(name, attributes, content.nodes),
                    if LivePtr(content.next) then ParseEndTag(name, content.next.value, m) else None))
  {
    hide ReadValue, ParseEndTag;
    var t := Ascii(">") + c;
    assert t[0] == GT && t[1..] == c;
    SkipRunStops(t, m.enc);
    SkipPad(end, t, m.enc);
  }

  /** An end tag may have white space behind its name. */
  lemma EndTagParses(name: Bytes, close: Bytes, rest: Bytes, m: Mode)
    requires AllWhite(close)
    ensures ParseEndTag(name, Ascii("</") + name + (close + (Ascii(">") + rest)), m) == Some(rest)
    ensures StartsWith(Ascii("</") + name + (close + (Ascii(">") + rest)), END_OPEN)
  {
    var t := Ascii(">") + rest;
    var s := Ascii("</") + name + (close + t);
    assert Ascii("</") == END_OPEN;
    assert s[..2 + |name|] == END_OPEN + name && s[2 + |name|..] == close + t;
    assert s[..2] == END_OPEN;
    assert t[0] == GT && t[1..] == rest;
    SkipRunStops(t, m.enc);
    SkipPad(close, t, m.enc);
  }

  // ------------------------------------------------------------- declarations

  lemma KeyRead(name: Bytes, rest: Bytes, tag: Bytes, key: string)
    requires forall i :: 0 <= i < |key| ==> key[i] < 128 as char && !('A' <= key[i] <= 'Z')
    requires tag == Ascii(key) && name != [] && key != ""
    ensures IsKey(name, key) ==> StartsWithNoCase(name + rest, tag)
    ensures ToLower(name[0]) != key[0] as int ==> !StartsWithNoCase(name + rest, tag) && !IsKey(name, key)
  {
    var s := name + rest;
    assert forall i :: 0 <= i < |name| ==> s[i] == name[i];
    assert forall i :: 0 <= i < |tag| ==> ToLower(tag[i]) == tag[i] == key[i] as int;
  }

  function Declared(d: Node, parts: seq<Spaced>, enc: Encoding): (r: Node)
    requires d.Declaration?
    ensures r.Declaration?
  {
    Declaration(LastOf(parts, "version", d.version, enc), LastOf(parts, "encoding", d.encoding, enc),
                LastOf(parts, "standalone", d.standalone, enc))
  }

  function WithPart(d: Node, a: AttributeSyntax, enc: Encoding): (r: Node)
    requires d.Declaration?
    ensures r.Declaration?
  {
    var v := ValueOf(a.value, enc);
    Declaration(if IsKey(a.name, "version") then v else d.version,
                if IsKey(a.name, "encoding") then v else d.encoding,
                if IsKey(a.name, "standalone") then v else d.standalone)
  }

  lemma DeclaredUnfold(d: Node, parts: seq<Spaced>, enc: Encoding)
    requires d.Declaration? && parts != []
    ensures Declared(d, parts, enc) == Declared(WithPart(d, parts[0].syntax, enc), parts[1..], enc)
  {
    hide IsKey, ValueOf;
  }

  lemma DeclarationEnd(d: Node, end: Bytes, rest: Bytes, enc: Encoding)
    requires d.Declaration? && AllWhite(end)
    ensures ParseDeclarationRest(Some(end + (Ascii("?>") + rest)), d, enc) == Parsed(d, Some(rest))
    ensures Live(end + (Ascii("?>") + rest)) && (end != [] ==> EndsBare((end + (Ascii("?>") + rest))[0]))
  {
    hide ParseAttribute;
    var t := Ascii("?>") + rest;
    assert t[0] == 63 && t[1] == GT && t[1..][0] == GT && t[1..][1..] == rest;
    SkipRunStops(t, enc);
    SkipPad(end, t, enc);
    NotKeyword(t);
    assert JunkLength(t) == 1 by { assert JunkLength(t[1..]) == 0; }
    assert (end + t)[0] != GT;
    assert ParseDeclarationRest(Some(t[1..]), d, enc) == Parsed(d, Some(rest));
  }

  lemma NotKeyword(t: Bytes)
    requires t != [] && t[0] == 63
    ensures !StartsWithNoCase(t, VERSION) && !StartsWithNoCase(t, ENCODING) && !StartsWithNoCase(t, STANDALONE)
  {
  }

  lemma Keywords()
    ensures VERSION == Ascii("version") && ENCODING == Ascii("encoding") && STANDALONE == Ascii("standalone")
  {
  }

  lemma OnePart(d: Node, space: Bytes, a: AttributeSyntax, rest: Bytes, enc: Encoding)
    requires d.Declaration? && AllWhite(space) && AttributeSyntaxOk(a, enc) && MayFollow(a, rest)
    requires IsKey(a.name, "version") || IsKey(a.name, "encoding") || IsKey(a.name, "standalone")
    ensures ParseDeclarationRest(Some(space + (AttributeText(a) + rest)), d, enc) ==
            ParseDeclarationRest(Some(rest), WithPart(d, a, enc), enc)
  {
    hide AttributeText, ParseAttribute, AttributeSyntaxOk, AllWhite, StartsWithNoCase, IsKey;
    var s := AttributeText(a) + rest;
    SyntaxNamed(a, enc);
    AttributeHead(a, rest, enc);
    SkipPad(space, s, enc);
    AttributeParses(a, rest, enc);
    WhiteIsNoBracket(space, s);
    KeyOfPart(a, rest);
  }

  lemma WhiteIsNoBracket(space: Bytes, s: Bytes)
    requires AllWhite(space) && s != [] && s[0] != GT
    ensures (space + s)[0] != GT
  {
  }

  lemma KeyOfPart(a: AttributeSyntax, rest: Bytes)
    requires IsKey(a.name, "version") || IsKey(a.name, "encoding") || IsKey(a.name, "standalone")
    ensures StartsWithNoCase(AttributeText(a) + rest, VERSION) <==> IsKey(a.name, "version")
    ensures StartsWithNoCase(AttributeText(a) + rest, ENCODING) <==> IsKey(a.name, "encoding")
    ensures StartsWithNoCase(AttributeText(a) + rest, STANDALONE) <==> IsKey(a.name, "standalone")
    ensures !(IsKey(a.name, "version") && IsKey(a.name, "encoding"))
    ensures !(IsKey(a.name, "version") && IsKey(a.name, "standalone"))
    ensures !(IsKey(a.name, "encoding") && IsKey(a.name, "standalone"))
  {
    hide StartsWithNoCase, ValueText;
    var more := a.beforeEquals + Ascii("=") + a.afterEquals + ValueText(a.value) + rest;
    assert AttributeText(a) + rest == a.name + more;
    Keywords();
    KeyRead(a.name, more, VERSION, "version");
    KeyRead(a.name, more, ENCODING, "encoding");
    KeyRead(a.name, more, STANDALONE, "standalone");
  }

  /** The parts of a declaration, in any order, and its end. */
  lemma {:induction false} PartsParse(d: Node, parts: seq<Spaced>, end: Bytes, rest: Bytes, enc: Encoding)
    requires d.Declaration? && PartsOk(parts, end, enc)
    ensures ParseDeclarationRest(Some(AttributesText(parts) + (end + (Ascii("?>") + rest))), d, enc) ==
            Parsed(Declared(d, parts, enc), Some(rest))
    decreases |parts|
  {
    hide AttributeText, AttributeSyntaxOk, ParseDeclarationRest, AllWhite, IsKey;
    var tail := end + (Ascii("?>") + rest);
    DeclarationEnd(d, end, rest, enc);
    if parts == [] {
      assert AttributesText(parts) + tail == tail;
    } else {
      AttributesUnfold(parts, tail);
      RestFollows(parts, tail, enc);
      OnePart(d, parts[0].space, parts[0].syntax, AttributesText(parts[1..]) + tail, enc);
      PartsParse(WithPart(d, parts[0].syntax, enc), parts[1..], end, rest, enc);
      DeclaredUnfold(d, parts, enc);
    }
  }

  // --------------------------------------------------------- whole documents

  /** How an item that is no text begins. */
  lemma ItemStarts(i: Item, rest: Bytes, m: Mode)
    requires ItemOk(i, m) && !i.TextItem?
    ensures var s := ItemText(i) + rest; |s| > 1 && s[0] == LT && s[1] != SLASH && s[1] != 0
  {
    hide AttributesText, ContentText, ContentOk, AttributesOk, PartsOk, RawOk;
    var s := ItemText(i) + rest;
    match i
    case EmptyTag(name, _, _) =>
      assert s[0] == ItemText(i)[0] && s[1] == ItemText(i)[1] == name[0];
    case Tag(name, _, _, _, _, _) =>
      assert s[0] == ItemText(i)[0] && s[1] == ItemText(i)[1] == name[0];
    case CommentItem(value) =>
      assert s[0] == ItemText(i)[0] && s[1] == ItemText(i)[1];
    case CDataItem(value) =>
      assert s[0] == ItemText(i)[0] && s[1] == ItemText(i)[1];
    case OtherItem(value) =>
      assert s[0] == ItemText(i)[0] && s[1] == ItemText(i)[1];
      OtherSecond(value);
    case DeclarationItem(_, _) =>
      assert s[0] == ItemText(i)[0] && s[1] == ItemText(i)[1];
  }

  lemma OtherSecond(value: Bytes)
    requires UnrecognisedOk(value)
    ensures value != [] ==> value[0] != SLASH && value[0] != 0
  {
  }

  /** What follows an item of some content. */
  lemma ContentUnfold(ps: seq<Placed>, tail: Bytes)
    requires ps != []
    ensures ContentText(ps) + tail == ps[0].space + (ItemText(ps[0].item) + (ContentText(ps[1..]) + tail))
  {
    hide ItemText;
    var p := ps[0];
    assert PlacedText(p) == p.space + ItemText(p.item);
    Reassociate(PlacedText(p), ContentText(ps[1..]), tail);
    Reassociate(p.space, ItemText(p.item), ContentText(ps[1..]) + tail);
  }

  /** Any white space may stand in front of a tag. */
  lemma PadBeforeTag(pad: Bytes, s: Bytes, m: Mode)
    requires AllWhite(pad) && s != [] && s[0] == LT
    ensures ReadValue(pad + s, m) == ReadValue(s, m)
    ensures Live(pad + s) && SkipRun(s, m.enc) == s
  {
    hide ParseText, ParseMarkup, SkipRun;
    SkipRunStops(s, m.enc);
    SkipPad(pad, s, m.enc);
  }

  lemma {:induction false} WhiteKept(pad: Bytes, s: Bytes, enc: Encoding)
    requires AllWhite(pad)
    ensures ReadKept(Some(pad + s), [LT], enc) ==
            (var r := ReadKept(Some(s), [LT], enc); Read(pad + r.bytes, r.next))
  {
    hide ReadKept;
    if pad == [] {
      assert pad + s == s;
      assert [] + ReadKept(Some(s), [LT], enc).bytes == ReadKept(Some(s), [LT], enc).bytes;
    } else {
      var r := ReadKept(Some(s), [LT], enc);
      OneWhiteKept(pad[0], pad[1..] + s, enc);
      Reassociate([pad[0]], pad[1..], s);
      Reassociate([pad[0]], pad[1..], r.bytes);
      assert [pad[0]] + pad[1..] == pad;
      WhiteKept(pad[1..], s, enc);
    }
  }

  lemma OneWhiteKept(c: Byte, s: Bytes, enc: Encoding)
    requires IsWhiteSpace(c)
    ensures ReadKept(Some([c] + s), [LT], enc) ==
            (var r := ReadKept(Some(s), [LT], enc); Read([c] + r.bytes, r.next))
  {
    hide GetEntity, CopyChar;
    var t := [c] + s;
    assert t[0] == c && t[1..] == s && t[..1][0] == c;
  }

  lemma TextStarts(pieces: seq<Piece>, tail: Bytes, enc: Encoding)
    requires TextItemOk(pieces, enc) && tail != [] && tail[0] == LT
    ensures var s := PiecesText(pieces) + tail;
            Live(s) && !IsWhiteSpace(s[0]) && s[0] != LT && SkipRun(s, enc) == s
  {
    hide PieceText, PieceValue, PieceOk, SkipRun, IsWhite;
    var s := PiecesText(pieces) + tail;
    PiecesUnfold(pieces, tail);
    PieceRead(pieces[0], PiecesText(pieces[1..]) + tail, enc);
    assert s[0] == PieceText(pieces[0])[0];
    FirstNotWhite(pieces[0]);
    NoMarkAcross(PiecesText(pieces), tail);
    SkipRunStops(s, enc);
  }

  lemma FirstNotWhite(p: Piece)
    requires !IsWhite(p)
    ensures p.Char? && p.bytes != [] ==> !IsWhiteSpace(p.bytes[0])
  {
  }

  lemma NoMarkAcross(t: Bytes, tail: Bytes)
    requires tail != [] && tail[0] == LT
    ensures StartsWithMark(t + tail) ==> StartsWithMark(t)
  {
    assert (t + tail)[|t|] == LT;
  }

  /** A text up to the next tag. */
  lemma TextParses(space: Bytes, pieces: seq<Piece>, t: Bytes, m: Mode)
    requires AllWhite(space) && TextItemOk(pieces, m.enc)
    requires |t| > 1 && t[0] == LT && t[1] != 0
    ensures ReadValue(space + (PiecesText(pieces) + t), m) ==
            (var r := ReadValue(t, m); var v := TextOf(space, pieces, m);
             ParsedNodes((if Blank(v) then [] else [Text(v, false)]) + r.nodes, r.next))
  {
    hide PiecesText, PiecesValue, Condensed, ReadKept, ReadCondensed, ParseMarkup, SkipRun, PiecesOk, IsWhite,
         TextItemOk;
    var a := PiecesText(pieces) + t;
    var s := space + a;
    var v := TextOf(space, pieces, m);
    TextStarts(pieces, t, m.enc);
    TextItemParts(pieces, m.enc);
    SkipPad(space, a, m.enc);
    assert t == [LT] + t[1..];
    if m.condense {
      CondensedPieces(pieces, false, t[1..], m.enc);
      TextRead(a, v, t, m);
    } else {
      WhiteKept(space, a, m.enc);
      KeptPieces(pieces, LT, t[1..], m.enc);
      TextRead(s, v, t, m);
    }
  }

  lemma TextItemParts(pieces: seq<Piece>, enc: Encoding)
    requires TextItemOk(pieces, enc)
    ensures PiecesOk(pieces, enc) && Without(pieces, LT)
  {
  }

  lemma TextRead(s: Bytes, v: Bytes, t: Bytes, m: Mode)
    requires |t| > 1 && t[0] == LT && t[1] != 0
    requires if m.condense
             then SkipWhiteSpace(s, m.enc) == Some(s) && ReadCondensed(Some(s), false, [LT], m.enc) == Read(v, Some(t))
             else ReadKept(Some(s), [LT], m.enc) == Read(v, Some(t))
    ensures ParseText(s, m) == Parsed(Text(v, false), Some(t))
  {
    hide ReadKept, ReadCondensed, SkipWhiteSpace;
    assert t[..1] == [LT] && [LT] + t[1..] == t;
  }

  // --------------------------------------------------------- one item of markup

  lemma CommentItemParses(value: Bytes, rest: Bytes, m: Mode)
    requires RawOk(value, Ascii("-->"))
    ensures var s := Ascii("<!--") + value + Ascii("-->") + rest;
            s != [] && s[0] == LT && ParseMarkup(s, m) == Parsed(Comment(value), Some(rest))
  {
    hide RawOk, CStr, RawUntil, ParseElement, ParseDeclarationRest, ParseCData, ParseUnrecognised;
    assert Ascii("<!--") == COMMENT_OPEN && Ascii("-->") == COMMENT_CLOSE;
    RawRoundTrip(value, COMMENT_CLOSE, rest);
    var s := COMMENT_OPEN + value + COMMENT_CLOSE + rest;
    CommentRoundTrip(value, 0, STREAM, rest);
    assert PrintNode(Comment(value), 0, STREAM) + rest == s;
    CommentIsNoDeclaration(s);
  }

  lemma CDataItemParses(value: Bytes, rest: Bytes, m: Mode)
    requires RawOk(value, Ascii("]]>")) && Live(rest)
    ensures var s := Ascii("<![CDATA[") + value + Ascii("]]>") + rest;
            s != [] && s[0] == LT && ParseMarkup(s, m) == Parsed(Text(value, true), Some(rest))
  {
    hide RawOk, CStr, RawUntil, ParseElement, ParseDeclarationRest, ParseComment, ParseUnrecognised;
    assert Ascii("<![CDATA[") == CDATA_OPEN && Ascii("]]>") == CDATA_CLOSE;
    RawRoundTrip(value, CDATA_CLOSE, rest);
    var s := CDATA_OPEN + value + CDATA_CLOSE + rest;
    CDataRoundTrip(value, 0, STREAM, rest);
    assert PrintNode(Text(value, true), 0, STREAM) + rest == s;
    CDataIsNoComment(s);
  }

  lemma OtherItemParses(value: Bytes, rest: Bytes, m: Mode)
    requires UnrecognisedOk(value)
    ensures var s := Ascii("<") + value + Ascii(">") + rest;
            s != [] && s[0] == LT && ParseMarkup(s, m) == Parsed(Unrecognised(value), Some(rest))
  {
    hide CStr, RawUntil, ParseElement, ParseDeclarationRest, ParseComment, ParseCData, UnrecognisedOk,
         ParseUnrecognised;
    assert Ascii("<") == [LT] && Ascii(">") == [GT];
    OtherCStr(value);
    var s := [LT] + value + [GT] + rest;
    Reassociate([LT] + value, [GT], rest);
    UnrecognisedIdentified(value, rest);
    UnrecognisedRoundTrip(value, 0, STREAM, rest);
    assert PrintNode(Unrecognised(value), 0, STREAM) + rest == s;
  }

  lemma OtherCStr(value: Bytes)
    requires UnrecognisedOk(value)
    ensures CStr(value) == value && RawOk(value, [GT])
  {
    CStrOfNulFree(value);
  }

  lemma DeclarationItemParses(parts: seq<Spaced>, end: Bytes, rest: Bytes, m: Mode)
    requires PartsOk(parts, end, m.enc)
    ensures var s := Ascii("<?xml") + AttributesText(parts) + end + Ascii("?>") + rest;
            s != [] && s[0] == LT &&
            ParseMarkup(s, m) == Parsed(Declared(Declaration([], [], []), parts, m.enc), Some(rest))
  {
    hide AttributesText, PartsOk, ParseDeclarationRest, ParseElement, ParseComment, ParseCData, ParseUnrecognised;
    var t := AttributesText(parts) + (end + (Ascii("?>") + rest));
    var s := Ascii("<?xml") + AttributesText(parts) + end + Ascii("?>") + rest;
    assert s == Ascii("<?xml") + t by {
      Flatten(Ascii("<?xml"), AttributesText(parts), end, Ascii("?>"), rest, [], []);
      assert s + [] + [] == s && rest + ([] + []) == rest;
    }
    assert s[5..] == t && forall i :: 0 <= i < 5 ==> s[i] == Ascii("<?xml")[i] == XML_OPEN[i];
    PartsParse(Declaration([], [], []), parts, end, rest, m.enc);
  }

  lemma TagText(i: Item, rest: Bytes)
    requires i.Tag?
    ensures ItemText(i) + rest ==
            StartTag(i.name, i.attributes, i.end, Ascii(">")) +
            (ContentText(i.content) + (i.last + (Ascii("</") + i.name + (i.close + (Ascii(">") + rest)))))
  {
    hide StartTag, ContentText;
    var o := StartTag(i.name, i.attributes, i.end, Ascii(">"));
    var e := Ascii("</") + i.name;
    Flatten(o, ContentText(i.content), i.last, e, i.close, Ascii(">"), rest);
    Reassociate(o + ContentText(i.content) + i.last, Ascii("</"), i.name);
    assert ItemText(i) == o + ContentText(i.content) + i.last + e + i.close + Ascii(">");
  }

  /** A start tag is taken for the start of an element. */
  lemma StartTagIdentified(name: Bytes, attributes: seq<Spaced>, end: Bytes, closer: Bytes, rest: Bytes, m: Mode)
    requires NameOk(name, m.enc)
    ensures var s := StartTag(name, attributes, end, closer) + rest;
            s != [] && s[0] == LT && ParseMarkup(s, m) == ParseElement(s, m)
  {
    hide AttributesText, ParseElement, ParseComment, ParseCData, ParseUnrecognised, ParseDeclarationRest;
    StartTagText(name, attributes, end, closer, rest);
    var s := StartTag(name, attributes, end, closer) + rest;
    assert s[1] == name[0];
    NotMarkup(s);
  }

  /** An item of markup stands for its node, whatever follows it. */
  lemma {:induction false} ItemParses(i: Item, space: Bytes, rest: Bytes, m: Mode)
    requires ItemOk(i, m) && !i.TextItem? && Live(rest)
    ensures var s := ItemText(i) + rest;
            s != [] && s[0] == LT && ParseMarkup(s, m) == Parsed(NodeOf(i, space, m), Some(rest))
    decreases i, 1
  {
    hide AttributesText, ContentText, ContentOk, ParseElement, ParseMarkup, StartTag, AttributesOk, PartsOk, RawOk,
         UnrecognisedOk, IsKey;
    match i
    case EmptyTag(name, attributes, end) =>
      StartTagIdentified(name, attributes, end, Ascii("/>"), rest, m);
      ElementParses(i, space, rest, m);
    case Tag(name, attributes, end, _, _, _) =>
      TagText(i, rest);
      StartTagIdentified(name, attributes, end, Ascii(">"),
                         ContentText(i.content) +
                         (i.last + (Ascii("</") + i.name + (i.close + (Ascii(">") + rest)))), m);
      ElementParses(i, space, rest, m);
    case CommentItem(value) => CommentItemParses(value, rest, m);
    case CDataItem(value) => CDataItemParses(value, rest, m);
    case OtherItem(value) => OtherItemParses(value, rest, m);
    case DeclarationItem(parts, end) => DeclarationItemParses(parts, end, rest, m);
  }

  /** An element as its author wrote it is read as the tree it stands for, and
      reading stops right behind it, whatever follows. */
  lemma {:induction false} ElementParses(i: Item, space: Bytes, rest: Bytes, m: Mode)
    requires ItemOk(i, m) && (i.EmptyTag? || i.Tag?)
    ensures ParseElement(ItemText(i) + rest, m) == Parsed(NodeOf(i, space, m), Some(rest))
    decreases i, 0
  {
    hide AttributesText, ContentText, ContentOk, ParseElement, ParseTagRest, StartTag, AttributesOk, AttributesOf,
         ReadValue, ParseEndTag, NodesOf;
    match i
    case EmptyTag(name, attributes, end) =>
      StartTagParses(name, attributes, end, Ascii("/>"), rest, m);
      EmptyTagCloses(name, AttributesOf(attributes, m.enc), end, rest, m);
    case Tag(name, attributes, end, content, last, close) =>
      var tail := Ascii("</") + name + (close + (Ascii(">") + rest));
      var c := ContentText(content) + (last + tail);
      TagText(i, rest);
      StartTagParses(name, attributes, end, Ascii(">"), c, m);
      TagCloses(name, AttributesOf(attributes, m.enc), end, c, m);
      EndTagParses(name, close, rest, m);
      EndStart(tail);
      ContentParses(content, last, tail, m);
  }

  /** The content of an element, up to its end tag. */
  lemma {:induction false} ContentParses(ps: seq<Placed>, last: Bytes, tail: Bytes, m: Mode)
    requires ContentOk(ps, last, m) && AllWhite(last) && StartsWith(tail, END_OPEN)
    ensures ReadValue(ContentText(ps) + (last + tail), m) == ParsedNodes(NodesOf(ps, m), Some(tail))
    decreases ps
  {
    hide ContentText, ReadValue, ItemText, ItemOk, ParseMarkup, NodeOf, TextOf, NodesOf, AllWhite, PiecesText;
    EndStart(tail);
    if ps == [] {
      NoContent(last, tail, m);
      PadBeforeTag(last, tail, m);
      EndOfContent(tail, m);
    } else {
      var p, t := ps[0], ContentText(ps[1..]) + (last + tail);
      ContentUnfold(ps, last + tail);
      ContentParses(ps[1..], last, tail, m);
      NodesUnfold(ps, m);
      if p.item.TextItem? {
        TagComesNext(ps, last, tail, m);
        TextItemShape(p, m);
        TextParses(p.space, p.item.pieces, t, m);
      } else {
        RestLives(ps[1..], last, tail, m);
        ItemStarts(p.item, t, m);
        ItemParses(p.item, p.space, t, m);
        PadBeforeTag(p.space, ItemText(p.item) + t, m);
        MarkupRead(NodeOf(p.item, p.space, m), ItemText(p.item) + t, t, m);
      }
    }
  }

  lemma NoContent(last: Bytes, tail: Bytes, m: Mode)
    ensures ContentText([]) + (last + tail) == last + tail && NodesOf([], m) == []
  {
    assert ContentText([]) == [];
  }

  lemma NodesUnfold(ps: seq<Placed>, m: Mode)
    requires ps != []
    ensures NodesOf(ps, m) == PlacedNodes(ps[0], m) + NodesOf(ps[1..], m)
  {
  }

  lemma TextItemShape(p: Placed, m: Mode)
    requires p.item.TextItem? && ItemOk(p.item, m)
    ensures TextItemOk(p.item.pieces, m.enc) && ItemText(p.item) == PiecesText(p.item.pieces)
    ensures NodeOf(p.item, p.space, m) == Text(TextOf(p.space, p.item.pieces, m), false)
  {
  }

  /** Behind a text comes a tag. */
  lemma TagComesNext(ps: seq<Placed>, last: Bytes, tail: Bytes, m: Mode)
    requires ps != [] && ps[0].item.TextItem? && ContentOk(ps, last, m) && |tail| > 1 && tail[0] == LT && tail[1] != 0
    ensures var t := ContentText(ps[1..]) + (last + tail); |t| > 1 && t[0] == LT && t[1] != 0
  {
    hide ItemText, ItemOk, ContentText;
    var more := ps[1..];
    if more == [] {
      NoContent(last, tail, m);
      assert last + tail == tail;
    } else {
      var t := ContentText(more[1..]) + (last + tail);
      ContentUnfold(more, last + tail);
      assert ContentOk(more, last, m) && PlacedOk(more[0], m) && more[0] == ps[1];
      ItemStarts(more[0].item, t, m);
      assert [] + (ItemText(more[0].item) + t) == ItemText(more[0].item) + t;
    }
  }

  lemma RestLives(ps: seq<Placed>, last: Bytes, tail: Bytes, m: Mode)
    requires ContentOk(ps, last, m) && AllWhite(last) && Live(tail)
    ensures Live(ContentText(ps) + (last + tail))
  {
    hide ItemText, ItemOk, ContentText, PiecesText;
    if ps == [] {
      NoContent(last, tail, m);
      LivePad(last, tail);
    } else {
      var p, t := ps[0], ContentText(ps[1..]) + (last + tail);
      ContentUnfold(ps, last + tail);
      if p.item.TextItem? {
        TextItemShape(p, m);
        TextLives(p.item.pieces, t, m.enc);
      } else {
        ItemStarts(p.item, t, m);
      }
      LivePad(p.space, ItemText(p.item) + t);
    }
  }

  lemma TextLives(pieces: seq<Piece>, t: Bytes, enc: Encoding)
    requires TextItemOk(pieces, enc)
    ensures Live(PiecesText(pieces) + t)
  {
    hide PieceText, PieceOk;
    PiecesUnfold(pieces, t);
    PieceRead(pieces[0], PiecesText(pieces[1..]) + t, enc);
  }
}
