/** Parsing the stream-mode printout of an element tree gives the tree back. */
module XmlRoundTrip {
  import opened Prelude
  import opened XmlBytes
  import opened XmlText
  import opened XmlTextLaws
  import opened XmlTree
  import opened XmlParser

  // ------------------------------------------------------ the trees that print

  predicate AttributeOk(a: Attribute, enc: Encoding) {
    NameOk(a.name, enc) && Chunked(a.value, enc) && !HasRef(a.value)
  }

  predicate TextOk(v: Bytes, m: Mode) {
    && Chunked(v, m.enc)
    && !HasRef(v)
    && !Blank(v)
    && if m.condense then Normal(v, m.enc) else StripLead(v, m.enc) != []
  }

  predicate Contains(v: Bytes, tag: Bytes) {
    exists i :: 0 <= i < |v| && StartsWith(v[i..], tag)
  }

  /** A raw section survives if C strings and the search for its end see all of it. */
  predicate RawOk(v: Bytes, endTag: Bytes) {
    NulFree(v) && !Contains(v, endTag)
  }

  /** The value of an unrecognised tag starts nothing the parser knows. */
  predicate UnrecognisedOk(v: Bytes) {
    && RawOk(v, [GT])
    && !StartsWithNoCase(v, XML_OPEN[1..])
    && !StartsWith(v, COMMENT_OPEN[1..])
    && !StartsWith(v, CDATA_OPEN[1..])
    && (v != [] ==> v[0] != SLASH && !IsNameStart(v[0]))
  }

  predicate Printable(n: Node, m: Mode) {
    match n
    case Element(name, attributes, children) =>
      && NameOk(name, m.enc)
      && (forall i :: 0 <= i < |attributes| ==> AttributeOk(attributes[i], m.enc))
      && DistinctNames(attributes)
      && AllPrintable(children, m)
    case Text(v, cdata) => if cdata then RawOk(v, CDATA_CLOSE) else TextOk(v, m)
    case Comment(v) => RawOk(v, COMMENT_CLOSE)
    case Unrecognised(v) => UnrecognisedOk(v)
    case Declaration(_, _, _) => false
  }

  predicate AllPrintable(ns: seq<Node>, m: Mode) {
    ns != [] ==>
      && Printable(ns[0], m)
      && (|ns| > 1 && IsPlainText(ns[0]) ==> !IsPlainText(ns[1]))
      && AllPrintable(ns[1..], m)
  }

  // --------------------------------------------------------------- attributes

  lemma {:induction false} EncodeOfName(name: Bytes)
    requires forall i :: 0 <= i < |name| ==> IsNameByte(name[i])
    ensures Encode(name) == name
  {
    if name != [] {
      EncodeUnfold(name);
      EncodeOfName(name[1..]);
      assert EncodeByte(name[0]) == [name[0]];
      assert [name[0]] + name[1..] == name;
    }
  }

  lemma NameBytes(name: Bytes, enc: Encoding)
    requires NameOk(name, enc)
    ensures forall i :: 0 <= i < |name| ==> IsNameByte(name[i])
    ensures name != [] && IsNameStart(name[0])
  {
  }

  lemma PastEndTagInverse(r: Read, v: Bytes, q: Byte, rest: Bytes)
    requires Live(rest) && q != 0
    ensures PastEndTag(r, [q]) == Read(v, Some(rest)) <==> r == Read(v, Some([q] + rest))
  {
    assert ([q] + rest)[1..] == rest;
    if PastEndTag(r, [q]) == Read(v, Some(rest)) {
      assert r.next.value == r.next.value[..1] + r.next.value[1..];
    }
  }

  /** The parser reads the name and the quote of a printed attribute, and then
      reads its value up to a quote. */
  lemma AttributeReads(a: Attribute, rest: Bytes, enc: Encoding)
    requires NameOk(a.name, enc)
    ensures var q := QuoteFor(a.value);
            var r := PastEndTag(ReadKept(Some(Encode(a.value) + ([q] + rest)), [q], enc), [q]);
            ParseAttribute(PrintAttribute(a) + rest, enc) == ParsedAttribute(Attribute(a.name, r.bytes), r.next)
  {
    hide Encode, EncodeByte, ReadKept, GetChar, ReadName, UnquotedLength, NameOk;
    var q := QuoteFor(a.value);
    NameBytes(a.name, enc);
    EncodeOfName(a.name);
    var c := [q] + Encode(a.value) + [q] + rest;
    var b := [EQUALS] + c;
    var s := PrintAttribute(a) + rest;
    assert s == a.name + b;
    NameNotSkipped(a.name, b, enc);
    ReadNameExact(a.name, b, enc);
    SkipRunStops(b, enc);
    assert b[1..] == c;
    SkipRunStops(c, enc);
    assert c[1..] == Encode(a.value) + ([q] + rest);
  }

  /** An attribute printed and parsed again, whatever follows it. */
  lemma AttributeRoundTrip(a: Attribute, rest: Bytes, enc: Encoding)
    requires NameOk(a.name, enc) && Chunked(a.value, enc) && Live(rest)
    ensures ParseAttribute(PrintAttribute(a) + rest, enc) == ParsedAttribute(a, Some(rest)) <==> !HasRef(a.value)
  {
    hide Encode, PrintAttribute, ParseAttribute, ReadKept, PastEndTag, HasRef, Chunked, NameOk;
    var q := QuoteFor(a.value);
    AttributeReads(a, rest, enc);
    KeptRoundTrip(a.value, q, rest, enc);
    PastEndTagInverse(ReadKept(Some(Encode(a.value) + ([q] + rest)), [q], enc), a.value, q, rest);
  }

  lemma {:induction false} WalkedAll(attributes: seq<Attribute>)
    requires forall i :: 0 <= i < |attributes| ==> attributes[i].name != []
    ensures Walked(attributes) == attributes
  {
    if |attributes| > 1 {
      WalkedAll(attributes[1..]);
      assert attributes[..1] + attributes[1..] == attributes;
    }
  }

  /** The attribute loop reads a printed list on top of those it already has. */
  lemma {:induction false} AttributesRoundTrip(
      name: Bytes, done: seq<Attribute>, todo: seq<Attribute>, tail: Bytes, m: Mode)
    requires forall i :: 0 <= i < |todo| ==> AttributeOk(todo[i], m.enc)
    requires DistinctNames(done + todo)
    requires Live(tail) && !IsNameByte(tail[0])
    ensures ParseTagRest(name, done, PrintAttributes(todo) + tail, m) == ParseTagRest(name, done + todo, tail, m)
    decreases |todo|
  {
    hide PrintAttribute, ParseAttribute, AttributeOk, HasRef, Chunked, NameOk, ReadValue;
    if todo == [] {
      assert PrintAttributes(todo) + tail == tail && done + todo == done;
    } else {
      var a := todo[0];
      var more := PrintAttributes(todo[1..]) + tail;
      var d := PrintAttribute(a) + more;
      var s := PrintAttributes(todo) + tail;
      assert s == [SPACE] + d;
      assert Live(more);
      assert NameOk(a.name, m.enc) by { AttributeNamed(a, m.enc); }
      AttributeStarts(a, more, m.enc);
      assert s[1..] == d;
      assert SkipRun(s, m.enc) == d;
      AttributeReadBack(a, more, m.enc);
      assert forall i :: 0 <= i < |done| ==> (done + todo)[i] == done[i];
      assert (done + todo)[|done|] == a;
      assert !HasAttribute(done, a.name);
      assert (done + [a]) + todo[1..] == done + todo;
      AttributesRoundTrip(name, done + [a], todo[1..], tail, m);
    }
  }

  lemma AttributeNamed(a: Attribute, enc: Encoding)
    requires AttributeOk(a, enc)
    ensures NameOk(a.name, enc)
  {
  }

  lemma AttributeReadBack(a: Attribute, rest: Bytes, enc: Encoding)
    requires AttributeOk(a, enc) && Live(rest)
    ensures ParseAttribute(PrintAttribute(a) + rest, enc) == ParsedAttribute(a, Some(rest))
  {
    AttributeRoundTrip(a, rest, enc);
  }

  lemma AttributeStarts(a: Attribute, rest: Bytes, enc: Encoding)
    requires NameOk(a.name, enc) && Live(rest)
    ensures var d := PrintAttribute(a) + rest;
            Live(d) && d[0] != SLASH && d[0] != GT && SkipRun(d, enc) == d
  {
    hide Encode, EncodeByte, HasRef, Chunked;
    EncodeOfName(a.name);
    var b := [EQUALS, QuoteFor(a.value)] + Encode(a.value) + [QuoteFor(a.value)] + rest;
    assert PrintAttribute(a) + rest == a.name + b;
    NameNotSkipped(a.name, b, enc);
  }

  // ------------------------------------------------------------- raw sections

  lemma {:induction false} RawUntilEnd(v: Bytes, endTag: Bytes, rest: Bytes)
    requires NulFree(v) && |endTag| > 0 && endTag[0] != 0
    requires forall i :: 0 <= i < |v| ==> !StartsWith(v[i..] + endTag + rest, endTag)
    ensures RawUntil(v + endTag + rest, endTag) == |v|
    decreases |v|
  {
    var s := v + endTag + rest;
    if v == [] {
      assert s == endTag + rest;
    } else {
      assert s == v[0..] + endTag + rest;
      assert s[1..] == v[1..] + endTag + rest;
      forall i | 0 <= i < |v| - 1 ensures !StartsWith(v[1..][i..] + endTag + rest, endTag) {
        assert v[1..][i..] == v[i + 1..];
      }
      RawUntilEnd(v[1..], endTag, rest);
    }
  }

  /** An end tag `aab`, or a single byte, cannot begin inside the value and end
      after it. */
  lemma EndTagsDoNotOverlap(v: Bytes, endTag: Bytes, rest: Bytes, i: nat)
    requires i < |v|
    requires |endTag| == 1 || (|endTag| == 3 && endTag[0] == endTag[1] != endTag[2])
    ensures StartsWith(v[i..] + endTag + rest, endTag) <==> StartsWith(v[i..], endTag)
  {
    var w := v[i..];
    var s := w + endTag + rest;
    if |w| >= |endTag| {
      assert s[..|endTag|] == w[..|endTag|];
    } else {
      assert s[2] == endTag[2 - |w|];
    }
  }

  /** A raw section is read to its end tag exactly when it holds no NUL and no
      end tag; otherwise less than all of it is read. */
  lemma RawRoundTrip(v: Bytes, endTag: Bytes, rest: Bytes)
    requires |endTag| == 1 || (|endTag| == 3 && endTag[0] == endTag[1] != endTag[2])
    requires endTag[0] != 0
    ensures RawOk(v, endTag) ==> CStr(v) == v && RawUntil(v + endTag + rest, endTag) == |v|
    ensures !RawOk(v, endTag) ==> RawUntil(CStr(v) + endTag + rest, endTag) < |v|
  {
    CStrOfNulFree(v);
    CStrLength(v);
    if RawOk(v, endTag) {
      forall i | 0 <= i < |v| ensures !StartsWith(v[i..] + endTag + rest, endTag) {
        EndTagsDoNotOverlap(v, endTag, rest, i);
      }
      RawUntilEnd(v, endTag, rest);
    } else {
      var w := CStr(v);
      var s := w + endTag + rest;
      assert s[|w|..] == endTag + rest;
      if NulFree(v) {
        var i :| 0 <= i < |v| && StartsWith(v[i..], endTag);
        EndTagsDoNotOverlap(v, endTag, rest, i);
        assert s[i..] == v[i..] + endTag + rest;
      }
    }
  }

  lemma {:induction false} CStrLength(v: Bytes)
    ensures |CStr(v)| <= |v| && (|CStr(v)| == |v| ==> CStr(v) == v)
  {
    if v != [] && v[0] != 0 {
      CStrLength(v[1..]);
      if |CStr(v)| == |v| {
        assert [v[0]] + v[1..] == v;
      }
    }
  }

  lemma PrintedComment(v: Bytes, depth: nat, f: Format, rest: Bytes)
    ensures PrintNode(Comment(v), depth, f) + rest == COMMENT_OPEN + (CStr(v) + COMMENT_CLOSE + rest)
  {
    hide CStr;
    Reassociate(COMMENT_OPEN + CStr(v), COMMENT_CLOSE, rest);
    Reassociate(COMMENT_OPEN, CStr(v), COMMENT_CLOSE + rest);
    Reassociate(CStr(v), COMMENT_CLOSE, rest);
  }

  lemma CommentParses(t: Bytes)
    ensures StartsWith(COMMENT_OPEN + t, COMMENT_OPEN)
    ensures var n := RawUntil(t, COMMENT_CLOSE);
            ParseComment(COMMENT_OPEN + t) ==
            Parsed(Comment(t[..n]), Some(if Live(t[n..]) then t[n..][|COMMENT_CLOSE|..] else t[n..]))
  {
    hide RawUntil;
    var s := COMMENT_OPEN + t;
    assert s[..4] == COMMENT_OPEN && s[4..] == t;
  }

  /** Comments come back exactly when they hold no NUL and no `-->`. */
  lemma CommentRoundTrip(v: Bytes, depth: nat, f: Format, rest: Bytes)
    ensures StartsWith(PrintNode(Comment(v), depth, f) + rest, COMMENT_OPEN)
    ensures ParseComment(PrintNode(Comment(v), depth, f) + rest) == Parsed(Comment(v), Some(rest)) <==>
            RawOk(v, COMMENT_CLOSE)
  {
    hide RawUntil, CStr, RawOk, PrintNode, ParseComment, StartsWith;
    var t := CStr(v) + COMMENT_CLOSE + rest;
    PrintedComment(v, depth, f, rest);
    CommentParses(t);
    RawRoundTrip(v, COMMENT_CLOSE, rest);
    if RawOk(v, COMMENT_CLOSE) {
      assert t[..|v|] == v && t[|v|..] == COMMENT_CLOSE + rest;
    }
  }

  /** So do CDATA sections without `]]>`, provided something follows. */
  lemma CDataRoundTrip(v: Bytes, depth: nat, f: Format, rest: Bytes)
    requires Live(rest)
    ensures StartsWith(PrintNode(Text(v, true), depth, f) + rest, CDATA_OPEN)
    ensures ParseCData(PrintNode(Text(v, true), depth, f) + rest) == Parsed(Text(v, true), Some(rest))
       <==> RawOk(v, CDATA_CLOSE)
  {
    hide RawUntil, CStr, RawOk;
    var s := PrintNode(Text(v, true), depth, f) + rest;
    var t := CStr(v) + CDATA_CLOSE + rest;
    assert s == CDATA_OPEN + t && s[..9] == CDATA_OPEN && s[9..] == t;
    RawRoundTrip(v, CDATA_CLOSE, rest);
    if RawOk(v, CDATA_CLOSE) {
      assert t[..|v|] == v && t[|v|..] == CDATA_CLOSE + rest;
    }
  }

  lemma UnrecognisedRoundTrip(v: Bytes, depth: nat, f: Format, rest: Bytes)
    ensures ParseUnrecognised(PrintNode(Unrecognised(v), depth, f) + rest) == Parsed(Unrecognised(v), Some(rest))
       <==> RawOk(v, [GT])
  {
    hide RawUntil, CStr, RawOk;
    var s := PrintNode(Unrecognised(v), depth, f) + rest;
    var t := CStr(v) + [GT] + rest;
    assert s == [LT] + t && s[1..] == t;
    RawRoundTrip(v, [GT], rest);
    if RawOk(v, [GT]) {
      assert t[..|v|] == v && t[|v|..] == [GT] + rest;
    }
  }

  // ------------------------------------------------------------ whole elements

  /** Formats that only add white space, and none where white space is kept. */
  predicate FormatOk(f: Format, m: Mode) {
    if m.condense then AllWhite(f.indent) && AllWhite(f.lineBreak) else f == STREAM
  }

  lemma {:induction false} IndentationWhite(depth: nat, f: Format, m: Mode)
    requires FormatOk(f, m)
    ensures AllWhite(Indentation(depth, f)) && (!m.condense ==> Indentation(depth, f) == [])
  {
    if depth > 0 {
      IndentationWhite(depth - 1, f, m);
    }
  }

  lemma {:induction false} SkipRunOfPad(pad: Bytes, s: Bytes, enc: Encoding)
    requires AllWhite(pad)
    ensures SkipRun(pad + s, enc) == SkipRun(s, enc)
  {
    if pad == [] {
      assert pad + s == s;
    } else {
      assert (pad + s)[0] == pad[0] && (pad + s)[1..] == pad[1..] + s;
      SkipRunOfPad(pad[1..], s, enc);
    }
  }

  /** Content may be preceded by white space where white space is condensed. */
  lemma PadBeforeContent(pad: Bytes, s: Bytes, m: Mode)
    requires AllWhite(pad) && Live(s) && (!m.condense ==> pad == [])
    ensures ReadValue(pad + s, m) == ReadValue(s, m)
  {
    hide SkipRun, ParseText, ParseMarkup;
    SkipRunOfPad(pad, s, m.enc);
    if pad == [] {
      assert pad + s == s;
    } else {
      assert (pad + s)[0] == pad[0];
    }
  }

  /** Content up to an end tag reads back as the children printed. */
  lemma {:induction false} ContentRoundTrip(ns: seq<Node>, depth: nat, f: Format, pad: Bytes, tail: Bytes, m: Mode)
    requires AllPrintable(ns, m) && FormatOk(f, m) && StartsWith(tail, END_OPEN)
    requires AllWhite(pad) && (!m.condense ==> pad == [])
    ensures ReadValue(PrintNodes(ns, depth, f) + (pad + tail), m) == ParsedNodes(ns, Some(tail))
    decreases ns, 0
  {
    hide Printable, PrintNode, PrintNodes, ParseMarkup, ReadValue, TextOk, ReadText, Encode, AllWhite;
    EndStart(tail);
    if ns == [] {
      NothingPrinted(depth, f, pad, tail);
      PadBeforeContent(pad, tail, m);
      EndOfContent(tail, m);
    } else {
      var n, t := ns[0], PrintNodes(ns[1..], depth, f) + (pad + tail);
      var x := PrintNode(n, depth, f);
      var s := PrintNodes(ns, depth, f) + (pad + tail);
      PrintedNodes(ns, depth, f, pad + tail);
      IndentationWhite(depth, f, m);
      NodeStart(n, depth, f, f.lineBreak + t, m);
      PadBeforeContent(Indentation(depth, f), x + (f.lineBreak + t), m);
      ContentRoundTrip(ns[1..], depth, f, pad, tail, m);
      assert [n] + ns[1..] == ns;
      AllPrintableStart(ns[1..], m);
      var space, after := WhatFollows(ns[1..], depth, f, pad, tail, m);
      if IsPlainText(n) {
        PlainTextRead(n, depth, f, f.lineBreak + space, after, m) by { WhiteJoined(f.lineBreak, space); }
        assert f.lineBreak + t == f.lineBreak + space + after;
        PadBeforeContent(space, after, m);
      } else {
        LivePad(f.lineBreak, t);
        MarkupRoundTrip(n, depth, f, f.lineBreak + t, m);
        MarkupRead(n, x + (f.lineBreak + t), f.lineBreak + t, m);
        PadBeforeContent(f.lineBreak, t, m);
      }
    }
  }

  lemma WhiteJoined(a: Bytes, b: Bytes)
    requires AllWhite(a) && AllWhite(b)
    ensures AllWhite(a + b)
  {
  }

  lemma LivePad(pad: Bytes, s: Bytes)
    requires AllWhite(pad) && Live(s)
    ensures Live(pad + s)
  {
    if pad == [] {
      assert pad + s == s;
    }
  }

  lemma EndStart(tail: Bytes)
    requires StartsWith(tail, END_OPEN)
    ensures |tail| > 1 && tail[0] == LT && tail[1] == SLASH
  {
    assert tail[0] == tail[..2][0] && tail[1] == tail[..2][1];
  }

  lemma NothingPrinted(depth: nat, f: Format, pad: Bytes, tail: Bytes)
    ensures PrintNodes([], depth, f) + (pad + tail) == pad + tail
  {
    assert PrintNodes([], depth, f) == [];
  }

  lemma EndOfContent(tail: Bytes, m: Mode)
    requires StartsWith(tail, END_OPEN) && |tail| > 1 && tail[0] == LT
    ensures ReadValue(tail, m) == ParsedNodes([], Some(tail))
  {
    hide ParseText, ParseMarkup;
    SkipRunStops(tail, m.enc);
  }

  lemma PrintedNodes(ns: seq<Node>, depth: nat, f: Format, tail: Bytes)
    requires ns != []
    ensures PrintNodes(ns, depth, f) + tail ==
            Indentation(depth, f) + (PrintNode(ns[0], depth, f) +
                (f.lineBreak + (PrintNodes(ns[1..], depth, f) + tail)))
  {
    hide PrintNode, Indentation;
    var rest := PrintNodes(ns[1..], depth, f);
    Flatten(Indentation(depth, f), PrintNode(ns[0], depth, f), f.lineBreak, rest, tail, [], []);
    assert tail + ([] + []) == tail;
    assert Indentation(depth, f) + PrintNode(ns[0], depth, f) + f.lineBreak + rest + tail + [] + [] ==
           PrintNodes(ns, depth, f) + tail;
  }

  /** Behind a node come white space and a tag, unless a text comes next. */
  lemma WhatFollows(ns: seq<Node>, depth: nat, f: Format, pad: Bytes, tail: Bytes, m: Mode)
      returns (space: Bytes, after: Bytes)
    requires (ns == [] || Starts(ns[0], m)) && FormatOk(f, m) && StartsWith(tail, END_OPEN)
    requires AllWhite(pad) && (!m.condense ==> pad == [])
    ensures PrintNodes(ns, depth, f) + (pad + tail) == space + after
    ensures AllWhite(space) && (!m.condense ==> space == []) && Live(after) && Live(space + after)
    ensures ns == [] || !IsPlainText(ns[0]) ==> |after| > 1 && after[0] == LT && Live(after[1..])
  {
    hide Starts, PrintNode, PrintNodes, Encode, AllWhite;
    EndStart(tail);
    if ns == [] {
      NothingPrinted(depth, f, pad, tail);
      space, after := pad, tail;
    } else {
      PrintedNodes(ns, depth, f, pad + tail);
      IndentationWhite(depth, f, m);
      var t := f.lineBreak + (PrintNodes(ns[1..], depth, f) + (pad + tail));
      StartOfNode(ns[0], depth, f, t, m);
      space, after := Indentation(depth, f), PrintNode(ns[0], depth, f) + t;
    }
    LivePad(space, after);
  }

  /** Enough of `Printable` to know how the printout of a node starts. */
  predicate Starts(n: Node, m: Mode) {
    match n
    case Element(name, _, _) => NameOk(name, m.enc)
    case Text(v, cdata) => cdata || v != []
    case Comment(_) => true
    case Unrecognised(v) => UnrecognisedOk(v)
    case Declaration(_, _, _) => false
  }

  lemma PrintableStarts(n: Node, m: Mode)
    requires Printable(n, m)
    ensures Starts(n, m)
  {
  }

  lemma AllPrintableStart(ns: seq<Node>, m: Mode)
    requires AllPrintable(ns, m)
    ensures ns != [] ==> Starts(ns[0], m)
  {
    hide Printable, Starts;
    if ns != [] {
      PrintableStarts(ns[0], m);
    }
  }

  lemma NodeStart(n: Node, depth: nat, f: Format, rest: Bytes, m: Mode)
    requires Printable(n, m)
    ensures Live(PrintNode(n, depth, f) + rest)
    ensures !IsPlainText(n) ==>
              var s := PrintNode(n, depth, f) + rest; |s| > 1 && s[0] == LT && s[1] != SLASH && s[1] != 0
  {
    hide *;
    PrintableStarts(n, m);
    StartOfNode(n, depth, f, rest, m);
  }

  /** The first bytes of a printed node. */
  lemma StartOfNode(n: Node, depth: nat, f: Format, rest: Bytes, m: Mode)
    requires Starts(n, m)
    ensures Live(PrintNode(n, depth, f) + rest)
    ensures !IsPlainText(n) ==>
              var s := PrintNode(n, depth, f) + rest; |s| > 1 && s[0] == LT && s[1] != SLASH && s[1] != 0
  {
    hide Encode, EncodeByte, AllPrintable, HasRef, Chunked, PrintNodes, PrintAttributes;
    var s := PrintNode(n, depth, f) + rest;
    match n
    case Element(name, attributes, children) =>
      CStrOfName(name, m.enc);
      assert OpenTag(n)[0] == LT && OpenTag(n)[1] == name[0];
      assert s[0] == OpenTag(n)[0] && s[1] == OpenTag(n)[1];
    case Text(v, cdata) =>
      if cdata {
        assert s[0] == CDATA_OPEN[0] && s[1] == CDATA_OPEN[1];
      } else {
        FirstEncoded(v);
      }
    case Comment(v) =>
      assert s[0] == COMMENT_OPEN[0] && s[1] == COMMENT_OPEN[1];
    case Unrecognised(v) =>
      CStrOfNulFree(v);
      assert s == [LT] + v + [GT] + rest;
    case Declaration(_, _, _) =>
  }

  /** An escaped string starts with a byte that ends nothing. */
  lemma FirstEncoded(v: Bytes)
    requires v != []
    ensures Encode(v) != [] && !IsDelimiter(Encode(v)[0]) && Encode(v)[0] != 0
    ensures IsWhiteSpace(Encode(v)[0]) <==> v[0] == SPACE
  {
    hide Encode, EncodeByte, PassLength;
    if StartsRef(v) {
      EncodeUnfold(v);
      assert Encode(v)[0] == v[..PassLength(v)][0] == AMP;
    } else {
      EncodeHead(v);
    }
  }

  lemma CStrOfName(name: Bytes, enc: Encoding)
    requires NameOk(name, enc)
    ensures CStr(name) == name
  {
    CStrOfNulFree(name);
  }

  /** One text child, and the tag after it. */
  lemma PlainTextRead(n: Node, depth: nat, f: Format, pad: Bytes, t: Bytes, m: Mode)
    requires Printable(n, m) && IsPlainText(n) && |t| > 1 && t[0] == LT && Live(t[1..])
    requires AllWhite(pad) && (!m.condense ==> pad == [])
    ensures var s := PrintNode(n, depth, f) + (pad + t);
            ReadValue(s, m) == (var r := ReadValue(t, m); ParsedNodes([n] + r.nodes, r.next))
  {
    hide Encode, EncodeByte, HasRef, Chunked, ReadText, ParseMarkup;
    var v := n.value;
    var s := PrintNode(n, depth, f) + (pad + t);
    assert s == Encode(v) + (pad + t);
    assert t == [LT] + t[1..];
    var w := StripLead(v, m.enc);
    NoRefStarts(v);
    assert v != [];
    EncodeHead(v);
    if m.condense { NormalNotStripped(v, m.enc); }
    SkipRunOfEncoded(v, pad + t, m.enc);
    NoRefStarts(w);
    EncodeHead(w);
    var a := Encode(w) + (pad + t);
    assert SkipWhiteSpace(s, m.enc) == Some(a) && Live(a) && a[0] != LT;
    TextReadsBack(v, pad, t[1..], m.condense, m.enc);
    assert ParseText(s, m) == Parsed(n, Some(t));
  }

  lemma NormalNotStripped(v: Bytes, enc: Encoding)
    requires Normal(v, enc)
    ensures StripLead(v, enc) == v
  {
  }

  /** One other child. */
  lemma MarkupRead(n: Node, s: Bytes, t: Bytes, m: Mode)
    requires |s| > 1 && s[0] == LT && s[1] != SLASH && ParseMarkup(s, m) == Parsed(n, Some(t))
    ensures ReadValue(s, m) == (var r := ReadValue(t, m); ParsedNodes([n] + r.nodes, r.next))
  {
    hide ParseMarkup, ParseText;
    SkipRunStops(s, m.enc);
    assert s[..2][1] == s[1];
  }

  lemma {:induction false} MarkupRoundTrip(n: Node, depth: nat, f: Format, rest: Bytes, m: Mode)
    requires Printable(n, m) && !IsPlainText(n) && FormatOk(f, m) && Live(rest)
    ensures var s := PrintNode(n, depth, f) + rest;
            s != [] && s[0] == LT && ParseMarkup(s, m) == Parsed(n, Some(rest))
    decreases n, 2
  {
    hide Encode, EncodeByte, HasRef, Chunked, PrintNodes, PrintAttributes, ParseElement, ParseComment, ParseCData,
         ParseUnrecognised, ParseDeclarationRest, AllPrintable;
    var s := PrintNode(n, depth, f) + rest;
    NodeStart(n, depth, f, rest, m);
    match n
    case Element(name, _, _) =>
      CStrOfName(name, m.enc);
      assert OpenTag(n)[1] == name[0] && s[1] == OpenTag(n)[1];
      NotMarkup(s);
      ElementRoundTrip(n, depth, f, rest, m);
    case Text(v, _) =>
      CDataRoundTrip(v, depth, f, rest);
      assert s[1] == CDATA_OPEN[1] && s[2] == CDATA_OPEN[2];
      CDataIsNoComment(s);
    case Comment(v) =>
      CommentRoundTrip(v, depth, f, rest);
      assert s[1] == COMMENT_OPEN[1];
      CommentIsNoDeclaration(s);
    case Unrecognised(v) =>
      CStrOfNulFree(v);
      assert s == [LT] + v + ([GT] + rest);
      UnrecognisedIdentified(v, rest);
      UnrecognisedRoundTrip(v, depth, f, rest);
  }

  lemma NotMarkup(s: Bytes)
    requires |s| > 1 && IsNameStart(s[1])
    ensures !StartsWithNoCase(s, XML_OPEN) && !StartsWith(s, COMMENT_OPEN)
    ensures !StartsWith(s, CDATA_OPEN) && !StartsWith(s, DTD_OPEN)
  {
    assert XML_OPEN[1] == 63;
    assert |s| >= 4 ==> s[..4][1] == s[1];
    assert |s| >= 9 ==> s[..9][1] == s[1];
    assert s[..2][1] == s[1];
  }

  lemma CDataIsNoComment(s: Bytes)
    requires StartsWith(s, CDATA_OPEN)
    ensures !StartsWithNoCase(s, XML_OPEN) && !StartsWith(s, COMMENT_OPEN)
  {
    assert s[1] == s[..9][1] && s[2] == s[..9][2] && s[..4][2] == s[2];
    assert XML_OPEN[1] == 63;
  }

  lemma CommentIsNoDeclaration(s: Bytes)
    requires StartsWith(s, COMMENT_OPEN)
    ensures !StartsWithNoCase(s, XML_OPEN)
  {
    assert s[1] == s[..4][1];
    assert XML_OPEN[1] == 63;
  }

  /** A known opening that begins in the value would have to end in it too, since
      none contains `>`. */
  lemma UnrecognisedIdentified(v: Bytes, rest: Bytes)
    requires UnrecognisedOk(v)
    ensures var s := [LT] + v + ([GT] + rest);
            !StartsWithNoCase(s, XML_OPEN) && !StartsWith(s, COMMENT_OPEN) && !StartsWith(s, CDATA_OPEN) &&
            (!StartsWith(s, DTD_OPEN) ==> !IsNameStart(At(s, 1)))
  {
    var s := [LT] + v + ([GT] + rest);
    assert forall i :: 0 <= i < |v| ==> s[i + 1] == v[i];
    assert s[|v| + 1] == GT;
    XmlHeaderInValue(v, rest);
    PrefixInValue(v, rest, COMMENT_OPEN);
    PrefixInValue(v, rest, CDATA_OPEN);
  }

  lemma XmlHeaderInValue(v: Bytes, rest: Bytes)
    ensures StartsWithNoCase([LT] + v + ([GT] + rest), XML_OPEN) ==> StartsWithNoCase(v, XML_OPEN[1..])
  {
    var s := [LT] + v + ([GT] + rest);
    assert s[|v| + 1] == GT && ToLower(GT) == GT;
    assert forall k :: 0 <= k < 5 ==> ToLower(XML_OPEN[k]) != GT;
    if StartsWithNoCase(s, XML_OPEN) {
      assert 5 <= |v| + 1;
      forall i | 0 <= i < 4 ensures ToLower(v[i]) == ToLower(XML_OPEN[1..][i]) {
        assert v[i] == s[i + 1] && ToLower(s[i + 1]) == ToLower(XML_OPEN[i + 1]);
      }
    }
  }

  lemma PrefixInValue(v: Bytes, rest: Bytes, tag: Bytes)
    requires |tag| > 1 && forall k :: 0 <= k < |tag| ==> tag[k] != GT
    ensures StartsWith([LT] + v + ([GT] + rest), tag) ==> StartsWith(v, tag[1..])
  {
    var s := [LT] + v + ([GT] + rest);
    assert s[|v| + 1] == GT;
    if StartsWith(s, tag) {
      assert forall i :: 0 <= i < |tag| ==> s[i] == s[..|tag|][i] == tag[i];
      assert |tag| <= |v| + 1;
      assert forall i :: 0 <= i < |tag| - 1 ==> v[i] == s[i + 1] == tag[i + 1];
      assert v[..|tag| - 1] == tag[1..];
    }
  }

  /** Parsing the printout of an element gives the element back and stops right
      after it, whatever follows. */
  lemma {:induction false} ElementRoundTrip(n: Node, depth: nat, f: Format, rest: Bytes, m: Mode)
    requires n.Element? && Printable(n, m) && FormatOk(f, m)
    ensures ParseElement(PrintNode(n, depth, f) + rest, m) == Parsed(n, Some(rest))
    decreases n, 1
  {
    hide Encode, EncodeByte, HasRef, Chunked, AttributeOk, NameOk, ReadValue, ParseAttribute, PrintAttributes,
         ParseTagRest, ParseElement, Walked, DistinctNames, StartsWith, AllWhite, PrintNodes, PrintNode;
    var name, attributes, children := n.name, n.attributes, n.children;
    CStrOfName(name, m.enc);
    AttributesNamed(attributes, m.enc);
    WalkedAll(attributes);
    PrintedElement(n, depth, f, rest);
    if children == [] {
      ElementOpens(name, attributes, EMPTY_CLOSE + rest, m);
      EmptyElementCloses(name, attributes, rest, m);
    } else {
      var tail := END_OPEN + name + ([GT] + rest);
      var content := Content(n, depth, f) + tail;
      ElementOpens(name, attributes, [GT] + content, m);
      EndOpens(name, rest);
      EndStart(tail);
      InnerRoundTrip(n, depth, f, tail, m);
      ElementCloses(name, attributes, children, content, rest, m);
    }
  }

  /** What stands between the tags reads back as the children. */
  lemma {:induction false} InnerRoundTrip(n: Node, depth: nat, f: Format, tail: Bytes, m: Mode)
    requires n.Element? && n.children != [] && AllPrintable(n.children, m) && FormatOk(f, m)
    requires StartsWith(tail, END_OPEN)
    ensures ReadValue(Content(n, depth, f) + tail, m) == ParsedNodes(n.children, Some(tail))
    decreases n, 0
  {
    hide Encode, ReadValue, StartsWith, PrintNodes, PrintNode, Printable, FormatOk;
    var children := n.children;
    EndStart(tail);
    if IsSimple(n) {
      EndOfContent(tail, m);
      assert [] + tail == tail && [children[0]] + [] == children;
      PlainTextRead(children[0], depth, f, [], tail, m);
      PrintedText(children[0], depth, f);
    } else {
      IndentationWhite(depth, f, m);
      FormatParts(f, m);
      ContentRoundTrip(children, depth + 1, f, Indentation(depth, f), tail, m);
      var inner := PrintNodes(children, depth + 1, f) + (Indentation(depth, f) + tail);
      AllPrintableStart(children, m);
      var space, after := WhatFollows(children, depth + 1, f, Indentation(depth, f), tail, m);
      PadBeforeContent(f.lineBreak, inner, m);
      assert Content(n, depth, f) + tail == f.lineBreak + inner;
    }
  }

  lemma FormatParts(f: Format, m: Mode)
    requires FormatOk(f, m)
    ensures AllWhite(f.lineBreak) && (!m.condense ==> f.lineBreak == [])
  {
  }

  lemma PrintedText(n: Node, depth: nat, f: Format)
    requires IsPlainText(n)
    ensures PrintNode(n, depth, f) == Encode(n.value)
  {
  }

  /** What stands between the tags of an element with children. */
  function Content(e: Node, depth: nat, f: Format): Bytes
    requires e.Element? && e.children != []
  {
    if IsSimple(e) then Encode(e.children[0].value)
    else f.lineBreak + PrintNodes(e.children, depth + 1, f) + Indentation(depth, f)
  }

  lemma PrintedElement(n: Node, depth: nat, f: Format, rest: Bytes)
    requires n.Element? && CStr(n.name) == n.name && Walked(n.attributes) == n.attributes
    ensures n.children == [] ==>
              PrintNode(n, depth, f) + rest == [LT] + (n.name + (PrintAttributes(n.attributes) + (EMPTY_CLOSE + rest)))
    ensures n.children != [] ==>
              PrintNode(n, depth, f) + rest == [LT] + (n.name + (PrintAttributes(n.attributes) +
                ([GT] + (Content(n, depth, f) + (END_OPEN + n.name + ([GT] + rest))))))
  {
    hide PrintAttributes, CStr, Walked, PrintNodes, Encode, Indentation;
    var open := if n.children == [] then EMPTY_CLOSE else [GT];
    var content, close := if n.children == [] then [] else Content(n, depth, f), CloseTag(n);
    Flatten([LT], n.name, PrintAttributes(n.attributes), open, content, close, rest);
    if n.children == [] {
      assert content + (close + rest) == rest;
    } else {
      assert close + rest == END_OPEN + n.name + ([GT] + rest);
    }
  }

  lemma Flatten(a: Bytes, b: Bytes, c: Bytes, d: Bytes, e: Bytes, f: Bytes, g: Bytes)
    ensures a + b + c + d + e + f + g == a + (b + (c + (d + (e + (f + g)))))
  {
  }

  lemma EndOpens(name: Bytes, rest: Bytes)
    ensures StartsWith(END_OPEN + name + ([GT] + rest), END_OPEN)
  {
    assert (END_OPEN + name + ([GT] + rest))[..2] == END_OPEN;
  }

  /** From the `<` of a start tag to its attributes. */
  lemma TagOpens(name: Bytes, attributes: seq<Attribute>, after: Bytes, m: Mode)
    requires NameOk(name, m.enc) && Live(after) && (after[0] == SPACE || after[0] == GT)
    ensures var tags := PrintAttributes(attributes) + after;
            ParseElement([LT] + (name + tags), m) == ParseTagRest(name, [], tags, m)
  {
    hide NameOk, ParseTagRest, PrintAttribute;
    var tags := PrintAttributes(attributes) + after;
    var s := [LT] + (name + tags);
    SkipRunStops(s, m.enc);
    assert s[1..] == name + tags;
    NameNotSkipped(name, tags, m.enc);
    ReadNameExact(name, tags, m.enc);
  }

  /** From the `<` of a start tag to behind its attributes. */
  lemma ElementOpens(name: Bytes, attributes: seq<Attribute>, after: Bytes, m: Mode)
    requires NameOk(name, m.enc) && DistinctNames(attributes)
    requires forall i :: 0 <= i < |attributes| ==> AttributeOk(attributes[i], m.enc)
    requires Live(after) && (after[0] == SPACE || after[0] == GT)
    ensures ParseElement([LT] + (name + (PrintAttributes(attributes) + after)), m) ==
            ParseTagRest(name, attributes, after, m)
  {
    hide NameOk, AttributeOk, ParseTagRest, DistinctNames, PrintAttributes, ParseElement;
    TagOpens(name, attributes, after, m);
    assert [] + attributes == attributes;
    AttributesRoundTrip(name, [], attributes, after, m);
  }

  lemma ElementCloses(name: Bytes, attributes: seq<Attribute>, children: seq<Node>, content: Bytes, rest: Bytes,
                      m: Mode)
    requires ReadValue(content, m) == ParsedNodes(children, Some(END_OPEN + name + ([GT] + rest)))
    ensures ParseTagRest(name, attributes, [GT] + content, m) == Parsed(Element(name, attributes, children), Some(rest))
  {
    hide ReadValue, ParseAttribute, ParseEndTag;
    var after := [GT] + content;
    SkipRunStops(after, m.enc);
    assert after[1..] == content;
    assert (END_OPEN + name + ([GT] + rest))[0] == END_OPEN[0];
    EndTagRead(name, rest, m);
  }

  lemma AttributesNamed(attributes: seq<Attribute>, enc: Encoding)
    requires forall i :: 0 <= i < |attributes| ==> AttributeOk(attributes[i], enc)
    ensures forall i :: 0 <= i < |attributes| ==> attributes[i].name != []
  {
  }

  lemma EmptyElementCloses(name: Bytes, attributes: seq<Attribute>, rest: Bytes, m: Mode)
    ensures ParseTagRest(name, attributes, EMPTY_CLOSE + rest, m) == Parsed(Element(name, attributes, []), Some(rest))
  {
    hide ReadValue, ParseAttribute;
    var s := EMPTY_CLOSE + rest;
    var d := [SLASH, GT] + rest;
    assert s[1..] == d && d[2..] == rest && s[0] == SPACE;
    SkipRunStops(d, m.enc);
  }

  lemma EndTagRead(name: Bytes, rest: Bytes, m: Mode)
    ensures ParseEndTag(name, END_OPEN + name + ([GT] + rest), m) == Some(rest)
  {
    var s := END_OPEN + name + ([GT] + rest);
    var t := [GT] + rest;
    assert s[..2 + |name|] == END_OPEN + name && s[2 + |name|..] == t && t[1..] == rest;
    SkipRunStops(t, m.enc);
  }

  /** The same for an element on a line of its own. */
  lemma IndentedElement(n: Node, depth: nat, f: Format, m: Mode)
    requires n.Element? && Printable(n, m) && FormatOk(f, m)
    ensures ParseElement([] + Indentation(depth, f) + PrintNode(n, depth, f) + f.lineBreak, m) ==
            Parsed(n, Some(f.lineBreak))
  {
    hide PrintNode, Indentation, ParseTagRest, SkipRun, Printable;
    var pad, s := Indentation(depth, f), PrintNode(n, depth, f) + f.lineBreak;
    IndentationWhite(depth, f, m);
    NodeStart(n, depth, f, f.lineBreak, m);
    SkipRunOfPad(pad, s, m.enc);
    LivePad(pad, s);
    assert [] + Indentation(depth, f) + PrintNode(n, depth, f) + f.lineBreak == pad + s;
    ElementRoundTrip(n, depth, f, f.lineBreak, m);
  }
}
