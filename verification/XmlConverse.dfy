/** Which trees survive printing and parsing: the converse of the round trip. */
module XmlConverse {
  import opened Prelude
  import opened XmlBytes
  import opened XmlText
  import opened XmlTextLaws
  import opened XmlTree
  import opened XmlParser
  import opened XmlRoundTrip
  import opened XmlReprint

  /** Every `&#x` in the string is followed by a `;` in the string.  The search for
      the `;` of one that is not runs on behind the string. */
  predicate RefsClosed(v: Bytes) {
    forall i :: 0 <= i < |v| && StartsRef(v[i..]) ==> SEMI in v[i..]
  }

  /** Strings the reader does not run out of, and no declarations. */
  predicate Closed(n: Node, m: Mode) {
    match n
    case Element(_, attributes, children) =>
      && (forall i :: 0 <= i < |attributes| ==>
            Chunked(attributes[i].value, m.enc) && RefsClosed(attributes[i].value))
      && AllClosed(children, m)
    case Text(v, cdata) => cdata || (Chunked(v, m.enc) && RefsClosed(v))
    case Comment(_) => true
    case Unrecognised(_) => true
    case Declaration(_, _, _) => false
  }

  predicate AllClosed(ns: seq<Node>, m: Mode) {
    ns != [] ==> Closed(ns[0], m) && AllClosed(ns[1..], m)
  }

  // ------------------------------------------------------------------ strings

  lemma RefsClosedTail(v: Bytes, n: nat)
    requires n <= |v| && RefsClosed(v)
    ensures RefsClosed(v[n..])
  {
    hide StartsRef;
    forall i | 0 <= i < |v[n..]| && StartsRef(v[n..][i..])
      ensures SEMI in v[n..][i..]
    {
      assert v[n..][i..] == v[n + i..];
    }
  }

  lemma ClosedPass(v: Bytes)
    requires StartsRef(v) && RefsClosed(v)
    ensures v[PassLength(v)] == SEMI
  {
    assert v[0..] == v;
    var j :| 0 <= j < |v| && v[j] == SEMI;
  }

  /** Reading a closed reference stops right behind it, with less than it held, or fails. */
  lemma RefStep(v: Bytes, tail: Bytes, enc: Encoding)
    requires StartsRef(v) && RefsClosed(v) && Chunked(v, enc)
    ensures var k, s := PassLength(v), Encode(v) + tail;
            && 3 <= k && Chunked(v[k + 1..], enc) && RefsClosed(v[k + 1..]) && StartsRef(s)
            && var c := GetEntity(s, enc);
               c.next.Some? ==> c.next == Some(Encode(v[k + 1..]) + tail) && |c.bytes| <= k
  {
    hide GetEntity, Encode, EncodeByte, PassLength, Chunked, RefsClosed;
    var k, s := PassLength(v), Encode(v) + tail;
    ClosedPass(v);
    PassedThrough(v);
    RefStays(v, tail);
    ChunkedAfterAscii(v, k, enc);
    RefsClosedTail(v, k + 1);
    if GetEntity(s, enc).next.Some? {
      RefJump(s, enc);
      var c := GetEntity(s, enc);
      var j :| 3 <= j < |s| && s[j] == SEMI && (forall i :: 3 <= i < j ==> s[i] != SEMI) &&
               c.next.value == s[j + 1..] && |c.bytes| <= 4 && (j == 3 ==> |c.bytes| == 1);
      SemiEnds(v, tail, k, j);
    }
  }

  /** An escaped string with closed references is read up to its delimiter or not
      at all, and a reference makes it shorter. */
  lemma {:induction false} KeptInSync(v: Bytes, q: Byte, rest: Bytes, enc: Encoding)
    requires Chunked(v, enc) && RefsClosed(v) && IsDelimiter(q)
    ensures var r := ReadKept(Some(Encode(v) + ([q] + rest)), [q], enc);
            r.next.Some? ==> r.next == Some([q] + rest) && |r.bytes| <= |v| && (HasRef(v) ==> |r.bytes| < |v|)
    decreases |v|
  {
    hide GetChar, GetEntity, EncodeByte, Encode, RefsClosed;
    var tail := [q] + rest;
    var s := Encode(v) + tail;
    EndRead(q, rest, enc);
    if v == [] {
      EncodeEmpty();
      assert s == tail;
    } else if StartsRef(v) {
      RefStep(v, tail, enc);
      RefRead(s, q, enc);
      if GetEntity(s, enc).next.Some? {
        KeptInSync(v[PassLength(v) + 1..], q, rest, enc);
      }
    } else {
      var n := ChunkLength(v, enc);
      ChunkDecodes(v, tail, enc);
      EncodeHead(v);
      HasRefChunk(v, enc);
      RefsClosedTail(v, n);
      assert s[0] == Encode(v)[0];
      KeptInSync(v[n..], q, rest, enc);
    }
  }

  function Gap(gap: bool): nat {
    if gap then 1 else 0
  }

  /** The same where white space is condensed. */
  lemma {:induction false} CondensedInSync(v: Bytes, gap: bool, pad: Bytes, rest: Bytes, enc: Encoding)
    requires Chunked(v, enc) && RefsClosed(v) && AllWhite(pad)
    ensures var r := ReadCondensed(Some(Encode(v) + (pad + ([LT] + rest))), gap, [LT], enc);
            r.next.Some? ==>
              && r.next == Some([LT] + rest) && |r.bytes| <= |v| + Gap(gap)
              && (HasRef(v) ==> |r.bytes| < |v| + Gap(gap))
    decreases |v|
  {
    hide GetChar, GetEntity, EncodeByte, Encode, RefsClosed, HasRef, AllWhite, ReadCondensed;
    var tail := pad + ([LT] + rest);
    var s := Encode(v) + tail;
    if v == [] {
      EncodeEmpty();
      assert s == tail;
      PadRead(pad, gap, rest, enc);
      assert !HasRef(v) by { NoRefInNothing(); }
    } else if StartsRef(v) {
      RefStep(v, tail, enc);
      RefCondensed(s, gap, enc);
      if GetEntity(s, enc).next.Some? {
        CondensedInSync(v[PassLength(v) + 1..], false, pad, rest, enc);
      }
    } else {
      var n := ChunkLength(v, enc);
      ChunkDecodes(v, tail, enc);
      EncodeHead(v);
      HasRefChunk(v, enc);
      assert s[0] == Encode(v)[0];
      CondensedStep(s, gap, enc);
      if v[0] == SPACE {
        SpaceEncoded(v);
        RefsClosedTail(v, 1);
        assert s[1..] == Encode(v[1..]) + tail;
        CondensedInSync(v[1..], true, pad, rest, enc);
      } else {
        RefsClosedTail(v, n);
        CondensedInSync(v[n..], false, pad, rest, enc);
      }
    }
  }

  lemma NoRefInNothing()
    ensures !HasRef([])
  {
  }

  /** One round of the condensing loop. */
  lemma CondensedStep(s: Bytes, gap: bool, enc: Encoding)
    requires Live(s) && s[0] != LT
    ensures ReadCondensed(Some(s), gap, [LT], enc) ==
            if IsWhiteSpace(s[0]) then ReadCondensed(Some(s[1..]), true, [LT], enc)
            else
              var c := GetChar(s, enc);
              var r := ReadCondensed(c.next, false, [LT], enc);
              Read((if gap then [SPACE] else []) + c.bytes + r.bytes, r.next)
  {
    hide GetChar;
  }

  lemma RefCondensed(s: Bytes, gap: bool, enc: Encoding)
    requires StartsRef(s)
    ensures var c := GetEntity(s, enc);
            var r := ReadCondensed(c.next, false, [LT], enc);
            && ReadCondensed(Some(s), gap, [LT], enc)
               == Read((if gap then [SPACE] else []) + c.bytes + r.bytes, r.next)
            && (c.next == None ==> r.next == None)
  {
    hide GetEntity;
  }

  /** What skipping white space leaves of an escaped string. */
  lemma {:induction false} SkipRunInSync(v: Bytes, tail: Bytes, enc: Encoding)
    requires Chunked(v, enc) && RefsClosed(v)
    ensures var w := StripLead(v, enc);
            && Chunked(w, enc) && RefsClosed(w) && (HasRef(v) <==> HasRef(w))
            && SkipRun(Encode(v) + tail, enc) == if w == [] then SkipRun(tail, enc) else Encode(w) + tail
    decreases |v|
  {
    hide EncodeByte, Encode, HasRef, GetChar, SkipRun, StripLead, StartsWithMark, WellFormed, RefsClosed;
    var s := Encode(v) + tail;
    SkipRunStep(s, enc);
    StripStep(v, enc);
    MarkStarts(s);
    MarkStarts(v);
    if v == [] {
      EncodeEmpty();
      assert s == tail;
    } else if StartsRef(v) {
      RefStays(v, tail);
    } else {
      EncodeHead(v);
      HasRefChunk(v, enc);
      ChunkDecodes(v, tail, enc);
      assert s[0] == Encode(v)[0];
      if enc == Utf8 && v[0] == 0xEF {
        MarkEncoded(v, tail);
        if StartsWithMark(v) {
          RefsClosedTail(v, 3);
          MarkHasNoRef(v);
          SkipRunInSync(v[3..], tail, enc);
        }
      } else if v[0] == SPACE {
        SpaceEncoded(v);
        RefsClosedTail(v, 1);
        assert s[1..] == Encode(v[1..]) + tail;
        SkipRunInSync(v[1..], tail, enc);
      }
    }
  }

  lemma MarkHasNoRef(v: Bytes)
    requires StartsWithMark(v)
    ensures HasRef(v) <==> HasRef(v[3..])
  {
    HasRefSkip(v, 3);
  }

  // -------------------------------------------------------------- the failures

  /** What follows markup is no text. */
  lemma NoTextFirst(t: Bytes, m: Mode)
    requires t != [] && t[0] == LT
    ensures var r := ReadValue(t, m); r.next == None || r.nodes == [] || !IsPlainText(r.nodes[0])
  {
    hide ReadValue;
    if ReadValue(t, m).next.Some? {
      ValueShaped(t, m);
    }
  }

  /** One text child, read in one way or another. */
  lemma TextReads(s: Bytes, a: Bytes, m: Mode)
    requires SkipWhiteSpace(s, m.enc) == Some(a) && Live(a) && a[0] != LT
    ensures var text := ParseText(if m.condense then a else s, m);
            var r := ReadValue(s, m);
            && (text.next == None ==> r.next == None)
            && (text.next.Some? ==>
                  r.next == None || r.nodes == [] || r.nodes[0] == text.node || !IsPlainText(r.nodes[0]))
  {
    hide ParseMarkup, ParseText;
    var text := ParseText(if m.condense then a else s, m);
    TextAdvances(s, a, m);
    TextShaped(if m.condense then a else s, m);
    if text.next.Some? {
      NoTextFirst(text.next.value, m);
    }
  }

  /** The text read for an escaped one that does not survive is another one. */
  lemma TextDiffers(v: Bytes, pad: Bytes, t: Bytes, m: Mode)
    requires Chunked(v, m.enc) && RefsClosed(v) && !Blank(v) && !TextOk(v, m) && StripLead(v, m.enc) != []
    requires AllWhite(pad) && (!m.condense ==> pad == []) && |t| > 1 && t[0] == LT && Live(t[1..])
    ensures var a := Encode(StripLead(v, m.enc)) + (pad + t);
            var text := ParseText(if m.condense then a else Encode(v) + (pad + t), m);
            text.next == None || text.node != Text(v, false)
  {
    hide Encode, HasRef, Chunked, RefsClosed, StripLead, ReadKept, ReadCondensed, Normal, Squeeze;
    var s, w := Encode(v) + (pad + t), StripLead(v, m.enc);
    var a := Encode(w) + (pad + t);
    assert t == [LT] + t[1..];
    SkipRunInSync(v, pad + t, m.enc);
    SkippedText(w, pad + t, v, m.enc);
    if !HasRef(v) {
      TextReadsBack(v, pad, t[1..], m.condense, m.enc);
      CondensingKeepsNormal(v, m.enc);
    } else if m.condense {
      CondensedInSync(w, false, pad, t[1..], m.enc);
    } else {
      assert pad + t == t;
      KeptInSync(v, LT, t[1..], m.enc);
    }
  }

  /** The stripped string is where white space ends. */
  lemma SkippedText(w: Bytes, tail: Bytes, v: Bytes, enc: Encoding)
    requires w == StripLead(v, enc) && w != []
    requires SkipRun(Encode(v) + tail, enc) == Encode(w) + tail
    ensures var a := Encode(w) + tail;
            && Live(a) && a[0] != LT
            && SkipWhiteSpace(Encode(v) + tail, enc) == Some(a) && SkipWhiteSpace(a, enc) == Some(a)
  {
    hide Encode, StripLead;
    FirstEncoded(w);
    SkipRunTwice(Encode(v) + tail, enc);
  }

  lemma {:induction false} SkipRunTwice(s: Bytes, enc: Encoding)
    ensures SkipRun(SkipRun(s, enc), enc) == SkipRun(s, enc)
    decreases |s|
  {
    hide SkipRun;
    SkipRunStep(s, enc);
    if enc == Utf8 && StartsWithMark(s) {
      MarkStarts(s);
      SkipRunTwice(s[3..], enc);
    } else if s != [] && IsWhiteSpace(s[0]) {
      SkipRunTwice(s[1..], enc);
    }
  }

  /** A text child that does not survive does not come back first. */
  lemma TextFails(v: Bytes, pad: Bytes, t: Bytes, m: Mode)
    requires Chunked(v, m.enc) && RefsClosed(v) && !Blank(v) && !TextOk(v, m)
    requires AllWhite(pad) && (!m.condense ==> pad == []) && |t| > 1 && t[0] == LT && Live(t[1..])
    ensures var r := ReadValue(Encode(v) + (pad + t), m);
            r.next == None || r.nodes == [] || r.nodes[0] != Text(v, false)
  {
    hide Encode, Chunked, RefsClosed, StripLead, ParseText, ReadValue, TextOk, Blank, SkipRun;
    var s, w := Encode(v) + (pad + t), StripLead(v, m.enc);
    SkipRunInSync(v, pad + t, m.enc);
    if w == [] {
      SkipRunOfPad(pad, t, m.enc);
      SkipRunStops(t, m.enc);
      SameContent(s, t, m);
      NoTextFirst(t, m);
    } else {
      SkippedText(w, pad + t, v, m.enc);
      TextDiffers(v, pad, t, m);
      TextReads(s, Encode(w) + (pad + t), m);
    }
  }

  lemma SameContent(s: Bytes, t: Bytes, m: Mode)
    requires t != [] && t[0] == LT && SkipRun(s, m.enc) == t == SkipRun(t, m.enc)
    ensures ReadValue(s, m) == ReadValue(t, m)
  {
    hide SkipRun, ParseMarkup, ParseText, StartsWith;
    SkipRunStep(s, m.enc);
    MarkStarts(s);
    assert Live(s);
  }

  lemma AttributeFails(a: Attribute, rest: Bytes, enc: Encoding)
    requires NameOk(a.name, enc) && Chunked(a.value, enc) && RefsClosed(a.value) && HasRef(a.value)
    ensures var r := ParseAttribute(PrintAttribute(a) + rest, enc);
            r.next == None || r.attribute.value != a.value
  {
    hide Encode, PrintAttribute, ParseAttribute, ReadKept, HasRef, Chunked, RefsClosed, NameOk;
    AttributeReads(a, rest, enc);
    KeptInSync(a.value, QuoteFor(a.value), rest, enc);
  }

  /** The attribute loop keeps the attributes it has. */
  lemma {:induction false} AttributesKept(name: Bytes, done: seq<Attribute>, s: Bytes, m: Mode)
    ensures var r := ParseTagRest(name, done, s, m); done <= r.node.attributes
    decreases |s|
  {
    hide ReadValue, ParseAttribute, ParseEndTag, SkipRun;
    if Live(s) && Live(SkipRun(s, m.enc)) {
      var d := SkipRun(s, m.enc);
      var a := ParseAttribute(d, m.enc);
      if d[0] != SLASH && d[0] != GT && LivePtr(a.next) {
        AttributesKept(name, done + [a.attribute], a.next.value, m);
      }
    }
  }

  /** One round of the attribute loop. */
  lemma OneAttribute(name: Bytes, done: seq<Attribute>, d: Bytes, m: Mode)
    requires Live(d) && d[0] != SLASH && d[0] != GT && SkipRun(d, m.enc) == d
    ensures var a := ParseAttribute(d, m.enc);
            var r := ParseTagRest(name, done, [SPACE] + d, m);
            r.next == None || (a.next.Some? && done + [a.attribute] <= r.node.attributes)
  {
    hide ReadValue, ParseAttribute, ParseEndTag;
    var s := [SPACE] + d;
    var a := ParseAttribute(d, m.enc);
    assert s[1..] == d;
    if LivePtr(a.next) {
      AttributesKept(name, done + [a.attribute], a.next.value, m);
    }
  }

  /** A list with an attribute that does not survive does not come back. */
  lemma {:induction false} AttributesFail(
      name: Bytes, done: seq<Attribute>, todo: seq<Attribute>, tail: Bytes, m: Mode)
    requires forall i :: 0 <= i < |todo| ==>
               NameOk(todo[i].name, m.enc) && Chunked(todo[i].value, m.enc) && RefsClosed(todo[i].value)
    requires DistinctNames(done + todo) && exists i :: 0 <= i < |todo| && HasRef(todo[i].value)
    requires Live(tail) && !IsNameByte(tail[0])
    ensures var r := ParseTagRest(name, done, PrintAttributes(todo) + tail, m);
            r.next == None || r.node.attributes != done + todo
    decreases |todo|
  {
    hide PrintAttribute, ParseAttribute, HasRef, Chunked, NameOk, ParseTagRest, RefsClosed, DistinctNames, SkipRun;
    var a, more := todo[0], PrintAttributes(todo[1..]) + tail;
    var d := PrintAttribute(a) + more;
    assert PrintAttributes(todo) + tail == [SPACE] + d;
    assert Live(more) && !IsNameByte(more[0]);
    if HasRef(a.value) {
      AttributeStarts(a, more, m.enc);
      OneAttribute(name, done, d, m);
      AttributeFails(a, more, m.enc);
      assert (done + todo)[|done|] == a;
    } else {
      assert PrintAttributes([a]) == [SPACE] + PrintAttribute(a) by { assert [a][1..] == []; }
      assert PrintAttributes([a]) + more == [SPACE] + d;
      assert (done + [a]) + todo[1..] == done + todo;
      PrefixDistinct(done + [a], todo[1..]);
      AttributesRoundTrip(name, done, [a], more, m);
      assert forall i :: 0 < i < |todo| ==> todo[i] == todo[1..][i - 1];
      AttributesFail(name, done + [a], todo[1..], tail, m);
    }
  }

  lemma PrefixDistinct(a: seq<Attribute>, b: seq<Attribute>)
    requires DistinctNames(a + b)
    ensures DistinctNames(a)
  {
    assert forall i :: 0 <= i < |a| ==> a[i] == (a + b)[i];
  }

  lemma ShapedStarts(n: Node, m: Mode)
    requires Shaped(n, m) && Closed(n, m)
    ensures Starts(n, m)
  {
  }

  lemma AllShapedStart(ns: seq<Node>, m: Mode)
    requires AllShaped(ns, m) && AllClosed(ns, m)
    ensures ns != [] ==> Starts(ns[0], m)
  {
    hide Shaped, Closed, Starts;
    if ns != [] {
      ShapedStarts(ns[0], m);
    }
  }

  /** Markup at the front of some content. */
  lemma MarkupReads(s: Bytes, m: Mode)
    requires |s| > 1 && s[0] == LT && s[1] != SLASH
    ensures var child, r := ParseMarkup(s, m), ReadValue(s, m);
            r.next == None || (child.next.Some? && r.nodes != [] && r.nodes[0] == child.node)
  {
    hide ParseMarkup, ParseText;
    SkipRunStops(s, m.enc);
    assert s[..2][1] == s[1];
  }

  /** A child that does not survive does not come back first. */
  lemma {:induction false} ChildFails(n: Node, depth: nat, f: Format, pad: Bytes, after: Bytes, m: Mode)
    requires Shaped(n, m) && Closed(n, m) && !StringsOk(n, m) && FormatOk(f, m)
    requires AllWhite(pad) && (!m.condense ==> pad == []) && Live(after)
    requires IsPlainText(n) ==> |after| > 1 && after[0] == LT && Live(after[1..])
    ensures var r := ReadValue(PrintNode(n, depth, f) + (pad + after), m);
            r.next == None || r.nodes == [] || r.nodes[0] != n
    decreases n, 2
  {
    hide Encode, ReadValue, PrintNodes, PrintAttributes, ParseElement, AllShaped, AllClosed, AllStringsOk, TextOk,
         NameOk;
    var rest := pad + after;
    var s := PrintNode(n, depth, f) + rest;
    if n.Element? {
      ShapedStarts(n, m);
      StartOfNode(n, depth, f, rest, m);
      ElementFails(n, depth, f, rest, m);
      ElementIsMarkup(n, depth, f, rest, m);
      MarkupReads(s, m);
    } else {
      TextFails(n.value, pad, after, m);
    }
  }

  lemma ElementIsMarkup(n: Node, depth: nat, f: Format, rest: Bytes, m: Mode)
    requires n.Element? && NameOk(n.name, m.enc)
    ensures var s := PrintNode(n, depth, f) + rest;
            s != [] && s[0] == LT && ParseMarkup(s, m) == ParseElement(s, m)
  {
    hide PrintNodes, PrintAttributes, ParseElement, Encode;
    var s := PrintNode(n, depth, f) + rest;
    CStrOfName(n.name, m.enc);
    assert OpenTag(n)[0] == LT && OpenTag(n)[1] == n.name[0];
    assert s[0] == OpenTag(n)[0] && s[1] == OpenTag(n)[1];
    NotMarkup(s);
  }

  /** Children one of which does not survive do not come back. */
  lemma {:induction false} ContentFails(ns: seq<Node>, depth: nat, f: Format, pad: Bytes, tail: Bytes, m: Mode)
    requires AllShaped(ns, m) && AllClosed(ns, m) && !AllStringsOk(ns, m) && FormatOk(f, m)
    requires StartsWith(tail, END_OPEN) && AllWhite(pad) && (!m.condense ==> pad == [])
    ensures var r := ReadValue(PrintNodes(ns, depth, f) + (pad + tail), m);
            r.next == None || r.nodes != ns
    decreases ns, 0
  {
    hide Shaped, Closed, StringsOk, Starts, PrintNode, PrintNodes, ParseMarkup, ReadValue, Encode, AllWhite;
    EndStart(tail);
    var n, t := ns[0], PrintNodes(ns[1..], depth, f) + (pad + tail);
    var x := PrintNode(n, depth, f);
    PrintedNodes(ns, depth, f, pad + tail);
    IndentationWhite(depth, f, m);
    ShapedStarts(n, m);
    StartOfNode(n, depth, f, f.lineBreak + t, m);
    PadBeforeContent(Indentation(depth, f), x + (f.lineBreak + t), m);
    AllShapedStart(ns[1..], m);
    var space, after := WhatFollows(ns[1..], depth, f, pad, tail, m);
    FormatParts(f, m);
    WhiteJoined(f.lineBreak, space);
    Reassociate(f.lineBreak, space, after);
    if StringsOk(n, m) {
      FirstChildRead(n, depth, f, f.lineBreak + space, after, m);
      PadBeforeContent(f.lineBreak + space, after, m);
      PadBeforeContent(space, after, m);
      ContentFails(ns[1..], depth, f, pad, tail, m);
      var r := ReadValue(t, m);
      assert [n] + r.nodes == ns ==> r.nodes == ns[1..] by { assert ([n] + r.nodes)[1..] == r.nodes; }
    } else {
      ChildFails(n, depth, f, f.lineBreak + space, after, m);
    }
  }

  /** A child that survives comes back first. */
  lemma FirstChildRead(n: Node, depth: nat, f: Format, pad: Bytes, after: Bytes, m: Mode)
    requires Shaped(n, m) && StringsOk(n, m) && FormatOk(f, m)
    requires AllWhite(pad) && (!m.condense ==> pad == []) && Live(after)
    requires IsPlainText(n) ==> |after| > 1 && after[0] == LT && Live(after[1..])
    ensures ReadValue(PrintNode(n, depth, f) + (pad + after), m)
         == (var r := ReadValue(after, m); ParsedNodes([n] + r.nodes, r.next))
  {
    hide Shaped, StringsOk, Printable, PrintNode, ReadValue, ParseMarkup, AllWhite;
    PrintableParts(n, m);
    if IsPlainText(n) {
      PlainTextRead(n, depth, f, pad, after, m);
    } else {
      LivePad(pad, after);
      NodeStart(n, depth, f, pad + after, m);
      MarkupRoundTrip(n, depth, f, pad + after, m);
      MarkupRead(n, PrintNode(n, depth, f) + (pad + after), pad + after, m);
      PadBeforeContent(pad, after, m);
    }
  }

  /** What stands between the tags does not come back as the children. */
  lemma {:induction false} InnerFails(n: Node, depth: nat, f: Format, tail: Bytes, m: Mode)
    requires n.Element? && n.children != [] && FormatOk(f, m) && StartsWith(tail, END_OPEN)
    requires AllShaped(n.children, m) && AllClosed(n.children, m) && !AllStringsOk(n.children, m)
    ensures var r := ReadValue(Content(n, depth, f) + tail, m); r.next == None || r.nodes != n.children
    decreases n, 0
  {
    hide Encode, ReadValue, StartsWith, PrintNodes, PrintNode, FormatOk, TextOk;
    var children := n.children;
    EndStart(tail);
    if IsSimple(n) {
      assert [] + tail == tail;
      assert children[1..] == [] && !StringsOk(children[0], m);
      TextFails(children[0].value, [], tail, m);
    } else {
      hide Shaped, Closed, StringsOk, Starts;
      IndentationWhite(depth, f, m);
      FormatParts(f, m);
      ContentFails(children, depth + 1, f, Indentation(depth, f), tail, m);
      AllShapedStart(children, m);
      var inner := PrintNodes(children, depth + 1, f) + (Indentation(depth, f) + tail);
      var space, after := WhatFollows(children, depth + 1, f, Indentation(depth, f), tail, m);
      PadBeforeContent(f.lineBreak, inner, m);
      assert Content(n, depth, f) + tail == f.lineBreak + inner;
    }
  }

  /** Behind the attributes of an element with children. */
  lemma ContentRead(name: Bytes, attributes: seq<Attribute>, content: Bytes, m: Mode)
    ensures var r, inner := ParseTagRest(name, attributes, [GT] + content, m), ReadValue(content, m);
            r.next == None || (inner.next.Some? && r.node.children == inner.nodes)
  {
    hide ReadValue, ParseAttribute, ParseEndTag;
    var after := [GT] + content;
    SkipRunStops(after, m.enc);
    assert after[1..] == content;
  }

  /** An element with a string that does not survive does not come back. */
  lemma {:induction false} ElementFails(n: Node, depth: nat, f: Format, rest: Bytes, m: Mode)
    requires n.Element? && Shaped(n, m) && Closed(n, m) && !StringsOk(n, m) && FormatOk(f, m)
    ensures var r := ParseElement(PrintNode(n, depth, f) + rest, m); r.next == None || r.node != n
    decreases n, 1
  {
    hide Encode, HasRef, Chunked, RefsClosed, NameOk, ReadValue, PrintAttributes, ParseTagRest, ParseElement, Walked,
         DistinctNames, StartsWith, AllShaped, AllClosed, AllStringsOk, PrintNodes, PrintNode, FormatOk;
    var name, attributes, children := n.name, n.attributes, n.children;
    CStrOfName(name, m.enc);
    NamesNotEmpty(attributes, m.enc);
    WalkedAll(attributes);
    PrintedElement(n, depth, f, rest);
    var tail := END_OPEN + name + ([GT] + rest);
    var content := if children == [] then [] else Content(n, depth, f) + tail;
    var after := if children == [] then EMPTY_CLOSE + rest else [GT] + content;
    TagOpens(name, attributes, after, m);
    assert [] + attributes == attributes;
    if i :| 0 <= i < |attributes| && HasRef(attributes[i].value) {
      AttributesFail(name, [], attributes, after, m);
    } else {
      AttributesRoundTrip(name, [], attributes, after, m);
      assert children != [] by { NoneStringsOk(m); }
      EndOpens(name, rest);
      InnerFails(n, depth, f, tail, m);
      ContentRead(name, attributes, content, m);
    }
  }

  lemma NoneStringsOk(m: Mode)
    ensures AllStringsOk([], m)
  {
  }

  lemma NamesNotEmpty(attributes: seq<Attribute>, enc: Encoding)
    requires forall i :: 0 <= i < |attributes| ==> NameOk(attributes[i].name, enc)
    ensures forall i :: 0 <= i < |attributes| ==> attributes[i].name != []
  {
  }

  // -------------------------------------------------------------- main result

  /** An element whose references are closed comes back from its printout, which is
      left right behind it, if and only if it is printable. */
  lemma RoundTripExact(n: Node, depth: nat, f: Format, rest: Bytes, m: Mode)
    requires n.Element? && Closed(n, m) && FormatOk(f, m)
    ensures ParseElement(PrintNode(n, depth, f) + rest, m) == Parsed(n, Some(rest)) <==> Printable(n, m)
  {
    hide *;
    if Printable(n, m) {
      ElementRoundTrip(n, depth, f, rest, m);
    } else if ParseElement(PrintNode(n, depth, f) + rest, m) == Parsed(n, Some(rest)) {
      ElementShaped(PrintNode(n, depth, f) + rest, m);
      PrintableParts(n, m);
      ElementFails(n, depth, f, rest, m);
    }
  }

  /** Any input at all: an element the parser reads to its end, and whose
      references are closed, is stable under printing and parsing if and only if
      its strings survive escaping. */
  lemma ReprintExact(s: Bytes, depth: nat, f: Format, rest: Bytes, m: Mode)
    requires ParseElement(s, m).next.Some? && Closed(ParseElement(s, m).node, m) && FormatOk(f, m)
    ensures var n := ParseElement(s, m).node;
            ParseElement(PrintNode(n, depth, f) + rest, m) == Parsed(n, Some(rest)) <==> StringsOk(n, m)
  {
    hide *;
    var n := ParseElement(s, m).node;
    ElementShaped(s, m);
    PrintableParts(n, m);
    RoundTripExact(n, depth, f, rest, m);
  }
}
