/** What escaping and reading back do to a string: exactly which attribute values
    and text nodes survive. */
module XmlTextLaws {
  import opened Prelude
  import opened XmlBytes
  import opened XmlUtf8
  import opened XmlText

  /** Bytes split into characters by the lead-byte table, with no ASCII byte
      inside a longer character. */
  predicate WellFormed(v: Bytes)
    decreases |v|
  {
    v == [] ||
    (var n := ByteTable(v[0]);
     n <= |v| && (forall i :: 1 <= i < n ==> v[i] >= 0x80) && WellFormed(v[n..]))
  }

  /** Outside UTF-8 mode every byte is a character. */
  predicate Chunked(v: Bytes, enc: Encoding) {
    enc == Utf8 ==> WellFormed(v)
  }

  function ChunkLength(v: Bytes, enc: Encoding): nat
    requires v != []
  {
    if enc == Utf8 then ByteTable(v[0]) else 1
  }

  predicate IsDelimiter(q: Byte) {
    q == QUOT || q == APOS || q == LT
  }

  // -------------------------------------------------- one character at a time

  lemma HexDigitsDecode(c: nat)
    requires c < 256
    ensures DigitValue(HexUpper(c / 16), true) == Some(c / 16)
    ensures DigitValue(HexUpper(c % 16), true) == Some(c % 16)
    ensures HexUpper(c / 16) != SEMI && HexUpper(c % 16) != SEMI
    ensures HexUpper(c / 16) != LOWER_X && HexUpper(c % 16) != LOWER_X
    ensures HexUpper(c / 16) != 0 && HexUpper(c % 16) != 0
  {
  }

  /** `s` ends in `xHH`. */
  lemma ScanTwoDigits(s: Bytes, c: nat)
    requires c < 256 && |s| >= 3
    requires s[|s| - 3] == LOWER_X && s[|s| - 2] == HexUpper(c / 16) && s[|s| - 1] == HexUpper(c % 16)
    ensures ScanBack(s, true, 1, 0) == Some(c)
  {
    hide DigitValue, HexUpper;
    HexDigitsDecode(c);
    var s1 := s[..|s| - 1];
    var s2 := s1[..|s1| - 1];
    var h, l := c / 16, c % 16;
    assert s1[|s1| - 1] == HexUpper(h) && s2[|s2| - 1] == LOWER_X;
    assert ScanBack(s2, true, 256, l + 16 * h) == Some(c);
    assert ScanBack(s1, true, 16, l) == Some(c);
  }

  lemma FindByteIs(s: Bytes, i: nat, k: nat, c: Byte)
    requires c != 0 && i <= k < |s| && s[k] == c
    requires forall j :: i <= j < k ==> s[j] != c && s[j] != 0
    ensures FindByte(s, i, c) == Some(k)
    decreases k - i
  {
    if i < k {
      FindByteIs(s, i + 1, k, c);
    }
  }

  lemma ControlDecodes(c: Byte, tail: Bytes, enc: Encoding)
    requires c < 32
    ensures GetEntity(EncodeByte(c) + tail, enc) == Read([c], Some(tail))
  {
    HexDigitsDecode(c);
    var s := EncodeByte(c) + tail;
    assert s[..5] == EncodeByte(c)[..5];
    FindByteIs(s, 3, 5, SEMI);
    ScanTwoDigits(s[..5], c);
    assert s[6..] == tail;
  }

  lemma NamedDecodes(c: Byte, tail: Bytes, enc: Encoding)
    requires c == AMP || c == LT || c == GT || c == QUOT || c == APOS
    ensures GetEntity(EncodeByte(c) + tail, enc) == Read([c], Some(tail))
  {
    var e := EncodeByte(c);
    var s := e + tail;
    assert s[..|e|] == e && s[|e|..] == tail;
    assert s[1] == e[1] && s[2] == e[2] && s[3] == e[3];
    if c == APOS {
      assert s[..5][4] == e[4] != AMP_ENTITY[4];
    }
  }

  /** An escaped single-byte character reads back as itself. */
  lemma CharDecodes(c: Byte, tail: Bytes, enc: Encoding)
    requires enc == Utf8 ==> ByteTable(c) == 1
    ensures GetChar(EncodeByte(c) + tail, enc) == Read([c], Some(tail))
  {
    var s := EncodeByte(c) + tail;
    if c < 32 {
      ControlDecodes(c, tail, enc);
    } else if c == AMP || c == LT || c == GT || c == QUOT || c == APOS {
      NamedDecodes(c, tail, enc);
    } else {
      assert s == [c] + tail && s[1..] == tail;
    }
  }

  lemma RawByte(c: Byte)
    requires c >= 0x80
    ensures EncodeByte(c) == [c]
  {
  }

  lemma {:induction false} EncodeRaw(a: Bytes, b: Bytes)
    requires forall i :: 0 <= i < |a| ==> a[i] >= 0x80
    ensures Encode(a + b) == a + Encode(b)
  {
    hide EncodeByte, Encode;
    if a == [] {
      assert a + b == b;
    } else {
      var w := a + b;
      EncodeUnfold(w);
      RawByte(w[0]);
      assert w[1..] == a[1..] + b;
      EncodeRaw(a[1..], b);
      Reassociate([a[0]], a[1..], Encode(b));
      assert [a[0]] + a[1..] == a;
    }
  }

  lemma {:induction false} CopyCharIs(s: Bytes, n: nat)
    requires n <= |s| && NulFree(s[..n])
    ensures CopyChar(s, n) == s[..n]
  {
    if n > 0 {
      assert s[..n][0] == s[0];
      assert s[1..][..n - 1] == s[..n][1..];
      CopyCharIs(s[1..], n - 1);
      assert [s[0]] + s[..n][1..] == s[..n];
    }
  }

  /** How an escaped string begins. */
  lemma EncodeHead(v: Bytes)
    requires v != [] && !StartsRef(v)
    ensures Encode(v) != [] && !IsDelimiter(Encode(v)[0]) && Encode(v)[0] != 0
    ensures IsWhiteSpace(Encode(v)[0]) <==> v[0] == SPACE
    ensures Encode(v)[0] == v[0] || Encode(v)[0] == AMP
  {
    EncodeUnfold(v);
    assert Encode(v)[0] == EncodeByte(v[0])[0];
  }

  lemma LongChunkDecodes(v: Bytes, tail: Bytes)
    requires v != [] && WellFormed(v) && ByteTable(v[0]) > 1
    ensures var n := ByteTable(v[0]);
            GetChar(Encode(v) + tail, Utf8) == Read(v[..n], Some(Encode(v[n..]) + tail))
  {
    var n := ByteTable(v[0]);
    var a, b := v[..n], v[n..];
    assert v == a + b;
    EncodeRaw(a, b);
    var s := Encode(v) + tail;
    Reassociate(a, Encode(b), tail);
    assert s == a + (Encode(b) + tail);
    assert s[0] == v[0] && s[..n] == a && s[n..] == Encode(b) + tail;
    CopyCharIs(s, n);
  }

  /** The first character of an escaped string that starts no reference. */
  lemma ChunkDecodes(v: Bytes, tail: Bytes, enc: Encoding)
    requires v != [] && Chunked(v, enc) && !StartsRef(v)
    ensures var n := ChunkLength(v, enc);
            n <= |v| && Chunked(v[n..], enc) &&
            GetChar(Encode(v) + tail, enc) == Read(v[..n], Some(Encode(v[n..]) + tail))
  {
    hide GetChar, GetEntity, EncodeByte;
    if ChunkLength(v, enc) == 1 {
      EncodeUnfold(v);
      CharDecodes(v[0], Encode(v[1..]) + tail, enc);
      Reassociate(EncodeByte(v[0]), Encode(v[1..]), tail);
      assert v[..1] == [v[0]];
    } else {
      LongChunkDecodes(v, tail);
    }
  }

  // ------------------------------------------------------ keeping white space

  lemma HasRefChunk(v: Bytes, enc: Encoding)
    requires v != [] && Chunked(v, enc) && !StartsRef(v)
    ensures HasRef(v) <==> HasRef(v[ChunkLength(v, enc)..])
    ensures v[0] == SPACE ==> (HasRef(v) <==> HasRef(v[1..]))
  {
    var n := ChunkLength(v, enc);
    if n > 1 {
      HasRefSkip(v, n);
    }
  }

  lemma {:induction false} HasRefSkip(v: Bytes, n: nat)
    requires n <= |v| && forall i :: 0 <= i < n ==> v[i] != AMP
    ensures HasRef(v) <==> HasRef(v[n..])
  {
    if n > 0 {
      HasRefSkip(v[1..], n - 1);
      assert v[1..][n - 1..] == v[n..];
    } else {
      assert v[0..] == v;
    }
  }

  lemma {:induction false} KeptReadsBack(v: Bytes, q: Byte, rest: Bytes, enc: Encoding)
    requires Chunked(v, enc) && !HasRef(v) && IsDelimiter(q)
    ensures ReadKept(Some(Encode(v) + ([q] + rest)), [q], enc) == Read(v, Some([q] + rest))
    decreases |v|
  {
    hide GetChar, EncodeByte, Encode, HasRef;
    var tail := [q] + rest;
    if v == [] {
      EncodeEmpty();
      assert Encode(v) + tail == tail;
    } else {
      var n := ChunkLength(v, enc);
      NoRefStarts(v);
      ChunkDecodes(v, tail, enc);
      EncodeHead(v);
      HasRefChunk(v, enc);
      assert (Encode(v) + tail)[0] == Encode(v)[0];
      KeptReadsBack(v[n..], q, rest, enc);
      assert v == v[..n] + v[n..];
    }
  }

  /** In a reference the digits end at the first semicolon after the marker. */
  lemma RefJump(s: Bytes, enc: Encoding)
    requires StartsRef(s)
    ensures var r := GetEntity(s, enc);
            r.next.Some? ==>
              exists k :: 3 <= k < |s| && s[k] == SEMI && (forall j :: 3 <= j < k ==> s[j] != SEMI) &&
                          r.next.value == s[k + 1..] && |r.bytes| <= 4 && (k == 3 ==> |r.bytes| == 1)
  {
    if GetEntity(s, enc).next.Some? {
      var k := FindByte(s, 3, SEMI).value;
      assert s[k] == SEMI;
      if k == 3 {
        assert s[..3][2] == LOWER_X;
      }
    }
  }

  /** The bytes after the first ASCII byte that ends a pass-through. */
  lemma {:induction false} ChunkedAfterAscii(v: Bytes, k: nat, enc: Encoding)
    requires Chunked(v, enc) && k < |v| && v[k] < 0x80
    ensures Chunked(v[k..], enc) && Chunked(v[k + 1..], enc)
    decreases k
  {
    if enc == Utf8 {
      var n := ByteTable(v[0]);
      if k == 0 {
        assert v[0..] == v;
      } else {
        assert k >= n;
        ChunkedAfterAscii(v[n..], k - n, enc);
        assert v[n..][k - n..] == v[k..] && v[n..][k - n + 1..] == v[k + 1..];
      }
    }
  }

  /** The escaped form of a string that starts a reference. */
  lemma PassedThrough(v: Bytes)
    requires StartsRef(v)
    ensures var k := PassLength(v);
            (v[k] == SEMI ==> k >= 3 && Encode(v) == v[..k + 1] + Encode(v[k + 1..])) &&
            (v[k] != SEMI ==> k == |v| - 1 >= 2 && Encode(v) == v[..k] + EncodeByte(v[k]))
  {
    hide EncodeByte, Encode, PassLength;
    var k := PassLength(v);
    assert v[1] == HASH && v[2] == LOWER_X;
    EncodeUnfold(v);
    AfterPassed(v, k);
    if v[k] == SEMI {
      Regroup(v, k, Encode(v[k + 1..]));
    }
  }

  lemma Regroup(v: Bytes, k: nat, z: Bytes)
    requires k < |v|
    ensures v[..k] + ([v[k]] + z) == v[..k + 1] + z
  {
  }

  /** The byte a pass-through stops at is escaped on its own. */
  lemma AfterPassed(v: Bytes, k: nat)
    requires k < |v| && (v[k] == SEMI || k == |v| - 1)
    ensures v[k] == SEMI ==> Encode(v[k..]) == [SEMI] + Encode(v[k + 1..])
    ensures k == |v| - 1 ==> Encode(v[k..]) == EncodeByte(v[k])
  {
    hide EncodeByte, Encode;
    var w := v[k..];
    EncodeUnfold(w);
    EncodeEmpty();
    SemiIsPlain();
    assert w[0] == v[k] && w[1..] == v[k + 1..];
    assert k == |v| - 1 ==> w[1..] == [];
  }

  lemma EncodeEmpty()
    ensures Encode([]) == []
  {
  }

  lemma SemiIsPlain()
    ensures EncodeByte(SEMI) == [SEMI] && EncodeByte(LOWER_X) == [LOWER_X]
  {
  }

  /** An escape ends in its only semicolon; before it stand two hexadecimal
      digits after an `x`, or a letter that is no digit. */
  lemma EscapeShape(c: Byte)
    ensures var e := EncodeByte(c);
            e == [c] ||
            (|e| >= 4 && e[|e| - 1] == SEMI && (forall i :: 0 <= i < |e| - 1 ==> e[i] != SEMI) &&
             (c < 32 ==> |e| == 6 && e[2] == LOWER_X && e[3] == HexUpper(c / 16) && e[4] == HexUpper(c % 16)) &&
             (c >= 32 ==> DigitValue(e[|e| - 2], true) == None && e[|e| - 2] != LOWER_X))
  {
    if c < 32 {
      HexDigitsDecode(c);
    }
  }

  /** Reading a passed-through reference back never gives as much as went in. */
  lemma {:induction false} RefShrinks(v: Bytes, q: Byte, rest: Bytes, enc: Encoding)
    requires Chunked(v, enc) && StartsRef(v) && IsDelimiter(q)
    ensures var r := ReadKept(Some(Encode(v) + ([q] + rest)), [q], enc);
            r.next == Some([q] + rest) ==> |r.bytes| < |v|
    decreases |v|, 0
  {
    hide ReadKept, GetEntity, Encode, EncodeByte, PassLength, HasRef;
    var tail := [q] + rest;
    var s := Encode(v) + tail;
    var k := PassLength(v);
    PassedThrough(v);
    RefStays(v, tail);
    RefRead(s, q, enc);
    EndRead(q, rest, enc);
    var c := GetEntity(s, enc);
    var r := ReadKept(Some(s), [q], enc);
    if c.next.Some? && r.next == Some(tail) {
      RefJump(s, enc);
      var j :| 3 <= j < |s| && s[j] == SEMI && (forall i :: 3 <= i < j ==> s[i] != SEMI) &&
               c.next.value == s[j + 1..] && |c.bytes| <= 4 && (j == 3 ==> |c.bytes| == 1);
      if v[k] == SEMI {
        SemiEnds(v, tail, k, j);
        ChunkedAfterAscii(v, k, enc);
        KeptNeverGrows(v[k + 1..], q, rest, enc);
      } else {
        LastEnds(v, tail, k, j, enc);
      }
    }
  }

  /** A reference that is passed through still starts the escaped string. */
  lemma RefStays(v: Bytes, tail: Bytes)
    requires StartsRef(v)
    ensures StartsRef(Encode(v) + tail)
  {
    hide Encode, PassLength;
    var k := PassLength(v);
    PassedThrough(v);
    var s := Encode(v) + tail;
    assert s[0] == v[0] && s[1] == v[1];
    assert s[2] == LOWER_X by {
      if k == 2 && v[k] != SEMI { assert EncodeByte(v[2]) == [v[2]]; }
    }
  }

  lemma RefRead(s: Bytes, q: Byte, enc: Encoding)
    requires StartsRef(s) && IsDelimiter(q)
    ensures var c := GetEntity(s, enc);
            var r := ReadKept(c.next, [q], enc);
            && ReadKept(Some(s), [q], enc) == Read(c.bytes + r.bytes, r.next)
            && (c.next == None ==> r.next == None)
  {
    hide GetEntity;
  }

  lemma EndRead(q: Byte, rest: Bytes, enc: Encoding)
    requires IsDelimiter(q)
    ensures ReadKept(Some([q] + rest), [q], enc) == Read([], Some([q] + rest))
  {
    assert ([q] + rest)[..1] == [q];
  }

  lemma SemiEnds(v: Bytes, tail: Bytes, k: nat, j: nat)
    requires StartsRef(v) && k == PassLength(v) >= 3 && v[k] == SEMI
    requires Encode(v) == v[..k + 1] + Encode(v[k + 1..])
    requires var s := Encode(v) + tail; 3 <= j < |s| && s[j] == SEMI && forall i :: 3 <= i < j ==> s[i] != SEMI
    ensures j == k && (Encode(v) + tail)[j + 1..] == Encode(v[k + 1..]) + tail
  {
    var s := Encode(v) + tail;
    assert forall i :: 0 <= i <= k ==> s[i] == v[i];
    Reassociate(v[..k + 1], Encode(v[k + 1..]), tail);
  }

  /** Without a semicolon in the string the reference runs to the end of the
      last byte's escape, or past the delimiter. */
  lemma LastEnds(v: Bytes, tail: Bytes, k: nat, j: nat, enc: Encoding)
    requires StartsRef(v) && k == PassLength(v) == |v| - 1 && v[k] != SEMI
    requires tail != [] && IsDelimiter(tail[0])
    requires Encode(v) == v[..k] + EncodeByte(v[k])
    requires var s := Encode(v) + tail;
             3 <= j < |s| && s[j] == SEMI && (forall i :: 3 <= i < j ==> s[i] != SEMI) &&
             StartsRef(s) && GetEntity(s, enc).next == Some(s[j + 1..])
    ensures var s := Encode(v) + tail;
            |s[j + 1..]| < |tail| ||
            (s[j + 1..] == tail && |v| > 3 && |GetEntity(s, enc).bytes| < |v|)
  {
    hide EncodeByte, Encode, PassLength, GetEntity;
    var s := Encode(v) + tail;
    var c := v[k];
    var e := EncodeByte(c);
    EscapeShape(c);
    SemiIsPlain();
    ThreeParts(v[..k], e, tail);
    if e != [c] {
      assert s[k + (|e| - 1)] == SEMI;
      assert j == k + |e| - 1;
      assert s[j + 1..] == tail;
      LastEscapeScans(s, c, j, enc);
    }
  }

  lemma ThreeParts(a: Bytes, b: Bytes, c: Bytes)
    ensures var s := a + b + c;
            && (forall i :: 0 <= i < |a| ==> s[i] == a[i])
            && (forall i {:trigger b[i]} :: 0 <= i < |b| ==> s[|a| + i] == b[i])
            && s[|a| + |b|..] == c
  {
  }

  lemma LastEscapeScans(s: Bytes, c: Byte, j: nat, enc: Encoding)
    requires StartsRef(s) && 3 <= j < |s| && s[j] == SEMI && forall i :: 3 <= i < j ==> s[i] != SEMI
    requires EncodeByte(c) != [c] && j >= 2 + |EncodeByte(c)|
    requires forall i :: 0 <= i < |EncodeByte(c)| ==> s[j + 1 - |EncodeByte(c)| + i] == EncodeByte(c)[i]
    ensures |GetEntity(s, enc).bytes| <= 1
  {
    EscapeShape(c);
    var e := EncodeByte(c);
    var k := FindByte(s, 3, SEMI);
    if k.Some? {
      assert k.value == j;
      var t := s[..j];
      assert t[|t| - 1] == e[|e| - 2];
      if c < 32 {
        assert t[|t| - 2] == e[|e| - 3] && t[|t| - 3] == e[|e| - 4];
        ScanTwoDigits(t, c);
      }
    }
  }

  lemma {:induction false} KeptNeverGrows(v: Bytes, q: Byte, rest: Bytes, enc: Encoding)
    requires Chunked(v, enc) && IsDelimiter(q)
    ensures var r := ReadKept(Some(Encode(v) + ([q] + rest)), [q], enc);
            r.next == Some([q] + rest) ==> |r.bytes| <= |v|
    decreases |v|, 1
  {
    hide GetChar, EncodeByte, Encode;
    var tail := [q] + rest;
    if v == [] {
      EncodeEmpty();
      assert Encode(v) + tail == tail;
    } else if StartsRef(v) {
      RefShrinks(v, q, rest, enc);
    } else {
      var n := ChunkLength(v, enc);
      ChunkDecodes(v, tail, enc);
      EncodeHead(v);
      assert (Encode(v) + tail)[0] == Encode(v)[0];
      KeptNeverGrows(v[n..], q, rest, enc);
    }
  }

  /** An escaped string kept with its white space reads back as itself, up to its
      delimiter, exactly when it holds no `&#x`. */
  lemma {:induction false} KeptRoundTrip(v: Bytes, q: Byte, rest: Bytes, enc: Encoding)
    requires Chunked(v, enc) && IsDelimiter(q)
    ensures ReadKept(Some(Encode(v) + ([q] + rest)), [q], enc) == Read(v, Some([q] + rest)) <==> !HasRef(v)
    decreases |v|
  {
    hide GetChar, EncodeByte, Encode;
    var tail := [q] + rest;
    if !HasRef(v) {
      KeptReadsBack(v, q, rest, enc);
    } else if StartsRef(v) {
      RefShrinks(v, q, rest, enc);
    } else {
      var n := ChunkLength(v, enc);
      ChunkDecodes(v, tail, enc);
      EncodeHead(v);
      HasRefChunk(v, enc);
      assert (Encode(v) + tail)[0] == Encode(v)[0];
      KeptRoundTrip(v[n..], q, rest, enc);
      var r := ReadKept(Some(Encode(v[n..]) + tail), [q], enc);
      if v[..n] + r.bytes == v {
        assert r.bytes == v[n..];
      }
    }
  }

  // --------------------------------------------------- condensing white space

  /** Text without the spaces and zero-width marks it begins with.  Tabs and line
      ends do not count: they are escaped when printed. */
  function StripLead(v: Bytes, enc: Encoding): (r: Bytes)
    ensures |r| <= |v|
    ensures |r| == |v| ==> r == v
  {
    if enc == Utf8 && StartsWithMark(v) then StripLead(v[3..], enc)
    else if v != [] && v[0] == SPACE then StripLead(v[1..], enc)
    else v
  }

  /** Text with every run of spaces made one space and the last run dropped. */
  function Squeeze(v: Bytes, gap: bool): Bytes {
    if v == [] then []
    else if v[0] == SPACE then Squeeze(v[1..], true)
    else (if gap then [SPACE] else []) + [v[0]] + Squeeze(v[1..], false)
  }

  /** No two spaces in a row and none at the end. */
  predicate Tidy(v: Bytes) {
    && (v != [] ==> v[|v| - 1] != SPACE)
    && (forall i :: 0 <= i < |v| - 1 ==> v[i] != SPACE || v[i + 1] != SPACE)
  }

  /** The texts that condensing leaves alone. */
  predicate Normal(v: Bytes, enc: Encoding) {
    && Tidy(v)
    && (v != [] ==> v[0] != SPACE)
    && (enc == Utf8 ==> !StartsWithMark(v))
  }

  lemma {:induction false} SqueezeTidy(v: Bytes, gap: bool)
    ensures Tidy(Squeeze(v, gap))
    ensures |Squeeze(v, gap)| <= |v| + 1 && (!gap ==> |Squeeze(v, gap)| <= |v|)
  {
    hide Tidy;
    TidyEmpty();
    if v != [] {
      if v[0] == SPACE {
        SqueezeTidy(v[1..], true);
      } else {
        var r := Squeeze(v[1..], false);
        SqueezeTidy(v[1..], false);
        TidyCons(v[0], r);
        if gap {
          assert Squeeze(v, gap) == [SPACE] + ([v[0]] + r);
        } else {
          assert Squeeze(v, gap) == [v[0]] + r;
        }
      }
    }
  }

  lemma TidyEmpty()
    ensures Tidy([])
  {
  }

  lemma TidyCons(c: Byte, r: Bytes)
    requires c != SPACE && Tidy(r)
    ensures Tidy([c] + r) && Tidy([SPACE] + ([c] + r))
  {
    var t := [c] + r;
    assert forall i :: 1 <= i < |t| ==> t[i] == r[i - 1];
    var u := [SPACE] + t;
    assert forall i :: 1 <= i < |u| ==> u[i] == t[i - 1];
  }

  lemma {:induction false} SqueezeOfTidy(v: Bytes, gap: bool)
    requires Tidy(v) && (gap ==> v != [] && v[0] != SPACE)
    ensures Squeeze(v, gap) == if gap then [SPACE] + v else v
  {
    hide Tidy;
    if v != [] {
      TidyTail(v);
      SqueezeOfTidy(v[1..], v[0] == SPACE);
      assert [v[0]] + v[1..] == v;
    }
  }

  lemma TidyTail(v: Bytes)
    requires v != [] && Tidy(v)
    ensures Tidy(v[1..])
    ensures v[0] == SPACE ==> |v| > 1 && v[1..][0] != SPACE
  {
    var w := v[1..];
    assert forall i :: 0 <= i < |w| ==> w[i] == v[i + 1];
  }

  lemma CondensingKeepsNormal(v: Bytes, enc: Encoding)
    ensures Squeeze(StripLead(v, enc), false) == v <==> Normal(v, enc)
  {
    var w := StripLead(v, enc);
    SqueezeTidy(w, false);
    if Normal(v, enc) {
      SqueezeOfTidy(v, false);
    }
  }

  lemma {:induction false} SkipRunOfEncoded(v: Bytes, tail: Bytes, enc: Encoding)
    requires Chunked(v, enc) && !HasRef(v) && tail != [] && (tail[0] == LT || StripLead(v, enc) != [])
    ensures var w := StripLead(v, enc);
            SkipRun(Encode(v) + tail, enc) == Encode(w) + tail && Chunked(w, enc) && !HasRef(w)
    decreases |v|
  {
    hide EncodeByte, Encode, HasRef, GetChar, SkipRun, StripLead, StartsWithMark, WellFormed;
    var s := Encode(v) + tail;
    SkipRunStep(s, enc);
    StripStep(v, enc);
    if v == [] {
      EncodeEmpty();
      assert s == tail;
      MarkStarts(tail);
    } else {
      NoRefStarts(v);
      EncodeHead(v);
      HasRefChunk(v, enc);
      ChunkDecodes(v, tail, enc);
      assert s[0] == Encode(v)[0];
      MarkStarts(s);
      MarkStarts(v);
      if enc == Utf8 && v[0] == 0xEF {
        MarkEncoded(v, tail);
        if StartsWithMark(v) {
          SkipRunOfEncoded(v[3..], tail, enc);
        }
      } else if v[0] == SPACE {
        SpaceEncoded(v);
        assert s[1..] == Encode(v[1..]) + tail;
        SkipRunOfEncoded(v[1..], tail, enc);
      }
    }
  }

  lemma SkipRunStep(s: Bytes, enc: Encoding)
    ensures SkipRun(s, enc) == if enc == Utf8 && StartsWithMark(s) then SkipRun(s[3..], enc)
                               else if s != [] && IsWhiteSpace(s[0]) then SkipRun(s[1..], enc)
                               else s
  {
  }

  lemma StripStep(v: Bytes, enc: Encoding)
    ensures StripLead(v, enc) == if enc == Utf8 && StartsWithMark(v) then StripLead(v[3..], enc)
                                 else if v != [] && v[0] == SPACE then StripLead(v[1..], enc)
                                 else v
  {
  }

  lemma MarkStarts(s: Bytes)
    ensures StartsWithMark(s) ==> |s| >= 3 && s[0] == 0xEF
  {
  }

  lemma NoRefStarts(v: Bytes)
    requires !HasRef(v)
    ensures !StartsRef(v)
  {
  }

  /** A three-byte character at the front is printed as it is. */
  lemma MarkEncoded(v: Bytes, tail: Bytes)
    requires v != [] && WellFormed(v) && v[0] == 0xEF
    ensures var s := Encode(v) + tail;
            |v| >= 3 && |s| >= 3 && (StartsWithMark(s) <==> StartsWithMark(v)) && s[3..] == Encode(v[3..]) + tail
  {
    hide EncodeByte, Encode;
    var a, b := v[..3], v[3..];
    assert v == a + b;
    EncodeRaw(a, b);
    Reassociate(a, Encode(b), tail);
    var s := Encode(v) + tail;
    assert s == a + (Encode(b) + tail);
    assert s[..3] == a && s[3..] == Encode(b) + tail;
    assert forall i :: 0 <= i < 3 ==> s[i] == s[..3][i] == v[i];
  }

  lemma SpaceEncoded(v: Bytes)
    requires v != [] && v[0] == SPACE
    ensures Encode(v) == [SPACE] + Encode(v[1..])
  {
  }

  predicate AllWhite(pad: Bytes) {
    forall i :: 0 <= i < |pad| ==> IsWhiteSpace(pad[i])
  }

  lemma {:induction false} PadRead(pad: Bytes, gap: bool, rest: Bytes, enc: Encoding)
    requires AllWhite(pad)
    ensures ReadCondensed(Some(pad + ([LT] + rest)), gap, [LT], enc) == Read([], Some([LT] + rest))
    decreases |pad|
  {
    var s := pad + ([LT] + rest);
    if pad == [] {
      assert s == [LT] + rest;
    } else {
      assert s[0] == pad[0] && s[1..] == pad[1..] + ([LT] + rest);
      PadRead(pad[1..], true, rest, enc);
    }
  }

  lemma {:induction false} CondensedReadsBack(v: Bytes, gap: bool, pad: Bytes, rest: Bytes, enc: Encoding)
    requires Chunked(v, enc) && !HasRef(v) && AllWhite(pad)
    ensures ReadCondensed(Some(Encode(v) + (pad + ([LT] + rest))), gap, [LT], enc) ==
            Read(Squeeze(v, gap), Some([LT] + rest))
    decreases |v|
  {
    hide GetChar, EncodeByte, Encode, HasRef;
    var tail := pad + ([LT] + rest);
    var s := Encode(v) + tail;
    if v == [] {
      EncodeEmpty();
      assert s == tail;
      PadRead(pad, gap, rest, enc);
    } else {
      var n := ChunkLength(v, enc);
      NoRefStarts(v);
      ChunkDecodes(v, tail, enc);
      EncodeHead(v);
      HasRefChunk(v, enc);
      assert s[0] == Encode(v)[0];
      if v[0] == SPACE {
        SpaceEncoded(v);
        assert s[1..] == Encode(v[1..]) + tail;
        CondensedReadsBack(v[1..], true, pad, rest, enc);
      } else {
        CondensedReadsBack(v[n..], false, pad, rest, enc);
        SqueezeChunk(v, n, gap);
      }
    }
  }

  lemma {:induction false} SqueezeChunk(v: Bytes, n: nat, gap: bool)
    requires 1 <= n <= |v| && forall i :: 0 <= i < n ==> v[i] != SPACE
    ensures Squeeze(v, gap) == (if gap then [SPACE] else []) + v[..n] + Squeeze(v[n..], false)
    decreases n
  {
    var g := if gap then [SPACE] else [];
    var z := Squeeze(v[n..], false);
    if n == 1 {
      assert v[..1] == [v[0]];
    } else {
      SqueezeChunk(v[1..], n - 1, false);
      assert v[1..][n - 1..] == v[n..];
      Regroup3(g, v, n, z);
    }
  }

  lemma Regroup3(g: Bytes, v: Bytes, n: nat, z: Bytes)
    requires 1 <= n <= |v|
    ensures g + [v[0]] + ([] + v[1..][..n - 1] + z) == g + v[..n] + z
  {
  }

  /** Reading escaped text back: what comes out, and when it is what went in.  In
      condensing mode white space between the text and the next tag is dropped. */
  lemma TextReadsBack(v: Bytes, pad: Bytes, rest: Bytes, condense: bool, enc: Encoding)
    requires Chunked(v, enc) && !HasRef(v) && AllWhite(pad) && Live(rest)
    requires if condense then StripLead(v, enc) != [] else pad == []
    ensures ReadText(Encode(v) + (pad + ([LT] + rest)), condense, [LT], enc) ==
            Read(if condense then Squeeze(StripLead(v, enc), false) else v, Some(rest))
    ensures ReadText(Encode(v) + (pad + ([LT] + rest)), condense, [LT], enc) == Read(v, Some(rest))
            <==> (condense ==> Normal(v, enc))
  {
    hide EncodeByte, Encode, ReadKept, ReadCondensed, SkipRun, HasRef;
    var tail := [LT] + rest;
    var s := Encode(v) + (pad + tail);
    assert Live(s) by {
      if v == [] {
        EncodeEmpty();
        assert pad + tail == tail && s == tail;
      } else {
        NoRefStarts(v);
        EncodeHead(v);
      }
    }
    assert StartsWith(tail, [LT]) && tail[1..] == rest;
    CondensingKeepsNormal(v, enc);
    if condense {
      SkipRunOfEncoded(v, pad + tail, enc);
      CondensedReadsBack(StripLead(v, enc), false, pad, rest, enc);
    } else {
      assert pad + tail == tail;
      KeptReadsBack(v, LT, rest, enc);
    }
  }
}
