/** Bytes, C strings and character classes shared by the TinyXML modules. */
module XmlBytes {
  import opened Prelude

  datatype Encoding = Unknown | Utf8 | Legacy

  /** A `const char*` into a NUL-terminated buffer is the bytes from it onwards;
      `None` is the null pointer.  Reads at or past the end see the terminator. */
  type Ptr = Option<Bytes>

  function At(s: Bytes, i: nat): Byte {
    if i < |s| then s[i] else 0
  }

  function Drop(s: Bytes, n: nat): Bytes {
    if n <= |s| then s[n..] else []
  }

  /** `*p != 0` */
  predicate Live(s: Bytes) {
    At(s, 0) != 0
  }

  /** `p && *p` */
  predicate LivePtr(p: Ptr) {
    p.Some? && Live(p.value)
  }

  function NullIfEnd(s: Bytes): Ptr {
    if Live(s) then Some(s) else None
  }

  const AMP: Byte := 38      // &
  const HASH: Byte := 35     // #
  const LOWER_X: Byte := 120 // x
  const SEMI: Byte := 59     // ;
  const LT: Byte := 60       // <
  const GT: Byte := 62       // >
  const QUOT: Byte := 34     // "
  const APOS: Byte := 39     // '
  const SPACE: Byte := 32
  const SLASH: Byte := 47    // /
  const EQUALS: Byte := 61   // =
  const UNDERSCORE: Byte := 95

  /** `isspace` in the C locale. */
  predicate IsWhiteSpace(b: Byte) {
    9 <= b <= 13 || b == 32
  }

  predicate IsAsciiLetter(b: Byte) {
    65 <= b <= 90 || 97 <= b <= 122
  }

  predicate IsDigit(b: Byte) {
    48 <= b <= 57
  }

  /** Every byte from 127 upwards passes for a letter. */
  predicate IsAlpha(b: Byte) {
    b >= 127 || IsAsciiLetter(b)
  }

  predicate IsAlphaNum(b: Byte) {
    b >= 127 || IsAsciiLetter(b) || IsDigit(b)
  }

  predicate IsNameStart(b: Byte) {
    IsAlpha(b) || b == UNDERSCORE
  }

  predicate IsNameByte(b: Byte) {
    IsAlphaNum(b) || b == UNDERSCORE || b == 45 || b == 46 || b == 58
  }

  function ToLower(b: Byte): Byte {
    if 65 <= b <= 90 then b + 32 else b
  }

  /** `StringEqual(p, tag, false)` for a non-empty NUL-free tag. */
  predicate StartsWith(s: Bytes, tag: Bytes) {
    |tag| <= |s| && s[..|tag|] == tag
  }

  /** `StringEqual(p, tag, true)` for a non-empty NUL-free lower-case tag. */
  predicate StartsWithNoCase(s: Bytes, tag: Bytes) {
    |tag| <= |s| && forall i :: 0 <= i < |tag| ==> ToLower(s[i]) == ToLower(tag[i])
  }

  /** The bytes a C string function sees in `s`: those before the first NUL. */
  function CStr(s: Bytes): Bytes {
    if s == [] || s[0] == 0 then [] else [s[0]] + CStr(s[1..])
  }

  predicate NulFree(s: Bytes) {
    forall i :: 0 <= i < |s| ==> s[i] != 0
  }

  lemma {:induction false} CStrOfNulFree(s: Bytes)
    ensures CStr(s) == s <==> NulFree(s)
  {
    if s != [] && s[0] != 0 {
      CStrOfNulFree(s[1..]);
      if CStr(s) == s {
        assert s[1..] == CStr(s)[1..] == CStr(s[1..]);
        assert forall i :: 1 <= i < |s| ==> s[i] == s[1..][i - 1];
      }
      if NulFree(s) {
        assert s == [s[0]] + s[1..];
      }
    }
  }

  /** The three zero-width byte sequences that white-space skipping swallows in
      UTF-8 mode: EF BB BF, EF BF BE and EF BF BF. */
  predicate StartsWithMark(s: Bytes) {
    |s| >= 3 && s[0] == 0xEF &&
    ((s[1] == 0xBB && s[2] == 0xBF) || (s[1] == 0xBF && (s[2] == 0xBE || s[2] == 0xBF)))
  }

  /** The loop of `SkipWhiteSpace`. */
  function SkipRun(s: Bytes, enc: Encoding): (r: Bytes)
    ensures |r| <= |s|
    ensures r != [] ==> !IsWhiteSpace(r[0])
    ensures enc == Utf8 ==> !StartsWithMark(r)
  {
    if enc == Utf8 && StartsWithMark(s) then SkipRun(s[3..], enc)
    else if s != [] && IsWhiteSpace(s[0]) then SkipRun(s[1..], enc)
    else s
  }

  /** `SkipWhiteSpace`: null when it starts at the terminator. */
  function SkipWhiteSpace(s: Bytes, enc: Encoding): Ptr {
    if Live(s) then Some(SkipRun(s, enc)) else None
  }

  method SkipWhiteSpaceLoop(start: Bytes, enc: Encoding) returns (r: Ptr)
    ensures r == SkipWhiteSpace(start, enc)
  {
    if !Live(start) {
      return None;
    }
    var p := start;
    if enc == Utf8 {
      while Live(p)
        invariant SkipRun(p, enc) == SkipRun(start, enc)
        decreases |p|
      {
        if StartsWithMark(p) {
          p := p[3..];
          continue;
        }
        if IsWhiteSpace(p[0]) {
          p := p[1..];
        } else {
          break;
        }
      }
    } else {
      while Live(p) && IsWhiteSpace(p[0])
        invariant SkipRun(p, enc) == SkipRun(start, enc)
        decreases |p|
      {
        p := p[1..];
      }
    }
    return Some(p);
  }

  /** The bytes `ReadName` takes once the first byte is a name start. */
  function NameLength(s: Bytes): (n: nat)
    ensures n <= |s|
    ensures forall i :: 0 <= i < n ==> IsNameByte(s[i])
    ensures n < |s| ==> !IsNameByte(s[n])
  {
    if s != [] && IsNameByte(s[0]) then 1 + NameLength(s[1..]) else 0
  }

  datatype Named = Named(name: Bytes, next: Ptr)

  function ReadName(p: Ptr): (r: Named)
    ensures r.next.Some? ==> p.Some? && |r.next.value| < |p.value| && r.name != []
  {
    if LivePtr(p) && IsNameStart(p.value[0])
    then Named(p.value[..NameLength(p.value)], Some(p.value[NameLength(p.value)..]))
    else Named([], None)
  }

  method ReadNameLoop(start: Ptr) returns (r: Named)
    ensures r == ReadName(start)
  {
    var name: Bytes := [];
    if LivePtr(start) && IsNameStart(start.value[0]) {
      var p := start.value;
      ghost var i := 0;
      while Live(p) && IsNameByte(p[0])
        invariant 0 <= i <= |start.value| && p == start.value[i..]
        invariant NameLength(start.value) == i + NameLength(p)
        decreases |p|
      {
        p, i := p[1..], i + 1;
      }
      assert NameLength(p) == 0;
      name := start.value[..|start.value| - |p|];
      return Named(name, Some(p));
    }
    return Named(name, None);
  }

  predicate NameOk(name: Bytes, enc: Encoding) {
    && name != []
    && IsNameStart(name[0])
    && (forall i :: 0 <= i < |name| ==> IsNameByte(name[i]))
    && (enc == Utf8 ==> !StartsWithMark(name))
  }

  lemma {:induction false} NameLengthIs(name: Bytes, rest: Bytes)
    requires forall i :: 0 <= i < |name| ==> IsNameByte(name[i])
    requires rest != [] ==> !IsNameByte(rest[0])
    ensures NameLength(name + rest) == |name|
  {
    if name == [] {
      assert name + rest == rest;
    } else {
      assert (name + rest)[1..] == name[1..] + rest;
      NameLengthIs(name[1..], rest);
    }
  }

  /** A valid name followed by a byte that cannot continue it is read back exactly. */
  lemma ReadNameExact(name: Bytes, rest: Bytes, enc: Encoding)
    requires NameOk(name, enc)
    requires rest != [] ==> !IsNameByte(rest[0])
    ensures ReadName(Some(name + rest)) == Named(name, Some(rest))
  {
    NameLengthIs(name, rest);
    assert (name + rest)[..|name|] == name;
    assert (name + rest)[|name|..] == rest;
  }

  /** White-space skipping leaves a name alone, also when more input follows. */
  lemma NameNotSkipped(name: Bytes, rest: Bytes, enc: Encoding)
    requires NameOk(name, enc)
    requires |rest| > 0 && rest[0] < 0x80
    ensures SkipWhiteSpace(name + rest, enc) == Some(name + rest)
  {
    var s := name + rest;
    assert s[|name|] == rest[0];
    assert |name| >= 3 ==> StartsWithMark(s) == StartsWithMark(name);
  }
}
