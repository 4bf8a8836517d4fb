/** Escaping and reading back character data: `EncodeString`, `GetEntity`,
    `GetChar` and `ReadText`. */
module XmlText {
  import opened Prelude
  import opened XmlBytes
  import opened XmlUtf8

  // The entity table, in its order.
  const AMP_ENTITY: Bytes := [38, 97, 109, 112, 59]        // &amp;
  const LT_ENTITY: Bytes := [38, 108, 116, 59]             // &lt;
  const GT_ENTITY: Bytes := [38, 103, 116, 59]             // &gt;
  const QUOT_ENTITY: Bytes := [38, 113, 117, 111, 116, 59] // &quot;
  const APOS_ENTITY: Bytes := [38, 97, 112, 111, 115, 59]  // &apos;

  // ---------------------------------------------------------------- encoding

  function HexUpper(d: nat): Byte
    requires d < 16
  {
    if d < 10 then 48 + d else 55 + d
  }

  function EncodeByte(c: Byte): (r: Bytes)
    ensures 1 <= |r| <= 6
    ensures r == [c] || r[0] == AMP
    ensures r[0] != QUOT && r[0] != APOS && r[0] != LT
  {
    if c == AMP then AMP_ENTITY
    else if c == LT then LT_ENTITY
    else if c == GT then GT_ENTITY
    else if c == QUOT then QUOT_ENTITY
    else if c == APOS then APOS_ENTITY
    else if c < 32 then [AMP, HASH, LOWER_X, HexUpper(c / 16), HexUpper(c % 16), SEMI]
    else [c]
  }

  /** The text starts with what the encoder takes for a hexadecimal reference. */
  predicate StartsRef(v: Bytes) {
    |v| >= 3 && v[0] == AMP && v[1] == HASH && v[2] == LOWER_X
  }

  predicate HasRef(v: Bytes) {
    |v| >= 3 && (StartsRef(v) || HasRef(v[1..]))
  }

  /** How many bytes the pass-through copies: up to the first `;` after the first
      byte, or all but the last byte. */
  function PassLength(v: Bytes): (k: nat)
    requires |v| >= 2
    ensures 1 <= k < |v|
    ensures k < |v| - 1 ==> v[k] == SEMI
    ensures forall i :: 1 <= i < k ==> v[i] != SEMI
  {
    if v[1] == SEMI || |v| == 2 then 1 else 1 + PassLength(v[1..])
  }

  /** What `EncodeString` appends. */
  function Encode(v: Bytes): Bytes {
    if v == [] then []
    else if StartsRef(v) then v[..PassLength(v)] + Encode(v[PassLength(v)..])
    else EncodeByte(v[0]) + Encode(v[1..])
  }

  /** The inner loop of `EncodeString`: copies a reference unchanged.  The first
      round cannot stop, since the byte after the `&` is `#`. */
  method PassReference(str: Bytes, outString: Bytes, start: nat) returns (r: Bytes, i: nat)
    requires start < |str| && StartsRef(str[start..])
    ensures i == start + PassLength(str[start..])
    ensures r == outString + str[start..i]
  {
    r, i := outString, start;
    ghost var n := PassLength(str[start..]);
    while i < |str| - 1
      invariant start <= i < |str|
      invariant r == outString + str[start..i]
      invariant n == if i < |str| - 1 then i - start + PassLength(str[i..]) else i - start
    {
      PassLengthStep(str[i..]);
      assert str[i..][1..] == str[i + 1..];
      r := r + [str[i]];
      i := i + 1;
      if str[i] == SEMI {
        break;
      }
    }
  }

  /** `EncodeString`. */
  method EncodeString(str: Bytes, outString: Bytes) returns (r: Bytes)
    ensures r == outString + Encode(str)
  {
    hide EncodeByte, PassLength;
    r := outString;
    var i := 0;
    while i < |str|
      invariant 0 <= i <= |str|
      invariant r + Encode(str[i..]) == outString + Encode(str)
    {
      var c := str[i];
      EncodeUnfold(str[i..]);
      ghost var before, from := r, i;
      if c == AMP && i < |str| - 2 && str[i + 1] == HASH && str[i + 2] == LOWER_X {
        assert StartsRef(str[i..]);
        r, i := PassReference(str, r, i);
        assert str[from..][..i - from] == str[from..i] && str[from..][i - from..] == str[i..];
        Reassociate(before, str[from..i], Encode(str[i..]));
      } else {
        assert !StartsRef(str[i..]);
        r := r + EncodeByte(c);
        i := i + 1;
        assert str[from..][1..] == str[i..];
        Reassociate(before, EncodeByte(c), Encode(str[i..]));
      }
    }
    assert str[i..] == [];
  }

  lemma EncodeUnfold(v: Bytes)
    requires v != []
    ensures StartsRef(v) ==> Encode(v) == v[..PassLength(v)] + Encode(v[PassLength(v)..])
    ensures !StartsRef(v) ==> Encode(v) == EncodeByte(v[0]) + Encode(v[1..])
  {
  }

  lemma PassLengthStep(v: Bytes)
    requires |v| >= 2
    ensures PassLength(v) == if v[1] == SEMI || |v| == 2 then 1 else 1 + PassLength(v[1..])
  {
  }

  // ---------------------------------------------------------------- decoding

  /** What one read step appends, and where it leaves the pointer. */
  datatype Read = Read(bytes: Bytes, next: Ptr)

  const WORD: nat := 0x1_0000_0000

  /** `strchr(s + i, c)`, as an index. */
  function FindByte(s: Bytes, i: nat, c: Byte): (r: Option<nat>)
    requires c != 0
    ensures r.Some? ==> i <= r.value < |s| && s[r.value] == c && NulFree(s[i..r.value])
    ensures r.Some? ==> forall j :: i <= j < r.value ==> s[j] != c
    decreases |s| - i
  {
    if i >= |s| || s[i] == 0 then None
    else if s[i] == c then Some(i)
    else
      var r := FindByte(s, i + 1, c);
      assert r.Some? ==> s[i..r.value] == [s[i]] + s[i + 1..r.value];
      r
  }

  function DigitValue(b: Byte, hex: bool): Option<nat> {
    if 48 <= b <= 57 then Some(b - 48)
    else if hex && 97 <= b <= 102 then Some(b - 87)
    else if hex && 65 <= b <= 70 then Some(b - 55)
    else None
  }

  /** The digit loop of `GetEntity`: backwards from the semicolon to the marker
      `x` or `#`, with its 32-bit place value. */
  function ScanBack(s: Bytes, hex: bool, mult: nat, ucs: nat): Option<nat> {
    if s == [] then None
    else
      var b := s[|s| - 1];
      if b == (if hex then LOWER_X else HASH) then Some(ucs)
      else match DigitValue(b, hex)
        case None => None
        case Some(d) => ScanBack(s[..|s| - 1], hex, mult * (if hex then 16 else 10) % WORD, ucs + mult * d % WORD)
  }

  function GetEntity(s: Bytes, enc: Encoding): (r: Read)
    requires |s| > 0
    ensures r.next.Some? ==> |r.next.value| < |s|
  {
    if At(s, 1) == HASH && At(s, 2) != 0 then
      var hex := At(s, 2) == LOWER_X;
      if hex && At(s, 3) == 0 then Read([], None)
      else match FindByte(s, if hex then 3 else 2, SEMI)
        case None => Read([], None)
        case Some(k) =>
          match ScanBack(s[..k], hex, 1, 0)
          case None => Read([], None)
          case Some(ucs) => Read(if enc == Utf8 then Convert(ucs) else [ucs % 256], Some(s[k + 1..]))
    else if StartsWith(s, AMP_ENTITY) then Read([AMP], Some(s[5..]))
    else if StartsWith(s, LT_ENTITY) then Read([LT], Some(s[4..]))
    else if StartsWith(s, GT_ENTITY) then Read([GT], Some(s[4..]))
    else if StartsWith(s, QUOT_ENTITY) then Read([QUOT], Some(s[6..]))
    else if StartsWith(s, APOS_ENTITY) then Read([APOS], Some(s[6..]))
    else Read([], Some(s[1..]))
  }

  /** The multi-byte copy of `GetChar` stops at a NUL but still steps over the
      whole length; the bytes it did not copy are zero and are appended. */
  function CopyChar(s: Bytes, n: nat): (r: Bytes)
    ensures |r| == n
  {
    if n == 0 then []
    else if !Live(s) then seq(n, _ => 0)
    else [s[0]] + CopyChar(s[1..], n - 1)
  }

  function GetChar(s: Bytes, enc: Encoding): (r: Read)
    requires |s| > 0
    ensures r.next.Some? ==> |r.next.value| < |s|
  {
    var length := if enc == Utf8 then ByteTable(s[0]) else 1;
    if length == 1 then
      if s[0] == AMP then GetEntity(s, enc) else Read([s[0]], Some(s[1..]))
    else Read(CopyChar(s, length), Some(Drop(s, length)))
  }

  /** `p && *p && !StringEqual(p, endTag)` */
  predicate MoreText(p: Ptr, endTag: Bytes) {
    LivePtr(p) && !StartsWith(p.value, endTag)
  }

  /** The loop of `ReadText` that keeps white space. */
  function ReadKept(p: Ptr, endTag: Bytes, enc: Encoding): (r: Read)
    ensures r.next.Some? ==> p.Some? && |r.next.value| <= |p.value|
    ensures LivePtr(r.next) ==> StartsWith(r.next.value, endTag)
    ensures MoreText(p, endTag) && r.next.Some? ==> |r.next.value| < |p.value|
    decreases p.Some?, if p.Some? then |p.value| else 0
  {
    if !MoreText(p, endTag) then Read([], p)
    else
      var c := GetChar(p.value, enc);
      var r := ReadKept(c.next, endTag, enc);
      Read(c.bytes + r.bytes, r.next)
  }

  /** The loop of `ReadText` that condenses white space; `gap` says that some
      has been seen since the last character. */
  function ReadCondensed(p: Ptr, gap: bool, endTag: Bytes, enc: Encoding): (r: Read)
    ensures r.next.Some? ==> p.Some? && |r.next.value| <= |p.value|
    ensures LivePtr(r.next) ==> StartsWith(r.next.value, endTag)
    ensures MoreText(p, endTag) && r.next.Some? ==> |r.next.value| < |p.value|
    decreases p.Some?, if p.Some? then |p.value| else 0
  {
    if !MoreText(p, endTag) then Read([], p)
    else if IsWhiteSpace(p.value[0]) then ReadCondensed(Some(p.value[1..]), true, endTag, enc)
    else
      var c := GetChar(p.value, enc);
      var r := ReadCondensed(c.next, false, endTag, enc);
      Read((if gap then [SPACE] else []) + c.bytes + r.bytes, r.next)
  }

  /** The end of `ReadText`: step over the end tag; null if nothing follows. */
  function PastEndTag(r: Read, endTag: Bytes): (q: Read)
    ensures q.next.Some? ==> r.next.Some? && |q.next.value| <= |r.next.value| - |endTag|
  {
    if LivePtr(r.next) && StartsWith(r.next.value, endTag)
    then Read(r.bytes, NullIfEnd(r.next.value[|endTag|..]))
    else Read(r.bytes, None)
  }

  /** `ReadText(p, text, trim && condense, endTag, false)` */
  function ReadText(s: Bytes, condense: bool, endTag: Bytes, enc: Encoding): Read {
    if condense
    then PastEndTag(match SkipWhiteSpace(s, enc)
                    case None => Read([], None)
                    case Some(t) => ReadCondensed(Some(t), false, endTag, enc), endTag)
    else PastEndTag(ReadKept(Some(s), endTag, enc), endTag)
  }
}
