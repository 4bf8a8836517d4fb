/** The wire format the extension set reads and writes: Protocol Buffers Encoding,
    sections "Base 128 Varints", "Signed Integers", "Non-varint Numbers" and
    "Length-Delimited Records". */
module WireFormat {
  import opened Prelude

  const TWO31: int := 0x8000_0000
  const TWO32: int := 0x1_0000_0000
  const TWO63: int := 0x8000_0000_0000_0000
  const TWO64: int := 0x1_0000_0000_0000_0000

  /** A value and the input behind it. */
  datatype Reading<+T> = Reading(value: T, rest: Bytes)

  // ------------------------------------------------------------------ varints

  /** Seven bits a byte, low bits first, the high bit set on all but the last. */
  function Varint(n: nat): (r: Bytes)
    ensures |r| > 0
  {
    if n < 128 then [n] else [128 + n % 128] + Varint(n / 128)
  }

  /** At most `k` bytes of a varint. */
  function ReadVarint(s: Bytes, k: nat): (r: Option<Reading<nat>>)
    ensures r.Some? ==> |r.value.rest| < |s|
  {
    if s == [] || k == 0 then None
    else if s[0] < 128 then Some(Reading(s[0], s[1..]))
    else match ReadVarint(s[1..], k - 1)
      case None => None
      case Some(r) => Some(Reading(s[0] - 128 + 128 * r.value, r.rest))
  }

  /** `ReadVarint64` and `ReadVarint32` both accept ten bytes and keep the low bits. */
  function ReadVarint64(s: Bytes): (r: Option<Reading<nat>>)
    ensures r.Some? ==> |r.value.rest| < |s|
  {
    match ReadVarint(s, 10) case None => None case Some(r) => Some(Reading(r.value % TWO64, r.rest))
  }

  function ReadVarint32(s: Bytes): (r: Option<Reading<nat>>)
    ensures r.Some? ==> |r.value.rest| < |s|
  {
    match ReadVarint(s, 10) case None => None case Some(r) => Some(Reading(r.value % TWO32, r.rest))
  }

  /** `VarintSize64`; on 32-bit values also `VarintSize32`. */
  function VarintSize(n: nat): nat {
    if n < 0x80 then 1
    else if n < 0x4000 then 2
    else if n < 0x20_0000 then 3
    else if n < 0x1000_0000 then 4
    else if n < 0x8_0000_0000 then 5
    else if n < 0x400_0000_0000 then 6
    else if n < 0x2_0000_0000_0000 then 7
    else if n < 0x100_0000_0000_0000 then 8
    else if n < 0x8000_0000_0000_0000 then 9
    else 10
  }

  lemma VarintSizeStep(n: nat)
    requires 128 <= n < TWO64
    ensures VarintSize(n) == 1 + VarintSize(n / 128) && n / 128 < TWO63
  {
  }

  lemma {:induction false} VarintLength(n: nat)
    requires n < TWO64
    ensures |Varint(n)| == VarintSize(n) <= 10
  {
    if n >= 128 {
      VarintSizeStep(n);
      VarintLength(n / 128);
    }
  }

  lemma {:induction false} ReadVarintExact(n: nat, rest: Bytes, k: nat)
    requires |Varint(n)| <= k
    ensures ReadVarint(Varint(n) + rest, k) == Some(Reading(n, rest))
    decreases k
  {
    var s := Varint(n) + rest;
    if n < 128 {
      assert s[1..] == rest;
    } else {
      assert s[1..] == Varint(n / 128) + rest;
      ReadVarintExact(n / 128, rest, k - 1);
    }
  }

  lemma VarintRoundTrip(n: nat, rest: Bytes)
    requires n < TWO64
    ensures ReadVarint64(Varint(n) + rest) == Some(Reading(n, rest))
    ensures ReadVarint32(Varint(n) + rest) == Some(Reading(n % TWO32, rest))
  {
    VarintLength(n);
    ReadVarintExact(n, rest, 10);
  }

  // ------------------------------------------------------------- fixed widths

  function LittleEndian(n: nat, k: nat): (r: Bytes)
    ensures |r| == k
  {
    if k == 0 then [] else [n % 256] + LittleEndian(n / 256, k - 1)
  }

  function FromLittleEndian(s: Bytes): nat {
    if s == [] then 0 else s[0] + 256 * FromLittleEndian(s[1..])
  }

  function ReadFixed(s: Bytes, k: nat): (r: Option<Reading<nat>>)
    ensures r.Some? ==> |r.value.rest| == |s| - k
  {
    if |s| < k then None else Some(Reading(FromLittleEndian(s[..k]), s[k..]))
  }

  function Pow256(k: nat): nat {
    if k == 0 then 1 else 256 * Pow256(k - 1)
  }

  lemma {:induction false} LittleEndianExact(n: nat, k: nat)
    requires n < Pow256(k)
    ensures FromLittleEndian(LittleEndian(n, k)) == n
  {
    if k > 0 {
      LittleEndianExact(n / 256, k - 1);
      assert LittleEndian(n, k)[1..] == LittleEndian(n / 256, k - 1);
    }
  }

  lemma Powers()
    ensures Pow256(4) == TWO32 && Pow256(8) == TWO64
  {
    assert Pow256(1) == 256 && Pow256(2) == 65536 && Pow256(3) == 0x100_0000 && Pow256(4) == TWO32;
    assert Pow256(5) == 0x100_0000_0000 && Pow256(6) == 0x1_0000_0000_0000 && Pow256(7) == 0x100_0000_0000_0000;
  }

  lemma FixedRoundTrip(n: nat, k: nat, rest: Bytes)
    requires n < Pow256(k)
    ensures ReadFixed(LittleEndian(n, k) + rest, k) == Some(Reading(n, rest))
  {
    var s := LittleEndian(n, k) + rest;
    assert s[..k] == LittleEndian(n, k) && s[k..] == rest;
    LittleEndianExact(n, k);
  }

  // ----------------------------------------------------------- signed numbers

  /** Two's complement: the bit pattern of `n` below `modulus`. */
  function Wrap(n: int, modulus: int): (r: nat)
    requires modulus > 0 && -modulus <= n < modulus
    ensures r < modulus
  {
    if n < 0 then n + modulus else n
  }

  function Signed(n: nat, modulus: int): int
    requires modulus > 0 && n < modulus
  {
    var x: int := n;
    if n >= modulus / 2 then x - modulus else x
  }

  function ZigZag(n: int): nat {
    if n < 0 then -1 - 2 * n else 2 * n
  }

  function UnZigZag(n: nat): int {
    var half: int := n / 2;
    if n % 2 == 0 then half else -half - 1
  }

  lemma ZigZagRoundTrip(n: int)
    ensures UnZigZag(ZigZag(n)) == n
    ensures -TWO31 <= n < TWO31 ==> ZigZag(n) < TWO32
    ensures -TWO63 <= n < TWO63 ==> ZigZag(n) < TWO64
  {
  }

  // ------------------------------------------------------------ length-delimited

  function Delimited(s: Bytes): Bytes {
    Varint(|s|) + s
  }

  function ReadDelimited(s: Bytes): (r: Option<Reading<Bytes>>)
    ensures r.Some? ==> |r.value.value| + |r.value.rest| < |s|
  {
    match ReadVarint32(s)
    case None => None
    case Some(n) =>
      if n.value > |n.rest| then None else Some(Reading(n.rest[..n.value], n.rest[n.value..]))
  }

  lemma DelimitedRoundTrip(s: Bytes, rest: Bytes)
    requires |s| < TWO31
    ensures ReadDelimited(Delimited(s) + rest) == Some(Reading(s, rest))
  {
    VarintRoundTrip(|s|, s + rest);
    assert Delimited(s) + rest == Varint(|s|) + (s + rest);
    assert (s + rest)[..|s|] == s && (s + rest)[|s|..] == rest;
  }

  /** The input that a length in front of it leaves to a field: `PushLimit`
      keeps to the enclosing limit when the length goes beyond it. */
  function ReadLimited(s: Bytes): (r: Option<Reading<Bytes>>)
    ensures r.Some? ==> |r.value.value| + |r.value.rest| < |s|
    ensures ReadDelimited(s).Some? ==> r == ReadDelimited(s)
  {
    match ReadVarint32(s)
    case None => None
    case Some(n) =>
      var k := Min(n.value, |n.rest|);
      Some(Reading(n.rest[..k], n.rest[k..]))
  }

  // --------------------------------------------------------------------- tags

  const MAX_NUMBER: nat := 0x2000_0000

  predicate NumberOk(number: nat) {
    1 <= number < MAX_NUMBER
  }

  const VARINT: nat := 0
  const FIXED64: nat := 1
  const LENGTH_DELIMITED: nat := 2
  const START_GROUP: nat := 3
  const END_GROUP: nat := 4
  const FIXED32: nat := 5

  function MakeTag(number: nat, wireType: nat): nat {
    number * 8 + wireType
  }

  /** Field number and wire type; absent when the tag is malformed or zero. */
  function ReadTag(s: Bytes): (r: Option<Reading<(nat, nat)>>)
    ensures r.Some? ==> |r.value.rest| < |s|
  {
    match ReadVarint32(s)
    case None => None
    case Some(t) => if t.value == 0 then None else Some(Reading((t.value / 8, t.value % 8), t.rest))
  }

  lemma TagRoundTrip(number: nat, wireType: nat, rest: Bytes)
    requires NumberOk(number) && wireType < 8
    ensures ReadTag(Varint(MakeTag(number, wireType)) + rest) == Some(Reading((number, wireType), rest))
  {
    VarintRoundTrip(MakeTag(number, wireType), rest);
  }
}
