/** `CArgs`: a queue of typed values over a byte stream. */
module TypedArguments {
  import opened Prelude
  import opened ByteStream
  import opened WireFormat

  const DEFAULT_BUF_LEN: nat := 1024

  /** A value with its type.  A double is its eight bytes; `Other` stands for
      the types that cannot be stored. */
  datatype CData =
    | DataS8(s8Value: int)
    | DataS16(s16Value: int)
    | DataS32(s32Value: int)
    | DataS64(s64Value: int)
    | DataDouble(dValue: Bytes)
    | DataString(strValue: Bytes)
    | Other(kind: int)
  {
    /** The value is one its C++ type can hold.  A string's length is passed
        as a 32-bit signed number. */
    predicate Fits() {
      match this
      case DataS8(v) => -0x80 <= v < 0x80
      case DataS16(v) => -0x8000 <= v < 0x8000
      case DataS32(v) => -TWO31 <= v < TWO31
      case DataS64(v) => -TWO63 <= v < TWO63
      case DataDouble(b) => |b| == 8
      case DataString(b) => |b| < TWO31
      case Other(k) => -0x80 <= k < 0x80 && !(DATA_TYPE_S8 <= k <= DATA_TYPE_STRING)
    }

    function Type(): int {
      match this
      case DataS8(_) => DATA_TYPE_S8
      case DataS16(_) => DATA_TYPE_S16
      case DataS32(_) => DATA_TYPE_S32
      case DataS64(_) => DATA_TYPE_S64
      case DataDouble(_) => DATA_TYPE_DOUBLE
      case DataString(_) => DATA_TYPE_STRING
      case Other(k) => k
    }
  }

  const DATA_TYPE_S8: int := 1
  const DATA_TYPE_S16: int := 2
  const DATA_TYPE_S32: int := 3
  const DATA_TYPE_S64: int := 4
  const DATA_TYPE_DOUBLE: int := 5
  const DATA_TYPE_STRING: int := 6

  const BYTE: int := 256
  const TWO16: int := 0x1_0000

  /** The bytes of an integer of `k` bytes in memory. */
  function IntBytes(v: int, modulus: int, k: nat): (r: Bytes)
    requires modulus > 0 && -modulus <= v < modulus
    ensures |r| == k
  {
    LittleEndian(Wrap(v, modulus), k)
  }

  /** What a value occupies in the stream after its type. */
  function Payload(d: CData): Bytes
    requires d.Fits()
  {
    match d
    case DataS8(v) => IntBytes(v, BYTE, 1)
    case DataS16(v) => IntBytes(v, TWO16, 2)
    case DataS32(v) => IntBytes(v, TWO32, 4)
    case DataS64(v) => IntBytes(v, TWO64, 8)
    case DataDouble(b) => b
    case DataString(b) => LittleEndian(|b|, 8) + b
    case Other(_) => []
  }

  function Encode(d: CData): (r: Bytes)
    requires d.Fits() && !d.Other?
    ensures r != []
  {
    var code: Byte := d.Type();
    [code] + Payload(d)
  }

  /** A value is stored as one byte for its type and its bytes in memory, lowest
      first; a string as its length in eight bytes and its characters. */
  lemma KnownBytes()
    ensures Encode(DataS8(-1)) == [1, 0xFF] && Encode(DataS16(0x1234)) == [2, 0x34, 0x12]
    ensures Encode(DataS32(-2)) == [3, 0xFE, 0xFF, 0xFF, 0xFF]
    ensures Encode(DataS64(5)) == [4, 5, 0, 0, 0, 0, 0, 0, 0]
    ensures Encode(DataDouble([0, 0, 0, 0, 0, 0, 0xF0, 0x3F])) == [5, 0, 0, 0, 0, 0, 0, 0xF0, 0x3F]
    ensures Encode(DataString([104, 105])) == [6, 2, 0, 0, 0, 0, 0, 0, 0, 104, 105]
  {
    hide IntBytes, LittleEndian;
    SmallNumbers();
    EightBytes(5);
    EightBytes(2);
    assert IntBytes(5, TWO64, 8) == LittleEndian(5, 8) by { PositiveBytes(5); }
    assert [2, 0, 0, 0, 0, 0, 0, 0] + [104, 105] == [2, 0, 0, 0, 0, 0, 0, 0, 104, 105];
  }

  lemma PositiveBytes(n: nat)
    requires n < TWO63
    ensures IntBytes(n, TWO64, 8) == LittleEndian(n, 8)
  {
  }

  lemma SmallNumbers()
    ensures IntBytes(-1, BYTE, 1) == [0xFF] && IntBytes(0x1234, TWO16, 2) == [0x34, 0x12]
    ensures IntBytes(-2, TWO32, 4) == [0xFE, 0xFF, 0xFF, 0xFF]
  {
    assert LittleEndian(0xFF, 1) == [0xFF] + LittleEndian(0, 0);
    assert LittleEndian(0x12, 1) == [0x12] + LittleEndian(0, 0);
    assert LittleEndian(0x1234, 2) == [0x34] + LittleEndian(0x12, 1);
    assert LittleEndian(0xFFFF, 2) == [0xFF] + LittleEndian(0xFF, 1);
    assert LittleEndian(0xFF_FFFF, 3) == [0xFF] + LittleEndian(0xFFFF, 2);
    assert LittleEndian(0xFFFF_FFFE, 4) == [0xFE] + LittleEndian(0xFF_FFFF, 3);
  }

  lemma EightBytes(n: Byte)
    ensures LittleEndian(n, 8) == [n, 0, 0, 0, 0, 0, 0, 0]
  {
    assert LittleEndian(0, 1) == [0] + LittleEndian(0, 0);
    assert LittleEndian(0, 2) == [0] + LittleEndian(0, 1);
    assert LittleEndian(0, 3) == [0] + LittleEndian(0, 2);
    assert LittleEndian(0, 4) == [0] + LittleEndian(0, 3);
    assert LittleEndian(0, 5) == [0] + LittleEndian(0, 4);
    assert LittleEndian(0, 6) == [0] + LittleEndian(0, 5);
    assert LittleEndian(0, 7) == [0] + LittleEndian(0, 6);
    assert LittleEndian(n, 8) == [n] + LittleEndian(0, 7);
  }

  ghost predicate Storable(values: seq<CData>) {
    forall d :: d in values ==> d.Fits() && !d.Other?
  }

  function EncodeAll(values: seq<CData>): Bytes
    requires Storable(values)
  {
    if values == [] then [] else Encode(values[0]) + EncodeAll(values[1..])
  }

  lemma {:induction false} EncodeAllAppends(values: seq<CData>, d: CData)
    requires Storable(values) && d.Fits() && !d.Other?
    ensures Storable(values + [d]) && EncodeAll(values + [d]) == EncodeAll(values) + Encode(d)
  {
    hide Encode;
    if values == [] {
      assert values + [d] == [d];
      assert EncodeAll([]) == [];
      assert EncodeAll([d]) == Encode(d) + [];
    } else {
      EncodeAllAppends(values[1..], d);
      assert (values + [d])[1..] == values[1..] + [d];
      Reassociate(Encode(values[0]), EncodeAll(values[1..]), Encode(d));
    }
  }

  lemma FirstValue(values: seq<CData>)
    requires Storable(values) && values != []
    ensures Storable(values[1..]) && values[0].Fits() && !values[0].Other?
    ensures EncodeAll(values) == [values[0].Type()] + (Payload(values[0]) + EncodeAll(values[1..]))
  {
    hide Payload;
    assert forall e :: e in values[1..] ==> e in values;
  }

  lemma IntRoundTrip(v: int, modulus: int, k: nat)
    requires modulus == Pow256(k) && modulus % 2 == 0 && -(modulus / 2) <= v < modulus / 2
    ensures FromLittleEndian(IntBytes(v, modulus, k)) < modulus
    ensures Signed(FromLittleEndian(IntBytes(v, modulus, k)), modulus) == v
  {
    LittleEndianExact(Wrap(v, modulus), k);
  }

  lemma SmallPowers()
    ensures Pow256(1) == BYTE && Pow256(2) == TWO16 && Pow256(4) == TWO32 && Pow256(8) == TWO64
  {
    Powers();
    assert Pow256(0) == 1 && Pow256(1) == 256;
  }

  lemma SplitEqual(a: Bytes, b: Bytes, x: Bytes, y: Bytes)
    requires a + x == b + y && |a| == |b|
    ensures a == b && x == y
  {
    assert a == (a + x)[..|a|] && b == (b + y)[..|b|];
    assert x == (a + x)[|a|..] && y == (b + y)[|b|..];
  }

  /** The bytes of a value tell where it ends and which value it is. */
  lemma PayloadUnique(d: CData, e: CData, x: Bytes, y: Bytes)
    requires d.Fits() && e.Fits() && !d.Other? && !e.Other? && d.Type() == e.Type()
    requires Payload(d) + x == Payload(e) + y
    ensures d == e && x == y
  {
    hide IntBytes, Pow256, LittleEndian, FromLittleEndian, Signed;
    SmallPowers();
    match d
    case DataS8(v) => IntUnique(v, e.s8Value, BYTE, 1, x, y);
    case DataS16(v) => IntUnique(v, e.s16Value, TWO16, 2, x, y);
    case DataS32(v) => IntUnique(v, e.s32Value, TWO32, 4, x, y);
    case DataS64(v) => IntUnique(v, e.s64Value, TWO64, 8, x, y);
    case DataDouble(b) => SplitEqual(b, e.dValue, x, y);
    case DataString(b) => StringUnique(b, e.strValue, x, y);
  }

  lemma IntUnique(v: int, w: int, modulus: int, k: nat, x: Bytes, y: Bytes)
    requires modulus == Pow256(k) && modulus % 2 == 0
    requires -(modulus / 2) <= v < modulus / 2 && -(modulus / 2) <= w < modulus / 2
    requires IntBytes(v, modulus, k) + x == IntBytes(w, modulus, k) + y
    ensures v == w && x == y
  {
    hide IntBytes, Pow256;
    SplitEqual(IntBytes(v, modulus, k), IntBytes(w, modulus, k), x, y);
    IntRoundTrip(v, modulus, k);
    IntRoundTrip(w, modulus, k);
  }

  lemma StringUnique(a: Bytes, b: Bytes, x: Bytes, y: Bytes)
    requires |a| < TWO31 && |b| < TWO31
    requires LittleEndian(|a|, 8) + a + x == LittleEndian(|b|, 8) + b + y
    ensures a == b && x == y
  {
    var m, n := LittleEndian(|a|, 8), LittleEndian(|b|, 8);
    Reassociate(m, a, x);
    Reassociate(n, b, y);
    SplitEqual(m, n, a + x, b + y);
    assert |a| == |b| by {
      hide LittleEndian, FromLittleEndian;
      SmallPowers();
      LittleEndianExact(|a|, 8);
      LittleEndianExact(|b|, 8);
    }
    SplitEqual(a, b, x, y);
  }

  /** The bytes in the stream determine the values that were put in. */
  lemma {:induction false} BytesDetermineValues(a: seq<CData>, b: seq<CData>)
    requires Storable(a) && Storable(b) && EncodeAll(a) == EncodeAll(b)
    ensures a == b
  {
    hide Payload;
    if a != [] && b != [] {
      FirstValue(a);
      FirstValue(b);
      SplitEqual([a[0].Type()], [b[0].Type()], Payload(a[0]) + EncodeAll(a[1..]), Payload(b[0]) + EncodeAll(b[1..]));
      PayloadUnique(a[0], b[0], EncodeAll(a[1..]), EncodeAll(b[1..]));
      BytesDetermineValues(a[1..], b[1..]);
    }
  }

  // --------------------------------------------------- where the bytes are put

  /** The sizes of the writes that one value makes. */
  function Writes(d: CData): (sizes: seq<nat>)
    requires d.Fits()
  {
    match d
    case DataS8(_) => [1, 1]
    case DataS16(_) => [1, 2]
    case DataS32(_) => [1, 4]
    case DataS64(_) => [1, 8]
    case DataDouble(_) => [1, 8]
    case DataString(b) => [1, 8, |b|]
    case Other(_) => []
  }

  function AfterWrites(c: Cursors, sizes: seq<nat>): (r: Cursors)
    requires c.Ok()
    ensures r.Ok()
    decreases |sizes|
  {
    if sizes == [] then c else AfterWrites(c.AfterIn(sizes[0], DEFAULT_BUF_LEN), sizes[1..])
  }

  /** One of the writes moves more bytes than were read before it. */
  predicate SomeOverlap(c: Cursors, sizes: seq<nat>)
    requires c.Ok()
    decreases |sizes|
  {
    sizes != [] &&
    (c.OverlappingCompaction(sizes[0]) || SomeOverlap(c.AfterIn(sizes[0], DEFAULT_BUF_LEN), sizes[1..]))
  }

  function AfterPushes(c: Cursors, values: seq<CData>): (r: Cursors)
    requires c.Ok() && forall i :: 0 <= i < |values| ==> values[i].Fits()
    ensures r.Ok()
    decreases |values|
  {
    if values == [] then c else AfterPushes(AfterWrites(c, Writes(values[0])), values[1..])
  }

  lemma NoWrites(c: Cursors)
    requires c.Ok()
    ensures AfterWrites(c, []) == c && !SomeOverlap(c, []) && AllDefined([])
  {
  }

  lemma FirstWrite(c: Cursors, sizes: seq<nat>)
    requires c.Ok() && sizes != []
    ensures var d := c.AfterIn(sizes[0], DEFAULT_BUF_LEN);
            && AfterWrites(c, sizes) == AfterWrites(d, sizes[1..])
            && (SomeOverlap(c, sizes) <==> c.OverlappingCompaction(sizes[0]) || SomeOverlap(d, sizes[1..]))
  {
  }

  /** While nothing has been taken out, no write overlaps. */
  lemma {:induction false} FillingNeverOverlaps(c: Cursors, sizes: seq<nat>)
    requires c.Ok() && c.read == 0
    ensures !SomeOverlap(c, sizes) && AfterWrites(c, sizes).read == 0
    decreases |sizes|
  {
    hide Grown;
    if sizes != [] {
      FillingNeverOverlaps(c.AfterIn(sizes[0], DEFAULT_BUF_LEN), sizes[1..]);
    }
  }

  lemma TwoWrites(c: Cursors, m: nat, n: nat)
    requires c.Ok()
    ensures var d := c.AfterIn(m, DEFAULT_BUF_LEN);
            && AfterWrites(c, [m, n]) == d.AfterIn(n, DEFAULT_BUF_LEN)
            && (SomeOverlap(c, [m, n]) <==> c.OverlappingCompaction(m) || d.OverlappingCompaction(n))
  {
    hide Grown, AfterWrites, SomeOverlap, Cursors.AfterIn, Cursors.OverlappingCompaction;
    var d := c.AfterIn(m, DEFAULT_BUF_LEN);
    FirstWrite(c, [m, n]);
    FirstWrite(d, [n]);
    NoWrites(d.AfterIn(n, DEFAULT_BUF_LEN));
    assert [m, n][1..] == [n] && [n][1..] == [];
  }

  lemma {:induction false} NumbersPushed(c: Cursors, values: seq<CData>)
    requires forall i :: 0 <= i < |values| ==> values[i].DataS64? && values[i].Fits()
    requires c.read == 0 && c.max == DEFAULT_BUF_LEN && c.write + 9 * |values| <= c.max
    ensures AfterPushes(c, values) == Cursors(0, c.write + 9 * |values|, c.max)
    decreases |values|
  {
    hide Grown;
    if values != [] {
      TwoWrites(c, 1, 8);
      NumbersPushed(Cursors(0, c.write + 9, c.max), values[1..]);
    }
  }

  /** Any 112 64-bit numbers, one taken out, two more put in: the second of
      them is copied over itself. */
  lemma OverlappingPushWitness(values: seq<CData>, d: CData)
    requires |values| == 112 && forall i :: 0 <= i < |values| ==> values[i].DataS64? && values[i].Fits()
    requires d.DataS64? && d.Fits()
    ensures var c := AfterPushes(Cursors(0, 0, DEFAULT_BUF_LEN), values).AfterOut(1).AfterOut(8);
            !SomeOverlap(c, Writes(d)) && SomeOverlap(AfterWrites(c, Writes(d)), Writes(d))
  {
    hide Grown;
    NumbersPushed(Cursors(0, 0, DEFAULT_BUF_LEN), values);
    var c := Cursors(9, 1008, DEFAULT_BUF_LEN);
    assert Cursors(0, 1008, DEFAULT_BUF_LEN).AfterOut(1).AfterOut(8) == c;
    TwoWrites(c, 1, 8);
    TwoWrites(Cursors(9, 1017, DEFAULT_BUF_LEN), 1, 8);
  }

  lemma AllDefinedSplit(a: seq<Copy>, b: seq<Copy>)
    ensures AllDefined(a + b) <==> AllDefined(a) && AllDefined(b)
  {
    if AllDefined(a + b) {
      assert forall i :: 0 <= i < |a| ==> a[i] == (a + b)[i];
      assert forall i :: 0 <= i < |b| ==> b[i] == (a + b)[|a| + i];
    }
  }

  /** Every payload is written at once but that of a string, which takes two writes. */
  lemma OnePayloadWrite(c: Cursors, data: CData)
    requires c.Ok() && data.Fits() && !data.Other?
    ensures var sizes := Writes(data)[1..];
            if data.DataString? then
              var d := c.AfterIn(8, DEFAULT_BUF_LEN);
              && AfterWrites(c, sizes) == d.AfterIn(|data.strValue|, DEFAULT_BUF_LEN)
              && (SomeOverlap(c, sizes) <==>
                  c.OverlappingCompaction(8) || d.OverlappingCompaction(|data.strValue|))
            else
              && AfterWrites(c, sizes) == c.AfterIn(|Payload(data)|, DEFAULT_BUF_LEN)
              && (SomeOverlap(c, sizes) <==> c.OverlappingCompaction(|Payload(data)|))
  {
    hide Grown, AfterWrites, SomeOverlap, Cursors.AfterIn, Cursors.OverlappingCompaction;
    var sizes := Writes(data)[1..];
    FirstWrite(c, sizes);
    if data.DataString? {
      TwoWrites(c, 8, |data.strValue|);
      assert sizes == [8, |data.strValue|];
    } else {
      assert sizes == [|Payload(data)|] && sizes[1..] == [];
      NoWrites(c.AfterIn(sizes[0], DEFAULT_BUF_LEN));
    }
  }

  class CArgs {
    const stream: TStream
    var dataNum: nat
    /** The values put in and not yet taken out, in order. */
    ghost var values: seq<CData>

    ghost predicate Valid()
      reads this, stream, stream.buffer
    {
      && stream.Valid() && stream.buffLength == DEFAULT_BUF_LEN
      && Storable(values) && stream.Contents() == EncodeAll(values)
      && dataNum == |values|
    }

    constructor ()
      ensures Valid() && values == [] && fresh(stream) && fresh(stream.buffer)
    {
      stream := new TStream(DEFAULT_BUF_LEN);
      dataNum, values := 0, [];
    }

    method Clear()
      requires Valid()
      modifies this, stream, stream.buffer
      ensures Valid() && values == [] && (stream.buffer == old(stream.buffer) || fresh(stream.buffer))
    {
      stream.Clear();
      dataNum, values := 0, [];
    }

    /** `operator<<`: appends a value; a value of another type is ignored.  The
        writes are defined unless one of them has to move more bytes than were
        taken out before it. */
    method Push(data: CData) returns (ghost copies: seq<Copy>)
      requires Valid() && data.Fits()
      modifies this, stream, stream.buffer
      ensures stream.Valid() && (stream.buffer == old(stream.buffer) || fresh(stream.buffer))
      ensures stream.At() == AfterWrites(old(stream.At()), Writes(data))
      ensures AllDefined(copies) <==> !SomeOverlap(old(stream.At()), Writes(data))
      ensures AllDefined(copies) ==> Valid() && values == if data.Other? then old(values) else old(values) + [data]
    {
      hide Payload, Storable, EncodeAll, TStream.Valid, TStream.Contents, TStream.At,
        Grown, AllDefined, AfterWrites, SomeOverlap, Cursors.AfterIn, Cursors.OverlappingCompaction;
      copies := [];
      if data.Type() < DATA_TYPE_S8 || data.Type() > DATA_TYPE_STRING {
        NoWrites(stream.At());
        return;
      }
      EncodeAllAppends(values, data);
      ghost var before := stream.Contents();
      FirstWrite(stream.At(), Writes(data));
      ghost var first := Put([data.Type()]);
      ghost var more := PushPayload(data);
      AllDefinedSplit(first, more);
      copies := first + more;
      Reassociate(before, [data.Type()], Payload(data));
      dataNum := dataNum + 1;
      values := values + [data];
    }

    /** Writes an object that lies in memory of its own. */
    method Put(bytes: Bytes) returns (ghost copies: seq<Copy>)
      requires stream.Valid() && stream.buffLength == DEFAULT_BUF_LEN
      modifies stream, stream.buffer
      ensures stream.Valid() && (stream.buffer == old(stream.buffer) || fresh(stream.buffer))
      ensures stream.At() == old(stream.At()).AfterIn(|bytes|, DEFAULT_BUF_LEN)
      ensures AllDefined(copies) <==> !old(stream.At()).OverlappingCompaction(|bytes|)
      ensures AllDefined(copies) ==> stream.Contents() == old(stream.Contents()) + bytes
    {
      hide TStream.Valid, Grown, AllDefined, Cursors.AfterIn, Cursors.OverlappingCompaction;
      var object' := new Byte[|bytes|](i requires 0 <= i < |bytes| => bytes[i]);
      assert object'[..|bytes|] == bytes;
      copies := stream.In(object', |bytes|);
    }

    method PushPayload(data: CData) returns (ghost copies: seq<Copy>)
      requires stream.Valid() && stream.buffLength == DEFAULT_BUF_LEN && data.Fits() && !data.Other?
      modifies stream, stream.buffer
      ensures stream.Valid() && (stream.buffer == old(stream.buffer) || fresh(stream.buffer))
      ensures stream.At() == AfterWrites(old(stream.At()), Writes(data)[1..])
      ensures AllDefined(copies) <==> !SomeOverlap(old(stream.At()), Writes(data)[1..])
      ensures AllDefined(copies) ==> stream.Contents() == old(stream.Contents()) + Payload(data)
    {
      hide IntBytes, LittleEndian, TStream.Valid, TStream.Contents, Grown, AllDefined, AfterWrites, SomeOverlap,
        Cursors.AfterIn, Cursors.OverlappingCompaction;
      OnePayloadWrite(stream.At(), data);
      match data
      case DataS8(v) => copies := Put(IntBytes(v, BYTE, 1));
      case DataS16(v) => copies := Put(IntBytes(v, TWO16, 2));
      case DataS32(v) => copies := Put(IntBytes(v, TWO32, 4));
      case DataS64(v) => copies := Put(IntBytes(v, TWO64, 8));
      case DataDouble(b) => copies := Put(b);
      case DataString(b) =>
        ghost var first := Put(LittleEndian(|b|, 8));
        ghost var second := Put(b);
        AllDefinedSplit(first, second);
        copies := first + second;
    }

    /** `operator>>`: takes the oldest value. */
    method Pop() returns (data: CData)
      requires Valid() && values != []
      modifies this, stream`read
      ensures Valid()
      ensures old(values) == [data] + values
    {
      hide Payload, EncodeAll, TStream.Valid, TStream.Contents;
      ghost var d, rest := values[0], EncodeAll(values[1..]);
      FirstValue(values);
      var kind := Take(1, [d.Type()], Payload(d) + rest);
      data := PopPayload(kind[0], d, rest);
      dataNum := dataNum - 1;
      values := values[1..];
    }

    /** Copies bytes from the front of the stream and drops them there. */
    method Take(n: nat, ghost bytes: Bytes, ghost rest: Bytes) returns (taken: Bytes)
      requires stream.Valid() && stream.Contents() == bytes + rest && n == |bytes|
      modifies stream`read
      ensures stream.Valid() && stream.Contents() == rest
      ensures taken == bytes
    {
      taken := stream.Buff()[..n];
      assert taken == stream.Contents()[..n];
      stream.Out(n);
    }

    method TakeInt(modulus: int, k: nat, ghost v: int, ghost rest: Bytes) returns (taken: int)
      requires modulus == Pow256(k) && modulus % 2 == 0 && -(modulus / 2) <= v < modulus / 2
      requires stream.Valid() && stream.Contents() == IntBytes(v, modulus, k) + rest
      modifies stream`read
      ensures stream.Valid() && stream.Contents() == rest
      ensures taken == v
    {
      hide IntBytes, Pow256, FromLittleEndian, Signed;
      IntRoundTrip(v, modulus, k);
      var bytes := Take(k, IntBytes(v, modulus, k), rest);
      taken := Signed(FromLittleEndian(bytes), modulus);
    }

    method TakeString(ghost b: Bytes, ghost rest: Bytes) returns (taken: Bytes)
      requires stream.Valid() && |b| < TWO31 && stream.Contents() == LittleEndian(|b|, 8) + b + rest
      modifies stream`read
      ensures stream.Valid() && stream.Contents() == rest
      ensures taken == b
    {
      hide LittleEndian, FromLittleEndian;
      SmallPowers();
      LittleEndianExact(|b|, 8);
      assert LittleEndian(|b|, 8) + b + rest == LittleEndian(|b|, 8) + (b + rest);
      var length := Take(8, LittleEndian(|b|, 8), b + rest);
      taken := Take(FromLittleEndian(length), b, rest);
    }

    method PopPayload(code: Byte, ghost d: CData, ghost rest: Bytes) returns (data: CData)
      requires stream.Valid() && d.Fits() && !d.Other? && code == d.Type()
      requires stream.Contents() == Payload(d) + rest
      modifies stream`read
      ensures stream.Valid() && stream.Contents() == rest
      ensures data == d
    {
      hide Pow256, IntBytes, LittleEndian, TStream.Valid, TStream.Contents;
      SmallPowers();
      if code == DATA_TYPE_S8 {
        var v := TakeInt(BYTE, 1, d.s8Value, rest);
        data := DataS8(v);
      } else if code == DATA_TYPE_S16 {
        var v := TakeInt(TWO16, 2, d.s16Value, rest);
        data := DataS16(v);
      } else if code == DATA_TYPE_S32 {
        var v := TakeInt(TWO32, 4, d.s32Value, rest);
        data := DataS32(v);
      } else if code == DATA_TYPE_S64 {
        var v := TakeInt(TWO64, 8, d.s64Value, rest);
        data := DataS64(v);
      } else if code == DATA_TYPE_DOUBLE {
        var bytes := Take(8, d.dValue, rest);
        data := DataDouble(bytes);
      } else {
        var bytes := TakeString(d.strValue, rest);
        data := DataString(bytes);
      }
    }

    method IsEmpty() returns (empty: bool)
      requires Valid()
      ensures empty <==> values == []
    {
      empty := dataNum == 0;
    }
  }
}
