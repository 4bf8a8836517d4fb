/** UTF-8 in TinyXML: the lead-byte table and the conversion of character
    references. */
module XmlUtf8 {
  import opened Prelude

  /** `utf8ByteTable`: sequence length by lead byte, 1 for invalid leads. */
  function ByteTable(b: Byte): (n: nat)
    ensures 1 <= n <= 4
  {
    if b < 0xC2 then 1
    else if b < 0xE0 then 2
    else if b < 0xF0 then 3
    else if b < 0xF5 then 4
    else 1
  }

  function ConvertedLength(input: nat): nat {
    if input < 0x80 then 1
    else if input < 0x800 then 2
    else if input < 0x10000 then 3
    else if input < 0x200000 then 4
    else 0
  }

  /** `(input | 0x80) & 0xBF`, cut to a byte: the low six bits under the mark 10. */
  function Continuation(input: nat): Byte {
    0x80 + input % 64
  }

  function FirstByteMark(length: nat): Byte {
    if length == 2 then 0xC0 else if length == 3 then 0xE0 else if length == 4 then 0xF0 else 0
  }

  /** On machine words the masks and shifts of the code are the arithmetic used
      here: `x` is what is left of the input, `first` what is left for the first
      byte. */
  lemma MaskIsArithmetic(x: bv32, first: bv8)
    ensures (x | 0x80) & 0xBF == 0x80 + x % 64 && x >> 6 == x / 64
    ensures ((first | 0x80) & 0xBF) as int == 0x80 + (first as int) % 64
    ensures first < 0x20 ==> (first | 0xC0) as int == first as int + 0xC0
    ensures first < 0x10 ==> (first | 0xE0) as int == first as int + 0xE0
    ensures first < 0x08 ==> (first | 0xF0) as int == first as int + 0xF0
  {
    assert (first | 0x80) & 0xBF == 0x80 | (first & 0x3F);
  }

  /** What `ConvertUTF32ToUTF8` writes, as a value. */
  function Convert(input: nat): (out: Bytes)
    ensures |out| == ConvertedLength(input)
  {
    if input < 0x80 then [input]
    else if input < 0x800 then [0xC0 + input / 64, Continuation(input)]
    else if input < 0x10000 then
      [0xE0 + input / 64 / 64, Continuation(input / 64), Continuation(input)]
    else if input < 0x200000 then
      [0xF0 + input / 64 / 64 / 64, Continuation(input / 64 / 64), Continuation(input / 64), Continuation(input)]
    else []
  }

  /** `ConvertUTF32ToUTF8`: fills the buffer backwards, falling from case to case. */
  method ConvertUTF32ToUTF8(input: nat, output: array<Byte>) returns (length: nat)
    requires output.Length >= 4
    modifies output
    ensures length == ConvertedLength(input)
    ensures output[..length] == Convert(input)
    ensures output[length..] == old(output[length..])
  {
    length := ConvertedLength(input);
    if length == 0 {
      return;
    }
    var at, x := length, input;
    if length >= 4 {
      at := at - 1;
      output[at] := Continuation(x);
      x := x / 64;
    }
    if length >= 3 {
      at := at - 1;
      output[at] := Continuation(x);
      x := x / 64;
    }
    if length >= 2 {
      at := at - 1;
      output[at] := Continuation(x);
      x := x / 64;
    }
    at := at - 1;
    output[at] := x + FirstByteMark(length);
    assert output[..length] == Convert(input);
  }

  /** The bits of the first byte that belong to the value. */
  function Lead(s: Bytes): nat
    requires 1 <= |s| <= 4
  {
    if |s| == 1 then s[0] else if |s| == 2 then s[0] % 32 else if |s| == 3 then s[0] % 16 else s[0] % 8
  }

  /** The value of the first `k` bytes. */
  function Value(s: Bytes, k: nat): nat
    requires 1 <= k <= |s| <= 4
  {
    if k == 1 then Lead(s) else Push(Value(s, k - 1), s[k - 1])
  }

  /** The value a UTF-8 sequence stands for: section 3 of RFC 3629. */
  function Decode(s: Bytes): nat
    requires 1 <= |s| <= 4
  {
    Value(s, |s|)
  }

  /** Six more bits. */
  function Push(high: nat, low: Byte): nat {
    high * 64 + low % 64
  }

  predicate IsContinuation(b: Byte) {
    0x80 <= b < 0xC0
  }

  /** The shapes of section 3 of RFC 3629, without its upper bound on the value. */
  predicate IsSequence(s: Bytes) {
    && 1 <= |s| <= 4
    && (forall i :: 1 <= i < |s| ==> IsContinuation(s[i]))
    && (|s| == 1 ==> s[0] < 0x80)
    && (|s| == 2 ==> 0xC0 <= s[0] < 0xE0)
    && (|s| == 3 ==> 0xE0 <= s[0] < 0xF0)
    && (|s| == 4 ==> 0xF0 <= s[0] < 0xF8)
  }

  /** The encoding decodes back to its input, and no shorter sequence does. */
  lemma ConvertIsShortestInverse(input: nat, s: Bytes)
    requires input < 0x200000
    ensures IsSequence(Convert(input)) && Decode(Convert(input)) == input
    ensures IsSequence(s) && Decode(s) == input ==> |Convert(input)| <= |s|
    ensures IsSequence(s) && Decode(s) == input && |s| == |Convert(input)| ==> s == Convert(input)
  {
    ConvertDecodes(input);
    if IsSequence(s) && Decode(s) == input {
      SequenceBound(s);
      if |s| == |Convert(input)| {
        ValueInjective(s, Convert(input), |s|);
      }
    }
  }

  lemma ConvertDecodes(input: nat)
    requires input < 0x200000
    ensures IsSequence(Convert(input)) && Decode(Convert(input)) == input
  {
    var a := input / 64;
    var b := a / 64;
    PushSplit(input);
    PushSplit(a);
    PushSplit(b);
    if 0x80 <= input < 0x800 {
      Decode2(a, Continuation(input));
    } else if 0x800 <= input < 0x10000 {
      Decode3(b, Continuation(a), Continuation(input));
    } else if 0x10000 <= input {
      Decode4(b / 64, Continuation(b), Continuation(a), Continuation(input));
    }
  }

  lemma LeadBits(h: nat)
    ensures h < 0x20 ==> (0xC0 + h) % 32 == h
    ensures h < 0x10 ==> (0xE0 + h) % 16 == h
    ensures h < 0x08 ==> (0xF0 + h) % 8 == h
  {
  }

  lemma ValueUnfold(s: Bytes)
    requires 1 <= |s| <= 4
    ensures |s| >= 2 ==> Value(s, 2) == Push(Lead(s), s[1])
    ensures |s| >= 3 ==> Value(s, 3) == Push(Value(s, 2), s[2])
    ensures |s| >= 4 ==> Value(s, 4) == Push(Value(s, 3), s[3])
  {
  }

  lemma Decode2(h: nat, x: Byte)
    requires h < 0x20 && IsContinuation(x)
    ensures IsSequence([0xC0 + h, x]) && Decode([0xC0 + h, x]) == Push(h, x)
  {
    hide Push;
    ValueUnfold([0xC0 + h, x]);
    LeadBits(h);
  }

  lemma Decode3(h: nat, x: Byte, y: Byte)
    requires h < 0x10 && IsContinuation(x) && IsContinuation(y)
    ensures IsSequence([0xE0 + h, x, y]) && Decode([0xE0 + h, x, y]) == Push(Push(h, x), y)
  {
    hide Push;
    ValueUnfold([0xE0 + h, x, y]);
    LeadBits(h);
  }

  lemma Decode4(h: nat, x: Byte, y: Byte, z: Byte)
    requires h < 0x08 && IsContinuation(x) && IsContinuation(y) && IsContinuation(z)
    ensures IsSequence([0xF0 + h, x, y, z]) && Decode([0xF0 + h, x, y, z]) == Push(Push(Push(h, x), y), z)
  {
    hide Push;
    ValueUnfold([0xF0 + h, x, y, z]);
    LeadBits(h);
  }

  lemma PushSplit(x: nat)
    ensures Push(x / 64, Continuation(x)) == x
  {
  }

  lemma PushInjective(h: nat, l: Byte, h': nat, l': Byte)
    requires Push(h, l) == Push(h', l')
    requires IsContinuation(l) && IsContinuation(l')
    ensures h == h' && l == l'
  {
    assert l % 64 == l - 0x80 && l' % 64 == l' - 0x80;
  }

  lemma SequenceBound(s: Bytes)
    requires IsSequence(s)
    ensures |s| == 1 ==> Decode(s) < 0x80
    ensures |s| <= 2 ==> Decode(s) < 0x800
    ensures |s| <= 3 ==> Decode(s) < 0x10000
  {
    ValueUnfold(s);
  }

  lemma LeadInjective(s: Bytes, t: Bytes)
    requires IsSequence(s) && IsSequence(t) && |s| == |t| && Lead(s) == Lead(t)
    ensures s[0] == t[0]
  {
    var m := if |s| == 2 then 0xC0 else if |s| == 3 then 0xE0 else 0xF0;
    if |s| > 1 {
      LeadBits(s[0] - m);
      LeadBits(t[0] - m);
    }
  }

  lemma {:induction false} ValueInjective(s: Bytes, t: Bytes, k: nat)
    requires IsSequence(s) && IsSequence(t) && |s| == |t| && 1 <= k <= |s|
    requires Value(s, k) == Value(t, k)
    ensures forall i :: 0 <= i < k ==> s[i] == t[i]
    decreases k
  {
    hide Push, Lead;
    if k == 1 {
      LeadInjective(s, t);
    } else {
      PushInjective(Value(s, k - 1), s[k - 1], Value(t, k - 1), t[k - 1]);
      ValueInjective(s, t, k - 1);
    }
  }

  /** The lead-byte table agrees with the length written up to U+13FFFF, which
      covers every scalar value; from there to 0x1FFFFF the lead is called invalid. */
  lemma TableMatchesConvert(input: nat)
    requires input < 0x200000
    ensures ByteTable(Convert(input)[0]) == |Convert(input)| <==> input < 0x140000
  {
  }
}
