/** Numeric character references as a writer puts them down, least significant
    digit last, and what `GetEntity` makes of them. */
module XmlReferences {
  import opened Prelude
  import opened XmlBytes
  import opened XmlUtf8
  import opened XmlText
  import opened XmlTextLaws

  const LOWER_DIGITS := "0123456789abcdef"
  const UPPER_DIGITS := "0123456789ABCDEF"

  /** The byte stands for the digit, in either letter case. */
  predicate IsDigitOf(b: Byte, d: nat) {
    d < 16 && (b == LOWER_DIGITS[d] as int || b == UPPER_DIGITS[d] as int)
  }

  /** The bytes are the number written in the base, with any leading zeros; no
      digits at all are the number zero. */
  predicate Writes(t: Bytes, n: nat, base: nat)
    requires base >= 2
  {
    if t == [] then n == 0
    else IsDigitOf(t[|t| - 1], n % base) && Writes(t[..|t| - 1], n / base, base)
  }

  /** The usual way to write a number. */
  function Digits(n: nat, base: nat, upper: bool): Bytes
    requires 2 <= base <= 16
  {
    var d := (if upper then UPPER_DIGITS else LOWER_DIGITS)[n % base] as int;
    if n < base then [d] else Digits(n / base, base, upper) + [d]
  }

  lemma {:induction false} DigitsWrite(n: nat, base: nat, upper: bool)
    requires 2 <= base <= 16
    ensures Writes(Digits(n, base, upper), n, base)
  {
    var t := Digits(n, base, upper);
    if n >= base {
      DigitsWrite(n / base, base, upper);
      assert t[..|t| - 1] == Digits(n / base, base, upper);
    }
  }

  function Base(hex: bool): nat {
    if hex then 16 else 10
  }

  function Marker(hex: bool): Byte {
    if hex then LOWER_X else HASH
  }

  lemma DigitRead(b: Byte, d: nat, hex: bool)
    ensures d < Base(hex) && IsDigitOf(b, d) ==>
              DigitValue(b, hex) == Some(d) && b != Marker(hex) && b != SEMI && b != 0 && b != LOWER_X
    ensures DigitValue(b, hex) == Some(d) ==> d < Base(hex) && IsDigitOf(b, d)
  {
  }

  lemma ScanStep(s: Bytes, b: Byte, hex: bool, mult: nat, ucs: nat)
    requires b != Marker(hex)
    ensures ScanBack(s + [b], hex, mult, ucs) ==
            match DigitValue(b, hex)
            case None => None
            case Some(d) => ScanBack(s, hex, mult * Base(hex) % WORD, ucs + mult * d % WORD)
  {
    assert (s + [b])[..|s|] == s;
  }

  // -------------------------------------------- the place value of 32 bits

  lemma DivModUnique(x: int, m: nat, q: int, r: nat)
    requires m > 0 && r < m && x == m * q + r
    ensures x / m == q && x % m == r
  {
    var p, t := x / m, x % m;
    assert x == m * p + t;
    assert m * (p - q) == m * p - m * q == r - t;
    Squeezed(m, p - q);
  }

  /** A multiple of the modulus is zero, or no closer to zero than the modulus. */
  lemma Squeezed(m: int, k: int)
    requires m > 0
    ensures k >= 1 ==> m * k >= m
    ensures k <= -1 ==> m * k <= -m
  {
  }

  lemma ModTimes(x: nat, y: nat, m: nat)
    requires m > 0
    ensures (x % m) * y % m == x * y % m
  {
    var q, r := x / m, x % m;
    assert x * y == m * (q * y) + r * y by {
      assert x == m * q + r;
      assert (m * q + r) * y == (m * q) * y + r * y;
      assert (m * q) * y == m * (q * y);
    }
    ModPlus(r * y, q * y, m);
  }

  lemma ModPlus(x: int, k: int, m: nat)
    requires m > 0
    ensures (m * k + x) % m == x % m
  {
    assert x == m * (x / m) + x % m;
    assert m * k + m * (x / m) == m * (k + x / m);
    DivModUnique(m * k + x, m, k + x / m, x % m);
  }

  lemma ModSum(x: int, y: int, m: nat)
    requires m > 0
    ensures (x % m + y) % m == (x + y) % m
  {
    ModPlus(x % m + y, x / m, m);
    assert x == m * (x / m) + x % m;
  }

  /** A number is its last digit and the rest, at any place value. */
  lemma SplitDigit(mult: nat, n: nat, base: nat)
    requires base > 0
    ensures mult * n == mult * (n % base) + (mult * base) * (n / base)
  {
    assert n == base * (n / base) + n % base;
    assert mult * (base * (n / base) + n % base) == mult * (base * (n / base)) + mult * (n % base);
    assert mult * (base * (n / base)) == (mult * base) * (n / base);
  }

  /** One digit of the loop, modulo the word. */
  lemma DigitModulo(mult: nat, n: nat, base: nat, ucs: nat)
    requires base > 0
    ensures ((ucs + mult * (n % base) % WORD) + (mult * base % WORD) * (n / base)) % WORD == (ucs + mult * n) % WORD
  {
    var d, q := n % base, n / base;
    var low, high := mult * d, (mult * base % WORD) * q;
    SplitDigit(mult, n, base);
    ModTimes(mult * base, q, WORD);
    assert high % WORD == (mult * base) * q % WORD;
    ModSum(low, ucs + high, WORD);
    ModSum(high, ucs + low, WORD);
    ModSum((mult * base) * q, ucs + low, WORD);
  }

  /** One digit of the loop, while the number fits the word. */
  lemma DigitExact(mult: nat, n: nat, base: nat)
    requires base > 0 && mult * n < WORD
    ensures mult * (n % base) % WORD + (mult * base % WORD) * (n / base) == mult * n
    ensures (mult * base % WORD) * (n / base) < WORD
  {
    var d, q := n % base, n / base;
    SplitDigit(mult, n, base);
    Product(mult, d);
    Product(mult * base, q);
    Product(mult * base % WORD, q);
    if q > 0 {
      DivModUnique(mult * base, WORD, 0, mult * base);
    }
    DivModUnique(mult * d, WORD, 0, mult * d);
  }

  lemma Product(m: nat, q: nat)
    ensures 0 <= m * q && (q > 0 ==> m <= m * q) && (q == 0 ==> m * q == 0)
  {
  }

  /** The place values of the hexadecimal loop: the ninth digit has none. */
  predicate HexPlace(mult: nat) {
    mult == 0 || mult == 1 || mult == 0x10 || mult == 0x100 || mult == 0x1000 || mult == 0x1_0000 ||
    mult == 0x10_0000 || mult == 0x100_0000 || mult == 0x1000_0000
  }

  lemma HexDigitExact(mult: nat, n: nat)
    requires HexPlace(mult)
    ensures mult * (n % 16) % WORD + (mult * 16 % WORD) * (n / 16) % WORD == mult * n % WORD
    ensures HexPlace(mult * 16 % WORD)
  {
    if mult == 0 {
      assert mult * (n % 16) == 0 && mult * n == 0 && (mult * 16 % WORD) * (n / 16) == 0;
    } else {
      HexSum(mult, n, WORD / (16 * mult));
    }
  }

  /** `m`, the next place, divides the word `c` times. */
  lemma HexSum(mult: nat, n: nat, c: nat)
    requires mult > 0 && mult * 16 * c == WORD
    ensures mult * (n % 16) % WORD + (mult * 16 % WORD) * (n / 16) % WORD == mult * n % WORD
  {
    var m, d, q := mult * 16, n % 16, n / 16;
    var h, l := q / c, q % c;
    SplitDigit(m, q, c);
    Commute(m, c, h);
    LowPart(m, l, c);
    LowPart(mult, d, 16);
    SplitDigit(mult, n, 16);
    DivModUnique(mult * n, WORD, h, mult * d + m * l);
    DivModUnique(m * q, WORD, h, m * l);
    ModTimes(m, q, WORD);
    DivModUnique(mult * d, WORD, 0, mult * d);
  }

  lemma Commute(m: nat, c: nat, h: nat)
    ensures (m * c) * h == m * (c * h)
  {
  }

  lemma LowPart(m: nat, l: nat, c: nat)
    requires m > 0 && l < c
    ensures 0 <= m * l <= m * c - m
  {
    assert m * l <= m * (c - 1) == m * c - m;
  }

  /** The digit loop reads a number written at the end of the bytes before the
      semicolon: modulo the word in any case, and exactly if it fits; of a
      hexadecimal one it keeps the low eight digits. */
  lemma {:induction false} ScanWritten(s: Bytes, t: Bytes, n: nat, hex: bool, mult: nat, ucs: nat)
    requires Writes(t, n, Base(hex))
    ensures var r := ScanBack(s + [Marker(hex)] + t, hex, mult, ucs);
            && r.Some?
            && r.value % WORD == (ucs + mult * n) % WORD
            && (mult * n < WORD ==> r.value == ucs + mult * n)
            && (hex && HexPlace(mult) ==> r.value == ucs + mult * n % WORD)
    decreases |t|
  {
    hide DigitValue, ScanBack, HexPlace, IsDigitOf;
    var base := Base(hex);
    if t == [] {
      ScanEnd(s, hex, mult, ucs);
      assert s + [Marker(hex)] + t == s + [Marker(hex)];
      assert mult * n == 0;
    } else {
      var b, u := t[|t| - 1], t[..|t| - 1];
      var d, q := n % base, n / base;
      assert t == u + [b];
      Reassociate(s + [Marker(hex)], u, [b]);
      DigitRead(b, d, hex);
      ScanStep(s + [Marker(hex)] + u, b, hex, mult, ucs);
      ScanWritten(s, u, q, hex, mult * base % WORD, ucs + mult * d % WORD);
      DigitModulo(mult, n, base, ucs);
      if mult * n < WORD {
        DigitExact(mult, n, base);
      }
      if hex && HexPlace(mult) {
        HexDigitExact(mult, n);
      }
    }
  }

  lemma ScanEnd(s: Bytes, hex: bool, mult: nat, ucs: nat)
    ensures ScanBack(s + [Marker(hex)], hex, mult, ucs) == Some(ucs)
  {
  }

  // ------------------------------------------------------------- references

  /** A reference as it stands in a document. */
  function Reference(t: Bytes, hex: bool): (r: Bytes)
    ensures |r| >= 3
  {
    (if hex then Ascii("&#x") else Ascii("&#")) + t + Ascii(";")
  }

  predicate Plain(t: Bytes, hex: bool) {
    && (forall i :: 0 <= i < |t| ==> t[i] != 0 && t[i] != SEMI && t[i] != Marker(hex))
    && (!hex && t != [] ==> t[0] != LOWER_X)
  }

  lemma {:induction false} WrittenIsPlain(t: Bytes, n: nat, hex: bool)
    requires Writes(t, n, Base(hex))
    ensures Plain(t, hex)
  {
    hide IsDigitOf, DigitValue;
    if t != [] {
      var u := t[..|t| - 1];
      WrittenIsPlain(u, n / Base(hex), hex);
      DigitRead(t[|t| - 1], n % Base(hex), hex);
      assert forall i :: 0 <= i < |u| ==> t[i] == u[i];
    }
  }

  /** Only the bytes between marker and semicolon decide about a reference. */
  lemma ReferenceScanned(t: Bytes, hex: bool, tail: Bytes, enc: Encoding)
    requires Plain(t, hex)
    ensures GetEntity(Reference(t, hex) + tail, enc) ==
            match ScanBack((if hex then [AMP, HASH] else [AMP]) + [Marker(hex)] + t, hex, 1, 0)
            case None => Read([], None)
            case Some(ucs) => Read(if enc == Utf8 then Convert(ucs) else [ucs % 256], Some(tail))
  {
    hide ScanBack, Convert;
    var head := (if hex then [AMP, HASH] else [AMP]) + [Marker(hex)];
    var k := |head| + |t|;
    var s := Reference(t, hex) + tail;
    assert s == head + t + [SEMI] + tail;
    assert s[..k] == head + t && s[k + 1..] == tail;
    assert forall i :: 0 <= i < |t| ==> s[|head| + i] == t[i];
    assert forall i :: |head| <= i < k ==> s[i] == t[i - |head|];
    FindByteIs(s, |head|, k, SEMI);
  }

  /** A decimal or hexadecimal reference to a number of 32 bits is read as that
      number, however many leading zeros it has and in whatever letter case, and
      reading goes on behind its semicolon.  Of a bigger one the low 32 bits are
      kept, in the single-byte encodings at least. */
  lemma ReferenceRead(t: Bytes, n: nat, hex: bool, tail: Bytes, enc: Encoding)
    requires Writes(t, n, Base(hex))
    ensures n < 0x1_0000_0000 ==>
              GetEntity(Reference(t, hex) + tail, enc) ==
              Read(if enc == Utf8 then Convert(n) else [n % 256], Some(tail))
    ensures enc != Utf8 ==> GetEntity(Reference(t, hex) + tail, enc) == Read([n % 256], Some(tail))
    ensures hex && enc == Utf8 ==>
              GetEntity(Reference(t, hex) + tail, enc) == Read(Convert(n % 0x1_0000_0000), Some(tail))
    ensures GetEntity(Reference(t, hex) + tail, enc).next == Some(tail)
  {
    hide *;
    WrittenIsPlain(t, n, hex);
    ReferenceScanned(t, hex, tail, enc);
    NumberScanned(if hex then [AMP, HASH] else [AMP], t, n, hex);
  }

  lemma NumberScanned(s: Bytes, t: Bytes, n: nat, hex: bool)
    requires Writes(t, n, Base(hex))
    ensures var r := ScanBack(s + [Marker(hex)] + t, hex, 1, 0);
            && r.Some? && r.value % 256 == n % 256
            && (n < 0x1_0000_0000 ==> r == Some(n))
            && (hex ==> r == Some(n % 0x1_0000_0000))
  {
    hide ScanBack, Writes;
    ScanWritten(s, t, n, hex, 1, 0);
    LowByte(ScanBack(s + [Marker(hex)] + t, hex, 1, 0).value, n);
  }

  lemma LowByte(x: nat, y: nat)
    requires x % WORD == y % WORD
    ensures x % 256 == y % 256
  {
    var k := x / WORD - y / WORD;
    assert x == y + WORD * k;
    ModPlus(y, 0x100_0000 * k, 256);
  }

  /** The numbers of 32 bits, written the usual way. */
  lemma NumberRead(n: nat, hex: bool, upper: bool, tail: Bytes, enc: Encoding)
    requires n < 0x1_0000_0000
    ensures GetEntity(Reference(Digits(n, Base(hex), upper), hex) + tail, enc) ==
            Read(if enc == Utf8 then Convert(n) else [n % 256], Some(tail))
  {
    hide GetEntity, Convert, Writes, Reference;
    DigitsWrite(n, Base(hex), upper);
    ReferenceRead(Digits(n, Base(hex), upper), n, hex, tail, enc);
  }

  lemma {:induction false} ScannedIsWritten(s: Bytes, t: Bytes, hex: bool, mult: nat, ucs: nat) returns (n: nat)
    requires Plain(t, hex) && ScanBack(s + [Marker(hex)] + t, hex, mult, ucs).Some?
    ensures Writes(t, n, Base(hex))
    decreases |t|
  {
    hide DigitValue, ScanBack, IsDigitOf;
    if t == [] {
      n := 0;
    } else {
      var b, u := t[|t| - 1], t[..|t| - 1];
      assert t == u + [b];
      Reassociate(s + [Marker(hex)], u, [b]);
      ScanStep(s + [Marker(hex)] + u, b, hex, mult, ucs);
      var d := DigitValue(b, hex).value;
      DigitRead(b, d, hex);
      var q := ScannedIsWritten(s, u, hex, mult * Base(hex) % WORD, ucs + mult * d % WORD);
      n := Base(hex) * q + d;
      DivModUnique(n, Base(hex), q, d);
    }
  }

  /** What stands between marker and semicolon is accepted exactly if it writes a
      number. */
  lemma ReferenceAccepted(t: Bytes, hex: bool, tail: Bytes, enc: Encoding)
    requires Plain(t, hex)
    ensures GetEntity(Reference(t, hex) + tail, enc).next.Some? <==> exists n :: Writes(t, n, Base(hex))
  {
    hide GetEntity, ScanBack, Convert, Writes, Reference, Plain;
    ReferenceScanned(t, hex, tail, enc);
    if exists n :: Writes(t, n, Base(hex)) {
      var n :| Writes(t, n, Base(hex));
      ReferenceRead(t, n, hex, tail, enc);
    }
    if GetEntity(Reference(t, hex) + tail, enc).next.Some? {
      var n := ScannedIsWritten(if hex then [AMP, HASH] else [AMP], t, hex, 1, 0);
    }
  }

  lemma WritesTwo(t: Bytes, high: nat, low: nat, base: nat)
    requires base >= 2 && |t| == 2 && IsDigitOf(t[0], high) && IsDigitOf(t[1], low) && high < base && low < base
    ensures Writes(t, base * high + low, base)
  {
    hide IsDigitOf;
    WritesOne(t[0], high, base);
    DivModUnique(base * high + low, base, high, low);
    assert t[..1] == [t[0]];
  }

  lemma WritesOne(b: Byte, d: nat, base: nat)
    requires base >= 2 && IsDigitOf(b, d) && d < base
    ensures Writes([b], d, base)
  {
    hide IsDigitOf;
    DivModUnique(d, base, 0, d);
  }

  /** `&#65;`, `&#x41;` and `&#x20aC;` */
  lemma KnownReferences(tail: Bytes, enc: Encoding)
    ensures GetEntity(Ascii("&#65;") + tail, enc) == Read(Ascii("A"), Some(tail))
    ensures GetEntity(Ascii("&#x41;") + tail, enc) == Read(Ascii("A"), Some(tail))
    ensures GetEntity(Ascii("&#x20aC;") + tail, Utf8) == Read([0xE2, 0x82, 0xAC], Some(tail))
  {
    hide *;
    DecimalA();
    HexadecimalA();
    EuroSign();
    ReferenceRead([54, 53], 65, false, tail, enc);
    ReferenceRead([52, 49], 65, true, tail, enc);
    ReferenceRead([50, 48, 97, 67], 0x20AC, true, tail, Utf8);
  }

  lemma DecimalA()
    ensures Writes([54, 53], 65, Base(false)) && Ascii("&#65;") == Reference([54, 53], false)
    ensures Convert(65) == [65 % 256] == Ascii("A")
  {
    WritesTwo([54, 53], 6, 5, 10);
  }

  lemma HexadecimalA()
    ensures Writes([52, 49], 65, Base(true)) && Ascii("&#x41;") == Reference([52, 49], true)
  {
    WritesTwo([52, 49], 4, 1, 16);
  }

  lemma EuroSign()
    ensures Writes([50, 48, 97, 67], 0x20AC, Base(true))
    ensures Ascii("&#x20aC;") == Reference([50, 48, 97, 67], true)
    ensures Convert(0x20AC) == [0xE2, 0x82, 0xAC]
  {
    var t: Bytes := [50, 48, 97, 67];
    WritesTwo([50, 48], 2, 0, 16);
    assert t[..3] == [50, 48, 97] && t[..3][..2] == [50, 48];
    assert Writes(t[..3], 0x20A, 16);
  }
}
