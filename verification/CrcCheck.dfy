/** Which CRC-16 it is: the laws and the check value that tell CRC-16/CCITT-FALSE (polynomial 0x1021, initial word
    0xFFFF, most significant bit first) from every other. */
module CrcCheck {
  import opened Bits
  import opened Crc

  // ----- The initial word -----

  /** A register fed its own coefficients is left empty. */
  lemma {:induction false} FedItself(c: Register, bits: seq<bool>)
    requires |bits| <= 16 && c == bits + seq(16 - |bits|, i => false)
    ensures Feed(c, bits) == ZEROS
    decreases |bits|
  {
    if bits == [] {
    } else {
      assert Step(c, bits[0]) == bits[1..] + seq(16 - |bits[1..]|, i => false);
      FedItself(Step(c, bits[0]), bits[1..]);
    }
  }

  lemma OneByte(b: Byte)
    ensures MessageBits([b]) == Digits(b, 8)
  {
    hide Digits;
    var one := [b];
    assert one[1..] == [];
  }

  lemma WordBits(high: Byte, low: Byte)
    ensures MessageBits([high, low]) == Coefficients(high * 0x100 + low)
  {
    assert [high] + [low] == [high, low];
    Pow16();
    hide Digits, MessageBits, Pow2;
    OneByte(high);
    OneByte(low);
    BitsAppend([high], [low]);
    DigitsConcat(high, 8, low, 8);
  }

  lemma {:induction false} DigitsOfZero(n: nat)
    ensures Digits(0, n) == seq(n, i => false)
  {
    if n == 0 {
    } else {
      DigitsOfZero(n - 1);
    }
  }

  lemma Cleared(high: Byte, low: Byte)
    ensures Checksum(high * 0x100 + low, [high, low]) == 0
  {
    var own: Word16 := high * 0x100 + low;
    var c := Coefficients(own);
    assert c == c + seq(16 - |c|, i => false);
    assert ZEROS == seq(16, i => false);
    assert Coefficients(Checksum(own, [high, low])) == Digits(Checksum(own, [high, low]), 16);
    hide *;
    WordBits(high, low);
    FedItself(c, c);
    ChecksumFeeds(own, [high, low]);
    DigitsOfZero(16);
    Pow16();
    DigitsInjective(Checksum(own, [high, low]), 0, 16);
  }

  /** Two bytes are cleared by exactly one start word, the one they spell. */
  lemma ClearedIff(w: Word16, high: Byte, low: Byte)
    ensures Checksum(w, [high, low]) == 0 <==> w == high * 0x100 + low
  {
    hide Checksum;
    Cleared(high, low);
    if Checksum(w, [high, low]) == 0 {
      ChecksumInjective(w, high * 0x100 + low, [high, low]);
    }
  }

  /** The code starts from the one word that two bytes 0xFF clear. */
  lemma StartWord(w: Word16)
    ensures Checksum(w, [0xFF, 0xFF]) == 0 <==> w == INIT_WORD
  {
    ClearedIff(w, 0xFF, 0xFF);
  }

  // ----- Turning one bit -----

  /** x ^ (1 << k) */
  function Toggle(x: nat, k: nat): nat
    requires Bit(x, k) ==> x >= Pow2(k)
  {
    if Bit(x, k) then x - Pow2(k) else x + Pow2(k)
  }

  lemma {:induction false} BitIs(x: nat, k: nat)
    ensures Bit(x, k) <==> Quotient(x, Pow2(k)) % 2 == 1
    ensures Bit(x, k) ==> x >= Pow2(k)
    decreases k
  {
    if k == 0 {
    } else {
      BitIs(x / 2, k - 1);
      HalfThenDivide(x, Pow2(k - 1));
    }
  }

  lemma {:induction false} BitOfToggle(x: nat, k: nat, j: nat)
    requires Bit(x, k) ==> x >= Pow2(k)
    ensures Bit(Toggle(x, k), j) == (Bit(x, j) != (j == k))
    decreases k
  {
    if Bit(x, k) {
      var y := x - Pow2(k);
      NotSet(x, k);
      BitOfSetBit(y, k, j);
    } else {
      BitOfSetBit(x, k, j);
    }
  }

  lemma {:induction false} NotSet(x: nat, k: nat)
    requires Bit(x, k) && x >= Pow2(k)
    ensures !Bit(x - Pow2(k), k)
    decreases k
  {
    if k == 0 {
    } else {
      assert x / 2 >= Pow2(k - 1);
      NotSet(x / 2, k - 1);
      assert (x - Pow2(k)) / 2 == x / 2 - Pow2(k - 1);
    }
  }

  lemma {:induction false} BitOfXor(x: nat, y: nat, k: nat)
    ensures Bit(Xor(x, y), k) == (Bit(x, k) != Bit(y, k))
    decreases k
  {
    XorHalves(x, y);
    if k == 0 {
    } else {
      BitOfXor(x / 2, y / 2, k - 1);
    }
  }

  // ----- One serial step, in numbers -----

  /** One shift, in numbers: the doubled word with bits 12, 5 and 0 turned when a bit falls out. */
  function Shifted(w: Word16): Word16 {
    var x := w * 2 - 0x1_0000;
    if w < 0x8000 then w * 2
    else x + 1 + (if x / 32 % 2 == 1 then -32 else 32) + (if x / 4096 % 2 == 1 then -4096 else 4096)
  }

  lemma ToggleIs(x: nat, k: nat, p: nat)
    requires p == Pow2(k)
    ensures Bit(x, k) ==> x >= p
    ensures Toggle(x, k) == if x / p % 2 == 1 then x - p else x + p
  {
    BitIs(x, k);
  }

  lemma ToggledThrice(x: nat, y0: nat, y1: nat, y2: nat)
    requires (Bit(x, 0) ==> x >= Pow2(0)) && y0 == Toggle(x, 0)
    requires (Bit(y0, 5) ==> y0 >= Pow2(5)) && y1 == Toggle(y0, 5)
    requires (Bit(y1, 12) ==> y1 >= Pow2(12)) && y2 == Toggle(y1, 12)
    requires x < 0x1_0000 && y2 < 0x1_0000
    ensures Xor(x, POLY_WORD) == y2
  {
    hide Toggle, Bit, Xor;
    forall k: nat | k < 16 ensures Bit(y2, k) == Bit(Xor(x, POLY_WORD), k) {
      BitOfToggle(y1, 12, k);
      BitOfToggle(y0, 5, k);
      BitOfToggle(x, 0, k);
      BitOfXor(x, POLY_WORD, k);
      PolyBit(k);
    }
    Pow16();
    XorBound(x, POLY_WORD, 16);
    BitsInjective(y2, Xor(x, POLY_WORD), 16);
  }

  lemma ShiftedParts(x: nat, y0: nat, y1: nat, y2: nat)
    requires x % 2 == 0 && x < 0x1_0000 && y0 == x + 1
    requires y1 == if y0 / 32 % 2 == 1 then y0 - 32 else y0 + 32
    requires y2 == if y1 / 4096 % 2 == 1 then y1 - 4096 else y1 + 4096
    ensures y2 < 0x1_0000
    ensures y2 == x + 1 + (if x / 32 % 2 == 1 then -32 else 32) + (if x / 4096 % 2 == 1 then -4096 else 4096)
  {
    assert y0 / 32 == x / 32;
    assert y1 / 64 == x / 64;
    assert y1 / 4096 == y1 / 64 / 64 == x / 64 / 64 == x / 4096;
  }

  lemma Turned(x: nat) returns (y: nat)
    requires x % 2 == 0 && x < 0x1_0000
    ensures y == x + 1 + (if x / 32 % 2 == 1 then -32 else 32) + (if x / 4096 % 2 == 1 then -4096 else 4096)
    ensures y == Xor(x, POLY_WORD)
  {
    var y0 := x + 1;
    var y1 := if y0 / 32 % 2 == 1 then y0 - 32 else y0 + 32;
    y := if y1 / 4096 % 2 == 1 then y1 - 4096 else y1 + 4096;
    SmallPowers();
    hide *;
    ShiftedParts(x, y0, y1, y);
    ToggleIs(x, 0, 1);
    ToggleIs(y0, 5, 32);
    ToggleIs(y1, 12, 4096);
    ToggledThrice(x, y0, y1, y);
  }

  lemma ShiftedIs(w: Word16)
    ensures Shift(w) == Shifted(w)
  {
    if w >= 0x8000 {
      var x: nat := w * 2 - 0x1_0000;
      assert w * 2 % 0x1_0000 == x;
      hide Xor;
      var y := Turned(x);
    }
  }

  lemma SmallPowers()
    ensures Pow2(0) == 1 && Pow2(5) == 32 && Pow2(12) == 4096
  {
  }

  /** One serial step on a word. */
  function WordStep(w: Word16, bit: bool): Word16 { Shifted(if bit then (w + 0x8000) % 0x1_0000 else w) }

  lemma TurnTop(w: Word16)
    ensures Coefficients((w + 0x8000) % 0x1_0000) == [!Coefficients(w)[0]] + Coefficients(w)[1..]
  {
    var v: Word16 := if w >= 0x8000 then w - 0x8000 else w + 0x8000;
    assert v == (w + 0x8000) % 0x1_0000 && v % 0x8000 == w % 0x8000;
    hide *;
    SplitTop(w);
    SplitTop(v);
  }

  lemma SplitTop(w: Word16)
    ensures Coefficients(w) == [w >= 0x8000] + Digits(w % 0x8000, 15)
  {
    assert Pow2(15) == 0x8000;
    assert w == w / 0x8000 * 0x8000 + w % 0x8000;
    assert Digits(0, 1) == [false] && Digits(1, 1) == [true];
    hide Pow2, Digits;
    DigitsConcat(w / 0x8000, 1, w % 0x8000, 15);
  }

  lemma WordStepIs(w: Word16, bit: bool)
    ensures Coefficients(WordStep(w, bit)) == Step(Coefficients(w), bit)
  {
    var v: Word16 := if bit then (w + 0x8000) % 0x1_0000 else w;
    hide Coefficients, Shifted;
    ShiftedIs(v);
    ShiftIsStep(v);
    TurnTop(w);
  }

  lemma FourDigits(x: nat)
    ensures Digits(x, 4) == [x / 8 % 2 == 1, x / 4 % 2 == 1, x / 2 % 2 == 1, x % 2 == 1]
  {
    assert x / 2 / 2 == x / 4 && x / 4 / 2 == x / 8;
    assert Digits(x / 8, 1) == [x / 8 % 2 == 1];
    assert Digits(x / 4, 2) == [x / 8 % 2 == 1, x / 4 % 2 == 1];
    assert Digits(x / 2, 3) == [x / 8 % 2 == 1, x / 4 % 2 == 1, x / 2 % 2 == 1];
  }

  /** The eight bits of the text digit d. */
  function DigitBits(d: nat): seq<bool> {
    [false, false, true, true, d / 8 % 2 == 1, d / 4 % 2 == 1, d / 2 % 2 == 1, d % 2 == 1]
  }

  lemma DigitBitsAre(d: nat)
    requires d < 10
    ensures ByteBits(0x30 + d) == DigitBits(d)
  {
    assert Pow2(4) == 16;
    FourDigits(3);
    FourDigits(d);
    hide Digits, Pow2;
    DigitsConcat(3, 4, d, 4);
    assert 3 * 16 + d == 0x30 + d;
  }

  // ----- The check value -----

  lemma {:induction false} StepsFeed(words: seq<Word16>, bits: seq<bool>)
    requires |words| == |bits| + 1 && forall i :: 0 <= i < |bits| ==> words[i + 1] == WordStep(words[i], bits[i])
    ensures Coefficients(words[|bits|]) == Feed(Coefficients(words[0]), bits)
    decreases |bits|
  {
    hide WordStep;
    if bits == [] {
    } else {
      WordStepIs(words[0], bits[0]);
      StepsFeed(words[1..], bits[1..]);
    }
  }

  /** The text of the digits from 1 to n. */
  function Text(n: nat): (data: seq<Byte>)
    requires n < 10
  {
    if n == 0 then [] else Text(n - 1) + [0x30 + n]
  }

  /** The text digit d takes the checksum from a over the words between to i, one serial step each. */
  lemma OneDigit(d: nat, a: Word16, b: Word16, c: Word16, e: Word16, f: Word16, g: Word16, h: Word16, i: Word16,
                 j: Word16)
    requires 0 < d < 10 && Checksum(INIT_WORD, Text(d - 1)) == a
    requires b == WordStep(a, false) && c == WordStep(b, false) && e == WordStep(c, true) && f == WordStep(e, true)
    requires g == WordStep(f, d / 8 % 2 == 1) && h == WordStep(g, d / 4 % 2 == 1)
    requires i == WordStep(h, d / 2 % 2 == 1) && j == WordStep(i, d % 2 == 1)
    ensures Checksum(INIT_WORD, Text(d)) == j
  {
    hide WordStep, Feed, ByteBits;
    var words := [a, b, c, e, f, g, h, i, j];
    assert Text(d)[..|Text(d)| - 1] == Text(d - 1);
    DigitBitsAre(d);
    StepsFeed(words, DigitBits(d));
    ByteWordFeeds(a, 0x30 + d);
    Pow16();
    DigitsInjective(j, ByteWord(a, 0x30 + d), 16);
  }

  lemma OneTwoThree()
    requires Checksum(INIT_WORD, Text(0)) == 0xFFFF
    ensures Checksum(INIT_WORD, Text(3)) == 0x5BCE
  {
    hide Checksum, Text;
    OneDigit(1, 0xFFFF, 0xEFDF, 0xCF9F, 0x9F3E, 0x3E7C, 0x7CF8, 0xF9F0, 0xE3C1, 0xC782);
    OneDigit(2, 0xC782, 0x9F25, 0x2E6B, 0x4CF7, 0x89CF, 0x03BF, 0x077E, 0x1EDD, 0x3DBA);
    OneDigit(3, 0x3DBA, 0x7B74, 0xF6E8, 0xEDD0, 0xDBA0, 0xA761, 0x5EE3, 0xADE7, 0x5BCE);
  }

  lemma FourFiveSix()
    requires Checksum(INIT_WORD, Text(3)) == 0x5BCE
    ensures Checksum(INIT_WORD, Text(6)) == 0x2EF4
  {
    hide Checksum, Text;
    OneDigit(4, 0x5BCE, 0xB79C, 0x7F19, 0xEE13, 0xDC26, 0xA86D, 0x50DA, 0xA1B4, 0x5349);
    OneDigit(5, 0x5349, 0xA692, 0x5D05, 0xAA2B, 0x5456, 0xA8AC, 0x5158, 0xA2B0, 0x4560);
    OneDigit(6, 0x4560, 0x8AC0, 0x05A1, 0x1B63, 0x26E7, 0x4DCE, 0x8BBD, 0x177A, 0x2EF4);
  }

  lemma SevenEightNine()
    requires Checksum(INIT_WORD, Text(6)) == 0x2EF4
    ensures Checksum(INIT_WORD, Text(9)) == 0x29B1
  {
    hide Checksum, Text;
    OneDigit(7, 0x2EF4, 0x5DE8, 0xBBD0, 0x77A0, 0xFF61, 0xEEE3, 0xDDC6, 0xBB8C, 0x7718);
    OneDigit(8, 0x7718, 0xEE30, 0xCC41, 0x9882, 0x3104, 0x7229, 0xE452, 0xD885, 0xA12B);
    OneDigit(9, 0xA12B, 0x5277, 0xA4EE, 0x49DC, 0x8399, 0x0732, 0x0E64, 0x1CC8, 0x29B1);
  }

  lemma TextIs()
    ensures Text(9) == [0x31, 0x32, 0x33, 0x34, 0x35, 0x36, 0x37, 0x38, 0x39]
  {
    assert Text(3) == [0x31, 0x32, 0x33];
    assert Text(6) == Text(3) + [0x34, 0x35, 0x36];
  }

  /** The published check value: the checksum of the text 123456789. */
  lemma CheckValue()
    ensures Checksum(INIT_WORD, [0x31, 0x32, 0x33, 0x34, 0x35, 0x36, 0x37, 0x38, 0x39]) == 0x29B1
  {
    hide *;
    TextIs();
    Unfed();
    OneTwoThree();
    FourFiveSix();
    SevenEightNine();
  }

  lemma Unfed()
    ensures Checksum(INIT_WORD, Text(0)) == 0xFFFF
  {
  }
}
