/** CRC-16/CCITT-FALSE as safety/e2e.go computes it, and the guarantee it exists for: two messages of
    one length that differ only inside a window of sixteen consecutive bits never share a CRC.

    The code works on 16-bit words, eight shifts a byte. The reference definition is the serial one of the
    textbooks: a register of sixteen coefficients over GF(2) that message bits enter one at a time. */
module Crc {
  import opened Bits

  const ZEROS: seq<bool> := [false, false, false, false, false, false, false, false,
                             false, false, false, false, false, false, false, false]

  /** Coefficients, the highest power first. */
  type Register = c: seq<bool> | |c| == 16 witness ZEROS

  /** x^12 + x^5 + 1; the leading x^16 is the bit shifted out. */
  const POLY: Register := [false, false, false, true, false, false, false, false,
                           false, false, true, false, false, false, false, true]

  const POLY_WORD: Word16 := 0x1021
  const INIT_WORD: Word16 := 0xFFFF

  /** The register a 16-bit word stands for. */
  function Coefficients(w: Word16): Register {
    Digits(w, 16)
  }

  // ----- The reference definition -----

  /** Multiply by x, reduce when the outgoing coefficient meets a different message bit. */
  function Step(c: Register, bit: bool): (r: Register) {
    seq(16, i requires 0 <= i < 16 => (if i < 15 then c[i + 1] else false) != ((c[0] != bit) && POLY[i]))
  }

  function Feed(c: Register, bits: seq<bool>): Register
    decreases |bits|
  {
    if bits == [] then c else Feed(Step(c, bits[0]), bits[1..])
  }

  /** The bits of a byte, most significant first. */
  function ByteBits(b: Byte): (r: seq<bool>)
    ensures |r| == 8
  {
    Digits(b, 8)
  }

  function MessageBits(data: seq<Byte>): (r: seq<bool>)
    ensures |r| == 8 * |data|
  {
    if data == [] then [] else ByteBits(data[0]) + MessageBits(data[1..])
  }

  lemma {:induction false} FeedAppend(c: Register, a: seq<bool>, b: seq<bool>)
    ensures Feed(c, a + b) == Feed(Feed(c, a), b)
    decreases |a|
  {
    if a == [] {
      assert a + b == b;
    } else {
      FeedAppend(Step(c, a[0]), a[1..], b);
      assert (a + b)[1..] == a[1..] + b;
    }
  }

  // ----- Burst detection -----

  /** Two steps, on any two bits, whose results agree from coefficient k on started from registers that
      agree from coefficient k + 1 on: the last coefficient tells whether the polynomial was added. */
  lemma StepBack(c: Register, c': Register, bit: bool, bit': bool, k: nat)
    requires k <= 15
    requires Step(c, bit)[k..] == Step(c', bit')[k..]
    ensures (c[0] != bit) == (c'[0] != bit')
    ensures c[k + 1..] == c'[k + 1..]
  {
    var r, r' := Step(c, bit), Step(c', bit');
    assert r[k..][15 - k] == r'[k..][15 - k];
    forall i | k < i < 16
      ensures c[i] == c'[i]
    {
      assert r[k..][i - 1 - k] == r'[k..][i - 1 - k];
    }
  }

  /** Registers that differ stay different while both runs are fed the same bits. */
  lemma {:induction false} FeedInjective(c: Register, c': Register, bits: seq<bool>)
    requires Feed(c, bits) == Feed(c', bits)
    ensures c == c'
    decreases |bits|
  {
    if bits == [] {
    } else {
      FeedInjective(Step(c, bits[0]), Step(c', bits[0]), bits[1..]);
      StepBack(c, c', bits[0], bits[0], 0);
      assert c == [c[0]] + c[1..] && c' == [c'[0]] + c'[1..];
    }
  }

  /** If two runs over k bits each meet, the registers k bits earlier agree from coefficient k on. */
  lemma {:induction false} MeetingBackwards(c: Register, c': Register, m: seq<bool>, m': seq<bool>)
    requires |m| == |m'| <= 15
    requires Feed(c, m) == Feed(c', m')
    ensures c[|m|..] == c'[|m|..]
    decreases |m|
  {
    if m == [] {
    } else {
      MeetingBackwards(Step(c, m[0]), Step(c', m'[0]), m[1..], m'[1..]);
      StepBack(c, c', m[0], m'[0], |m| - 1);
    }
  }

  /** Everywhere outside the window the two messages agree. */
  ghost predicate DifferOnlyInside(m: seq<bool>, m': seq<bool>, start: nat, width: nat)
    requires |m| == |m'|
  {
    forall i :: 0 <= i < |m| && m[i] != m'[i] ==> start <= i < start + width
  }

  lemma FirstDifference(m: seq<bool>, m': seq<bool>) returns (j: nat)
    requires |m| == |m'| && m != m'
    ensures j < |m| && m[j] != m'[j] && m[..j] == m'[..j]
  {
    j := 0;
    assert m[..|m|] == m && m'[..|m|] == m';
    while j < |m| && m[j] == m'[j]
      invariant j <= |m| && m[..j] == m'[..j]
    {
      j := j + 1;
    }
  }

  /** The guarantee, on bit sequences and for every initial register. */
  lemma BurstDetected(c: Register, m: seq<bool>, m': seq<bool>, start: nat)
    requires |m| == |m'| && m != m'
    requires DifferOnlyInside(m, m', start, 16)
    ensures Feed(c, m) != Feed(c, m')
  {
    var j := FirstDifference(m, m');
    var end := if j + 16 <= |m| then j + 16 else |m|;
    var s, mid, mid', tail := Feed(c, m[..j]), m[j + 1..end], m'[j + 1..end], m[end..];
    assert tail == m'[end..];
    SplitFeed(c, m, j, end);
    SplitFeed(c, m', j, end);
    var x, x' := Step(s, m[j]), Step(s, m'[j]);
    assert x[15] != x'[15];
    assert x[|mid|..][15 - |mid|] != x'[|mid|..][15 - |mid|];
    if Feed(c, m) == Feed(c, m') {
      FeedInjective(Feed(x, mid), Feed(x', mid'), tail);
      MeetingBackwards(x, x', mid, mid');
    }
  }

  lemma SplitFeed(c: Register, m: seq<bool>, j: nat, end: nat)
    requires j < end <= |m|
    ensures Feed(c, m) == Feed(Feed(Step(Feed(c, m[..j]), m[j]), m[j + 1..end]), m[end..])
  {
    assert m == m[..j] + m[j..] && m[j..] == [m[j]] + m[j + 1..] && m[j + 1..] == m[j + 1..end] + m[end..];
    FeedAppend(c, m[..j], m[j..]);
    FeedAppend(Step(Feed(c, m[..j]), m[j]), m[j + 1..end], m[end..]);
  }

  /** The difference of two registers is what is left of the polynomial after i of its 17 coefficients. */
  ghost predicate PolyLeft(s: Register, s': Register, i: nat)
    requires 1 <= i <= 17
  {
    forall k :: 0 <= k < 16 ==> (s[k] != s'[k]) == (k < 17 - i && POLY[i - 1 + k])
  }

  lemma PolyLeftStep(s: Register, s': Register, b: bool, b': bool, i: nat)
    requires 1 <= i <= 16 && PolyLeft(s, s', i)
    requires (b != b') == POLY[i - 1]
    ensures PolyLeft(Step(s, b), Step(s', b'), i + 1)
  {
  }

  /** Sixteen is exact: for every register and every seventeen message bits there is a change spread over all
      of them, the polynomial with its leading term, that goes unnoticed. */
  lemma SeventeenBitsCollide(c: Register, m: seq<bool>)
    requires |m| == 17
    ensures var m' := PolyChange(m);
            DifferOnlyInside(m, m', 0, 17) && m != m' && Feed(c, m) == Feed(c, m')
  {
    var m' := PolyChange(m);
    assert m[0] != m'[0];
    var s, s', i := Step(c, m[0]), Step(c, m'[0]), 1;
    while i < 17
      invariant 1 <= i <= 17
      invariant Feed(c, m) == Feed(s, m[i..]) && Feed(c, m') == Feed(s', m'[i..])
      invariant PolyLeft(s, s', i)
    {
      PolyLeftStep(s, s', m[i], m'[i], i);
      s, s', i := Step(s, m[i]), Step(s', m'[i]), i + 1;
    }
    assert s == s';
  }

  function PolyChange(m: seq<bool>): (m': seq<bool>)
    requires |m| == 17
    ensures |m'| == 17
  {
    seq(17, i requires 0 <= i < 17 => m[i] != (i == 0 || POLY[i - 1]))
  }

  // ----- Parity -----

  /** An odd number of the bits are set. */
  predicate Odd(bits: seq<bool>) {
    bits != [] && bits[0] != Odd(bits[1..])
  }

  /** The two messages differ in an odd number of bits. */
  ghost predicate DifferInOdd(m: seq<bool>, m': seq<bool>) {
    |m| == |m'| && Odd(seq(|m|, i requires 0 <= i < |m| => m[i] != m'[i]))
  }

  lemma {:induction false} OddAppend(a: seq<bool>, b: seq<bool>)
    ensures Odd(a + b) == (Odd(a) != Odd(b))
    decreases |a|
  {
    if a == [] {
      assert a + b == b;
    } else {
      OddAppend(a[1..], b);
      assert (a + b)[1..] == a[1..] + b;
    }
  }

  lemma OddOne(bit: bool)
    ensures Odd([bit]) == bit
  {
    var one := [bit];
    assert one[1..] == [];
  }

  lemma {:induction false} OddXor(a: seq<bool>, b: seq<bool>, r: seq<bool>)
    requires |a| == |b| == |r| && forall i :: 0 <= i < |r| ==> r[i] == (a[i] != b[i])
    ensures Odd(r) == (Odd(a) != Odd(b))
    decreases |r|
  {
    if r == [] {
    } else {
      OddXor(a[1..], b[1..], r[1..]);
    }
  }

  /** An odd number of differences is a difference of parity. */
  lemma DifferInOddIff(m: seq<bool>, m': seq<bool>)
    requires |m| == |m'|
    ensures DifferInOdd(m, m') <==> Odd(m) != Odd(m')
  {
    OddXor(m, m', seq(|m|, i requires 0 <= i < |m| => m[i] != m'[i]));
  }

  /** With its leading term the polynomial has an even number of terms. */
  lemma PolyIsOdd()
    ensures Odd(POLY)
  {
    var quiet: seq<bool> := [false, false, false];
    assert Odd([true]) && !Odd(quiet);
    OddAppend(quiet, [true]);
    OddAppend(quiet + [true], [false] + quiet);
    OddAppend(quiet + [true] + ([false] + quiet), [false, false, true, false]);
    OddAppend(quiet + [true] + ([false] + quiet) + [false, false, true, false], quiet + [true]);
    assert POLY == quiet + [true] + ([false] + quiet) + [false, false, true, false] + (quiet + [true]);
  }

  lemma StepParity(c: Register, bit: bool)
    ensures Odd(Step(c, bit)) == (Odd(c) != bit)
  {
    var shifted, r := c[1..] + [false], Step(c, bit);
    assert forall i :: 0 <= i < 16 ==> r[i] == (shifted[i] != ((c[0] != bit) && POLY[i]));
    assert c == [c[0]] + c[1..];
    hide *;
    OddOne(c[0]);
    OddOne(false);
    OddAppend([c[0]], c[1..]);
    OddAppend(c[1..], [false]);
    if c[0] != bit {
      PolyIsOdd();
      OddXor(shifted, POLY, r);
    } else {
      assert r == shifted;
    }
  }

  /** The parity of the register is that of what it started with and the bits it was fed. */
  lemma {:induction false} FeedParity(c: Register, bits: seq<bool>)
    ensures Odd(Feed(c, bits)) == (Odd(c) != Odd(bits))
    decreases |bits|
  {
    if bits == [] {
    } else {
      StepParity(c, bits[0]);
      FeedParity(Step(c, bits[0]), bits[1..]);
    }
  }

  // ----- Bytes -----

  lemma {:induction false} BitsAppend(a: seq<Byte>, b: seq<Byte>)
    ensures MessageBits(a + b) == MessageBits(a) + MessageBits(b)
    decreases |a|
  {
    if a == [] {
      assert a + b == b;
    } else {
      BitsAppend(a[1..], b);
      assert (a + b)[1..] == a[1..] + b;
    }
  }

  lemma {:induction false} BitsAt(data: seq<Byte>, i: nat, j: nat)
    requires i < |data| && j < 8
    ensures MessageBits(data)[8 * i + j] == ByteBits(data[i])[j]
    decreases |data|
  {
    if i == 0 {
    } else {
      BitsAt(data[1..], i - 1, j);
    }
  }

  lemma MessageBitsInjective(a: seq<Byte>, b: seq<Byte>)
    requires |a| == |b| && MessageBits(a) == MessageBits(b)
    ensures a == b
  {
    forall i | 0 <= i < |a|
      ensures a[i] == b[i]
    {
      SameByte(a, b, i);
    }
  }

  lemma SameByte(a: seq<Byte>, b: seq<Byte>, i: nat)
    requires i < |a| == |b| && MessageBits(a) == MessageBits(b)
    ensures a[i] == b[i]
  {
    BitsOfByte(a, i);
    BitsOfByte(b, i);
    SameByteBits(a[i], b[i]);
  }

  lemma BitsOfByte(data: seq<Byte>, i: nat)
    requires i < |data|
    ensures MessageBits(data)[8 * i..8 * i + 8] == ByteBits(data[i])
  {
    forall j | 0 <= j < 8
      ensures MessageBits(data)[8 * i..8 * i + 8][j] == ByteBits(data[i])[j]
    {
      BitsAt(data, i, j);
    }
  }

  lemma SameByteBits(x: Byte, y: Byte)
    requires ByteBits(x) == ByteBits(y)
    ensures x == y
  {
    assert Pow2(4) == 16;
    assert Pow2(8) == 0x100;
    DigitsInjective(x, y, 8);
  }

  /** Two messages of one length that differ, and only inside sixteen consecutive bits (bit 0 is the most
      significant bit of byte 0). */
  ghost predicate BurstOf16(m: seq<Byte>, m': seq<Byte>, start: nat) {
    && |m| == |m'|
    && m != m'
    && DifferOnlyInside(MessageBits(m), MessageBits(m'), start, 16)
  }

  /** Any change to one byte or to two adjacent bytes is such a burst. */
  lemma TwoBytesAreABurst(m: seq<Byte>, m': seq<Byte>, at: nat)
    requires |m| == |m'| && m != m'
    requires forall i :: 0 <= i < |m| && m[i] != m'[i] ==> at <= i <= at + 1
    ensures BurstOf16(m, m', 8 * at)
  {
    forall k | 0 <= k < 8 * |m| && MessageBits(m)[k] != MessageBits(m')[k]
      ensures 8 * at <= k < 8 * at + 16
    {
      var i, j := k / 8, k % 8;
      BitsAt(m, i, j);
      BitsAt(m', i, j);
    }
  }

  // ----- The loops of the Go code refine the reference definition -----

  lemma Pow16()
    ensures Pow2(8) == 0x100 && Pow2(16) == 0x1_0000
  {
  }

  /** One turn of the inner loop: w & 0x8000 != 0 reads w >= 0x8000, w << 1 keeps sixteen bits. */
  function Shift(w: Word16): (r: Word16) {
    Pow16();
    XorBound(w * 2 % 0x1_0000, POLY_WORD, 16);
    if w >= 0x8000 then Xor(w * 2 % 0x1_0000, POLY_WORD) else w * 2 % 0x1_0000
  }

  lemma NibbleShift(x: nat, k: nat)
    ensures Bit(x, k + 4) == Bit(x / 16, k)
  {
    assert Bit(x, k + 4) == Bit(x / 2, k + 3) == Bit(x / 4, k + 2) == Bit(x / 8, k + 1);
  }

  lemma PolyBit(k: nat)
    requires k < 16
    ensures Bit(0x1021, k) == (k == 0 || k == 5 || k == 12)
  {
    assert Bit(0x1021, 0) && !Bit(0x1021, 1) && !Bit(0x1021, 2) && !Bit(0x1021, 3);
    assert !Bit(0x1021, 4) && Bit(0x1021, 5) && !Bit(0x1021, 6) && !Bit(0x1021, 7);
    if k >= 8 {
      NibbleShift(0x1021, k - 4);
      NibbleShift(0x102, k - 8);
      assert !Bit(0x10, 0) && !Bit(0x10, 1) && !Bit(0x10, 2) && !Bit(0x10, 3);
      assert Bit(0x10, 4) && !Bit(0x10, 5) && !Bit(0x10, 6) && !Bit(0x10, 7);
    }
  }

  lemma PolyDigits()
    ensures Coefficients(POLY_WORD) == POLY
  {
    forall i | 0 <= i < 16
      ensures Coefficients(POLY_WORD)[i] == POLY[i]
    {
      DigitsAreBits(POLY_WORD, 16, i);
      PolyBit(15 - i);
    }
  }

  lemma TopDigit(w: Word16)
    ensures Coefficients(w)[0] == (w >= 0x8000)
  {
    Pow16();
    DigitsAreBits(w, 16, 0);
    TopBit(w, 15);
  }

  /** One turn is one reference step with no new message bit. */
  lemma ShiftIsStep(w: Word16)
    ensures Coefficients(Shift(w)) == Step(Coefficients(w), false)
  {
    var doubled := w * 2 % 0x1_0000;
    DoubledDigits(w);
    TopDigit(w);
    if w >= 0x8000 {
      PolyDigits();
      XorDigits(doubled, POLY_WORD, 16);
    }
    StepFromParts(Coefficients(w), Coefficients(doubled), Coefficients(Shift(w)));
  }

  lemma DoubledDigits(w: Word16)
    ensures Coefficients(w * 2 % 0x1_0000) == Coefficients(w)[1..] + [false]
  {
    Pow16();
    DigitsOfDouble(w, 16);
  }

  lemma StepFromParts(c: Register, d: Register, r: Register)
    requires d == c[1..] + [false]
    requires forall i :: 0 <= i < 16 ==> r[i] == (d[i] != (c[0] && POLY[i]))
    ensures r == Step(c, false)
  {
  }

  /** The register with message bits not yet consumed added onto its highest coefficients. */
  function WithWaiting(c: Register, bits: seq<bool>): Register {
    seq(16, i requires 0 <= i < 16 => c[i] != (i < |bits| && bits[i]))
  }

  /** w ^ (b << 8) */
  function XorTop(w: Word16, b: Byte): (r: Word16) {
    Pow16();
    XorBound(w, b * 0x100, 16);
    Xor(w, b * 0x100)
  }

  lemma XorTopDigits(w: Word16, b: Byte)
    ensures Coefficients(XorTop(w, b)) == WithWaiting(Coefficients(w), ByteBits(b))
  {
    XorDigits(w, b * 0x100, 16);
    DigitsOfTopByte(b, 8);
  }

  lemma {:induction false} DigitsOfTopByte(b: nat, n: nat)
    ensures Digits(b * Pow2(n), 8 + n) == Digits(b, 8) + seq(n, i => false)
  {
    if n == 0 {
    } else {
      DigitsOfTopByte(b, n - 1);
      assert b * Pow2(n) == 2 * (b * Pow2(n - 1));
    }
  }

  function ShiftN(c: Register, n: nat): Register
    decreases n
  {
    if n == 0 then c else ShiftN(Step(c, false), n - 1)
  }

  /** Adding the bits first and then shifting is the same as feeding them one at a time. */
  lemma {:induction false} WaitingThenShifts(c: Register, bits: seq<bool>)
    requires |bits| <= 8
    ensures ShiftN(WithWaiting(c, bits), |bits|) == Feed(c, bits)
    decreases |bits|
  {
    if bits == [] {
      assert WithWaiting(c, bits) == c;
    } else {
      assert Step(WithWaiting(c, bits), false) == WithWaiting(Step(c, bits[0]), bits[1..]);
      WaitingThenShifts(Step(c, bits[0]), bits[1..]);
    }
  }

  function ShiftWordN(w: Word16, n: nat): Word16
    decreases n
  {
    if n == 0 then w else ShiftWordN(Shift(w), n - 1)
  }

  lemma {:induction false} ShiftWordNIsShiftN(w: Word16, n: nat)
    ensures Coefficients(ShiftWordN(w, n)) == ShiftN(Coefficients(w), n)
    decreases n
  {
    if n == 0 {
    } else {
      ShiftIsStep(w);
      ShiftWordNIsShiftN(Shift(w), n - 1);
    }
  }

  /** The body of the outer loop: one byte XORed on top, then eight shifts. */
  function ByteWord(w: Word16, b: Byte): Word16 {
    ShiftWordN(XorTop(w, b), 8)
  }

  lemma ByteWordFeeds(w: Word16, b: Byte)
    ensures Coefficients(ByteWord(w, b)) == Feed(Coefficients(w), ByteBits(b))
  {
    ShiftWordNIsShiftN(XorTop(w, b), 8);
    XorTopDigits(w, b);
    WaitingThenShifts(Coefficients(w), ByteBits(b));
  }

  function Checksum(w: Word16, data: seq<Byte>): Word16 {
    if data == [] then w else ByteWord(Checksum(w, data[..|data| - 1]), data[|data| - 1])
  }

  lemma {:induction false} ChecksumFeeds(w: Word16, data: seq<Byte>)
    ensures Coefficients(Checksum(w, data)) == Feed(Coefficients(w), MessageBits(data))
    decreases |data|
  {
    if data == [] {
    } else {
      var k := |data| - 1;
      ChecksumFeeds(w, data[..k]);
      ByteWordFeeds(Checksum(w, data[..k]), data[k]);
      NextByte(Coefficients(w), data, k);
      assert data[..k + 1] == data;
    }
  }

  method Crc16Cont(start: Word16, data: seq<Byte>) returns (crc: Word16)
    ensures crc == Checksum(start, data)
  {
    crc := start;
    for k := 0 to |data|
      invariant crc == Checksum(start, data[..k])
    {
      ghost var before := crc;
      crc := XorTop(crc, data[k]);
      for i := 0 to 8
        invariant ShiftWordN(crc, 8 - i) == ByteWord(before, data[k])
      {
        if crc >= 0x8000 {
          crc := Xor(crc * 2 % 0x1_0000, POLY_WORD);
        } else {
          crc := crc * 2 % 0x1_0000;
        }
      }
      assert data[..k + 1][..k] == data[..k];
    }
    assert data[..|data|] == data;
  }

  lemma NextByte(c: Register, data: seq<Byte>, k: nat)
    requires k < |data|
    ensures Feed(c, MessageBits(data[..k + 1])) == Feed(Feed(c, MessageBits(data[..k])), ByteBits(data[k]))
  {
    assert data[..k + 1] == data[..k] + [data[k]];
    BitsAppend(data[..k], [data[k]]);
    assert MessageBits([data[k]]) == ByteBits(data[k]);
    FeedAppend(c, MessageBits(data[..k]), ByteBits(data[k]));
    assert MessageBits(data[..k + 1]) == MessageBits(data[..k]) + ByteBits(data[k]);
  }

  method Crc16(data: seq<Byte>) returns (crc: Word16)
    ensures crc == Checksum(INIT_WORD, data)
  {
    crc := Crc16Cont(INIT_WORD, data);
  }

  /** The guarantee for the checksum the code computes, whatever the initial word. */
  lemma BurstChangesChecksum(w: Word16, m: seq<Byte>, m': seq<Byte>, start: nat)
    requires BurstOf16(m, m', start)
    ensures Checksum(w, m) != Checksum(w, m')
  {
    ChecksumFeeds(w, m);
    ChecksumFeeds(w, m');
    if MessageBits(m) == MessageBits(m') {
      MessageBitsInjective(m, m');
    }
    BurstDetected(Coefficients(w), MessageBits(m), MessageBits(m'), start);
  }

  /** The other guarantee of this polynomial: any change of an odd number of bits, anywhere in the message. */
  lemma OddChangesChecksum(w: Word16, m: seq<Byte>, m': seq<Byte>)
    requires DifferInOdd(MessageBits(m), MessageBits(m'))
    ensures Checksum(w, m) != Checksum(w, m')
  {
    ChecksumFeeds(w, m);
    ChecksumFeeds(w, m');
    FeedParity(Coefficients(w), MessageBits(m));
    FeedParity(Coefficients(w), MessageBits(m'));
    DifferInOddIff(MessageBits(m), MessageBits(m'));
  }

  /** Words that differ stay different over the same data. */
  lemma ChecksumInjective(w: Word16, w': Word16, data: seq<Byte>)
    requires Checksum(w, data) == Checksum(w', data)
    ensures w == w'
  {
    ChecksumFeeds(w, data);
    ChecksumFeeds(w', data);
    FeedInjective(Coefficients(w), Coefficients(w'), MessageBits(data));
    Pow16();
    DigitsInjective(w, w', 16);
  }

  /** Computing over a header and then over the rest is computing over the whole: crc16Cont continues crc16. */
  lemma {:induction false} ChecksumContinues(w: Word16, a: seq<Byte>, b: seq<Byte>)
    ensures Checksum(w, a + b) == Checksum(Checksum(w, a), b)
    decreases |b|
  {
    if b == [] {
      assert a + b == a;
    } else {
      var k := |b| - 1;
      assert (a + b)[..|a + b| - 1] == a + b[..k];
      ChecksumContinues(w, a, b[..k]);
    }
  }
}
