/** The kernel frame codec (socketcan/bus_linux.go), under either native byte order. */
module SocketCan {
  import opened Bits
  import opened Can

  const EFF_FLAG := 0x8000_0000
  const RTR_FLAG := 0x4000_0000
  const EFF_MASK := 0x1FFF_FFFF
  const SFF_MASK := 0x7FF
  const BRS_FLAG := 0x01
  const ESI_FLAG := 0x02
  const CLASSIC_LEN := 16
  const FD_LEN := 72

  /** x & flag != 0 and x | flag, for a flag of one bit; x & mask for a mask of the lowest bits. */
  predicate Has(x: nat, flag: nat)
    requires flag > 0
  {
    x / flag % 2 == 1
  }

  function With(x: nat, flag: nat): nat
    requires flag > 0
  {
    if Has(x, flag) then x else x + flag
  }

  function Masked(x: nat, mask: nat): nat { x % (mask + 1) }

  /** Native order of a 32-bit word. */
  function PutNative(little: bool, w: Word32): (b: seq<Byte>)
    ensures |b| == 4
  {
    var x: int := w;
    var b0, b1, b2, b3 := x % 0x100, x / 0x100 % 0x100, x / 0x1_0000 % 0x100, x / 0x100_0000;
    if little then [b0, b1, b2, b3] else [b3, b2, b1, b0]
  }

  function GetNative(little: bool, b: seq<Byte>): Word32
    requires |b| == 4
  {
    if little then (b[0] as int) + (b[1] as int) * 0x100 + (b[2] as int) * 0x1_0000 + (b[3] as int) * 0x100_0000
    else (b[3] as int) + (b[2] as int) * 0x100 + (b[1] as int) * 0x1_0000 + (b[0] as int) * 0x100_0000
  }

  lemma NativeRoundTrip(little: bool, w: Word32)
    ensures GetNative(little, PutNative(little, w)) == w
  {
    var x: int := w;
    var q1 := x / 0x100;
    var q2 := q1 / 0x100;
    var q3 := q2 / 0x100;
    assert x / 0x1_0000 == q2 && x / 0x100_0000 == q3 && q3 % 0x100 == q3;
    assert x == q1 * 0x100 + x % 0x100 && q1 == q2 * 0x100 + q1 % 0x100 && q2 == q3 * 0x100 + q2 % 0x100;
  }

  function FlagWord(f: Frame): (w: Word32) {
    var id: nat := if f.ext then With(f.id, EFF_FLAG) else f.id;
    if f.rtr then With(id, RTR_FLAG) else id
  }

  function FlagByte(f: Frame): Byte {
    var b: nat := if f.brs then With(0, BRS_FLAG) else 0;
    if f.esi then With(b, ESI_FLAG) else b
  }

  function Padded(data: seq<Byte>, n: nat): (p: seq<Byte>)
    ensures |p| == n
  {
    if |data| >= n then data[..n] else data + seq(n - |data|, _ => 0)
  }

  /** The layout of struct can_frame and struct canfd_frame. */
  function Layout(f: Frame, little: bool): (raw: seq<Byte>)
    ensures |raw| == if f.fd then FD_LEN else CLASSIC_LEN
  {
    PutNative(little, FlagWord(f)) + [|f.data| % 0x100, if f.fd then FlagByte(f) else 0, 0, 0]
    + Padded(f.data, if f.fd then 64 else 8)
  }

  method EncodeFrame(f: Frame, little: bool) returns (raw: array<Byte>)
    ensures fresh(raw) && raw[..] == Layout(f, little)
  {
    hide PutNative;
    var id: nat := f.id;
    if f.ext {
      id := With(id, EFF_FLAG);
    }
    if f.rtr {
      id := With(id, RTR_FLAG);
    }
    var word := PutNative(little, id);
    if f.fd {
      raw := new Byte[FD_LEN](_ => 0);
      CopyInto(raw, 0, word);
      raw[4] := |f.data| % 0x100;
      if f.brs {
        raw[5] := With(raw[5], BRS_FLAG);
      }
      if f.esi {
        raw[5] := With(raw[5], ESI_FLAG);
      }
      assert raw[5] == FlagByte(f);
      hide FlagByte, FlagWord, With;
      CopyInto(raw, 8, f.data);
      assert raw[..8] == word + [|f.data| % 0x100, FlagByte(f), 0, 0];
      assert raw[8..] == Padded(f.data, 64);
      assert raw[..] == raw[..8] + raw[8..];
    } else {
      raw := new Byte[CLASSIC_LEN](_ => 0);
      CopyInto(raw, 0, word);
      raw[4] := |f.data| % 0x100;
      CopyInto(raw, 8, f.data);
      assert raw[..8] == word + [|f.data| % 0x100, 0, 0, 0];
      assert raw[8..] == Padded(f.data, 8);
      assert raw[..] == raw[..8] + raw[8..];
    }
  }

  /** copy(raw[at:], data) */
  method CopyInto(raw: array<Byte>, at: nat, data: seq<Byte>)
    requires at <= raw.Length
    modifies raw
    ensures forall i :: 0 <= i < raw.Length ==>
              raw[i] == if at <= i < at + |data| then data[i - at] else old(raw[i])
  {
    var n := if |data| < raw.Length - at then |data| else raw.Length - at;
    for i := 0 to n
      invariant forall j :: 0 <= j < raw.Length ==> raw[j] == if at <= j < at + i then data[j - at] else old(raw[j])
    {
      raw[at + i] := data[i];
    }
  }

  /** decodeFrame, on the two lengths the read loop lets through. */
  function DecodeFrame(raw: seq<Byte>, little: bool): Frame
    requires |raw| == CLASSIC_LEN || |raw| == FD_LEN
  {
    var word := GetNative(little, raw[..4]);
    var ext, rtr := Has(word, EFF_FLAG), Has(word, RTR_FLAG);
    var id: Word32 := if ext then Masked(word, EFF_MASK) else Masked(word, SFF_MASK);
    if |raw| == FD_LEN then
      var n := if raw[4] > 64 then 64 else raw[4] as int;
      Frame(id, ext, false, true, Has(raw[5], BRS_FLAG), Has(raw[5], ESI_FLAG), false, 0, 0, 0, false, raw[8..8 + n])
    else
      var n := if raw[4] > 8 then 8 else raw[4] as int;
      Frame(id, ext, rtr, false, false, false, false, 0, 0, 0, false, raw[8..8 + n])
  }

  /** What a kernel frame has room for. */
  predicate Fits(f: Frame) {
    && !f.xl && f.sdt == 0 && f.vcid == 0 && f.af == 0 && !f.sec
    && (if f.ext then f.id <= EFF_MASK else f.id <= SFF_MASK)
    && (if f.fd then |f.data| <= 64 && !f.rtr else |f.data| <= 8 && !f.brs && !f.esi)
  }

  lemma FlagBits(f: Frame)
    requires f.id <= EFF_MASK
    ensures var w := FlagWord(f);
            && (Has(w, EFF_FLAG) <==> f.ext) && (Has(w, RTR_FLAG) <==> f.rtr)
            && Masked(w, EFF_MASK) == f.id && (f.id <= SFF_MASK ==> Masked(w, SFF_MASK) == f.id)
  {
  }

  lemma FlagByteBits(f: Frame)
    ensures (Has(FlagByte(f), BRS_FLAG) <==> f.brs) && (Has(FlagByte(f), ESI_FLAG) <==> f.esi)
  {
  }

  lemma Fields(f: Frame, little: bool)
    ensures var raw := Layout(f, little);
            && GetNative(little, raw[..4]) == FlagWord(f) && raw[4] == |f.data| % 0x100
            && raw[5] == (if f.fd then FlagByte(f) else 0) && raw[8..] == Padded(f.data, if f.fd then 64 else 8)
  {
    hide FlagWord, FlagByte, GetNative, PutNative, Padded;
    NativeRoundTrip(little, FlagWord(f));
    assert Layout(f, little)[..4] == PutNative(little, FlagWord(f));
  }

  /** A frame survives the kernel layout exactly when it fits it. */
  lemma CodecRoundTrip(f: Frame, little: bool)
    ensures DecodeFrame(Layout(f, little), little) == f <==> Fits(f)
  {
    hide FlagWord, FlagByte, GetNative, PutNative, Has, Masked, Layout;
    var raw := Layout(f, little);
    Fields(f, little);
    FlagByteBits(f);
    if f.id <= EFF_MASK {
      FlagBits(f);
    }
    DecodedIDFits(raw, little);
    if Fits(f) {
      assert raw[8..8 + |f.data|] == raw[8..][..|f.data|] == f.data;
    }
  }

  lemma DecodedIDFits(raw: seq<Byte>, little: bool)
    requires |raw| == CLASSIC_LEN || |raw| == FD_LEN
    ensures Fits(DecodeFrame(raw, little))
  {
  }

  /** Every valid frame that is not XL and leaves the XL fields zero survives. */
  lemma ValidFramesSurvive(f: Frame, little: bool)
    requires Validates(f) && !f.xl && f.sdt == 0 && f.vcid == 0 && f.af == 0 && !f.sec
    ensures DecodeFrame(Layout(f, little), little) == f
  {
    CodecRoundTrip(f, little);
  }

  // ----- Bit by bit -----

  lemma Powers()
    ensures Pow2(0) == 1 && Pow2(1) == 2 && Pow2(11) == 0x800 && Pow2(29) == 0x2000_0000
    ensures Pow2(30) == 0x4000_0000 && Pow2(31) == 0x8000_0000
  {
    assert Pow2(8) == 0x100 && Pow2(16) == 0x1_0000 && Pow2(24) == 0x100_0000;
  }

  /** A flag of one bit is that bit. */
  lemma FlagIsBit(x: nat, k: nat, j: nat)
    ensures Has(x, Pow2(k)) == Bit(x, k)
    ensures Bit(With(x, Pow2(k)), j) == (j == k || Bit(x, j))
  {
    BitOfQuotient(x, k, 0);
    assert Bit(Quotient(x, Pow2(k)), 0) == (Quotient(x, Pow2(k)) % 2 == 1);
    BitOfSetBit(x, k, j);
  }

  /** The first word of a kernel frame: the identifier, with bit 31 for an extended and bit 30 for a remote frame. */
  lemma WordBits(f: Frame, k: nat)
    ensures Bit(FlagWord(f), k) == (Bit(f.id, k) || (k == 31 && f.ext) || (k == 30 && f.rtr))
  {
    Powers();
    var id: nat := if f.ext then With(f.id, EFF_FLAG) else f.id;
    hide Bit, With, Pow2;
    FlagIsBit(f.id, 31, k);
    FlagIsBit(id, 30, k);
  }

  /** The flags of a CAN FD frame: bit 0 for the bit rate switch, bit 1 for the error state. */
  lemma FlagBitsAre(f: Frame, k: nat)
    ensures Bit(FlagByte(f), k) == ((k == 0 && f.brs) || (k == 1 && f.esi))
  {
    Powers();
    var b: nat := if f.brs then With(0, BRS_FLAG) else 0;
    hide Bit, With, Pow2;
    FlagIsBit(0, 0, k);
    FlagIsBit(b, 1, k);
    BitOfZero(k);
  }

  /** The word in the first four bytes. */
  function WordOf(raw: seq<Byte>, little: bool): nat
    requires |raw| >= 4
  {
    var b: seq<Byte> := if little then raw[..4] else [raw[3], raw[2], raw[1], raw[0]];
    (b[0] as int) + 0x100 * (b[1] as int) + 0x1_0000 * (b[2] as int) + 0x100_0000 * (b[3] as int)
  }

  /** The kernel frame, by position. */
  lemma KernelBytes(f: Frame, little: bool, k: nat)
    ensures var raw := Layout(f, little);
            && |raw| == (if f.fd then 72 else 16)
            && Bit(WordOf(raw, little), k) == (Bit(f.id, k) || (k == 31 && f.ext) || (k == 30 && f.rtr))
            && raw[4] == |f.data| % 0x100 && raw[6] == 0 && raw[7] == 0
            && Bit(raw[5], k) == (f.fd && ((k == 0 && f.brs) || (k == 1 && f.esi)))
            && forall i :: 8 <= i < |raw| ==> raw[i] == if i - 8 < |f.data| then f.data[i - 8] else 0
  {
    var raw := Layout(f, little);
    hide FlagWord, FlagByte, Bit;
    WordRead(f, little);
    WordBits(f, k);
    FlagBitsAre(f, k);
    BitOfZero(k);
  }

  lemma WordRead(f: Frame, little: bool)
    ensures WordOf(Layout(f, little), little) == FlagWord(f)
  {
    hide FlagWord, FlagByte, Padded;
    NativeRoundTrip(little, FlagWord(f));
    assert Layout(f, little)[..4] == PutNative(little, FlagWord(f));
  }

  /** Whatever the kernel delivers, by position: the identifier is 29 or 11 bits of the word, as bit 31 says, and there
      are as many data bytes as byte 4 says, but no more than the frame has room for. */
  lemma DecodedBytes(raw: seq<Byte>, little: bool, k: nat)
    requires |raw| == 16 || |raw| == 72
    ensures var f, w, n := DecodeFrame(raw, little), WordOf(raw, little), (raw[4] as int);
            && f.ext == Bit(w, 31) && f.fd == (|raw| == 72) && f.rtr == (!f.fd && Bit(w, 30))
            && Bit(f.id, k) == (k < (if f.ext then 29 else 11) && Bit(w, k))
            && f.brs == (f.fd && Bit(raw[5], 0)) && f.esi == (f.fd && Bit(raw[5], 1))
            && f.data == raw[8..8 + if n <= |raw| - 8 then n else |raw| - 8]
  {
    var w := GetNative(little, raw[..4]);
    assert w == WordOf(raw, little);
    Powers();
    hide Bit, Has, GetNative, Pow2;
    FlagIsBit(w, 31, k);
    FlagIsBit(w, 30, k);
    FlagIsBit(raw[5], 0, k);
    FlagIsBit(raw[5], 1, k);
    BitOfRemainder(w, 29, k);
    BitOfRemainder(w, 11, k);
  }
}
