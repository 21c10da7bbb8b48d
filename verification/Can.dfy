/** Frames, filters and frame validation (can.go). */
module Can {
  import opened Bits

  const MAX_DATA_LEN := 8
  const FD_MAX_DATA_LEN := 64
  const XL_MIN_DATA_LEN := 1
  const XL_MAX_DATA_LEN := 2048
  const MAX_STD_ID := 0x7FF
  const MAX_EXT_ID := 0x1FFF_FFFF
  const XL_MAX_PRIO_ID := 0x7FF

  datatype Option<+T> = None | Some(value: T)

  datatype Frame = Frame(id: Word32, ext: bool, rtr: bool, fd: bool, brs: bool, esi: bool, xl: bool,
                         sdt: Byte, vcid: Byte, af: Word32, sec: bool, data: seq<Byte>)

  /** A classic data frame, every flag but Ext clear. */
  function Classic(id: Word32, ext: bool, data: seq<Byte>): Frame {
    Frame(id, ext, false, false, false, false, false, 0, 0, 0, false, data)
  }

  predicate ValidFDDataLen(n: nat) {
    n <= 8 || n == 12 || n == 16 || n == 20 || n == 24 || n == 32 || n == 48 || n == 64
  }

  /** ValidateFrame returns nil. */
  predicate Validates(f: Frame) {
    if f.fd && f.xl then false
    else if f.esi && !f.fd && !f.xl then false
    else if f.xl then
      && !f.ext && !f.rtr && !f.brs
      && f.id <= XL_MAX_PRIO_ID
      && XL_MIN_DATA_LEN <= |f.data| <= XL_MAX_DATA_LEN
    else
      && !(f.ext && f.id > MAX_EXT_ID)
      && !(!f.ext && f.id > MAX_STD_ID)
      && !(f.rtr && f.fd)
      && !(f.rtr && |f.data| > 0)
      && !(!f.fd && |f.data| > MAX_DATA_LEN)
      && !(f.fd && |f.data| > FD_MAX_DATA_LEN)
      && !(f.fd && !ValidFDDataLen(|f.data|))
      && !(f.brs && !f.fd)
  }

  /** The payload length of a CAN FD data length code, one of sixteen. */
  function FDLength(code: nat): nat
    requires code < 16
  {
    if code <= 8 then code else if code <= 12 then 4 * code - 24 else 16 * code - 176
  }

  /** The lengths accepted for CAN FD are those that a code stands for. */
  lemma FDLengthIff(n: nat)
    ensures ValidFDDataLen(n) <==> exists code: nat :: code < 16 && FDLength(code) == n
  {
    if ValidFDDataLen(n) {
      var code := if n <= 8 then n else if n <= 24 then (n + 24) / 4 else (n + 176) / 16;
      assert FDLength(code) == n;
    }
  }

  /** A valid frame is in one of three formats, and each of them leaves out what it has no room for. */
  lemma ValidatesIff(f: Frame)
    ensures Validates(f) <==>
              || (f.xl && !f.fd && !f.ext && !f.rtr && !f.brs && f.id < 0x800 && 1 <= |f.data| <= 2048)
              || (f.fd && !f.xl && !f.rtr && f.id < (if f.ext then 0x2000_0000 else 0x800)
                  && exists code: nat :: code < 16 && FDLength(code) == |f.data|)
              || (!f.fd && !f.xl && !f.brs && !f.esi && f.id < (if f.ext then 0x2000_0000 else 0x800)
                  && |f.data| <= (if f.rtr then 0 else 8))
  {
    FDLengthIff(|f.data|);
  }

  datatype Filter = Filter(id: Word32, mask: Word32)

  predicate Passes(fl: Filter, f: Frame) { And(f.id, fl.mask) == And(fl.id, fl.mask) }

  ghost predicate Agree(x: nat, y: nat, mask: nat) {
    forall k: nat :: k < 32 && Bit(mask, k) ==> Bit(x, k) == Bit(y, k)
  }

  lemma MaskedBits(x: Word32, y: Word32, mask: Word32)
    ensures And(x, mask) == And(y, mask) <==> Agree(x, y, mask)
  {
    var a, b := And(x, mask), And(y, mask);
    forall k: nat | k < 32
      ensures Bit(a, k) == (Bit(x, k) && Bit(mask, k)) && Bit(b, k) == (Bit(y, k) && Bit(mask, k))
    {
      BitOfAnd(x, mask, k);
      BitOfAnd(y, mask, k);
    }
    if Agree(x, y, mask) {
      assert Pow2(8) == 0x100 && Pow2(16) == 0x1_0000 && Pow2(24) == 0x100_0000 && Pow2(32) == 0x1_0000_0000;
      AndBound(x, mask, 32);
      AndBound(y, mask, 32);
      assert forall k: nat :: k < 32 ==> Bit(a, k) == Bit(b, k);
      BitsInjective(a, b, 32);
    }
  }

  /** A filter looks at the identifier where its mask has ones, and nowhere else. */
  lemma PassesIff(fl: Filter, f: Frame)
    ensures Passes(fl, f) <==> Agree(f.id, fl.id, fl.mask)
  {
    MaskedBits(f.id, fl.id, fl.mask);
  }
}
