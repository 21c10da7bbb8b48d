/** Where a signal's bits lie in a payload, and the loops that write and read them (dbc/encode.go, dbc/parser.go). */
module DbcBits {
  import opened Bits
  import opened Can

  datatype ByteOrder = LittleEndian | BigEndian

  datatype Layout = Layout(startBit: nat, length: nat, order: ByteOrder) {
    /** The bounds parseSignal enforces. */
    predicate Valid() { 1 <= length <= 64 && startBit <= 511 }
  }

  predicate BitAt(data: seq<Byte>, p: nat) { p / 8 < |data| && Bit(data[p / 8], p % 8) }

  // ----- The path of a signal: one bit position for each step of the loops -----

  /** Numbers the bits of a payload with the most significant of each byte first. */
  function Saw(p: nat): nat { p / 8 * 8 + 7 - p % 8 }

  function Walk(l: Layout, t: nat): nat {
    if l.order == LittleEndian then l.startBit + t else Saw(Saw(l.startBit) + t)
  }

  /** The bit of the raw value that step t carries. */
  function ValueBit(l: Layout, t: nat): (k: nat)
    requires t < l.length
    ensures k < l.length
  {
    if l.order == LittleEndian then t else l.length - 1 - t
  }

  /** The step that visits a position, if any. */
  function StepAt(l: Layout, p: nat): Option<nat> {
    var t := if l.order == LittleEndian then p - l.startBit else Saw(p) - Saw(l.startBit);
    if 0 <= t < l.length then Some(t) else None
  }

  lemma SawTwice(p: nat)
    ensures Saw(Saw(p)) == p
  {
  }

  /** The walk is a path without repetition: a step visits a position exactly when the position has that step. */
  lemma WalkIsPath(l: Layout, t: nat, p: nat)
    ensures StepAt(l, p) == Some(t) <==> t < l.length && Walk(l, t) == p
  {
    SawTwice(p);
    SawTwice(Saw(l.startBit) + t);
  }

  /** The Motorola walk goes down a byte and on to the top of the next. */
  lemma WalkNext(l: Layout, t: nat)
    requires l.order == BigEndian
    ensures var p, q := Walk(l, t), Walk(l, t + 1);
            q == if p % 8 == 0 then (p / 8 + 1) * 8 + 7 else p - 1
  {
    SawNext(Saw(l.startBit) + t);
  }

  lemma SawNext(s: nat)
    ensures Saw(s + 1) == if Saw(s) % 8 == 0 then (Saw(s) / 8 + 1) * 8 + 7 else Saw(s) - 1
  {
  }

  // ----- Writing -----

  function WithBit(data: seq<Byte>, p: nat): seq<Byte>
    requires p / 8 < |data|
  {
    SetBitBound(data[p / 8], p % 8, 8);
    assert Pow2(8) == 0x100;
    data[p / 8 := SetBit(data[p / 8], p % 8)]
  }

  lemma BitOfWithBit(data: seq<Byte>, p: nat, q: nat)
    requires p / 8 < |data|
    ensures |WithBit(data, p)| == |data|
    ensures BitAt(WithBit(data, p), q) <==> q == p || BitAt(data, q)
  {
    BitOfSetBit(data[p / 8], p % 8, q % 8);
    assert q == p <==> q / 8 == p / 8 && q % 8 == p % 8;
  }

  /** What the first n steps of packing raw leave at position p. */
  predicate Laid(l: Layout, raw: nat, n: nat, p: nat) {
    StepAt(l, p).Some? && StepAt(l, p).value < n && Bit(raw, ValueBit(l, StepAt(l, p).value))
  }

  ghost predicate Packed(before: seq<Byte>, after: seq<Byte>, l: Layout, raw: nat, n: nat) {
    |after| == |before| && forall p: nat :: p / 8 < |before| ==>
      (BitAt(after, p) <==> BitAt(before, p) || Laid(l, raw, n, p))
  }

  lemma PackStep(before: seq<Byte>, after: seq<Byte>, l: Layout, raw: nat, t: nat)
    requires t < l.length && Packed(before, after, l, raw, t)
    ensures var p := Walk(l, t);
            if p / 8 < |after| && Bit(raw, ValueBit(l, t)) then Packed(before, WithBit(after, p), l, raw, t + 1)
            else Packed(before, after, l, raw, t + 1)
  {
    var p := Walk(l, t);
    forall q: nat | q / 8 < |before|
      ensures Laid(l, raw, t + 1, q) <==> Laid(l, raw, t, q) || (q == p && Bit(raw, ValueBit(l, t)))
    {
      WalkIsPath(l, t, q);
    }
    if p / 8 < |after| && Bit(raw, ValueBit(l, t)) {
      forall q: nat | q / 8 < |before|
        ensures BitAt(WithBit(after, p), q) <==> BitAt(before, q) || Laid(l, raw, t + 1, q)
      {
        BitOfWithBit(after, p, q);
      }
    }
  }

  lemma PackedNothing(data: seq<Byte>, l: Layout, raw: nat)
    ensures Packed(data, data, l, raw, 0)
  {
  }

  /** Once the Intel walk has left the payload it never returns. */
  lemma PackedBeyond(before: seq<Byte>, after: seq<Byte>, l: Layout, raw: nat, t: nat)
    requires l.order == LittleEndian && t < l.length && Packed(before, after, l, raw, t) && Walk(l, t) / 8 >= |before|
    ensures Packed(before, after, l, raw, l.length)
  {
  }

  method OrBit(data: array<Byte>, byteIdx: nat, bitIdx: nat)
    requires byteIdx < data.Length && bitIdx < 8
    modifies data
    ensures data[..] == WithBit(old(data[..]), byteIdx * 8 + bitIdx)
  {
    SetBitBound(data[byteIdx], bitIdx, 8);
    assert Pow2(8) == 0x100;
    data[byteIdx] := SetBit(data[byteIdx], bitIdx);
  }

  method PackRaw(data: array<Byte>, raw: nat, l: Layout)
    modifies data
    ensures Packed(old(data[..]), data[..], l, raw, l.length)
  {
    PackedNothing(data[..], l, raw);
    if l.order == LittleEndian {
      PackLittle(data, raw, l);
    } else {
      PackBig(data, raw, l);
    }
  }

  method PackLittle(data: array<Byte>, raw: nat, l: Layout)
    requires l.order == LittleEndian && Packed(data[..], data[..], l, raw, 0)
    modifies data
    ensures Packed(old(data[..]), data[..], l, raw, l.length)
  {
    hide Packed, WithBit, Bit;
    for i := 0 to l.length
      invariant Packed(old(data[..]), data[..], l, raw, i)
    {
      var bit := l.startBit + i;
      var byteIdx, bitIdx := bit / 8, bit % 8;
      if byteIdx >= data.Length {
        PackedBeyond(old(data[..]), data[..], l, raw, i);
        return;
      }
      PackStep(old(data[..]), data[..], l, raw, i);
      if Bit(raw, i) {
        OrBit(data, byteIdx, bitIdx);
      }
    }
  }

  method PackBig(data: array<Byte>, raw: nat, l: Layout)
    requires l.order == BigEndian && Packed(data[..], data[..], l, raw, 0)
    modifies data
    ensures Packed(old(data[..]), data[..], l, raw, l.length)
  {
    hide Packed, WithBit, Bit, Walk;
    var byteIdx: nat, bitIdx: nat := l.startBit / 8, l.startBit % 8;
    WalkStarts(l);
    for i := 0 to l.length
      invariant Packed(old(data[..]), data[..], l, raw, i)
      invariant bitIdx < 8 && Walk(l, i) == byteIdx * 8 + bitIdx
    {
      PackStep(old(data[..]), data[..], l, raw, i);
      WalkNext(l, i);
      if byteIdx < data.Length {
        if Bit(raw, l.length - 1 - i) {
          OrBit(data, byteIdx, bitIdx);
        }
      }
      if bitIdx == 0 {
        bitIdx := 7;
        byteIdx := byteIdx + 1;
      } else {
        bitIdx := bitIdx - 1;
      }
    }
  }

  lemma WalkStarts(l: Layout)
    ensures Walk(l, 0) == l.startBit
  {
  }

  // ----- Reading -----

  /** The bits of raw that the first n steps have read from data. */
  ghost predicate Extracted(data: seq<Byte>, raw: nat, l: Layout, n: nat) {
    && raw < Pow2(l.length)
    && forall t :: 0 <= t < l.length ==> (Bit(raw, ValueBit(l, t)) <==> t < n && BitAt(data, Walk(l, t)))
  }

  lemma ExtractStep(data: seq<Byte>, raw: nat, l: Layout, t: nat)
    requires t < l.length && Extracted(data, raw, l, t)
    ensures Extracted(data, if BitAt(data, Walk(l, t)) then SetBit(raw, ValueBit(l, t)) else raw, l, t + 1)
  {
    SetBitBound(raw, ValueBit(l, t), l.length);
    forall u | 0 <= u < l.length
      ensures Bit(SetBit(raw, ValueBit(l, t)), ValueBit(l, u)) <==> u == t || Bit(raw, ValueBit(l, u))
    {
      BitOfSetBit(raw, ValueBit(l, t), ValueBit(l, u));
    }
  }

  lemma ExtractedNothing(data: seq<Byte>, l: Layout)
    ensures Extracted(data, 0, l, 0)
  {
    forall k ensures !Bit(0, k) {
      BitOfZero(k);
    }
  }

  lemma ExtractedBeyond(data: seq<Byte>, raw: nat, l: Layout, t: nat)
    requires l.order == LittleEndian && t < l.length && Extracted(data, raw, l, t) && Walk(l, t) / 8 >= |data|
    ensures Extracted(data, raw, l, l.length)
  {
  }

  method ExtractRaw(data: seq<Byte>, l: Layout) returns (raw: nat)
    ensures Extracted(data, raw, l, l.length)
  {
    ExtractedNothing(data, l);
    if l.order == LittleEndian {
      raw := ExtractLittle(data, l);
    } else {
      raw := ExtractBig(data, l);
    }
  }

  method ExtractLittle(data: seq<Byte>, l: Layout) returns (raw: nat)
    requires l.order == LittleEndian && Extracted(data, 0, l, 0)
    ensures Extracted(data, raw, l, l.length)
  {
    hide Extracted, Bit, SetBit;
    raw := 0;
    for i := 0 to l.length
      invariant Extracted(data, raw, l, i)
    {
      var bit := l.startBit + i;
      var byteIdx, bitIdx := bit / 8, bit % 8;
      if byteIdx >= |data| {
        ExtractedBeyond(data, raw, l, i);
        return;
      }
      ExtractStep(data, raw, l, i);
      if Bit(data[byteIdx], bitIdx) {
        raw := SetBit(raw, i);
      }
    }
  }

  method ExtractBig(data: seq<Byte>, l: Layout) returns (raw: nat)
    requires l.order == BigEndian && Extracted(data, 0, l, 0)
    ensures Extracted(data, raw, l, l.length)
  {
    hide Extracted, Bit, SetBit, Walk;
    raw := 0;
    var byteIdx: nat, bitIdx: nat := l.startBit / 8, l.startBit % 8;
    WalkStarts(l);
    for i := 0 to l.length
      invariant Extracted(data, raw, l, i)
      invariant bitIdx < 8 && Walk(l, i) == byteIdx * 8 + bitIdx
    {
      ExtractStep(data, raw, l, i);
      WalkNext(l, i);
      if byteIdx < |data| && Bit(data[byteIdx], bitIdx) {
        raw := SetBit(raw, l.length - 1 - i);
      }
      if bitIdx == 0 {
        bitIdx := 7;
        byteIdx := byteIdx + 1;
      } else {
        bitIdx := bitIdx - 1;
      }
    }
  }

  /** What is read is determined by the payload. */
  lemma ExtractedIsUnique(data: seq<Byte>, l: Layout, raw: nat, other: nat)
    requires Extracted(data, raw, l, l.length) && raw < Pow2(l.length) && other < Pow2(l.length)
    requires forall t :: 0 <= t < l.length ==> (Bit(other, ValueBit(l, t)) <==> BitAt(data, Walk(l, t)))
    ensures raw == other
  {
    forall k | 0 <= k < l.length ensures Bit(raw, k) == Bit(other, k) {
      var t := if l.order == LittleEndian then k else l.length - 1 - k;
      assert ValueBit(l, t) == k;
    }
    BitsInjective(raw, other, l.length);
  }
}
