/** What a signal's bits mean as a number: the payload read as one little-endian or big-endian number, and the signal as
    a field of it (dbc/encode.go, dbc/parser.go). */
module DbcNumber {
  import opened Bits
  import opened Can
  import opened DbcBits
  import opened Dbc
  import opened DbcMessage

  function LittleNumber(data: seq<Byte>): nat {
    if data == [] then 0 else data[0] + 0x100 * LittleNumber(data[1..])
  }

  function BigNumber(data: seq<Byte>): nat {
    if data == [] then 0 else BigNumber(data[..|data| - 1]) * 0x100 + data[|data| - 1]
  }

  lemma EightBits()
    ensures Pow2(8) == 0x100
  {
  }

  lemma {:induction false} LittleBits(data: seq<Byte>, p: nat)
    ensures Bit(LittleNumber(data), p) <==> BitAt(data, p)
    decreases |data|
  {
    if data == [] {
      BitOfZero(p);
    } else {
      EightBits();
      BitOfConcat(LittleNumber(data[1..]), data[0], 8, p);
      if p >= 8 {
        LittleBits(data[1..], p - 8);
      }
    }
  }

  lemma {:induction false} BigBits(data: seq<Byte>, p: nat)
    ensures Bit(BigNumber(data), p) <==> p / 8 < |data| && Bit(data[|data| - 1 - p / 8], p % 8)
    decreases |data|
  {
    if data == [] {
      BitOfZero(p);
    } else {
      EightBits();
      var n := |data| - 1;
      BitOfConcat(BigNumber(data[..n]), data[n], 8, p);
      if p >= 8 {
        BigBits(data[..n], p - 8);
      }
    }
  }

  // ----- Reading -----

  lemma RawFitsWidth(data: seq<Byte>, l: DbcBits.Layout)
    ensures RawAt(data, l) < Pow2(l.length)
    ensures forall t :: 0 <= t < l.length ==> (Bit(RawAt(data, l), ValueBit(l, t)) <==> BitAt(data, Walk(l, t)))
  {
    assert Extracted(data, RawAt(data, l), l, l.length);
  }

  /** Bit k of an Intel signal is bit startBit + k of the payload. */
  lemma IntelBit(data: seq<Byte>, l: DbcBits.Layout, k: nat)
    requires l.order == LittleEndian
    ensures Bit(RawAt(data, l), k) <==> k < l.length && BitAt(data, l.startBit + k)
  {
    hide RawAt, Bit;
    RawFitsWidth(data, l);
    if k >= l.length {
      BitBeyond(RawAt(data, l), l.length, k);
    } else {
      assert ValueBit(l, k) == k && Walk(l, k) == l.startBit + k;
    }
  }

  /** An Intel signal is a field of the little-endian payload. */
  lemma IntelNumber(data: seq<Byte>, l: DbcBits.Layout)
    requires l.order == LittleEndian
    ensures RawAt(data, l) == Quotient(LittleNumber(data), Pow2(l.startBit)) % Pow2(l.length)
  {
    hide RawAt, LittleNumber;
    var n := LittleNumber(data);
    forall k | 0 <= k ensures Bit(RawAt(data, l), k) == Bit(Quotient(n, Pow2(l.startBit)) % Pow2(l.length), k) {
      IntelBit(data, l, k);
      LittleBits(data, l.startBit + k);
      BitOfField(n, l.startBit, l.length, k);
    }
    SameBits(RawAt(data, l), Quotient(n, Pow2(l.startBit)) % Pow2(l.length));
  }

  /** The payload with zero bytes behind it. */
  function Extended(data: seq<Byte>, zeros: nat): (big: seq<Byte>)
    ensures |big| == |data| + zeros
  {
    data + seq(zeros, _ => 0)
  }

  lemma ExtendedBit(data: seq<Byte>, zeros: nat, p: nat)
    ensures BitAt(Extended(data, zeros), p) <==> BitAt(data, p)
  {
    BitOfZero(p % 8);
  }

  /** How many bits of a big-endian payload of n bytes lie below a Motorola signal, which ends length - 1 bits after its
      start in the order that counts the top bit of each byte first. */
  function Below(l: DbcBits.Layout, n: nat): int { 8 * n - (l.startBit / 8 * 8 + 7 - l.startBit % 8) - l.length }

  /** Bit k of a Motorola signal is bit k above those. */
  lemma MotorolaBit(data: seq<Byte>, l: DbcBits.Layout, zeros: nat, k: nat)
    requires l.order == BigEndian && Below(l, |data| + zeros) >= 0
    ensures var big := Extended(data, zeros);
            Bit(RawAt(data, l), k) <==> k < l.length && Bit(BigNumber(big), Below(l, |big|) + k)
  {
    hide RawAt, Bit, BigNumber;
    var big := Extended(data, zeros);
    RawFitsWidth(data, l);
    if k >= l.length {
      BitBeyond(RawAt(data, l), l.length, k);
    } else {
      var t, p := l.length - 1 - k, Below(l, |big|) + k;
      assert ValueBit(l, t) == k;
      MotorolaPlace(l, |big|, t);
      ExtendedBit(data, zeros, Walk(l, t));
      BigBits(big, p);
    }
  }

  /** Step t visits the bit that many below the top of the field. */
  lemma MotorolaPlace(l: DbcBits.Layout, n: nat, t: nat)
    requires l.order == BigEndian && Below(l, n) >= 0 && t < l.length
    ensures var p := Below(l, n) + (l.length - 1 - t);
            p / 8 < n && Walk(l, t) / 8 == n - 1 - p / 8 && Walk(l, t) % 8 == p % 8
  {
    var p, q := Below(l, n) + (l.length - 1 - t), Saw(l.startBit) + t;
    assert p == 8 * n - 1 - q;
    assert p / 8 == n - 1 - q / 8 && p % 8 == 7 - q % 8;
  }

  /** A Motorola signal is a field of the big-endian payload, zeros behind it where the signal goes past its end. */
  lemma MotorolaNumber(data: seq<Byte>, l: DbcBits.Layout, zeros: nat)
    requires l.order == BigEndian && Below(l, |data| + zeros) >= 0
    ensures var big := Extended(data, zeros);
            RawAt(data, l) == Quotient(BigNumber(big), Pow2(Below(l, |big|))) % Pow2(l.length)
  {
    hide RawAt, BigNumber, Extended, Below;
    var n, low: nat := BigNumber(Extended(data, zeros)), Below(l, |data| + zeros);
    forall k | 0 <= k ensures Bit(RawAt(data, l), k) == Bit(Quotient(n, Pow2(low)) % Pow2(l.length), k) {
      MotorolaBit(data, l, zeros, k);
      BitOfField(n, low, l.length, k);
    }
    SameBits(RawAt(data, l), Quotient(n, Pow2(low)) % Pow2(l.length));
  }

  // ----- Writing -----

  lemma Raised(raw: nat, n: nat, p: nat)
    ensures Bit(raw * Pow2(n), p) <==> p >= n && Bit(raw, p - n)
  {
    BitOfConcat(raw, 0, n, p);
    BitOfZero(p);
  }

  lemma NoBits(data: seq<Byte>, p: nat)
    requires forall i :: 0 <= i < |data| ==> data[i] == 0
    ensures !BitAt(data, p)
  {
    BitOfZero(p % 8);
  }

  /** Packed on its own into an empty payload that holds it, an Intel signal makes the little-endian payload its raw
      value times two to the start bit. */
  lemma IntelPacked(before: seq<Byte>, after: seq<Byte>, l: DbcBits.Layout, raw: nat)
    requires l.order == LittleEndian && Packed(before, after, l, raw, l.length) && raw < Pow2(l.length)
    requires (forall i :: 0 <= i < |before| ==> before[i] == 0) && l.startBit + l.length <= 8 * |before|
    ensures LittleNumber(after) == raw * Pow2(l.startBit)
  {
    hide Bit, LittleNumber, Pow2;
    forall p | 0 <= p ensures Bit(LittleNumber(after), p) == Bit(raw * Pow2(l.startBit), p) {
      LittleBits(after, p);
      Raised(raw, l.startBit, p);
      NoBits(before, p);
      if p >= l.startBit + l.length {
        BitBeyond(raw, l.length, p - l.startBit);
      }
    }
    SameBits(LittleNumber(after), raw * Pow2(l.startBit));
  }

  /** And a Motorola signal makes the big-endian payload its raw value times two to the bits below it. */
  lemma MotorolaPacked(before: seq<Byte>, after: seq<Byte>, l: DbcBits.Layout, raw: nat)
    requires l.order == BigEndian && Packed(before, after, l, raw, l.length) && raw < Pow2(l.length)
    requires (forall i :: 0 <= i < |before| ==> before[i] == 0) && Below(l, |before|) >= 0
    ensures BigNumber(after) == raw * Pow2(Below(l, |before|))
  {
    hide Bit, BigNumber, Pow2, Packed;
    var low: nat := Below(l, |before|);
    forall p | 0 <= p ensures Bit(BigNumber(after), p) == Bit(raw * Pow2(low), p) {
      BigBits(after, p);
      Raised(raw, low, p);
      PackedAt(before, after, l, raw, p);
      if p >= low + l.length {
        BitBeyond(raw, l.length, p - low);
      }
    }
    SameBits(BigNumber(after), raw * Pow2(low));
  }

  lemma PackedAt(before: seq<Byte>, after: seq<Byte>, l: DbcBits.Layout, raw: nat, p: nat)
    requires l.order == BigEndian && Packed(before, after, l, raw, l.length)
    requires (forall i :: 0 <= i < |before| ==> before[i] == 0) && Below(l, |before|) >= 0
    ensures p / 8 < |after| && Bit(after[|after| - 1 - p / 8], p % 8) <==>
              Below(l, |before|) <= p < Below(l, |before|) + l.length && Bit(raw, p - Below(l, |before|))
  {
    hide Bit;
    if p / 8 < |after| {
      var q := 8 * (|after| - 1 - p / 8) + p % 8;
      assert q / 8 == |after| - 1 - p / 8 && q % 8 == p % 8;
      NoBits(before, q);
      var t := Saw(q) - Saw(l.startBit);
      assert Saw(q) == 8 * |after| - 1 - p;
    }
  }
}
