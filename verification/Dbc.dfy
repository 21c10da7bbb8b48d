/** Physical values, raw bit patterns and whole messages (dbc/encode.go, dbc/parser.go), over real arithmetic. */
module Dbc {
  import opened Bits
  import opened Can
  import opened DbcBits

  datatype Signal = Signal(layout: Layout, signed: bool, factor: real, offset: real) {
    predicate Valid() { layout.Valid() && factor != 0.0 }
  }

  // ----- 64-bit words -----

  /** The int64 with the same low 64 bits. */
  function Wrap64(x: int): int { (x + Pow2(63)) % Pow2(64) - Pow2(63) }

  /** int64(1) << n */
  function Shl64(n: nat): int { if n >= 64 then 0 else Wrap64(Pow2(n)) }

  lemma {:induction false} Pow2Monotone(a: nat, b: nat)
    requires a <= b
    ensures Pow2(a) <= Pow2(b)
    decreases b
  {
    if a < b {
      Pow2Monotone(a, b - 1);
    }
  }

  lemma WrapIs(x: int, y: int, m: int)
    requires -(Pow2(63) as int) <= y < Pow2(63) && x == y + m * Pow2(64) && -1 <= m <= 1
    ensures Wrap64(x) == y
  {
    hide Pow2;
    var p, z := Pow2(64), y + Pow2(63);
    assert Pow2(64) == 2 * Pow2(63) by { Doubling(63); }
    Remainder(z, p, m);
  }

  lemma Doubling(n: nat)
    ensures Pow2(n + 1) == 2 * Pow2(n)
  {
  }

  lemma Remainder(z: int, p: nat, m: int)
    requires 0 <= z < p && -1 <= m <= 1
    ensures (z + m * p) % p == z
  {
  }

  lemma Product(p: nat, a: int, b: int)
    requires a <= b
    ensures p * a <= p * b
  {
  }

  // ----- Values -----

  /** Half away from zero. */
  function Round(x: real): int { if x >= 0.0 then (x + 0.5).Floor else -(-x + 0.5).Floor }

  function Lowest(signed: bool, length: nat): int
    requires length >= 1
  {
    if signed then -(Pow2(length - 1) as int) else 0
  }

  function Highest(signed: bool, length: nat): int
    requires length >= 1
  {
    if signed then Pow2(length - 1) - 1 else Pow2(length) - 1
  }

  function Clamp(n: int, low: int, high: int): int { if n > high then high else if n < low then low else n }

  /** The raw pattern of a physical value. Outside 64 bits the conversion from floating point is the platform's own:
      it yields beyond, wrapped. */
  function PhysicalToRaw(physical: real, sig: Signal, beyond: int -> int): nat
    requires sig.Valid()
  {
    var n, length := Round((physical - sig.offset) / sig.factor), sig.layout.length;
    if sig.signed then
      var ri := if -(Pow2(63) as int) <= n < Pow2(63) then n else Wrap64(beyond(n));
      Clamp(ri, Lowest(true, length), Highest(true, length)) % Pow2(64) % Pow2(length)
    else
      var r0 := if n > 0 then n else 0;
      var ru := if r0 < Pow2(64) then r0 else beyond(r0) % Pow2(64);
      if ru > Highest(false, length) then Highest(false, length) else ru
  }

  /** The integer a raw pattern stands for. */
  function Value(raw: nat, sig: Signal): int
    requires sig.Valid()
  {
    if !sig.signed then raw
    else if Bit(raw, sig.layout.length - 1) then Wrap64(Wrap64(raw) - Shl64(sig.layout.length))
    else Wrap64(raw)
  }

  function Physical(k: int, sig: Signal): real { k as real * sig.factor + sig.offset }

  lemma RangeFits(length: nat)
    requires 1 <= length <= 64
    ensures Pow2(length) == 2 * Pow2(length - 1) && Pow2(length - 1) <= Pow2(63)
    ensures Pow2(length) <= Pow2(64) && Pow2(64) == 2 * Pow2(63)
    ensures length < 64 ==> Pow2(length) <= Pow2(63)
  {
    Pow2Monotone(length - 1, 63);
    Pow2Monotone(length, 64);
    if length < 64 {
      Pow2Monotone(length, 63);
    }
    Doubling(63);
    Doubling(length - 1);
  }

  lemma Unsigned64(k: int, length: nat)
    requires 1 <= length <= 64 && Lowest(true, length) <= k <= Highest(true, length)
    ensures k % Pow2(64) % Pow2(length) == if k >= 0 then k else k + Pow2(length)
  {
    hide Pow2;
    RangeFits(length);
    SplitPow2(length);
    TwoRemainders(k, Pow2(64), Pow2(length), Pow2(64 - length));
  }

  lemma TwoRemainders(k: int, p: nat, q: nat, m: nat)
    requires m > 0 && p == q * m && -(q as int) <= k < q
    ensures q > 0 && p > 0 && k % p % q == if k >= 0 then k else k + q
  {
    Product(q, 1, m);
    if k >= 0 {
      Remainder(k, p, 0);
      Remainder(k, q, 0);
    } else {
      NegativeRemainders(k, p, q, m);
    }
  }

  lemma NegativeRemainders(k: int, p: nat, q: nat, m: nat)
    requires m > 0 && p == q * m && -(q as int) <= k < 0
    ensures p > 0 && k % p % q == k + q
  {
    Product(q, 1, m);
    Remainder(k + p, p, -1);
    Factored(k, p, q, m);
    ModIs(k + p, q, m - 1, k + q);
  }

  lemma Factored(k: int, p: nat, q: nat, m: nat)
    requires p == q * m
    ensures k + p == q * (m - 1) + (k + q)
  {
  }

  lemma {:induction false} SplitPow2(length: nat)
    requires length <= 64
    ensures Pow2(64) == Pow2(length) * Pow2(64 - length)
    decreases 64 - length
  {
    if length < 64 {
      SplitPow2(length + 1);
      Doubling(length);
      Doubling(63 - length);
      Regroup(Pow2(length), Pow2(63 - length));
    }
  }

  lemma Regroup(a: nat, b: nat)
    ensures (2 * a) * b == a * (2 * b)
  {
  }

  /** What the decoder makes of a negative number's pattern. */
  lemma NegativeValue(k: int, length: nat)
    requires 1 <= length <= 64 && -(Pow2(length - 1) as int) <= k < 0
    ensures Wrap64(Wrap64(k + Pow2(length)) - Shl64(length)) == k
  {
    hide Pow2;
    RangeFits(length);
    var raw := k + Pow2(length);
    if length == 64 {
      WrapIs(raw, k, 1);
      WrapIs(k, k, 0);
    } else {
      WrapIs(raw, raw, 0);
      if Pow2(length) < Pow2(63) {
        WrapIs(Pow2(length), Pow2(length), 0);
        WrapIs(k, k, 0);
      } else {
        WrapIs(Pow2(length), -(Pow2(63) as int), 1);
        WrapIs(raw + Pow2(63), k, 1);
      }
    }
  }

  /** Decoding undoes two's complement at every width, 64 included. */
  lemma TwosComplement(k: int, sig: Signal)
    requires sig.Valid() && sig.signed
    requires Lowest(true, sig.layout.length) <= k <= Highest(true, sig.layout.length)
    ensures var raw := k % Pow2(64) % Pow2(sig.layout.length);
            raw < Pow2(sig.layout.length) && Value(raw, sig) == k
  {
    var length := sig.layout.length;
    hide Pow2;
    Unsigned64(k, length);
    RangeFits(length);
    hide Bit, Shl64, Wrap64;
    if k >= 0 {
      TopBit(k, length - 1);
      WrapIs(k, k, 0);
    } else {
      TopBit(k + Pow2(length), length - 1);
      NegativeValue(k, length);
    }
  }

  /** What a pattern stands for: itself, or itself less two to the width if the signal is signed and the top bit set. */
  lemma ValueOfPattern(raw: nat, sig: Signal)
    requires sig.Valid() && raw < Pow2(sig.layout.length)
    ensures var length := sig.layout.length;
            Value(raw, sig) == if sig.signed && raw >= Pow2(length - 1) then raw - Pow2(length) else raw
  {
    hide Pow2, Value;
    var length := sig.layout.length;
    RangeFits(length);
    if sig.signed {
      var k: int := if raw >= Pow2(length - 1) then raw - Pow2(length) else raw;
      Unsigned64(k, length);
      TwosComplement(k, sig);
    } else {
      UnsignedValue(raw, sig);
    }
  }

  lemma UnsignedValue(raw: nat, sig: Signal)
    requires sig.Valid() && !sig.signed
    ensures Value(raw, sig) == raw
  {
  }

  /** The range to which values are clamped is that of all patterns, no more and no less. */
  lemma RangeIsPatterns(k: int, sig: Signal)
    requires sig.Valid()
    ensures Representable(k, sig) <==> exists raw: nat :: raw < Pow2(sig.layout.length) && Value(raw, sig) == k
  {
    hide Pow2, Value;
    var length := sig.layout.length;
    RangeFits(length);
    if Representable(k, sig) {
      var raw: nat := if k < 0 then k + Pow2(length) else k;
      ValueOfPattern(raw, sig);
    }
    if raw: nat :| raw < Pow2(length) && Value(raw, sig) == k {
      ValueOfPattern(raw, sig);
    }
  }

  // ----- The encoding is optimal -----

  function Abs(x: real): real { if x < 0.0 then -x else x }

  ghost predicate Representable(k: int, sig: Signal)
    requires sig.Valid()
  {
    Lowest(sig.signed, sig.layout.length) <= k <= Highest(sig.signed, sig.layout.length)
  }

  /** Of all the values the signal can carry, none is closer to v than r's. */
  ghost predicate Nearest(r: int, sig: Signal, v: real)
    requires sig.Valid()
  {
    Representable(r, sig) &&
    forall k :: Representable(k, sig) ==> Abs(Physical(r, sig) - v) <= Abs(Physical(k, sig) - v)
  }

  function Rounded(v: real, sig: Signal): int
    requires sig.Valid()
  {
    Round((v - sig.offset) / sig.factor)
  }

  /** The rounded value after its conversion to 64 bits. */
  function Converted(n: int, sig: Signal, beyond: int -> int): int {
    if sig.signed then if -(Pow2(63) as int) <= n < Pow2(63) then n else Wrap64(beyond(n))
    else if n < Pow2(64) then n else beyond(n) % Pow2(64)
  }

  /** Clamped to the signal's range. */
  function Limited(n: int, sig: Signal): int
    requires sig.Valid()
  {
    Clamp(n, Lowest(sig.signed, sig.layout.length), Highest(sig.signed, sig.layout.length))
  }

  /** The conversion keeps the value, or at least the end at which it saturates. */
  predicate Converts(n: int, sig: Signal, beyond: int -> int)
    requires sig.Valid()
  {
    var low, high := Lowest(sig.signed, sig.layout.length), Highest(sig.signed, sig.layout.length);
    if sig.signed then
      && (n >= Pow2(63) ==> Wrap64(beyond(n)) >= high)
      && (n < -(Pow2(63) as int) ==> Wrap64(beyond(n)) <= low)
    else n >= Pow2(64) ==> beyond(n) % Pow2(64) >= high
  }

  lemma DecodedIs(v: real, sig: Signal, beyond: int -> int)
    requires sig.Valid()
    ensures PhysicalToRaw(v, sig, beyond) < Pow2(sig.layout.length)
    ensures Value(PhysicalToRaw(v, sig, beyond), sig)
         == Limited(Converted(Rounded(v, sig), sig, beyond), sig)
  {
    hide Pow2, Wrap64, Round;
    var length := sig.layout.length;
    RangeFits(length);
    if sig.signed {
      var ri := Converted(Rounded(v, sig), sig, beyond);
      TwosComplement(Clamp(ri, Lowest(true, length), Highest(true, length)), sig);
    }
  }

  lemma RoundIsNear(x: real)
    ensures -0.5 <= Round(x) as real - x <= 0.5
  {
  }

  /** Rounding to the nearest integer, and from halfway away from zero. */
  lemma RoundIff(x: real, n: int)
    ensures Round(x) == n <==> if x >= 0.0 then n as real - 0.5 <= x < n as real + 0.5
                               else n as real - 0.5 < x <= n as real + 0.5
  {
  }

  lemma ClampIsNearest(n: int, x: real, low: int, high: int, k: int)
    requires low <= k <= high && -0.5 <= n as real - x <= 0.5
    ensures Abs(Clamp(n, low, high) as real - x) <= Abs(k as real - x)
  {
    if n > high {
      assert n as real >= high as real + 1.0 && high as real >= k as real;
    } else if n < low {
      assert n as real <= low as real - 1.0 && low as real <= k as real;
    } else if k > n {
      assert k as real >= n as real + 1.0;
    } else if k < n {
      assert k as real <= n as real - 1.0;
    }
  }

  function Times(a: real, b: real): real { a * b }

  /** Errors scale with the factor. */
  lemma ErrorSize(k: int, sig: Signal, v: real, d: real)
    requires sig.Valid() && d == k as real - (v - sig.offset) / sig.factor
    ensures Abs(Physical(k, sig) - v) == Times(Abs(d), Abs(sig.factor))
  {
  }

  lemma Order(a: real, b: real, f: real)
    requires f > 0.0
    ensures a <= b <==> Times(a, f) <= Times(b, f)
  {
  }

  lemma CloserIff(r: int, k: int, sig: Signal, v: real)
    requires sig.Valid()
    ensures var x := (v - sig.offset) / sig.factor;
            Abs(Physical(r, sig) - v) <= Abs(Physical(k, sig) - v) <==> Abs(r as real - x) <= Abs(k as real - x)
  {
    assert Abs(sig.factor) > 0.0;
    hide Physical, Abs, Times;
    var x := (v - sig.offset) / sig.factor;
    var a, b := r as real - x, k as real - x;
    ErrorSize(r, sig, v, a);
    ErrorSize(k, sig, v, b);
    Order(Abs(a), Abs(b), Abs(sig.factor));
  }

  lemma ClampedIsNearest(v: real, sig: Signal)
    requires sig.Valid()
    ensures Nearest(Limited(Rounded(v, sig), sig), sig, v)
  {
    hide Physical, Abs, Round, Pow2;
    var low, high := Lowest(sig.signed, sig.layout.length), Highest(sig.signed, sig.layout.length);
    var x := (v - sig.offset) / sig.factor;
    var r := Clamp(Rounded(v, sig), low, high);
    RangeFits(sig.layout.length);
    forall k | Representable(k, sig) ensures Abs(Physical(r, sig) - v) <= Abs(Physical(k, sig) - v) {
      RoundIsNear(x);
      ClampIsNearest(Rounded(v, sig), x, low, high, k);
      CloserIff(r, k, sig, v);
    }
  }

  /** Beyond an end of the range only that end is nearest. */
  lemma OnlyTheEnd(v: real, sig: Signal, r: int)
    requires sig.Valid() && Nearest(r, sig, v)
    ensures Rounded(v, sig) > Highest(sig.signed, sig.layout.length) ==> r == Highest(sig.signed, sig.layout.length)
    ensures Rounded(v, sig) < Lowest(sig.signed, sig.layout.length) ==> r == Lowest(sig.signed, sig.layout.length)
  {
    hide Physical, Round, Pow2;
    var low, high := Lowest(sig.signed, sig.layout.length), Highest(sig.signed, sig.layout.length);
    var x := (v - sig.offset) / sig.factor;
    RangeFits(sig.layout.length);
    RoundIsNear(x);
    assert Representable(low, sig) && Representable(high, sig);
    CloserIff(r, high, sig, v);
    CloserIff(r, low, sig, v);
  }

  /** Decoding what was encoded gives a representable value nearest to the requested one exactly when the conversion
      to 64 bits is sound; within the range the error is then at most half the factor, outside it saturates. */
  lemma EncodingIsOptimal(v: real, sig: Signal, beyond: int -> int)
    requires sig.Valid()
    ensures var n, r := Rounded(v, sig), Value(PhysicalToRaw(v, sig, beyond), sig);
            var low, high := Lowest(sig.signed, sig.layout.length), Highest(sig.signed, sig.layout.length);
            && (Nearest(r, sig, v) <==> Converts(n, sig, beyond))
            && (low <= n <= high ==> r == n && Abs(Physical(r, sig) - v) <= Abs(sig.factor) * 0.5)
            && (Converts(n, sig, beyond) && n > high ==> r == high)
            && (Converts(n, sig, beyond) && n < low ==> r == low)
  {
    hide Physical, Round, Pow2, Wrap64, Nearest;
    var n, r := Rounded(v, sig), Value(PhysicalToRaw(v, sig, beyond), sig);
    RangeFits(sig.layout.length);
    DecodedIs(v, sig, beyond);
    ClampedIsNearest(v, sig);
    if Nearest(r, sig, v) {
      OnlyTheEnd(v, sig, r);
    }
    HalfFactor(v, sig);
  }

  lemma HalfFactor(v: real, sig: Signal)
    requires sig.Valid()
    ensures Abs(Physical(Rounded(v, sig), sig) - v) <= Abs(sig.factor) * 0.5
  {
    var x := (v - sig.offset) / sig.factor;
    var d := Rounded(v, sig) as real - x;
    RoundIsNear(x);
    assert Abs(sig.factor) > 0.0 && Abs(d) <= 0.5;
    hide Physical, Round, Abs;
    ErrorSize(Rounded(v, sig), sig, v, d);
    Order(Abs(d), 0.5, Abs(sig.factor));
  }

  /** A value halfway between two that the signal can carry becomes the one further from zero, before the offset. */
  lemma HalfwayGoesAway(k: int, sig: Signal, v: real, beyond: int -> int)
    requires sig.Valid() && Representable(k, sig) && Representable(k + 1, sig)
    requires v == Physical(k, sig) + sig.factor * 0.5
    ensures Value(PhysicalToRaw(v, sig, beyond), sig) == if k >= 0 then k + 1 else k
  {
    Halfway(k, sig, v);
    hide Physical, Round, PhysicalToRaw, Value, Pow2;
    RoundIff((v - sig.offset) / sig.factor, if k >= 0 then k + 1 else k);
    EncodingIsOptimal(v, sig, beyond);
  }

  lemma Halfway(k: int, sig: Signal, v: real)
    requires sig.Valid() && v == Physical(k, sig) + sig.factor * 0.5
    ensures (v - sig.offset) / sig.factor == k as real + 0.5
  {
    var f, r := sig.factor, k as real;
    assert v - sig.offset == r * f + 0.5 * f;
    Distribute(r, 0.5, f);
    DivideBack(v - sig.offset, f, r + 0.5);
  }

  lemma Distribute(a: real, b: real, f: real)
    ensures (a + b) * f == a * f + b * f
  {
  }

  lemma DivideBack(y: real, f: real, z: real)
    requires f != 0.0 && y == z * f
    ensures y / f == z
  {
  }

  /** A platform whose out-of-range conversions give the lowest int64 saturates large values at the wrong end. */
  lemma WrongEnd(sig: Signal, beyond: int -> int)
    requires sig == Signal(Layout(0, 8, LittleEndian), true, 1.0, 0.0)
    requires beyond(Pow2(63)) == -(Pow2(63) as int)
    ensures Value(PhysicalToRaw(Pow2(63) as real, sig, beyond), sig) == -128
  {
    hide Pow2, Wrap64;
    RangeFits(8);
    assert Rounded(Pow2(63) as real, sig) == Pow2(63);
    WrapIs(-(Pow2(63) as int), -(Pow2(63) as int), 0);
    DecodedIs(Pow2(63) as real, sig, beyond);
    assert Pow2(7) == 128 by { SmallPowers(); }
  }

  lemma SmallPowers()
    ensures Pow2(7) == 128
  {
  }
}
