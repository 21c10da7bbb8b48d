/** Unsigned machine words as natural numbers, with the bit operations the Go code uses. */
module Bits {

  type Byte = b: int | 0 <= b < 0x100
  type Word16 = w: int | 0 <= w < 0x1_0000
  type Word32 = w: int | 0 <= w < 0x1_0000_0000

  function Pow2(n: nat): (p: nat)
    ensures p > 0
  {
    if n == 0 then 1 else 2 * Pow2(n - 1)
  }

  /** x & (1 << k) != 0 */
  predicate Bit(x: nat, k: nat) {
    if k == 0 then x % 2 == 1 else Bit(x / 2, k - 1)
  }

  /** x ^ y */
  function Xor(x: nat, y: nat): nat
    decreases x + y
  {
    if x == 0 && y == 0 then 0 else 2 * Xor(x / 2, y / 2) + (x + y) % 2
  }

  /** x & y */
  function And(x: nat, y: nat): nat
    decreases x + y
  {
    if x == 0 || y == 0 then 0 else 2 * And(x / 2, y / 2) + (x % 2) * (y % 2)
  }

  /** x | (1 << k) */
  function SetBit(x: nat, k: nat): nat {
    if Bit(x, k) then x else x + Pow2(k)
  }

  /** The n lowest bits of x, the most significant first. */
  function Digits(x: nat, n: nat): (d: seq<bool>)
    ensures |d| == n
  {
    if n == 0 then [] else Digits(x / 2, n - 1) + [x % 2 == 1]
  }

  lemma {:induction false} DigitsAreBits(x: nat, n: nat, i: nat)
    requires i < n
    ensures Digits(x, n)[i] == Bit(x, n - 1 - i)
    decreases n
  {
    if i < n - 1 {
      DigitsAreBits(x / 2, n - 1, i);
    }
  }

  lemma {:induction false} DigitsInjective(x: nat, y: nat, n: nat)
    requires x < Pow2(n) && y < Pow2(n)
    requires Digits(x, n) == Digits(y, n)
    ensures x == y
    decreases n
  {
    if n == 0 {
    } else {
      var d, e := Digits(x, n), Digits(y, n);
      assert d[n - 1] == e[n - 1] && d[..n - 1] == Digits(x / 2, n - 1) && e[..n - 1] == Digits(y / 2, n - 1);
      DigitsInjective(x / 2, y / 2, n - 1);
    }
  }

  /** Two n-bit numbers with the same bits are equal. */
  lemma {:induction false} BitsInjective(x: nat, y: nat, n: nat)
    requires x < Pow2(n) && y < Pow2(n)
    requires forall k :: 0 <= k < n ==> Bit(x, k) == Bit(y, k)
    ensures x == y
  {
    forall i | 0 <= i < n
      ensures Digits(x, n)[i] == Digits(y, n)[i]
    {
      DigitsAreBits(x, n, i);
      DigitsAreBits(y, n, i);
    }
    DigitsInjective(x, y, n);
  }

  lemma {:induction false} XorDigits(x: nat, y: nat, n: nat)
    ensures forall i :: 0 <= i < n ==> Digits(Xor(x, y), n)[i] == (Digits(x, n)[i] != Digits(y, n)[i])
    decreases n
  {
    if n == 0 {
    } else {
      XorHalves(x, y);
      XorDigits(x / 2, y / 2, n - 1);
    }
  }

  lemma XorHalves(x: nat, y: nat)
    ensures Xor(x, y) / 2 == Xor(x / 2, y / 2)
    ensures (Xor(x, y) % 2 == 1) == ((x % 2 == 1) != (y % 2 == 1))
  {
    var high, low := Xor(x / 2, y / 2), (x + y) % 2;
    assert Xor(x, y) == 2 * high + low;
    LowAndHigh(high, low);
    Parity(x, y);
  }

  lemma Parity(x: nat, y: nat)
    ensures ((x + y) % 2 == 1) == ((x % 2 == 1) != (y % 2 == 1))
  {
  }

  lemma LowAndHigh(high: nat, low: nat)
    requires low < 2
    ensures (2 * high + low) / 2 == high && (2 * high + low) % 2 == low
  {
  }

  lemma {:induction false} XorBound(x: nat, y: nat, n: nat)
    requires x < Pow2(n) && y < Pow2(n)
    ensures Xor(x, y) < Pow2(n)
    decreases n
  {
    if n == 0 {
    } else {
      XorBound(x / 2, y / 2, n - 1);
    }
  }

  lemma {:induction false} TopBit(x: nat, n: nat)
    requires x < Pow2(n + 1)
    ensures Bit(x, n) == (x >= Pow2(n))
    decreases n
  {
    if n == 0 {
    } else {
      TopBit(x / 2, n - 1);
    }
  }

  /** Doubling appends a zero digit, and dropping the carry drops the first digit. */
  lemma DigitsOfDouble(x: nat, n: nat)
    requires n > 0
    ensures Digits(2 * x % Pow2(n), n) == Digits(x, n)[1..] + [false]
  {
    DigitsOfRemainder(2 * x, n);
    DropFirstDigit(x, n);
    assert Digits(2 * x, n) == Digits(x, n - 1) + [false];
  }

  lemma {:induction false} DropFirstDigit(x: nat, n: nat)
    requires n > 0
    ensures Digits(x, n)[1..] == Digits(x, n - 1)
    decreases n
  {
    if n > 1 {
      DropFirstDigit(x / 2, n - 1);
    }
  }

  lemma {:induction false} DigitsOfRemainder(x: nat, n: nat)
    ensures Digits(x % Pow2(n), n) == Digits(x, n)
    decreases n
  {
    if n == 0 {
    } else {
      RemainderHalves(x, Pow2(n - 1));
      DigitsOfRemainder(x / 2, n - 1);
    }
  }

  lemma RemainderHalves(x: nat, p: nat)
    requires p > 0
    ensures (x % (2 * p)) / 2 == (x / 2) % p
    ensures (x % (2 * p)) % 2 == x % 2
  {
    var q, r := x / (2 * p), x % (2 * p);
    assert x == 2 * (p * q) + r;
    assert x / 2 == p * q + r / 2;
    assert 0 <= r / 2 < p;
    ModIs(x / 2, p, q, r / 2);
  }

  lemma ModIs(x: nat, p: nat, q: nat, r: nat)
    requires p > 0 && x == p * q + r && r < p
    ensures x % p == r && x / p == q
  {
    var q', r' := x / p, x % p;
    assert x == p * q' + r';
    if q > q' {
      Multiple(p, q, q');
    } else if q < q' {
      Multiple(p, q', q);
    }
  }

  lemma {:induction false} Multiple(p: nat, q: nat, q': nat)
    requires q > q'
    ensures p * q >= p * q' + p
    decreases q
  {
    assert p * q == p * (q - 1) + p;
    if q - 1 > q' {
      Multiple(p, q - 1, q');
    }
  }

  /** A byte counter keeps the residue modulo sixteen. */
  lemma Mod256Mod16(x: nat)
    ensures (x % 0x100) % 16 == x % 16
  {
  }

  lemma NextMod(x: nat, p: nat)
    requires p > 1
    ensures (x % p + 1) % p == (x + 1) % p
  {
    var q, r := x / p, x % p;
    assert x == p * q + r;
    if r + 1 < p {
      ModIs(x + 1, p, q, r + 1);
    } else {
      assert p * (q + 1) == p * q + p;
      ModIs(x + 1, p, q + 1, 0);
    }
  }

  lemma {:induction false} BitOfZero(k: nat)
    ensures !Bit(0, k)
  {
    if k == 0 {
    } else {
      BitOfZero(k - 1);
    }
  }

  /** The digits of high on top of n low digits. */
  lemma {:induction false} DigitsConcat(high: nat, m: nat, low: nat, n: nat)
    requires low < Pow2(n)
    ensures Digits(high * Pow2(n) + low, m + n) == Digits(high, m) + Digits(low, n)
    decreases n
  {
    if n == 0 {
    } else {
      var x, p := high * Pow2(n) + low, Pow2(n - 1);
      assert x == 2 * (high * p) + low;
      assert x / 2 == high * p + low / 2 && x % 2 == low % 2;
      DigitsConcat(high, m, low / 2, n - 1);
    }
  }

  /** Setting a bit sets that bit and no other. */
  lemma {:induction false} BitOfSetBit(x: nat, k: nat, j: nat)
    ensures Bit(SetBit(x, k), j) == (j == k || Bit(x, j))
    decreases k
  {
    if Bit(x, k) {
    } else if k == 0 {
      if j > 0 {
        assert (x + 1) / 2 == x / 2;
      }
    } else {
      assert (x + Pow2(k)) / 2 == x / 2 + Pow2(k - 1) == SetBit(x / 2, k - 1);
      if j > 0 {
        BitOfSetBit(x / 2, k - 1, j - 1);
      }
    }
  }

  lemma {:induction false} SetBitBound(x: nat, k: nat, n: nat)
    requires x < Pow2(n) && k < n
    ensures SetBit(x, k) < Pow2(n)
    decreases k
  {
    if Bit(x, k) {
    } else if k > 0 {
      SetBitBound(x / 2, k - 1, n - 1);
      assert (x + Pow2(k)) / 2 == SetBit(x / 2, k - 1);
    }
  }

  lemma {:induction false} BitOfAnd(x: nat, y: nat, k: nat)
    ensures Bit(And(x, y), k) == (Bit(x, k) && Bit(y, k))
    decreases k
  {
    if x == 0 || y == 0 {
      BitOfZero(k);
    } else {
      var high, low := And(x / 2, y / 2), (x % 2) * (y % 2);
      assert low < 2 && (low == 1 <==> x % 2 == 1 && y % 2 == 1);
      LowAndHigh(high, low);
      if k > 0 {
        BitOfAnd(x / 2, y / 2, k - 1);
      }
    }
  }

  lemma {:induction false} AndBound(x: nat, y: nat, n: nat)
    requires x < Pow2(n)
    ensures And(x, y) < Pow2(n)
    decreases n
  {
    if n > 0 && x > 0 && y > 0 {
      AndBound(x / 2, y / 2, n - 1);
      assert (x % 2) * (y % 2) < 2;
    }
  }

  // ----- Fields of a word -----

  function Quotient(x: nat, p: nat): nat
    requires p > 0
  {
    x / p
  }

  lemma {:induction false} BitOfQuotient(x: nat, n: nat, k: nat)
    ensures Bit(Quotient(x, Pow2(n)), k) == Bit(x, n + k)
    decreases n
  {
    if n == 0 {
    } else {
      HalfThenDivide(x, Pow2(n - 1));
      BitOfQuotient(x / 2, n - 1, k);
    }
  }

  lemma HalfThenDivide(x: nat, p: nat)
    requires p > 0
    ensures Quotient(x, 2 * p) == Quotient(x / 2, p)
  {
    var q, r := x / 2 / p, x / 2 % p;
    assert x / 2 == p * q + r;
    ModIs(x, 2 * p, q, 2 * r + x % 2);
  }

  lemma {:induction false} BitOfRemainder(x: nat, n: nat, k: nat)
    ensures Bit(x % Pow2(n), k) == (k < n && Bit(x, k))
    decreases n
  {
    if n == 0 {
      BitOfZero(k);
    } else {
      RemainderHalves(x, Pow2(n - 1));
      if k > 0 {
        BitOfRemainder(x / 2, n - 1, k - 1);
      }
    }
  }

  /** The m bits of x from bit n on. */
  lemma BitOfField(x: nat, n: nat, m: nat, k: nat)
    ensures Bit(Quotient(x, Pow2(n)) % Pow2(m), k) == (k < m && Bit(x, n + k))
  {
    BitOfRemainder(Quotient(x, Pow2(n)), m, k);
    BitOfQuotient(x, n, k);
  }

  /** The bits of high on top of n low bits. */
  lemma {:induction false} BitOfConcat(high: nat, low: nat, n: nat, k: nat)
    requires low < Pow2(n)
    ensures Bit(high * Pow2(n) + low, k) == if k < n then Bit(low, k) else Bit(high, k - n)
    decreases n
  {
    if n == 0 {
    } else {
      var x, p := high * Pow2(n) + low, Pow2(n - 1);
      assert x == 2 * (high * p) + low;
      assert x / 2 == high * p + low / 2 && x % 2 == low % 2;
      if k > 0 {
        BitOfConcat(high, low / 2, n - 1, k - 1);
      }
    }
  }

  lemma {:induction false} BitBeyond(x: nat, n: nat, k: nat)
    requires x < Pow2(n) && k >= n
    ensures !Bit(x, k)
    decreases k
  {
    if k == 0 {
    } else if n == 0 {
      BitOfZero(k);
    } else {
      BitBeyond(x / 2, n - 1, k - 1);
    }
  }

  /** A number is determined by its bits. */
  lemma {:induction false} SameBits(x: nat, y: nat)
    requires forall k :: 0 <= k ==> Bit(x, k) == Bit(y, k)
    ensures x == y
    decreases x + y
  {
    if x == 0 && y == 0 {
    } else {
      forall k | 0 <= k ensures Bit(x / 2, k) == Bit(y / 2, k) {
        assert Bit(x, k + 1) == Bit(y, k + 1);
      }
      SameBits(x / 2, y / 2);
      assert Bit(x, 0) == Bit(y, 0);
    }
  }
}
