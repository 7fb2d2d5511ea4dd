/**
 Bitwise operators on machine words, defined on the natural numbers bit by bit.
 Every lemma holds for words of any width, so 32-bit bitmap words and 64-bit
 page-table entries share one theory.
 */
module Bits {

  const WORD32: nat := 0x1_0000_0000
  const WORD64: nat := 0x1_0000_0000_0000_0000

  function Pow2(n: nat): (p: nat)
    ensures p >= 1
  {
    if n == 0 then 1 else 2 * Pow2(n - 1)
  }

  predicate Bit(w: nat, j: nat) {
    if j == 0 then w % 2 == 1 else Bit(w / 2, j - 1)
  }

  function Or(a: nat, b: nat): nat {
    if a == 0 && b == 0 then 0
    else (if a % 2 == 1 || b % 2 == 1 then 1 else 0) + 2 * Or(a / 2, b / 2)
  }

  /** a & ~b */
  function AndNot(a: nat, b: nat): nat {
    if a == 0 then 0
    else (if a % 2 == 1 && b % 2 == 0 then 1 else 0) + 2 * AndNot(a / 2, b / 2)
  }

  lemma {:induction false} ZeroBit(j: nat)
    ensures !Bit(0, j)
  {
    if j > 0 { ZeroBit(j - 1); }
  }

  lemma {:induction false} OrBit(a: nat, b: nat, j: nat)
    ensures Bit(Or(a, b), j) == (Bit(a, j) || Bit(b, j))
  {
    if a == 0 && b == 0 {
      ZeroBit(j);
    } else {
      OrStep(a, b);
      if j > 0 { OrBit(a / 2, b / 2, j - 1); }
    }
  }

  /** The lowest bit of an or, and the rest. */
  lemma {:induction false} OrStep(a: nat, b: nat)
    ensures Or(a, b) % 2 == 1 <==> a % 2 == 1 || b % 2 == 1
    ensures Or(a, b) / 2 == Or(a / 2, b / 2)
  {
    Halves(if a % 2 == 1 || b % 2 == 1 then 1 else 0, Or(a / 2, b / 2));
  }

  lemma {:induction false} Halves(bit: nat, rest: nat)
    requires bit < 2
    ensures (bit + 2 * rest) % 2 == bit && (bit + 2 * rest) / 2 == rest
  {
  }

  lemma {:induction false} AndNotBit(a: nat, b: nat, j: nat)
    ensures Bit(AndNot(a, b), j) == (Bit(a, j) && !Bit(b, j))
  {
    if a == 0 {
      ZeroBit(j);
    } else if j > 0 {
      AndNotBit(a / 2, b / 2, j - 1);
      assert AndNot(a, b) / 2 == AndNot(a / 2, b / 2);
    }
  }

  lemma {:induction false} Pow2Bit(j: nat, k: nat)
    ensures Bit(Pow2(j), k) == (j == k)
  {
    if j == 0 {
      if k > 0 { ZeroBit(k - 1); }
    } else if k > 0 {
      Pow2Bit(j - 1, k - 1);
    }
  }

  /** The all-ones word of n bits. */
  lemma {:induction false} OnesBit(n: nat, j: nat)
    requires j < n
    ensures Bit((Pow2(n) - 1) as nat, j)
  {
    assert Pow2(n) == 2 * Pow2(n - 1);
    assert (Pow2(n) - 1) / 2 == Pow2(n - 1) - 1;
    if j > 0 { OnesBit(n - 1, j - 1); }
  }

  lemma {:induction false} OrZero(a: nat)
    ensures Or(a, 0) == a
  {
    if a > 0 { OrZero(a / 2); }
  }

  lemma {:induction false} HalveThenDivide(a: nat, d: nat, e: nat)
    requires d > 0 && e == 2 * d
    ensures a / 2 / d == a / e
  {
    var q, r := a / 2 / d, a / 2 % d;
    assert a / 2 == d * q + r;
    assert e * q == 2 * (d * q);
    QuotientUnique(a, e, q, 2 * r + a % 2);
  }

  lemma {:induction false} QuotientUnique(a: nat, d: nat, q: nat, r: nat)
    requires d > 0 && r < d
    requires a == d * q + r
    ensures a / d == q && a % d == r
  {
    var q', r' := a / d, a % d;
    assert d * (q - q') == r' - r;
    MultipleBound(d, q - q');
  }

  lemma {:induction false} MulMonotone(a: nat, b: nat, c: nat)
    ensures a <= b ==> a * c <= b * c
  {
  }

  lemma {:induction false} MultipleBound(d: int, k: int)
    requires d > 0
    ensures k >= 1 ==> d * k >= d
    ensures k <= -1 ==> d * k <= -d
  {
  }

  /** w >> k */
  function Shr(w: nat, k: nat): nat {
    if k == 0 then w else Shr(w / 2, k - 1)
  }

  lemma {:induction false} ShrIsDivision(w: nat, k: nat)
    ensures Shr(w, k) == w / Pow2(k)
  {
    if k > 0 {
      ShrIsDivision(w / 2, k - 1);
      HalveThenDivide(w, Pow2(k - 1), Pow2(k));
    }
  }

  /** Shifting right distributes over or. */
  lemma {:induction false} OrShr(a: nat, b: nat, k: nat)
    ensures Shr(Or(a, b), k) == Or(Shr(a, k), Shr(b, k))
  {
    if k > 0 {
      OrShr(a / 2, b / 2, k - 1);
      assert Or(a, b) / 2 == Or(a / 2, b / 2);
    }
  }

  /** An aligned word and a word below the alignment do not overlap. */
  lemma {:induction false} OrDisjoint(a: nat, b: nat, k: nat)
    requires a % Pow2(k) == 0 && b < Pow2(k)
    ensures Or(a, b) == a + b
  {
    if k == 0 {
      OrZero(a);
    } else {
      var d := Pow2(k - 1);
      var q := a / (2 * d);
      assert a == 2 * (d * q);
      assert a / 2 == d * q;
      QuotientUnique(a / 2, d, q, 0);
      OrDisjoint(a / 2, b / 2, k - 1);
    }
  }

  /** The bits below the alignment of a word are clear. */
  lemma {:induction false} AlignedBit(a: nat, k: nat, j: nat)
    requires a % Pow2(k) == 0 && j < k
    ensures !Bit(a, j)
  {
    var d := Pow2(k - 1);
    var q := a / (2 * d);
    assert a == 2 * (d * q);
    if j > 0 {
      QuotientUnique(a / 2, d, q, 0);
      AlignedBit(a / 2, k - 1, j - 1);
    }
  }

  lemma {:induction false} Pow2Values()
    ensures Pow2(2) == 4 && Pow2(5) == 32 && Pow2(6) == 64 && Pow2(12) == 0x1000 && Pow2(13) == 0x2000
    ensures Pow2(21) == 0x20_0000
    ensures Pow2(30) == 0x4000_0000 && Pow2(32) == WORD32 && Pow2(39) == 0x80_0000_0000
  {
    assert Pow2(5) == 32;
    assert Pow2(10) == 0x400;
    assert Pow2(15) == 0x8000;
    assert Pow2(20) == 0x10_0000;
    assert Pow2(25) == 0x200_0000;
    assert Pow2(30) == 0x4000_0000;
    assert Pow2(35) == 0x8_0000_0000;
  }

  /** Bit j is the binary digit of weight 2^j. */
  lemma {:induction false} BitIsDigit(w: nat, j: nat)
    ensures Bit(w, j) <==> w / Pow2(j) % 2 == 1
  {
    if j > 0 {
      BitIsDigit(w / 2, j - 1);
      HalveThenDivide(w, Pow2(j - 1), Pow2(j));
    }
  }

  lemma {:induction false} SplitEven(w: nat, d: nat)
    requires d > 0
    ensures w % (2 * d) == w % 2 + 2 * (w / 2 % d)
  {
    var q, r := w / 2 / d, w / 2 % d;
    assert w / 2 == d * q + r;
    assert w == 2 * d * q + (w % 2 + 2 * r);
    QuotientUnique(w, 2 * d, q, w % 2 + 2 * r);
  }

  /** Masking keeps the bits below the mask's end. */
  lemma {:induction false} ModBit(w: nat, k: nat, j: nat)
    ensures Bit(w % Pow2(k), j) <==> j < k && Bit(w, j)
  {
    if k == 0 {
      ZeroBit(j);
    } else {
      var d := Pow2(k - 1);
      SplitEven(w, d);
      Halves(w % 2, w / 2 % d);
      if j > 0 { ModBit(w / 2, k - 1, j - 1); }
    }
  }

  /** Clearing the low bits keeps those from the mask's end on. */
  lemma {:induction false} ClearLowBit(x: nat, w: nat, k: nat, j: nat)
    requires x + w % Pow2(k) == w
    ensures Bit(x, j) <==> j >= k && Bit(w, j)
  {
    if k > 0 {
      ClearStep(x, w, Pow2(k - 1));
      if j > 0 { ClearLowBit(x / 2, w / 2, k - 1, j - 1); }
    }
  }

  lemma {:induction false} ClearStep(x: nat, w: nat, d: nat)
    requires d > 0 && x + w % (2 * d) == w
    ensures x % 2 == 0 && x / 2 + w / 2 % d == w / 2
  {
    SplitEven(w, d);
    EvenPart(x, w / 2, w / 2 % d, w % 2);
  }

  lemma {:induction false} EvenPart(x: nat, h: nat, r: nat, b: nat)
    requires x + (b + 2 * r) == 2 * h + b
    ensures x % 2 == 0 && x / 2 + r == h
  {
    Halves(0, h - r);
  }

  /** The bits of 3. */
  lemma {:induction false} ThreeBit(j: nat)
    ensures Bit(3, j) <==> j < 2
  {
    if j >= 2 {
      ZeroBit(j - 2);
      assert Bit(3, j) == Bit(1, j - 1) == Bit(0, j - 2);
    }
  }
}
