/** 64-bit machine words as bounded naturals, and the bitwise operators the kernel applies to them.

    The operators are defined bit by bit. The lemmas below give each use of a mask, shift or rounding macro in
    the source its meaning in div/mod arithmetic, which is what the other modules reason with. */
module Words {

  const WORD := 0x1_0000_0000_0000_0000

  type u64 = x: int | 0 <= x < 0x1_0000_0000_0000_0000

  type u16 = x: int | 0 <= x < 0x1_0000

  function Pow2(n: nat): (r: nat)
    ensures r >= 1
    ensures n > 0 ==> r % 2 == 0
  {
    if n == 0 then 1 else 2 * Pow2(n - 1)
  }

  function BitAnd(a: nat, b: nat): nat {
    if a == 0 || b == 0 then 0 else 2 * BitAnd(a / 2, b / 2) + (a % 2) * (b % 2)
  }

  function BitOr(a: nat, b: nat): nat {
    if a == 0 then b else if b == 0 then a
    else 2 * BitOr(a / 2, b / 2) + (if a % 2 + b % 2 > 0 then 1 else 0)
  }

  /** Is bit i of w set? */
  predicate Bit(w: nat, i: nat) {
    if i == 0 then w % 2 == 1 else Bit(w / 2, i - 1)
  }

  function Not64(a: u64): u64 {
    WORD - 1 - a
  }

  function Add64(a: u64, b: u64): u64 {
    (a + b) % WORD
  }

  function Sub64(a: u64, b: u64): u64 {
    (a - b) % WORD
  }

  function Shl64(a: u64, n: nat): u64 {
    (a * Pow2(n)) % WORD
  }

  function Shr64(a: u64, n: nat): u64
  {
    ShrShrinks(a, n);
    a / Pow2(n)
  }

  /** ROUND_DOWN_P2 and ROUND_UP_P2. */
  function RoundDownP2(val: u64, mult: u64): u64
    requires mult > 0
  {
    AndBound(val, Not64(mult - 1));
    BitAnd(val, Not64(mult - 1))
  }

  function RoundUpP2(val: u64, mult: u64): u64
    requires mult > 0
  {
    AndBound(Sub64(Add64(val, mult), 1), Not64(mult - 1));
    BitAnd(Sub64(Add64(val, mult), 1), Not64(mult - 1))
  }

  /** Division with remainder. */
  lemma Quotient(x: nat, p: nat)
    requires p > 0
    ensures x == (x / p) * p + x % p
    ensures 0 <= x / p <= x && 0 <= x % p < p
  {
    var q := x / p;
    assert q <= q * p by { ScaleGrows(q, p); }
  }

  lemma ScaleGrows(q: nat, p: nat)
    requires p > 0
    ensures q <= q * p
  {
  }

  lemma QuotientIs(x: nat, p: nat, q: nat, r: nat)
    requires x == q * p + r && r < p
    ensures x / p == q && x % p == r
  {
    Quotient(x, p);
    Multiples(x / p, q, p);
    Multiples(q, x / p, p);
  }

  lemma Multiples(a: int, b: int, m: nat)
    ensures a < b ==> a * m + m <= b * m
  {
    if a < b {
      var d: nat := b - a - 1;
      assert d * m >= 0;
      assert (a + 1 + d) * m == a * m + m + d * m;
    }
  }

  lemma QuotientBelow(x: nat, p: nat, q: nat)
    requires p > 0 && x < p * q
    ensures x / p < q
  {
  }

  lemma ShrShrinks(a: u64, n: nat)
    ensures 0 <= a / Pow2(n) <= a
  {
    Quotient(a, Pow2(n));
  }

  lemma {:induction false} AndZeroOne(a: nat)
    ensures BitAnd(a, 0) == 0 && BitAnd(0, a) == 0
    ensures BitAnd(a, 1) == a % 2
  {
  }

  lemma {:induction false} AndStep(a: nat, b: nat)
    ensures BitAnd(a, b) == 2 * BitAnd(a / 2, b / 2) + (a % 2) * (b % 2)
  {
  }

  lemma {:induction false} OrStep(a: nat, b: nat)
    ensures BitOr(a, b) == 2 * BitOr(a / 2, b / 2) + (if a % 2 + b % 2 > 0 then 1 else 0)
  {
  }

  /** Halving a word whose low n bits are lo and whose other bits are hi. */
  lemma HalfOfParts(n: nat, hi: nat, lo: nat)
    requires n > 0 && lo < Pow2(n)
    ensures lo / 2 < Pow2(n - 1)
    ensures (hi * Pow2(n) + lo) / 2 == hi * Pow2(n - 1) + lo / 2
    ensures (hi * Pow2(n) + lo) % 2 == lo % 2
  {
  }

  lemma Recombine(c: nat, d: nat, q: nat, bit: nat)
    ensures 2 * (c * q + d) + bit == c * (2 * q) + (2 * d + bit)
  {
  }

  /** Conjunction acts on the low n bits and on the rest separately. */
  lemma {:induction false} AndParts(n: nat, h1: nat, l1: nat, h2: nat, l2: nat)
    requires l1 < Pow2(n) && l2 < Pow2(n)
    ensures BitAnd(h1 * Pow2(n) + l1, h2 * Pow2(n) + l2) == BitAnd(h1, h2) * Pow2(n) + BitAnd(l1, l2)
  {
    if n > 0 {
      assert Pow2(n) == 2 * Pow2(n - 1);
      hide *;
      var x, y := h1 * Pow2(n) + l1, h2 * Pow2(n) + l2;
      HalfOfParts(n, h1, l1);
      HalfOfParts(n, h2, l2);
      AndStep(x, y);
      AndStep(l1, l2);
      AndParts(n - 1, h1, l1 / 2, h2, l2 / 2);
      Recombine(BitAnd(h1, h2), BitAnd(l1 / 2, l2 / 2), Pow2(n - 1), if l1 % 2 == 1 && l2 % 2 == 1 then 1 else 0);
    }
  }

  lemma {:induction false} AndOnes(n: nat, x: nat)
    requires x < Pow2(n)
    ensures BitAnd(x, Pow2(n) - 1) == x
  {
    if n > 0 {
      AndOnes(n - 1, x / 2);
      AndStep(x, Pow2(n) - 1);
      assert (Pow2(n) - 1) / 2 == Pow2(n - 1) - 1;
    } else {
      AndZeroOne(x);
    }
  }

  lemma {:induction false} Product(a: nat, b: nat)
    ensures Pow2(a) * Pow2(b) == Pow2(a + b)
  {
    hide Pow2;
    PowStep(a);
    PowStep(a + b);
    if a > 0 {
      Product(a - 1, b);
      Associate(Pow2(a - 1), Pow2(b));
    }
  }

  lemma PowStep(n: nat)
    ensures Pow2(0) == 1 && (n > 0 ==> Pow2(n) == 2 * Pow2(n - 1))
  {
  }

  lemma Associate(x: nat, y: nat)
    ensures 2 * x * y == 2 * (x * y)
  {
  }

  /** `x & (2^n - 1)` keeps the low n bits. */
  lemma LowMask(n: nat, x: nat)
    ensures BitAnd(x, Pow2(n) - 1) == x % Pow2(n)
  {
    var hi, lo := x / Pow2(n), x % Pow2(n);
    Quotient(x, Pow2(n));
    AndParts(n, hi, lo, 0, Pow2(n) - 1);
    AndZeroOne(hi);
    AndOnes(n, lo);
  }

  /** `x & mask`, where mask has exactly bits n .. n+m-1, keeps those bits in place. */
  lemma FieldMask(n: nat, m: nat, x: nat)
    ensures BitAnd(x, (Pow2(m) - 1) * Pow2(n)) == (x / Pow2(n) % Pow2(m)) * Pow2(n)
  {
    var hi, lo := x / Pow2(n), x % Pow2(n);
    Quotient(x, Pow2(n));
    AndParts(n, hi, lo, Pow2(m) - 1, 0);
    AndZeroOne(lo);
    LowMask(m, hi);
  }

  lemma PowerValues()
    ensures Pow2(3) == 8 && Pow2(7) == 128 && Pow2(9) == 512 && Pow2(12) == 4096
    ensures Pow2(17) == 0x2_0000 && Pow2(21) == 0x20_0000
    ensures Pow2(30) == 0x4000_0000 && Pow2(39) == 0x80_0000_0000 && Pow2(40) == 0x100_0000_0000
    ensures Pow2(47) == 0x8000_0000_0000 && Pow2(48) == 0x1_0000_0000_0000
    ensures Pow2(52) == 0x10_0000_0000_0000 && Pow2(63) == 0x8000_0000_0000_0000 && Pow2(64) == WORD
  {
    assert Pow2(8) == 256;
    Product(8, 8);
    Product(16, 16);
    Product(32, 32);
    Product(8, 4);
    Product(16, 1);
    Product(17, 4);
    Product(21, 9);
    Product(30, 9);
    Product(39, 1);
    Product(30, 17);
    Product(47, 1);
    Product(48, 4);
    Product(47, 16);
  }

  lemma MaskOfComplement(p: nat, q: nat)
    requires p * q == WORD && 0 < p < WORD
    ensures Not64(p - 1) == (q - 1) * p && q > 0
  {
  }

  lemma HighPartFits(x: nat, p: nat, q: nat)
    requires p > 0 && x < p * q
    ensures q > 0 && (x / p) % q == x / p
  {
    QuotientBelow(x, p, q);
    QuotientIs(x / p, q, 0, x / p);
  }

  lemma ComplementMask(n: nat, x: u64)
    requires n <= 64 && Pow2(n) < WORD
    ensures Not64(Pow2(n) - 1) == (Pow2(64 - n) - 1) * Pow2(n)
    ensures (x / Pow2(n)) % Pow2(64 - n) == x / Pow2(n)
  {
    PowerValues();
    Product(n, 64 - n);
    hide *;
    MaskOfComplement(Pow2(n), Pow2(64 - n));
    HighPartFits(x, Pow2(n), Pow2(64 - n));
  }

  lemma HighMask(n: nat, x: u64)
    requires n <= 64 && Pow2(n) < WORD
    ensures BitAnd(x, Not64(Pow2(n) - 1)) == (x / Pow2(n)) * Pow2(n)
  {
    hide *;
    ComplementMask(n, x);
    FieldMask(n, 64 - n, x);
  }

  /** ROUND_DOWN_P2 clears the low n bits of a 64-bit word. */
  lemma RoundDown(n: nat, x: u64)
    requires n <= 64 && Pow2(n) < WORD
    ensures RoundDownP2(x, Pow2(n)) == x - x % Pow2(n)
  {
    HighMask(n, x);
    Quotient(x, Pow2(n));
  }

  lemma AddThenSubOne(x: u64, p: u64)
    requires p > 0
    ensures Sub64(Add64(x, p), 1) == if x + p - 1 < WORD then x + p - 1 else x + p - 1 - WORD
  {
  }

  /** ROUND_UP_P2 is the next multiple of 2^n, modulo the word size. */
  lemma RoundUp(n: nat, x: u64)
    requires n <= 64 && Pow2(n) < WORD
    ensures x + Pow2(n) - 1 < WORD ==> RoundUpP2(x, Pow2(n)) == (x + Pow2(n) - 1) - (x + Pow2(n) - 1) % Pow2(n)
    ensures x + Pow2(n) - 1 >= WORD ==> RoundUpP2(x, Pow2(n)) == 0
  {
    var p := Pow2(n);
    var y := Sub64(Add64(x, p), 1);
    RoundDown(n, y);
    AddThenSubOne(x, p);
    if x + p - 1 >= WORD {
      QuotientIs(y, p, 0, y);
    }
  }

  lemma {:induction false} BitOfAnd(a: nat, b: nat, i: nat)
    ensures Bit(BitAnd(a, b), i) == (Bit(a, i) && Bit(b, i))
  {
    AndStep(a, b);
    hide BitAnd;
    if i > 0 {
      assert BitAnd(a, b) / 2 == BitAnd(a / 2, b / 2);
      BitOfAnd(a / 2, b / 2, i - 1);
    }
  }

  lemma {:induction false} BitOfOr(a: nat, b: nat, i: nat)
    ensures Bit(BitOr(a, b), i) == (Bit(a, i) || Bit(b, i))
  {
    OrStep(a, b);
    hide BitOr;
    if i > 0 {
      assert BitOr(a, b) / 2 == BitOr(a / 2, b / 2);
      BitOfOr(a / 2, b / 2, i - 1);
    }
  }

  lemma {:induction false} BitOfPow2(n: nat, i: nat)
    ensures Bit(Pow2(n), i) == (i == n)
  {
    if n == 0 {
      if i > 0 { BitOfZero(i - 1); }
    } else if i > 0 {
      BitOfPow2(n - 1, i - 1);
    }
  }

  /** Testing a single bit with a mask. */
  lemma {:induction false} TestBitReadsBit(w: nat, b: nat)
    ensures (BitAnd(w, Pow2(b)) != 0) == Bit(w, b)
  {
    AndStep(w, Pow2(b));
    if b > 0 {
      TestBitReadsBit(w / 2, b - 1);
    } else {
      AndZeroOne(w / 2);
    }
  }

  lemma {:induction false} BitOfZero(i: nat)
    ensures !Bit(0, i)
  {
    if i > 0 { BitOfZero(i - 1); }
  }

  lemma {:induction false} BitOfComplement(n: nat, x: nat, i: nat)
    requires x < Pow2(n) && i < n
    ensures Bit(Pow2(n) - 1 - x, i) == !Bit(x, i)
  {
    if i > 0 {
      assert (Pow2(n) - 1 - x) / 2 == Pow2(n - 1) - 1 - x / 2;
      BitOfComplement(n - 1, x / 2, i - 1);
    }
  }

  lemma {:induction false} BitOfOnes(n: nat, i: nat)
    ensures Bit(Pow2(n) - 1, i) == (i < n)
  {
    if n == 0 {
      BitOfZero(i);
    } else if i > 0 {
      assert (Pow2(n) - 1) / 2 == Pow2(n - 1) - 1;
      BitOfOnes(n - 1, i - 1);
    }
  }

  lemma {:induction false} OrBound(n: nat, a: nat, b: nat)
    requires a < Pow2(n) && b < Pow2(n)
    ensures BitOr(a, b) < Pow2(n)
  {
    OrStep(a, b);
    if n > 0 {
      OrBound(n - 1, a / 2, b / 2);
    }
  }

  lemma {:induction false} AndBound(a: nat, b: nat)
    ensures BitAnd(a, b) <= a && BitAnd(a, b) <= b
  {
    if a > 0 && b > 0 {
      AndHalves(a, b, a / 2, b / 2);
      AndBound(a / 2, b / 2);
    }
  }

  lemma AndHalves(a: nat, b: nat, a': nat, b': nat)
    requires a' == a / 2 && b' == b / 2
    ensures BitAnd(a, b) <= 2 * BitAnd(a', b') + (if a % 2 < b % 2 then a % 2 else b % 2)
  {
    AndStep(a, b);
  }

  lemma {:induction false} PowMonotone(a: nat, b: nat)
    requires a < b
    ensures Pow2(a) < Pow2(b)
  {
    if a + 1 < b { PowMonotone(a, b - 1); }
  }

  /** Words with the same bits are the same word. */
  lemma {:induction false} SameBits(n: nat, a: nat, b: nat)
    requires a < Pow2(n) && b < Pow2(n)
    requires forall i: nat {:trigger Bit(a, i)} {:trigger Bit(b, i)} :: i < n ==> Bit(a, i) == Bit(b, i)
    ensures a == b
  {
    if n > 0 {
      assert Bit(a, 0) == Bit(b, 0);
      forall i: nat | i < n - 1 ensures Bit(a / 2, i) == Bit(b / 2, i) {
        assert Bit(a, i + 1) == Bit(b, i + 1);
      }
      SameBits(n - 1, a / 2, b / 2);
    }
  }

  /** A word packed from two others that use different bits: masking with one's bits gives it back. */
  lemma MaskOfOr(a: u64, f: u64, mask: u64)
    requires BitAnd(a, mask) == a && BitAnd(f, mask) == 0
    ensures BitOr(a, f) < WORD
    ensures BitAnd(BitOr(a, f), mask) == a
    ensures BitAnd(BitOr(a, f), Not64(mask)) == f
  {
    PowerValues();
    OrBound(64, a, f);
    var w := BitOr(a, f);
    AndBound(w, mask);
    AndBound(w, Not64(mask));
    forall i: nat | i < 64
      ensures Bit(BitAnd(w, mask), i) == Bit(a, i)
      ensures Bit(BitAnd(w, Not64(mask)), i) == Bit(f, i)
    {
      BitOfOr(a, f, i);
      BitOfAnd(w, mask, i);
      BitOfAnd(w, Not64(mask), i);
      BitOfComplement(64, mask, i);
      BitOfAnd(a, mask, i);
      BitOfAnd(f, mask, i);
      BitOfZero(i);
    }
    SameBits(64, BitAnd(w, mask), a);
    SameBits(64, BitAnd(w, Not64(mask)), f);
  }

  lemma OrKeepsClear(a: u64, b: u64, mask: u64)
    requires BitAnd(a, mask) == 0 && BitAnd(b, mask) == 0
    ensures BitOr(a, b) < WORD && BitAnd(BitOr(a, b), mask) == 0
  {
    PowerValues();
    OrBound(64, a, b);
    AndBound(BitOr(a, b), mask);
    forall i: nat | i < 64 ensures Bit(BitAnd(BitOr(a, b), mask), i) == Bit(0, i) {
      BitOfOr(a, b, i);
      BitOfAnd(BitOr(a, b), mask, i);
      BitOfAnd(a, mask, i);
      BitOfAnd(b, mask, i);
      BitOfZero(i);
    }
    SameBits(64, BitAnd(BitOr(a, b), mask), 0);
  }

  /** Without a common bit, `|` is addition. */
  lemma {:induction false} OrSum(a: nat, b: nat)
    requires BitAnd(a, b) == 0
    ensures BitOr(a, b) == a + b
  {
    AndStep(a, b);
    OrStep(a, b);
    if a > 0 && b > 0 { OrSum(a / 2, b / 2); }
  }

  lemma DisjointFields(a: u64, f: u64, mask: u64)
    requires BitAnd(a, mask) == a && BitAnd(f, mask) == 0
    ensures BitAnd(a, f) == 0
  {
    PowerValues();
    AndBound(a, f);
    hide BitAnd, Pow2, Bit;
    forall i: nat | i < 64 ensures Bit(BitAnd(a, f), i) == Bit(0, i) {
      BitOfAnd(a, f, i);
      BitOfAnd(a, mask, i);
      BitOfAnd(f, mask, i);
      BitOfZero(i);
    }
    SameBits(64, BitAnd(a, f), 0);
  }

  /** Bit i counts 2^i. */
  lemma {:induction false} BitIs(w: nat, i: nat)
    ensures Bit(w, i) <==> w / Pow2(i) % 2 == 1
  {
    if i > 0 {
      BitIs(w / 2, i - 1);
      PowStep(i);
      DivideTwice(w, 2, Pow2(i - 1));
    }
  }

  lemma DivideTwice(x: nat, a: nat, b: nat)
    requires a > 0 && b > 0
    ensures a * b > 0 && x / (a * b) == x / a / b
  {
    var p := x / a;
    Quotient(x, a);
    Quotient(p, b);
    DivideAlgebra(p / b, p % b, x % a, a, b);
    QuotientIs(x, a * b, p / b, (p % b) * a + x % a);
  }

  lemma DivideAlgebra(q: nat, s: nat, r: nat, a: nat, b: nat)
    requires a > 0 && b > 0 && s < b && r < a
    ensures (q * b + s) * a + r == q * (a * b) + (s * a + r)
    ensures s * a + r < a * b && a * b > 0
  {
    Multiples(s, b, a);
    Distribute(q, s, a, b);
  }

  lemma Distribute(q: nat, s: nat, a: nat, b: nat)
    ensures (q * b + s) * a == q * (a * b) + s * a
  {
  }
}
