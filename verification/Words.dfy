/** Machine words as natural numbers, with C's bitwise operators defined bit by bit.
    The lemmas say what the masks and shifts of this kernel compute arithmetically. */
module Words {

  type Byte = b: nat | b < 0x100
  type Word = w: nat | w < 0x1_0000_0000_0000_0000

  const WORD_LIMIT: nat := 0x1_0000_0000_0000_0000

  function Pow2(n: nat): (p: nat)
    ensures p > 0
  {
    if n == 0 then 1 else 2 * Pow2(n - 1)
  }

  /** Bit i of a. */
  predicate Bit(a: nat, i: nat)
    decreases i
  {
    if i == 0 then a % 2 == 1 else Bit(a / 2, i - 1)
  }

  function BitAnd(a: nat, b: nat): (n: nat)
    decreases a
  {
    if a == 0 || b == 0 then 0 else (a % 2) * (b % 2) + 2 * BitAnd(a / 2, b / 2)
  }

  function BitOr(a: nat, b: nat): (n: nat)
    decreases a
  {
    if a == 0 then b else if b == 0 then a
    else (if a % 2 == 1 || b % 2 == 1 then 1 else 0) + 2 * BitOr(a / 2, b / 2)
  }

  lemma {:induction false} BitOfZero(i: nat)
    ensures !Bit(0, i)
    decreases i
  {
    if i > 0 { BitOfZero(i - 1); }
  }

  /** Bit i by arithmetic. */
  lemma {:induction false} BitIs(a: nat, i: nat)
    ensures Bit(a, i) <==> a / Pow2(i) % 2 == 1
    decreases i
  {
    if i == 0 {
      assert Pow2(0) == 1;
    } else {
      BitIs(a / 2, i - 1);
      DivTwice(a, 2, Pow2(i - 1));
      assert Pow2(i) == 2 * Pow2(i - 1);
    }
  }

  lemma {:induction false} BitOfAnd(a: nat, b: nat, i: nat)
    ensures Bit(BitAnd(a, b), i) == (Bit(a, i) && Bit(b, i))
    decreases i
  {
    BitOfZero(i);
    if a != 0 && b != 0 {
      assert (a % 2) * (b % 2) == if a % 2 == 1 && b % 2 == 1 then 1 else 0;
      if i > 0 { BitOfAnd(a / 2, b / 2, i - 1); }
    }
  }

  lemma {:induction false} BitOfOr(a: nat, b: nat, i: nat)
    ensures Bit(BitOr(a, b), i) == (Bit(a, i) || Bit(b, i))
    decreases i
  {
    BitOfZero(i);
    if a != 0 && b != 0 && i > 0 { BitOfOr(a / 2, b / 2, i - 1); }
  }

  /** `a & (1 << k)` is non-zero exactly when bit k is set. */
  lemma MaskTest(a: nat, k: nat)
    ensures BitAnd(a, Pow2(k)) != 0 <==> Bit(a, k)
  {
    BitOfAnd(a, Pow2(k), k);
    BitOfPow2(k, k);
    BitOfZero(k);
    if !Bit(a, k) {
      forall i: nat ensures Bit(BitAnd(a, Pow2(k)), i) == Bit(0, i) {
        BitOfAnd(a, Pow2(k), i);
        BitOfPow2(k, i);
        BitOfZero(i);
      }
      SameBits(BitAnd(a, Pow2(k)), 0);
    }
  }

  lemma {:induction false} OrAssociative(a: nat, b: nat, c: nat)
    ensures BitOr(BitOr(a, b), c) == BitOr(a, BitOr(b, c))
  {
    forall i: nat ensures Bit(BitOr(BitOr(a, b), c), i) == Bit(BitOr(a, BitOr(b, c)), i) {
      BitOfOr(BitOr(a, b), c, i); BitOfOr(a, b, i);
      BitOfOr(a, BitOr(b, c), i); BitOfOr(b, c, i);
    }
    SameBits(BitOr(BitOr(a, b), c), BitOr(a, BitOr(b, c)));
  }

  /** A number is determined by its bits. */
  lemma {:induction false} SameBits(a: nat, b: nat)
    requires forall i: nat :: Bit(a, i) == Bit(b, i)
    ensures a == b
    decreases a + b
  {
    assert Bit(a, 0) == Bit(b, 0);
    if a + b > 0 {
      forall i: nat ensures Bit(a / 2, i) == Bit(b / 2, i) {
        assert Bit(a, i + 1) == Bit(b, i + 1);
      }
      SameBits(a / 2, b / 2);
    }
  }

  /** The bits of a power of two. */
  lemma {:induction false} BitOfPow2(k: nat, i: nat)
    ensures Bit(Pow2(k), i) == (k == i)
    decreases i
  {
    if k == 0 {
      if i > 0 { BitOfZero(i - 1); }
    } else if i > 0 {
      BitOfPow2(k - 1, i - 1);
    }
  }

  /** The bits of the complement of a power of two in n-bit arithmetic. */
  lemma {:induction false} BitOfPow2Complement(n: nat, k: nat, i: nat)
    requires k < n
    ensures Pow2(k) < Pow2(n)
    ensures Bit(Pow2(n) - 1 - Pow2(k), i) == (i < n && i != k)
    decreases n
  {
    hide Bit, Pow2;
    Pow2Mono(k, n);
    Pow2Step(n);
    BitStep(Pow2(n) - 1 - Pow2(k), if i == 0 then 1 else i);
    if k == 0 {
      Pow2Zero();
      if i > 0 { BitOfOnes(n - 1, i - 1); }
    } else {
      Pow2Step(k);
      Pow2Mono(k - 1, n - 1);
      if i > 0 { BitOfPow2Complement(n - 1, k - 1, i - 1); }
    }
  }

  lemma BitStep(x: nat, i: nat)
    requires i > 0
    ensures Bit(x, i) == Bit(x / 2, i - 1) && Bit(x, 0) == (x % 2 == 1)
  {
  }

  lemma Pow2Step(n: nat)
    requires n > 0
    ensures Pow2(n) == 2 * Pow2(n - 1)
  {
  }

  lemma Pow2Zero()
    ensures Pow2(0) == 1
  {
  }

  lemma {:induction false} BitOfOnes(n: nat, i: nat)
    ensures Bit(Pow2(n) - 1, i) == (i < n)
    decreases n
  {
    if n == 0 {
      BitOfZero(i);
    } else if i > 0 {
      assert (Pow2(n) - 1) / 2 == Pow2(n - 1) - 1;
      BitOfOnes(n - 1, i - 1);
    }
  }

  lemma {:induction false} Pow2Mono(k: nat, n: nat)
    requires k < n
    ensures 2 * Pow2(k) <= Pow2(n)
  {
    if k + 1 < n { Pow2Mono(k, n - 1); }
  }

  lemma {:induction false} BitAboveIsClear(a: nat, n: nat, i: nat)
    requires a < Pow2(n) && n <= i
    ensures !Bit(a, i)
    decreases n
  {
    if n == 0 {
      BitOfZero(i);
    } else {
      BitAboveIsClear(a / 2, n - 1, i - 1);
    }
  }

  /** An n-bit value stays an n-bit value under | and &. */
  lemma {:induction false} OrBound(a: nat, b: nat, n: nat)
    requires a < Pow2(n) && b < Pow2(n)
    ensures BitOr(a, b) < Pow2(n)
    decreases n
  {
    if a != 0 && b != 0 { OrBound(a / 2, b / 2, n - 1); }
  }

  lemma {:induction false} AndBound(a: nat, b: nat)
    ensures BitAnd(a, b) <= a && BitAnd(a, b) <= b
    decreases a
  {
    if a != 0 && b != 0 {
      AndBound(a / 2, b / 2);
      assert (a % 2) * (b % 2) == if a % 2 == 1 && b % 2 == 1 then 1 else 0;
    }
  }

  /** `x >> k`. */
  function Shr(x: nat, k: nat): (n: nat)
    decreases k
  {
    if k == 0 then x else Shr(x / 2, k - 1)
  }

  /** `x << k` before truncation to a word. */
  function Shl(x: nat, k: nat): (n: nat)
    decreases k
  {
    if k == 0 then x else 2 * Shl(x, k - 1)
  }

  /** The k low bits of x. */
  function Low(x: nat, k: nat): (n: nat)
    decreases k
  {
    if k == 0 then 0 else x % 2 + 2 * Low(x / 2, k - 1)
  }

  /** Shifting is division and multiplication by a power of two; the low bits are the remainder. */
  lemma {:induction false} ShiftArithmetic(x: nat, k: nat)
    ensures Shr(x, k) == x / Pow2(k) && Low(x, k) == x % Pow2(k)
    ensures Shl(x, k) == x * Pow2(k)
    decreases k
  {
    SplitAt(x, k);
    ShlPow2(Shr(x, k), k);
    LowBound(x, k);
    DivModUnique(x, Pow2(k), Shr(x, k), Low(x, k));
    ShlPow2(x, k);
  }

  lemma {:induction false} ShlPow2(x: nat, k: nat)
    ensures Shl(x, k) == x * Pow2(k)
    decreases k
  {
    if k > 0 {
      ShlPow2(x, k - 1);
      assert x * (2 * Pow2(k - 1)) == 2 * (x * Pow2(k - 1));
    }
  }

  lemma {:induction false} SplitAt(x: nat, k: nat)
    ensures x == Shl(Shr(x, k), k) + Low(x, k)
    decreases k
  {
    if k > 0 { SplitAt(x / 2, k - 1); }
  }

  lemma {:induction false} LowBound(x: nat, k: nat)
    ensures Low(x, k) < Pow2(k)
    decreases k
  {
    if k > 0 { LowBound(x / 2, k - 1); }
  }

  lemma DivModUnique(x: nat, d: nat, q: nat, r: nat)
    requires d > 0 && r < d && x == q * d + r
    ensures x / d == q && x % d == r
  {
    var q', r' := x / d, x % d;
    EuclidUnique(d, q, r, q', r');
  }

  lemma AddMultiple(a: nat, b: nat, d: nat)
    requires d > 0
    ensures (a * d + b) / d == a + b / d && (a * d + b) % d == b % d
  {
    var q, r := b / d, b % d;
    assert b == q * d + r;
    assert a * d + b == (a + q) * d + r;
    DivModUnique(a * d + b, d, a + q, r);
  }

  lemma SmallMod(x: nat, d: nat)
    requires x < d
    ensures x / d == 0 && x % d == x
  {
    DivModUnique(x, d, 0, x);
  }

  lemma EuclidUnique(d: nat, q: int, r: nat, q': int, r': nat)
    requires r < d && r' < d && q * d + r == q' * d + r'
    ensures q == q' && r == r'
  {
    if q < q' {
      MulMono(q + 1, q', d);
    } else if q' < q {
      MulMono(q' + 1, q, d);
    }
  }

  lemma MulMono(a: int, b: int, d: nat)
    requires a <= b
    ensures a * d <= b * d
  {
  }

  /** v modulo b times m, digit by digit. */
  lemma ModStep(v: nat, b: nat, m: nat)
    requires b > 0 && m > 0
    ensures b * m > 0 && v % (b * m) == v / b % m * b + v % b
  {
    var q, r := v / b, v % b;
    var k, l := q / m, q % m;
    Quotient(v, b);
    Quotient(q, m);
    ModDigits(v, b, m, q, k, l, r);
  }

  lemma Quotient(x: nat, d: nat)
    requires d > 0
    ensures x == x / d * d + x % d
  {
  }

  /** The same with the digits named. */
  lemma ModDigits(v: nat, b: nat, m: nat, q: nat, k: nat, l: nat, r: nat)
    requires r < b && l < m && q == k * m + l && v == q * b + r
    ensures b * m > 0 && v % (b * m) == l * b + r
  {
    var p, low := b * m, l * b + r;
    Regroup(k, l, r, b, m, p);
    DivModUnique(v, p, k, low);
  }

  /** Dividing twice is dividing by the product. */
  lemma DivTwice(v: nat, b: nat, m: nat)
    requires b > 0 && m > 0
    ensures b * m > 0 && v / (b * m) == v / b / m
  {
    var q, r := v / b, v % b;
    var k, l := q / m, q % m;
    Quotient(v, b);
    Quotient(q, m);
    Regroup(k, l, r, b, m, b * m);
    DivModUnique(v, b * m, k, l * b + r);
  }

  /** The digit l * b + r stays below the product p. */
  lemma Regroup(k: nat, l: nat, r: nat, b: nat, m: nat, p: nat)
    requires r < b && l < m && p == b * m
    ensures l * b + r < p && (k * m + l) * b + r == k * p + (l * b + r)
  {
    Distribute(k, m, l, b);
    MulMono(l + 1, m, b);
    Successor(l, b);
  }

  lemma Successor(l: nat, b: nat)
    ensures (l + 1) * b == l * b + b
  {
  }

  lemma Distribute(k: nat, m: nat, l: nat, b: nat)
    ensures (k * m + l) * b == k * (b * m) + l * b
  {
    assert k * m * b == k * (b * m);
  }

  /** `x & (2^k - 1)` keeps the k low bits. */
  lemma {:induction false} AndLowMask(x: nat, k: nat)
    ensures BitAnd(x, Pow2(k) - 1) == Low(x, k)
    decreases k
  {
    if x == 0 {
      LowOfZero(k);
    } else if k > 0 {
      AndLowMask(x / 2, k - 1);
      assert (Pow2(k) - 1) / 2 == Pow2(k - 1) - 1;
      assert (x % 2) * 1 == x % 2;
    }
  }

  lemma {:induction false} LowOfZero(k: nat)
    ensures Low(0, k) == 0 && Shr(0, k) == 0
    decreases k
  {
    if k > 0 { LowOfZero(k - 1); }
  }

  lemma {:induction false} LowOfSmall(x: nat, k: nat)
    requires x < Pow2(k)
    ensures Low(x, k) == x && Shr(x, k) == 0
    decreases k
  {
    if k > 0 { LowOfSmall(x / 2, k - 1); }
  }

  /** `x & ~(2^k - 1)` in n-bit arithmetic clears the k low bits. */
  lemma {:induction false} AndHighMask(x: nat, n: nat, k: nat)
    requires k <= n && x < Pow2(n)
    ensures Pow2(k) <= Pow2(n)
    ensures BitAnd(x, Pow2(n) - Pow2(k)) == x - Low(x, k)
    decreases k
  {
    hide BitAnd, Shr;
    if k < n { Pow2Mono(k, n); }
    AndZero(x, Pow2(n) - Pow2(k));
    if x == 0 {
      LowOfZero(k);
    } else if k == n {
      LowOfSmall(x, k);
    } else if k == 0 {
      AndLowMask(x, n);
      LowOfSmall(x, n);
    } else {
      AndHighMask(x / 2, n - 1, k - 1);
      assert Pow2(n) - Pow2(k) == 2 * (Pow2(n - 1) - Pow2(k - 1));
      AndEven(x, Pow2(n - 1) - Pow2(k - 1));
    }
  }

  lemma AndZero(x: nat, m: nat)
    ensures x == 0 || m == 0 ==> BitAnd(x, m) == 0
  {
  }

  /** An even mask clears the lowest bit. */
  lemma AndEven(x: nat, m: nat)
    ensures BitAnd(x, 2 * m) == 2 * BitAnd(x / 2, m)
  {
    assert 2 * m % 2 == 0 && 2 * m / 2 == m;
  }

  /** Bits that do not overlap add up: `|` of an aligned value and low bits is a sum. */
  lemma {:induction false} OrDisjoint(a: nat, b: nat, k: nat)
    requires Low(a, k) == 0 && b < Pow2(k)
    ensures BitOr(a, b) == a + b
    decreases k
  {
    if k > 0 && a != 0 && b != 0 {
      OrDisjoint(a / 2, b / 2, k - 1);
    }
  }

  /** `|` works on the part above bit k and the part below it separately. */
  lemma OrSplit(a: nat, b: nat, k: nat)
    ensures Shr(BitOr(a, b), k) == BitOr(Shr(a, k), Shr(b, k))
    ensures Low(BitOr(a, b), k) == BitOr(Low(a, k), Low(b, k))
  {
    hide *;
    OrHigh(a, b, k);
    OrLow(a, b, k);
  }

  lemma {:induction false} OrHigh(a: nat, b: nat, k: nat)
    ensures Shr(BitOr(a, b), k) == BitOr(Shr(a, k), Shr(b, k))
    decreases k
  {
    if k > 0 {
      hide BitOr;
      OrHalves(a, b);
      OrHigh(a / 2, b / 2, k - 1);
    }
  }

  lemma {:induction false} OrLow(a: nat, b: nat, k: nat)
    ensures Low(BitOr(a, b), k) == BitOr(Low(a, k), Low(b, k))
    decreases k
  {
    if k == 0 {
      assert BitOr(0, 0) == 0;
    } else {
      OrLow(a / 2, b / 2, k - 1);
      OrLowStep(a, b, k);
    }
  }

  lemma OrLowStep(a: nat, b: nat, k: nat)
    requires k > 0 && Low(BitOr(a / 2, b / 2), k - 1) == BitOr(Low(a / 2, k - 1), Low(b / 2, k - 1))
    ensures Low(BitOr(a, b), k) == BitOr(Low(a, k), Low(b, k))
  {
    hide BitOr;
    OrHalves(a, b);
    OrStep(a % 2, Low(a / 2, k - 1), b % 2, Low(b / 2, k - 1));
  }

  lemma OrHalves(a: nat, b: nat)
    ensures BitOr(a, b) / 2 == BitOr(a / 2, b / 2)
    ensures BitOr(a, b) % 2 == if a % 2 == 1 || b % 2 == 1 then 1 else 0
  {
    OrStep(a % 2, a / 2, b % 2, b / 2);
    hide BitOr;
    assert a == a % 2 + 2 * (a / 2) && b == b % 2 + 2 * (b / 2);
  }

  /** One bit of `|`. */
  lemma OrStep(p: nat, x: nat, q: nat, y: nat)
    requires p < 2 && q < 2
    ensures BitOr(p + 2 * x, q + 2 * y) == (if p == 1 || q == 1 then 1 else 0) + 2 * BitOr(x, y)
  {
    assert (p + 2 * x) / 2 == x && (q + 2 * y) / 2 == y;
  }

  /** `(x & (m << s)) >> s` selects the bits of x above bit s under the mask m. */
  lemma {:induction false} AndShifted(x: nat, m: nat, s: nat)
    ensures Shr(BitAnd(x, Shl(m, s)), s) == BitAnd(Shr(x, s), m)
    decreases s
  {
    hide BitAnd;
    if s > 0 {
      AndEven(x, Shl(m, s - 1));
      AndShifted(x / 2, m, s - 1);
    }
  }

  lemma {:induction false} ShrShr(x: nat, a: nat, b: nat)
    ensures Shr(Shr(x, a), b) == Shr(x, a + b)
    decreases a
  {
    if a > 0 { ShrShr(x / 2, a - 1, b); }
  }

  lemma Pow2Word()
    ensures Pow2(64) == WORD_LIMIT && Pow2(32) == 0x1_0000_0000
  {
    hide Pow2;
    Pow2Byte();
    Pow2Twice(8, 0x100);
    Pow2Twice(16, 0x1_0000);
    Pow2Twice(32, 0x1_0000_0000);
  }

  lemma Pow2Byte()
    ensures Pow2(8) == 0x100
  {
    assert Pow2(4) == 16;
  }

  lemma Pow2Twice(k: nat, p: nat)
    requires Pow2(k) == p
    ensures Pow2(k + k) == p * p
  {
    Pow2Sum(k, k);
  }

  lemma {:induction false} Pow2Sum(a: nat, b: nat)
    ensures Pow2(a + b) == Pow2(a) * Pow2(b)
    decreases a
  {
    if a > 0 { Pow2Sum(a - 1, b); }
  }

  lemma Pow2Bound(k: nat, n: nat)
    requires k <= n
    ensures Pow2(k) <= Pow2(n)
  {
    if k < n { Pow2Mono(k, n); }
  }

  lemma RoundDown(x: nat, n: nat, k: nat)
    requires k <= n && x < Pow2(n)
    ensures Pow2(k) <= Pow2(n)
    ensures BitAnd(x, Pow2(n) - Pow2(k)) == Shl(Shr(x, k), k)
    ensures Shl(Shr(x, k), k) <= x < Shl(Shr(x, k), k) + Pow2(k)
  {
    AndHighMask(x, n, k);
    SplitAt(x, k);
    LowBound(x, k);
  }

  /** ALIGN_DOWN(address, 2^k) of mem.h. */
  function AlignDown(a: Word, k: nat): (n: nat)
    requires Pow2(k) <= WORD_LIMIT
  {
    BitAnd(a, WORD_LIMIT - Pow2(k))
  }

  /** ALIGN_UP(address, 2^k) of mem.h, with the wrap-around of 64-bit addition. */
  function AlignUp(a: Word, k: nat): (n: nat)
    requires Pow2(k) <= WORD_LIMIT
  {
    var x := a + Pow2(k) - 1;
    BitAnd(if x < WORD_LIMIT then x else x - WORD_LIMIT, WORD_LIMIT - Pow2(k))
  }

  /** ALIGN_DOWN is the greatest multiple of 2^k at or below its argument. */
  lemma AlignDownIs(a: Word, k: nat)
    requires k <= 64 && Pow2(k) <= WORD_LIMIT
    ensures AlignDown(a, k) == Shl(Shr(a, k), k)
    ensures AlignDown(a, k) <= a < AlignDown(a, k) + Pow2(k)
  {
    hide BitAnd, Shr, Shl, Pow2;
    Pow2Word();
    RoundDown(a, 64, k);
  }

  /** ALIGN_UP is the least multiple of 2^k at or above its argument, unless the addition wraps. */
  lemma AlignUpIs(a: Word, k: nat)
    requires k <= 64 && a + Pow2(k) - 1 < WORD_LIMIT
    ensures AlignUp(a, k) == Shl(Shr(a + Pow2(k) - 1, k), k)
    ensures a <= AlignUp(a, k) < a + Pow2(k)
  {
    hide BitAnd, Shr, Shl, Pow2;
    Pow2Word();
    RoundDown(a + Pow2(k) - 1, 64, k);
  }

  lemma AlignUpDiv(a: Word, k: nat, d: nat)
    requires k <= 64 && d == Pow2(k) && a + d - 1 < WORD_LIMIT
    ensures AlignUp(a, k) == (a + d - 1) / d * d
  {
    AlignUpIs(a, k);
    ShiftArithmetic(a + d - 1, k);
    ShiftArithmetic((a + d - 1) / d, k);
  }

  /** When the addition wraps, the result is 0. */
  lemma AlignUpWraps(a: Word, k: nat, d: nat)
    requires k <= 64 && d == Pow2(k) <= WORD_LIMIT && a + d - 1 >= WORD_LIMIT
    ensures AlignUp(a, k) == 0
  {
    hide BitAnd, Shr, Shl, Pow2;
    Pow2Word();
    var y := a + d - 1 - WORD_LIMIT;
    RoundDown(y, 64, k);
    ShiftArithmetic(y, k);
    SmallMod(y, d);
    ShiftArithmetic(0, k);
  }
}
