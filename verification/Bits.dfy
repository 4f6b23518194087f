/** Word arithmetic: powers of two, alignment and bitwise operators on
    unsigned words represented as natural numbers (lib/bitops.h). */
module Bits {
  // ----- Powers of two -----

  function Pow2(k: nat): (p: nat)
    ensures p >= 1
  {
    if k == 0 then 1 else 2 * Pow2(k - 1)
  }

  const WORD_BITS: nat := 64
  const WORD: nat := 0x1_0000_0000_0000_0000

  lemma Pow2Word()
    ensures Pow2(64) == WORD
    ensures Pow2(63) == 0x8000_0000_0000_0000
    ensures Pow2(52) == 0x10_0000_0000_0000
    ensures Pow2(51) == 0x8_0000_0000_0000
    ensures Pow2(32) == 0x1_0000_0000
    ensures Pow2(16) == 0x1_0000
    ensures Pow2(12) == 4096
    ensures Pow2(8) == 256
  {
    assert Pow2(8) == 256;
    assert Pow2(12) == 4096;
    assert Pow2(16) == 0x1_0000;
    assert Pow2(24) == 0x100_0000;
    assert Pow2(32) == 0x1_0000_0000;
    assert Pow2(40) == 0x100_0000_0000;
    assert Pow2(48) == 0x1_0000_0000_0000;
    assert Pow2(51) == 0x8_0000_0000_0000;
    assert Pow2(52) == 0x10_0000_0000_0000;
    assert Pow2(58) == 0x400_0000_0000_0000;
    assert Pow2(63) == 0x8000_0000_0000_0000;
  }

  lemma {:induction false} Pow2Mono(a: nat, b: nat)
    requires a <= b
    ensures Pow2(a) <= Pow2(b)
    decreases b - a
  {
    if a < b {
      Pow2Mono(a, b - 1);
    }
  }

  lemma Pow2StrictMono(a: nat, b: nat)
    ensures a < b <==> Pow2(a) < Pow2(b)
  {
    if a < b {
      Pow2Mono(a + 1, b);
    } else {
      Pow2Mono(b, a);
    }
  }

  lemma {:induction false} Pow2Add(a: nat, b: nat)
    ensures Pow2(a + b) == Pow2(a) * Pow2(b)
  {
    if a > 0 {
      Pow2Add(a - 1, b);
      MulAssoc(2, Pow2(a - 1), Pow2(b));
    }
  }

  lemma MulAssoc(a: int, b: int, c: int)
    ensures a * (b * c) == (a * b) * c
  {
  }

  // ----- Division -----

  lemma MulLeft(a: int, b: int, c: int)
    requires 0 <= a && b <= c
    ensures a * b <= a * c
  {
  }

  /** Quotient and remainder are determined by their defining equation. */
  lemma DivUnique(x: int, d: int, q: int, r: int)
    requires d > 0 && 0 <= r < d && x == d * q + r
    ensures x / d == q && x % d == r
  {
    var q', r' := x / d, x % d;
    assert x == d * q' + r';
    assert d * (q - q') == r' - r;
    if q > q' {
      MulLeft(d, 1, q - q');
      assert false;
    }
    if q < q' {
      MulLeft(d, q - q', -1);
      assert false;
    }
  }

  lemma ModBounds(x: nat, d: nat)
    requires d > 0
    ensures 0 <= x % d < d && x % d <= x && x / d >= 0
  {
    if x < d {
      DivUnique(x, d, 0, x);
    }
  }

  lemma DivAddMultiple(x: int, d: int, m: int)
    requires d > 0
    ensures (x + d * m) / d == x / d + m && (x + d * m) % d == x % d
  {
    assert x + d * m == d * (x / d + m) + x % d;
    DivUnique(x + d * m, d, x / d + m, x % d);
  }

  lemma ModDouble(x: nat, m: nat)
    requires m > 0
    ensures x % (2 * m) == 2 * ((x / 2) % m) + x % 2
    ensures x / (2 * m) == (x / 2) / m
  {
    var q, r := (x / 2) / m, (x / 2) % m;
    assert x / 2 == m * q + r;
    assert x == (2 * m) * q + (2 * r + x % 2) by {
      MulAssoc(2, m, q);
    }
    DivUnique(x, 2 * m, q, 2 * r + x % 2);
  }

  // ----- Alignment -----

  /** x is a multiple of 2^k (its k low bits are clear). */
  predicate Aligned(x: nat, k: nat) {
    k == 0 || (x % 2 == 0 && Aligned(x / 2, k - 1))
  }

  /** The largest multiple of 2^k not above x (x with its k low bits cleared). */
  function AlignDown(x: nat, k: nat): (s: nat)
    ensures s <= x < s + Pow2(k)
  {
    if k == 0 then x else 2 * AlignDown(x / 2, k - 1)
  }

  lemma {:induction false} AlignedMeaning(x: nat, k: nat)
    ensures Aligned(x, k) <==> x % Pow2(k) == 0
    ensures AlignDown(x, k) == x - x % Pow2(k)
  {
    if k > 0 {
      AlignedMeaning(x / 2, k - 1);
      ModDouble(x, Pow2(k - 1));
    }
  }

  lemma {:induction false} AlignDownAligned(x: nat, k: nat)
    ensures Aligned(AlignDown(x, k), k)
  {
    if k > 0 {
      AlignDownAligned(x / 2, k - 1);
      var y := AlignDown(x / 2, k - 1);
      assert (2 * y) / 2 == y && (2 * y) % 2 == 0;
    }
  }

  lemma {:induction false} AlignDownUnique(x: nat, k: nat, s: nat)
    requires Aligned(s, k) && s <= x < s + Pow2(k)
    ensures AlignDown(x, k) == s
  {
    if k > 0 { AlignDownUnique(x / 2, k - 1, s / 2); }
  }

  lemma HalfPlus(x: nat, k: nat)
    requires k > 0
    ensures (x + Pow2(k)) / 2 == x / 2 + Pow2(k - 1) && (x + Pow2(k)) % 2 == x % 2
  {
    assert x + Pow2(k) == x + 2 * Pow2(k - 1);
  }

  /** A multiple of 2^(k+1) is a multiple of 2^k, and so is the point half way to the next one. */
  lemma {:induction false} AlignedHalf(x: nat, k: nat)
    requires Aligned(x, k + 1)
    ensures Aligned(x, k) && Aligned(x + Pow2(k), k)
    ensures !Aligned(x + Pow2(k), k + 1)
  {
    if k > 0 {
      AlignedHalf(x / 2, k - 1);
      HalfPlus(x, k);
    }
  }

  lemma {:induction false} AlignedLower(x: nat, k: nat, j: nat)
    requires j <= k && Aligned(x, k)
    ensures Aligned(x, j)
    decreases j
  {
    if j > 0 { AlignedLower(x / 2, k - 1, j - 1); }
  }

  lemma {:induction false} AlignedNext(x: nat, k: nat)
    requires Aligned(x, k)
    ensures Aligned(x + Pow2(k), k)
  {
    if k > 0 {
      AlignedNext(x / 2, k - 1);
      HalfPlus(x, k);
    }
  }

  /** An aligned address that is not aligned one order up is the second half of an aligned pair. */
  lemma {:induction false} AlignedOdd(x: nat, k: nat)
    requires Aligned(x, k) && !Aligned(x, k + 1)
    ensures x >= Pow2(k)
    ensures Aligned(x - Pow2(k), k + 1)
  {
    if k > 0 {
      AlignedOdd(x / 2, k - 1);
      HalfPlus(x - Pow2(k), k);
    }
  }

  // ----- Bitwise operators -----

  predicate TestBit(w: nat, i: nat) {
    if i == 0 then w % 2 == 1 else TestBit(w / 2, i - 1)
  }

  function Bit(b: bool): (r: nat) {
    if b then 1 else 0
  }

  function BitAnd(a: nat, b: nat): (r: nat) {
    if a == 0 || b == 0 then 0
    else 2 * BitAnd(a / 2, b / 2) + Bit(a % 2 == 1 && b % 2 == 1)
  }

  function BitOr(a: nat, b: nat): (r: nat) {
    if a == 0 then b else if b == 0 then a
    else 2 * BitOr(a / 2, b / 2) + Bit(a % 2 == 1 || b % 2 == 1)
  }

  function BitXor(a: nat, b: nat): (r: nat) {
    if a == 0 then b else if b == 0 then a
    else 2 * BitXor(a / 2, b / 2) + Bit(a % 2 != b % 2)
  }

  /** One's complement of a 64-bit word. */
  function BitNot(w: nat): (r: nat)
    requires w < Pow2(WORD_BITS)
    ensures r < Pow2(WORD_BITS)
  {
    Pow2(WORD_BITS) - 1 - w
  }

  lemma {:induction false} TestBitZero(i: nat)
    ensures !TestBit(0, i)
  {
    if i > 0 { TestBitZero(i - 1); }
  }

  lemma {:induction false} TestAnd(a: nat, b: nat, i: nat)
    ensures TestBit(BitAnd(a, b), i) == (TestBit(a, i) && TestBit(b, i))
    decreases i
  {
    if a == 0 || b == 0 {
      TestBitZero(i);
    } else if i > 0 {
      TestAnd(a / 2, b / 2, i - 1);
    }
  }

  lemma {:induction false} TestOr(a: nat, b: nat, i: nat)
    ensures TestBit(BitOr(a, b), i) == (TestBit(a, i) || TestBit(b, i))
    decreases i
  {
    if a == 0 || b == 0 {
      TestBitZero(i);
    } else if i > 0 {
      TestOr(a / 2, b / 2, i - 1);
    }
  }

  lemma {:induction false} TestXor(a: nat, b: nat, i: nat)
    ensures TestBit(BitXor(a, b), i) == (TestBit(a, i) != TestBit(b, i))
    decreases i
  {
    if a == 0 || b == 0 {
      TestBitZero(i);
    } else if i > 0 {
      TestXor(a / 2, b / 2, i - 1);
    }
  }

  lemma {:induction false} TestComplement(n: nat, w: nat, i: nat)
    requires w < Pow2(n) && i < n
    ensures TestBit(Pow2(n) - 1 - w, i) == !TestBit(w, i)
    decreases i
  {
    if i > 0 {
      assert (Pow2(n) - 1 - w) / 2 == Pow2(n - 1) - 1 - w / 2;
      TestComplement(n - 1, w / 2, i - 1);
    }
  }

  lemma TestNot(w: nat, i: nat)
    requires w < Pow2(WORD_BITS) && i < WORD_BITS
    ensures TestBit(BitNot(w), i) == !TestBit(w, i)
  {
    TestComplement(WORD_BITS, w, i);
  }

  /** Some bit of a non-zero word is set. */
  lemma {:induction false} SomeBitSet(w: nat, n: nat) returns (i: nat)
    requires 0 < w < Pow2(n)
    ensures i < n && TestBit(w, i)
  {
    if w % 2 == 1 {
      i := 0;
    } else {
      i := SomeBitSet(w / 2, n - 1);
      i := i + 1;
    }
  }

  /** Two words with the same low n bits are equal below 2^n. */
  lemma {:induction false} BitsDetermine(a: nat, b: nat, n: nat)
    requires a < Pow2(n) && b < Pow2(n)
    requires forall i: nat :: i < n ==> TestBit(a, i) == TestBit(b, i)
    ensures a == b
  {
    if n > 0 {
      assert TestBit(a, 0) == TestBit(b, 0);
      forall i: nat | i < n - 1 ensures TestBit(a / 2, i) == TestBit(b / 2, i) {
        assert TestBit(a, i + 1) == TestBit(b, i + 1);
      }
      BitsDetermine(a / 2, b / 2, n - 1);
    }
  }

  lemma {:induction false} AndBound(a: nat, b: nat, n: nat)
    requires a < Pow2(n)
    ensures BitAnd(a, b) <= a && BitAnd(b, a) <= a
    decreases n
  {
    if n > 0 {
      AndBound(a / 2, b / 2, n - 1);
    }
  }

  lemma {:induction false} OrBound(a: nat, b: nat, n: nat)
    requires a < Pow2(n) && b < Pow2(n)
    ensures BitOr(a, b) < Pow2(n)
    decreases n
  {
    if n > 0 && a != 0 && b != 0 {
      OrBound(a / 2, b / 2, n - 1);
    }
  }

  lemma {:induction false} XorBound(a: nat, b: nat, n: nat)
    requires a < Pow2(n) && b < Pow2(n)
    ensures BitXor(a, b) < Pow2(n)
    decreases n
  {
    if n > 0 && a != 0 && b != 0 {
      XorBound(a / 2, b / 2, n - 1);
    }
  }

  // ----- Masks -----

  /** x & (2^k - 1), the test behind IS_ALIGNED, is the remainder modulo 2^k. */
  lemma {:induction false} LowMaskIsRemainder(x: nat, k: nat)
    ensures BitAnd(x, Pow2(k) - 1) == x % Pow2(k)
    decreases k
  {
    if x == 0 {
      DivUnique(0, Pow2(k), 0, 0);
    } else if k > 0 {
      var m := Pow2(k - 1);
      assert (2 * m - 1) / 2 == m - 1;
      assert m > 1 ==> BitAnd(x, 2 * m - 1) == 2 * BitAnd(x / 2, m - 1) + x % 2;
      LowMaskIsRemainder(x / 2, k - 1);
      ModDouble(x, m);
    }
  }

  /** The bits l..n-1 set: the value of GENMASK(n - 1, l). */
  function GenMask(n: nat, l: nat): (m: nat)
    requires l <= n
  {
    Pow2Mono(l, n);
    Pow2(n) - Pow2(l)
  }

  lemma {:induction false} GenMaskBits(n: nat, l: nat, i: nat)
    requires l <= n
    ensures TestBit(GenMask(n, l), i) <==> l <= i < n
    decreases i
  {
    Pow2Mono(l, n);
    if l == 0 {
      LowOnes(n, i);
    } else if i > 0 {
      assert GenMask(n, l) / 2 == GenMask(n - 1, l - 1);
      GenMaskBits(n - 1, l - 1, i - 1);
    }
  }

  /** GENMASK_ULL(h, l): all ones shifted left by l, and all ones shifted right until h is the top bit. */
  lemma GenMaskIsMacro(h: nat, l: nat)
    requires l <= h < WORD_BITS
    ensures BitAnd((WORD - 1) * Pow2(l) % WORD, (WORD - 1) / Pow2(WORD_BITS - 1 - h)) == GenMask(h + 1, l)
  {
    hide Pow2, BitAnd;
    var p, q, r := Pow2(l), Pow2(h + 1), Pow2(WORD_BITS - 1 - h);
    assert Pow2(WORD_BITS) == WORD by { Pow2Word(); }
    Pow2Add(h + 1, WORD_BITS - 1 - h);
    Pow2Mono(l, h + 1);
    Pow2Mono(h + 1, WORD_BITS);
    assert WORD == q * r;
    assert (WORD - 1) * p == WORD * (p - 1) + (WORD - p);
    DivUnique((WORD - 1) * p, WORD, p - 1, WORD - p);
    assert WORD - 1 == r * (q - 1) + (r - 1);
    DivUnique(WORD - 1, r, q - 1, r - 1);
    LowMaskIsRemainder(WORD - p, h + 1);
    assert WORD - p == q * (r - 1) + (q - p);
    DivUnique(WORD - p, q, r - 1, q - p);
  }

  lemma {:induction false} LowOnes(n: nat, i: nat)
    ensures TestBit(Pow2(n) - 1, i) <==> i < n
    decreases i
  {
    if n == 0 {
      TestBitZero(i);
    } else if i > 0 {
      assert (Pow2(n) - 1) / 2 == Pow2(n - 1) - 1;
      LowOnes(n - 1, i - 1);
    }
  }

  /** Masking with GENMASK(n - 1, l) rounds down to a multiple of 2^l. */
  lemma {:induction false} HighMaskAlignsDown(x: nat, n: nat, l: nat)
    requires l <= n && x < Pow2(n)
    ensures BitAnd(x, GenMask(n, l)) == AlignDown(x, l)
    decreases n
  {
    Pow2Mono(l, n);
    if x == 0 || l == n {
      AlignDownUnique(x, l, 0) by { ZeroAligned(l); }
    } else if l == 0 {
      AndAllOnes(x, n);
    } else {
      Pow2StrictMono(l, n);
      assert GenMask(n, l) / 2 == GenMask(n - 1, l - 1);
      HighMaskAlignsDown(x / 2, n - 1, l - 1);
    }
  }

  lemma {:induction false} ZeroAligned(k: nat)
    ensures Aligned(0, k)
  {
    if k > 0 { ZeroAligned(k - 1); }
  }

  lemma AndAllOnes(x: nat, n: nat)
    requires x < Pow2(n)
    ensures BitAnd(x, Pow2(n) - 1) == x
  {
    LowMaskIsRemainder(x, n);
    DivUnique(x, Pow2(n), 0, x);
  }

  // ----- is_power_of_2, fls and get_order -----

  predicate IsPowerOf2(n: nat) {
    n != 0 && BitAnd(n, n - 1) == 0
  }

  lemma AndPredOdd(n: nat)
    requires n > 1 && n % 2 == 1
    ensures BitAnd(n, n - 1) == n - 1
  {
    assert (n - 1) / 2 == n / 2 && (n - 1) % 2 == 0;
    AndSelf(n / 2);
  }

  lemma AndPredEven(n: nat)
    requires n > 1 && n % 2 == 0
    ensures BitAnd(n, n - 1) == 2 * BitAnd(n / 2, n / 2 - 1)
  {
    assert (n - 1) / 2 == n / 2 - 1;
  }

  /** The test agrees with its meaning; the exponent of a power of two is Log2. */
  lemma {:induction false} IsPowerOf2Meaning(n: nat)
    ensures IsPowerOf2(n) <==> n == Pow2(Log2(n)) && n > 0
    decreases n
  {
    if n > 1 {
      assert Log2(n) == 1 + Log2(n / 2);
      assert Pow2(Log2(n)) == 2 * Pow2(Log2(n / 2));
      if n % 2 == 1 {
        AndPredOdd(n);
      } else {
        AndPredEven(n);
        IsPowerOf2Meaning(n / 2);
      }
    }
  }

  lemma PowerOf2Test(k: nat)
    ensures IsPowerOf2(Pow2(k)) && Log2(Pow2(k)) == k
  {
    Log2Unique(Pow2(k), k);
    IsPowerOf2Meaning(Pow2(k));
  }

  lemma {:induction false} AndSelf(n: nat)
    ensures BitAnd(n, n) == n
  {
    if n > 0 { AndSelf(n / 2); }
  }

  /** Position of the highest set bit, 0 for the zero word. */
  function Log2(x: nat): (r: nat)
    ensures x > 0 ==> Pow2(r) <= x < Pow2(r + 1)
    ensures x == 0 ==> r == 0
  {
    if x < 2 then 0 else 1 + Log2(x / 2)
  }

  lemma Log2Unique(x: nat, r: nat)
    requires Pow2(r) <= x < Pow2(r + 1)
    ensures Log2(x) == r
  {
    if Log2(x) < r {
      Pow2Mono(Log2(x) + 1, r);
    } else if r < Log2(x) {
      Pow2Mono(r + 1, Log2(x));
    }
  }

  lemma {:induction false} Log2Shift(x: nat, n: nat)
    requires x > 0
    ensures x * Pow2(n) > 0 && Log2(x * Pow2(n)) == Log2(x) + n
  {
    if n > 0 {
      Log2Shift(x, n - 1);
      Log2Double(x, Pow2(n - 1));
    }
  }

  lemma Log2Double(x: nat, p: nat)
    requires x * p > 0
    ensures x * (2 * p) > 0 && Log2(x * (2 * p)) == Log2(x * p) + 1
  {
    var y := x * p;
    assert x * (2 * p) == 2 * y;
    assert (2 * y) / 2 == y;
  }

  lemma Log2Below(x: nat, n: nat)
    requires x > 0
    ensures x < Pow2(n) <==> Log2(x) < n
  {
    if x < Pow2(n) {
      Pow2StrictMono(Log2(x), n);
    } else if Log2(x) < n {
      Pow2Mono(Log2(x) + 1, n);
    }
  }

  /** The top n bits of a word are all clear exactly when its highest bit is below them. */
  lemma TopBitsClear(bits: nat, word: nat, n: nat)
    requires 0 < word < Pow2(bits) && n <= bits
    ensures BitAnd(word, GenMask(bits, bits - n)) == 0 <==> Log2(word) < bits - n
  {
    var l := bits - n;
    HighMaskAlignsDown(word, bits, l);
    Log2Below(word, l);
    if word < Pow2(l) {
      ZeroAligned(l);
      AlignDownUnique(word, l, 0);
    }
  }

  /** Shifting n clear top bits out moves the highest bit up by n. */
  lemma ShiftOutClear(bits: nat, word: nat, n: nat)
    requires 0 < word && Log2(word) < bits - n
    ensures 0 < word * Pow2(n) < Pow2(bits) && Log2(word * Pow2(n)) == Log2(word) + n
  {
    Log2Shift(word, n);
    Log2Below(word * Pow2(n), bits);
  }

  /** fls: shifts the word left by n when its top n bits are clear, for n = 32, 16, 8, 4, 2, 1. */
  method Fls(w: nat) returns (num: nat)
    requires w < Pow2(WORD_BITS)
    ensures num == Log2(w)
  {
    var word: nat, n: nat := w, 32;
    num := 63;
    if w > 0 { Log2Below(w, WORD_BITS); }
    while n > 0
      invariant n in {32, 16, 8, 4, 2, 1, 0}
      invariant word < Pow2(WORD_BITS) && (w == 0 <==> word == 0)
      invariant w > 0 ==> num + Log2(word) == 63 + Log2(w)
      invariant w > 0 ==> 63 >= Log2(word) >= if n == 0 then 63 else 64 - 2 * n
      invariant w == 0 ==> num == if n == 0 then 0 else 2 * n - 1
    {
      word, num := FlsNarrow(word, n, num);
      n := n / 2;
    }
  }

  /** One step of the binary search in fls. */
  method FlsNarrow(word: nat, n: nat, num: nat) returns (word': nat, num': nat)
    requires word < Pow2(WORD_BITS) && 0 < n <= 32
    requires word > 0 ==> num + Log2(word) >= 63
    requires word == 0 ==> num >= n
    ensures word' < Pow2(WORD_BITS) && (word == 0 <==> word' == 0)
    ensures word == 0 ==> num' == num - n
    ensures word > 0 ==> num' + Log2(word') == num + Log2(word)
    ensures word > 0 ==> Log2(word') == if Log2(word) < 64 - n then Log2(word) + n else Log2(word)
  {
    if word > 0 { TopBitsClear(WORD_BITS, word, n); }
    if BitAnd(word, GenMask(WORD_BITS, WORD_BITS - n)) == 0 {
      if word > 0 { ShiftOutClear(WORD_BITS, word, n); }
      return word * Pow2(n), num - n;
    }
    return word, num;
  }

  function GetOrder(size: nat): (r: nat) {
    if size == 0 then 0 else Log2(size) + Bit(!IsPowerOf2(size))
  }

  /** get_order is the least order whose block covers size. */
  lemma GetOrderLeast(size: nat, k: nat)
    ensures size <= Pow2(GetOrder(size))
    ensures size <= Pow2(k) ==> GetOrder(size) <= k
  {
    if size > 0 {
      IsPowerOf2Meaning(size);
      Pow2StrictMono(k, Log2(size));
    }
  }
}
