/** 64-bit division without a divide instruction (lib/ldiv32.c). */
module Division {
  import opened Basics
  import opened Bits

  const SIGN: int := 0x8000_0000_0000_0000

  // ----- Leading zeros -----

  function BitLength(x: nat): (n: nat)
    ensures x < Pow2(n) && (n > 0 ==> Pow2(n - 1) <= x)
  {
    if x == 0 then 0 else 1 + BitLength(x / 2)
  }

  lemma BitLengthUnique(x: nat, n: nat)
    requires x < Pow2(n) && (n > 0 ==> Pow2(n - 1) <= x)
    ensures BitLength(x) == n
  {
    var m := BitLength(x);
    if m < n { Pow2Mono(m, n - 1); }
    if n < m { Pow2Mono(n, m - 1); }
  }

  /** __clzsi2. */
  method Clz32(num: nat) returns (r: nat)
    requires num < 0x1_0000_0000
    ensures r == 32 - BitLength(num)
  {
    var n, x := 0, num;
    while x != 0
      invariant x >= 0 && n + BitLength(x) == BitLength(num)
    {
      n := n + 1;
      x := x / 2;
    }
    assert BitLength(num) <= 32 by {
      if BitLength(num) > 32 { Pow2Mono(32, BitLength(num) - 1); Pow2Word(); }
    }
    return 32 - n;
  }

  /** __clzdi2: the leading zeros of a 64-bit word from those of one of its halves. */
  method Clz64(num: nat) returns (r: nat)
    requires num < WORD
    ensures r == 64 - BitLength(num)
  {
    var hi := num / 0x1_0000_0000;
    if hi != 0 {
      r := Clz32(hi);
      HighHalfLength(num);
    } else {
      var c := Clz32(num);
      r := c + 32;
    }
  }

  lemma HighHalfLength(num: nat)
    requires num / 0x1_0000_0000 != 0
    ensures BitLength(num) == BitLength(num / 0x1_0000_0000) + 32
  {
    var hi := num / 0x1_0000_0000;
    var m, n := BitLength(hi), 32;
    assert Pow2(n) == 0x1_0000_0000 by { Pow2Word(); }
    Pow2Add(m, n);
    Pow2Add(m - 1, n);
    MulLeft(Pow2(n), hi + 1, Pow2(m));
    MulLeft(Pow2(n), Pow2(m - 1), hi);
    BitLengthUnique(num, m + n);
  }

  // ----- Unsigned division -----

  /** __udivmoddi4: shift and subtract. None is the trap on a zero divisor. */
  method UDivMod(num0: nat, den0: nat) returns (r: Option<(nat, nat)>)
    requires num0 < WORD && den0 < WORD
    ensures r.None? <==> den0 == 0
    ensures r.Some? ==> num0 == r.value.0 * den0 + r.value.1 && r.value.1 < den0 && r.value.0 < WORD
  {
    hide BitLength, Pow2;
    if den0 == 0 {
      return None;
    }
    var num, quot := num0, 0;
    if num0 >= den0 {
      var cd := Clz64(den0);
      var cn := Clz64(num0);
      AlignDivisor(num0, den0);
      var n := cd - cn;
      var den := den0 * Pow2(n);
      // m counts the rounds left; the do-while runs n + 1 of them
      var m: nat := n + 1;
      assert den == Scaled(den0, m - 1);
      while m > 0
        invariant num >= 0 && quot >= 0 && Partial(num0, den0, m, quot, num)
        invariant m > 0 ==> den == Scaled(den0, m - 1)
      {
        hide Partial, Scaled;
        Round(num0, den0, m, quot, num);
        quot := quot * 2;
        if num >= den {
          num := num - den;
          quot := quot + 1;
        }
        den := den / 2;
        m := m - 1;
      }
      LastRound(num0, den0, quot, num);
    }
    return Some((quot, num));
  }

  /** The divisor shifted left by m. */
  function Scaled(den: nat, m: nat): (d: nat) {
    den * Pow2(m)
  }

  /** With m rounds left, quot and num are quotient and remainder by the divisor shifted by m. */
  ghost predicate Partial(num0: nat, den: nat, m: nat, quot: nat, num: nat) {
    num0 == quot * Scaled(den, m) + num && num < Scaled(den, m)
  }

  /** One round halves the divisor and finds one more bit of the quotient. */
  lemma Round(num0: nat, den: nat, m: nat, quot: nat, num: nat)
    requires m > 0 && Partial(num0, den, m, quot, num)
    ensures var d := Scaled(den, m - 1);
      if num >= d then Partial(num0, den, m - 1, quot * 2 + 1, num - d) else Partial(num0, den, m - 1, quot * 2, num)
    ensures m > 1 ==> Scaled(den, m - 1) / 2 == Scaled(den, m - 2)
  {
    HalveStep(quot, den, m);
    if m > 1 { HalveStep(0, den, m - 1); }
  }

  lemma LastRound(num0: nat, den: nat, quot: nat, num: nat)
    requires Partial(num0, den, 0, quot, num) && den > 0
    ensures num0 == quot * den + num && num < den && quot <= num0
  {
    assert Scaled(den, 0) == den;
    MulLeft(quot, 1, den);
  }

  lemma HalveStep(q: nat, d: nat, m: nat)
    requires m > 0
    ensures d * Pow2(m) == 2 * (d * Pow2(m - 1))
    ensures q * (d * Pow2(m)) == (q * 2) * (d * Pow2(m - 1))
    ensures (q * 2 + 1) * (d * Pow2(m - 1)) == (q * 2) * (d * Pow2(m - 1)) + d * Pow2(m - 1)
  {
    var e := d * Pow2(m - 1);
    assert d * Pow2(m) == 2 * e by { MulAssoc(d, 2, Pow2(m - 1)); }
    MulAssoc(q, 2, e);
  }

  /** Aligning the divisor's top bit with the dividend's does not overflow, and the quotient fits below. */
  lemma AlignDivisor(num: nat, den: nat)
    requires 0 < den <= num < WORD
    ensures 0 < BitLength(den) <= BitLength(num) <= WORD_BITS
    ensures var n := BitLength(num) - BitLength(den);
      den * Pow2(n) < WORD && num < den * Pow2(n + 1)
  {
    hide BitLength, Pow2;
    LengthsFit(num, den);
    ScaleBounds(den, BitLength(den), BitLength(num));
  }

  lemma LengthsFit(num: nat, den: nat)
    requires 0 < den <= num < WORD
    ensures 0 < BitLength(den) <= BitLength(num) <= WORD_BITS && Pow2(BitLength(num)) <= WORD
  {
    hide BitLength, Pow2;
    var a, b, w := BitLength(den), BitLength(num), WORD_BITS;
    WordPower();
    assert a > 0 by { SomeBits(den); }
    if b < a { Pow2Mono(b, a - 1); }
    if b > w { Pow2Mono(w, b - 1); }
    Pow2Mono(b, w);
  }

  lemma WordPower()
    ensures Pow2(WORD_BITS) == WORD
  {
    Pow2Word();
  }

  lemma SomeBits(x: nat)
    requires x > 0
    ensures BitLength(x) > 0
  {
  }

  /** A number of a bits, shifted until it has b bits. */
  lemma ScaleBounds(d: nat, a: nat, b: nat)
    requires 0 < a <= b && Pow2(a - 1) <= d < Pow2(a)
    ensures d * Pow2(b - a) < Pow2(b) <= d * Pow2(b - a + 1)
  {
    ScaleUpper(d, a, b - a);
    ScaleLower(d, a - 1, b - a + 1);
  }

  lemma ScaleUpper(d: nat, a: nat, n: nat)
    requires d < Pow2(a)
    ensures d * Pow2(n) < Pow2(a + n)
  {
    hide Pow2;
    Pow2Add(a, n);
    MulLeft(Pow2(n), d + 1, Pow2(a));
  }

  lemma ScaleLower(d: nat, a: nat, n: nat)
    requires Pow2(a) <= d
    ensures Pow2(a + n) <= d * Pow2(n)
  {
    hide Pow2;
    Pow2Add(a, n);
    MulLeft(Pow2(n), Pow2(a), d);
  }

  // ----- Signed division -----

  /** x ^ mask for a mask of 0 or -1, in two's complement. */
  function Flip(x: int, mask: int): (r: int) {
    if mask == 0 then x else -x - 1
  }

  function ToSigned(u: nat): (r: int) {
    if u >= SIGN then u - WORD else u
  }

  /** q and r are the quotient and remainder that section 6.5.5 of ISO C99 asks for: truncation toward
      zero, with the remainder taking the sign of the dividend. */
  predicate Truncated(num: int, den: int, q: int, r: int) {
    && num == q * den + r
    && (if den < 0 then den < r < -den else -den < r < den)
    && (r == 0 || (r < 0 <==> num < 0))
  }

  lemma TruncatedUnique(num: int, den: int, q: int, r: int, q': int, r': int)
    requires den != 0 && Truncated(num, den, q, r) && Truncated(num, den, q', r')
    ensures q == q' && r == r'
  {
    var d := if den < 0 then -den else den;
    var k := if den < 0 then q' - q else q - q';
    assert d * k == r' - r by { assert den * (q - q') == r' - r; }
    if k > 0 { MulLeft(d, 1, k); assert false; }
    if k < 0 { MulLeft(d, k, -1); assert false; }
  }

  /** __divmoddi4 on operands other than INT64_MIN. */
  method DivMod(num0: int, den0: int) returns (res: Option<(int, int)>)
    requires -SIGN < num0 < SIGN && -SIGN < den0 < SIGN
    ensures res.None? <==> den0 == 0
    ensures res.Some? ==> Truncated(num0, den0, res.value.0, res.value.1)
  {
    var nmask: int := if num0 < 0 then -1 else 0;
    var qmask: int := if (num0 < 0) != (den0 < 0) then -1 else 0;
    var num := Flip(num0 + nmask, nmask);
    var den := if den0 < 0 then -den0 else den0;
    var u := UDivMod(num, den);
    if u.None? {
      return None;
    }
    var q: int, r: int := u.value.0, u.value.1;
    MulLeft(q, 1, den);
    var quot := if qmask == 0 then q else WORD - 1 - (q - 1) % WORD;
    var rem := Flip(r + nmask, nmask);
    assert ToSigned(quot) == if qmask == 0 then q else -q;
    SignRule(num0, den0, q, r);
    return Some((ToSigned(quot), rem));
  }

  lemma SignRule(num: int, den: int, q: int, r: int)
    requires den != 0 && q >= 0 && r >= 0
    requires var n, d := if num < 0 then -num else num, if den < 0 then -den else den;
      n == q * d + r && r < d
    ensures Truncated(num, den, if (num < 0) != (den < 0) then -q else q, if num < 0 then -r else r)
  {
  }
}
