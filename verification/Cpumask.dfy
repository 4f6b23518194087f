/** Sets of CPUs packed into 64-bit words (lib/cpumask.h). */
module Cpumask {
  import opened Basics
  import opened Bits

  /** CPU c is in the mask. */
  predicate Has(w: seq<nat>, c: nat) {
    c / WORD_BITS < |w| && TestBit(w[c / WORD_BITS], c % WORD_BITS)
  }

  /** The mask as a set of the CPUs below nr; bits at nr and above do not count. */
  ghost function Members(w: seq<nat>, nr: nat): (r: set<nat>)
    ensures forall c :: c in r <==> 0 <= c < nr && Has(w, c)
  {
    set c: nat | c < nr && Has(w, c)
  }

  ghost predicate Words(w: seq<nat>) {
    forall i :: 0 <= i < |w| ==> w[i] < Pow2(WORD_BITS)
  }

  /** BIT_MASK(nr) - 1: the valid bits of the last, partial word. */
  function LastMask(nr: nat): (m: nat) {
    Pow2(nr % WORD_BITS) - 1
  }

  // ----- One word at a time -----

  /** No bit of x below n is set. */
  ghost predicate NoBits(x: nat, n: nat) {
    forall i: nat :: i < n ==> !TestBit(x, i)
  }

  lemma ZeroMeansNoBits(x: nat, n: nat)
    requires x < Pow2(n)
    ensures x == 0 <==> NoBits(x, n)
  {
    if x == 0 {
      forall i: nat | i < n ensures !TestBit(x, i) { TestBitZero(i); }
    } else {
      var i := SomeBitSet(x, n);
    }
  }

  /** Masking with 2^n - 1 tests the bits below n. */
  lemma LowBitsZero(x: nat, n: nat)
    ensures BitAnd(x, Pow2(n) - 1) == 0 <==> NoBits(x, n)
  {
    var m := Pow2(n) - 1;
    AndBound(m, x, n);
    ZeroMeansNoBits(BitAnd(x, m), n);
    forall i: nat | i < n ensures TestBit(BitAnd(x, m), i) == TestBit(x, i) {
      TestAnd(x, m, i);
      LowOnes(n, i);
    }
  }

  /** Two words agree on their n low bits. */
  ghost predicate SameBits(a: nat, b: nat, n: nat) {
    forall i: nat :: i < n ==> TestBit(a, i) == TestBit(b, i)
  }

  lemma SameBitsMeansEqual(a: nat, b: nat, n: nat)
    requires a < Pow2(n) && b < Pow2(n)
    ensures a == b <==> SameBits(a, b, n)
  {
    if SameBits(a, b, n) { BitsDetermine(a, b, n); }
  }

  lemma MaskedEqual(a: nat, b: nat, n: nat)
    ensures BitAnd(a, Pow2(n) - 1) == BitAnd(b, Pow2(n) - 1) <==> SameBits(a, b, n)
  {
    var m := Pow2(n) - 1;
    AndBound(m, a, n);
    AndBound(m, b, n);
    SameBitsMeansEqual(BitAnd(a, m), BitAnd(b, m), n);
    forall i: nat | i < n
      ensures TestBit(BitAnd(a, m), i) == TestBit(a, i) && TestBit(BitAnd(b, m), i) == TestBit(b, i)
    {
      TestAnd(a, m, i);
      TestAnd(b, m, i);
      LowOnes(n, i);
    }
  }

  /** Bit j of word i stands for CPU 64 i + j. */
  lemma BitOf(w: seq<nat>, i: nat, j: nat)
    requires i < |w| && j < WORD_BITS
    ensures Has(w, WORD_BITS * i + j) == TestBit(w[i], j)
  {
    assert (WORD_BITS * i + j) / WORD_BITS == i && (WORD_BITS * i + j) % WORD_BITS == j;
  }

  /** The words that hold the bits of CPUs 0 .. nr-1 exist. */
  ghost predicate Holds(w: seq<nat>, nr: nat) {
    Words(w) && nr <= WORD_BITS * |w|
  }

  /** How the loops test a mask: every whole word, and the valid part of the last one. */
  ghost predicate WordsClear(w: seq<nat>, nr: nat)
    requires nr <= WORD_BITS * |w|
  {
    && (forall i :: 0 <= i < nr / WORD_BITS ==> w[i] == 0)
    && (LastMask(nr) != 0 ==> BitAnd(w[nr / WORD_BITS], LastMask(nr)) == 0)
  }

  lemma LastMaskZero(nr: nat)
    ensures LastMask(nr) == 0 <==> nr % WORD_BITS == 0
  {
    if nr % WORD_BITS > 0 { Pow2Mono(1, nr % WORD_BITS); }
  }

  /** The word tests see exactly the CPUs below nr. */
  lemma ClearMeansEmpty(w: seq<nat>, nr: nat)
    requires Holds(w, nr)
    ensures WordsClear(w, nr) <==> Members(w, nr) == {}
  {
    hide Has, TestBit, LastMask;
    LastMaskZero(nr);
    var n, m := nr / WORD_BITS, nr % WORD_BITS;
    if WordsClear(w, nr) {
      forall c: nat | c < nr ensures !Has(w, c) {
        var i, j := c / WORD_BITS, c % WORD_BITS;
        BitOf(w, i, j);
        WordBit(w, nr, i, j);
      }
    } else if i: nat :| i < n && w[i] != 0 {
      var j := SomeBitSet(w[i], WORD_BITS);
      BitOf(w, i, j);
      assert WORD_BITS * i + j in Members(w, nr);
    } else {
      MaskedBit(w[n], nr);
      var j: nat :| j < m && TestBit(w[n], j);
      BitOf(w, n, j);
      assert WORD_BITS * n + j in Members(w, nr);
    }
  }

  lemma MaskedBit(x: nat, nr: nat)
    ensures BitAnd(x, LastMask(nr)) == 0 <==> NoBits(x, nr % WORD_BITS)
  {
    LowBitsZero(x, nr % WORD_BITS);
  }

  lemma WordBit(w: seq<nat>, nr: nat, i: nat, j: nat)
    requires Holds(w, nr) && WordsClear(w, nr) && WORD_BITS * i + j < nr && j < WORD_BITS
    ensures !TestBit(w[i], j)
  {
    LastMaskZero(nr);
    if i < nr / WORD_BITS {
      TestBitZero(j);
    } else {
      MaskedBit(w[i], nr);
    }
  }

  // ----- Predicates -----

  /** The bits in which two masks violate a relation, word by word. */
  datatype Relation = Inclusion | Equality | Emptiness | Fullness

  function Violation(r: Relation, a: nat, b: nat): (x: nat)
    requires a < Pow2(WORD_BITS) && b < Pow2(WORD_BITS)
  {
    match r
    case Inclusion => BitAnd(a, BitNot(b))
    case Equality => BitXor(a, b)
    case Emptiness => a
    case Fullness => BitNot(a)
  }

  predicate Violates(r: Relation, x: bool, y: bool) {
    match r
    case Inclusion => x && !y
    case Equality => x != y
    case Emptiness => x
    case Fullness => !x
  }

  lemma ViolationBits(r: Relation, a: nat, b: nat, i: nat)
    requires a < Pow2(WORD_BITS) && b < Pow2(WORD_BITS) && i < WORD_BITS
    ensures Violation(r, a, b) < Pow2(WORD_BITS)
    ensures TestBit(Violation(r, a, b), i) == Violates(r, TestBit(a, i), TestBit(b, i))
  {
    hide TestBit;
    AndBound(a, BitNot(b), WORD_BITS);
    XorBound(a, b, WORD_BITS);
    TestAnd(a, BitNot(b), i);
    TestNot(b, i);
    TestNot(a, i);
    TestXor(a, b, i);
  }

  ghost function Violations(r: Relation, u: seq<nat>, v: seq<nat>): (w: seq<nat>)
    requires Words(u) && Words(v) && |u| == |v|
    ensures |w| == |u| && forall i :: 0 <= i < |u| ==> w[i] == Violation(r, u[i], v[i])
  {
    seq(|u|, i requires 0 <= i < |u| => Violation(r, u[i], v[i]))
  }

  /** Testing the violation words decides the relation on the CPUs below nr, whatever the other bits are. */
  lemma RelationByWords(r: Relation, u: seq<nat>, v: seq<nat>, nr: nat)
    requires Holds(u, nr) && Holds(v, nr) && |u| == |v|
    ensures WordsClear(Violations(r, u, v), nr) <==> forall c: nat :: c < nr ==> !Violates(r, Has(u, c), Has(v, c))
  {
    hide TestBit, WordsClear, Violates, Violation;
    var w := Violations(r, u, v);
    forall i | 0 <= i < |w| ensures w[i] < Pow2(WORD_BITS) {
      ViolationBits(r, u[i], v[i], 0);
    }
    ClearMeansEmpty(w, nr);
    forall c: nat | c < nr ensures Has(w, c) == Violates(r, Has(u, c), Has(v, c)) {
      ViolationBits(r, u[c / WORD_BITS], v[c / WORD_BITS], c % WORD_BITS);
    }
    if Members(w, nr) != {} {
      var c :| c in Members(w, nr);
      assert Violates(r, Has(u, c), Has(v, c));
    }
  }

  /** cpumask_subset. */
  method Subset(src1: array<nat>, src2: array<nat>, nr: nat) returns (r: bool)
    requires Holds(src1[..], nr) && Holds(src2[..], nr) && src1.Length == src2.Length
    ensures r <==> Members(src1[..], nr) <= Members(src2[..], nr)
  {
    ghost var w := Violations(Inclusion, src1[..], src2[..]);
    RelationByWords(Inclusion, src1[..], src2[..], nr);
    hide Has, BitAnd, BitNot, LastMask;
    for i := 0 to nr / WORD_BITS
      invariant forall j :: 0 <= j < i ==> w[j] == 0
    {
      if BitAnd(src1[i], BitNot(src2[i])) != 0 {
        assert w[i] != 0;
        return false;
      }
    }
    var n := nr / WORD_BITS;
    LastMaskZero(nr);
    return LastMask(nr) == 0 || BitAnd(BitAnd(src1[n], BitNot(src2[n])), LastMask(nr)) == 0;
  }

  lemma XorZero(a: nat, b: nat)
    requires a < Pow2(WORD_BITS) && b < Pow2(WORD_BITS)
    ensures BitXor(a, b) == 0 <==> a == b
  {
    XorBound(a, b, WORD_BITS);
    ZeroMeansNoBits(BitXor(a, b), WORD_BITS);
    SameBitsMeansEqual(a, b, WORD_BITS);
    forall i: nat ensures TestBit(BitXor(a, b), i) == (TestBit(a, i) != TestBit(b, i)) {
      TestXor(a, b, i);
    }
  }

  lemma MaskedXorZero(a: nat, b: nat, nr: nat)
    ensures BitAnd(BitXor(a, b), LastMask(nr)) == 0 <==> BitAnd(a, LastMask(nr)) == BitAnd(b, LastMask(nr))
  {
    var n := nr % WORD_BITS;
    LowBitsZero(BitXor(a, b), n);
    MaskedEqual(a, b, n);
    forall i: nat ensures TestBit(BitXor(a, b), i) == (TestBit(a, i) != TestBit(b, i)) {
      TestXor(a, b, i);
    }
  }

  lemma MaskedNotZero(a: nat, nr: nat)
    requires a < Pow2(WORD_BITS)
    ensures BitAnd(BitNot(a), LastMask(nr)) == 0 <==> BitAnd(a, LastMask(nr)) == LastMask(nr)
  {
    var n := nr % WORD_BITS;
    var m := Pow2(n) - 1;
    LowBitsZero(BitNot(a), n);
    MaskedEqual(a, m, n);
    AndAllOnes(m, n);
    forall i: nat | i < n ensures TestBit(m, i) && TestBit(BitNot(a), i) == !TestBit(a, i) {
      LowOnes(n, i);
      TestNot(a, i);
    }
  }

  /** cpumask_equal. */
  method Equal(src1: array<nat>, src2: array<nat>, nr: nat) returns (r: bool)
    requires Holds(src1[..], nr) && Holds(src2[..], nr) && src1.Length == src2.Length
    ensures r <==> Members(src1[..], nr) == Members(src2[..], nr)
  {
    hide Has, BitAnd, BitXor, LastMask, Pow2;
    ghost var w := Violations(Equality, src1[..], src2[..]);
    RelationByWords(Equality, src1[..], src2[..], nr);
    for i := 0 to nr / WORD_BITS
      invariant forall j :: 0 <= j < i ==> w[j] == 0
    {
      XorZero(src1[i], src2[i]);
      if src1[i] != src2[i] {
        assert w[i] != 0;
        return false;
      }
    }
    var n := nr / WORD_BITS;
    LastMaskZero(nr);
    if LastMask(nr) == 0 {
      return true;
    }
    MaskedXorZero(src1[n], src2[n], nr);
    return BitAnd(src1[n], LastMask(nr)) == BitAnd(src2[n], LastMask(nr));
  }

  /** cpumask_empty. */
  method Empty(mask: array<nat>, nr: nat) returns (r: bool)
    requires Holds(mask[..], nr)
    ensures r <==> Members(mask[..], nr) == {}
  {
    ClearMeansEmpty(mask[..], nr);
    hide Has, BitAnd;
    for i := 0 to nr / WORD_BITS
      invariant forall j :: 0 <= j < i ==> mask[j] == 0
    {
      if mask[i] != 0 {
        return false;
      }
    }
    LastMaskZero(nr);
    return LastMask(nr) == 0 || BitAnd(mask[nr / WORD_BITS], LastMask(nr)) == 0;
  }

  lemma FullByWords(u: seq<nat>, nr: nat)
    requires Holds(u, nr)
    ensures WordsClear(Violations(Fullness, u, u), nr) <==> Members(u, nr) == UpTo(nr)
  {
    hide Has, WordsClear;
    RelationByWords(Fullness, u, u, nr);
    if forall c: nat :: c < nr ==> !Violates(Fullness, Has(u, c), Has(u, c)) {
    } else {
      var c: nat :| c < nr && Violates(Fullness, Has(u, c), Has(u, c));
      assert c !in Members(u, nr) && c in UpTo(nr);
    }
  }

  /** cpumask_full. */
  method Full(mask: array<nat>, nr: nat) returns (r: bool)
    requires Holds(mask[..], nr)
    ensures r <==> Members(mask[..], nr) == UpTo(nr)
  {
    ghost var w := Violations(Fullness, mask[..], mask[..]);
    FullByWords(mask[..], nr);
    hide Has, BitAnd, LastMask;
    for i := 0 to nr / WORD_BITS
      invariant forall j :: 0 <= j < i ==> w[j] == 0
    {
      if mask[i] != Pow2(WORD_BITS) - 1 {
        assert w[i] != 0;
        return false;
      }
    }
    var n := nr / WORD_BITS;
    LastMaskZero(nr);
    if LastMask(nr) == 0 {
      return true;
    }
    MaskedNotZero(mask[n], nr);
    return BitAnd(mask[n], LastMask(nr)) == LastMask(nr);
  }

  // ----- Combining masks -----

  datatype Op = And | Or | Xor | AndNot

  function WordOp(op: Op, a: nat, b: nat): (r: nat)
    requires a < Pow2(WORD_BITS) && b < Pow2(WORD_BITS)
  {
    match op
    case And => BitAnd(a, b)
    case Or => BitOr(a, b)
    case Xor => BitXor(a, b)
    case AndNot => BitAnd(a, BitNot(b))
  }

  predicate BoolOp(op: Op, x: bool, y: bool) {
    match op
    case And => x && y
    case Or => x || y
    case Xor => x != y
    case AndNot => x && !y
  }

  ghost function SetOp(op: Op, s: set<nat>, t: set<nat>): (r: set<nat>) {
    match op
    case And => s * t
    case Or => s + t
    case Xor => (s - t) + (t - s)
    case AndNot => s - t
  }

  lemma WordOpBits(op: Op, a: nat, b: nat, i: nat)
    requires a < Pow2(WORD_BITS) && b < Pow2(WORD_BITS) && i < WORD_BITS
    ensures WordOp(op, a, b) < Pow2(WORD_BITS)
    ensures TestBit(WordOp(op, a, b), i) == BoolOp(op, TestBit(a, i), TestBit(b, i))
  {
    hide TestBit;
    AndBound(a, b, WORD_BITS);
    AndBound(a, BitNot(b), WORD_BITS);
    OrBound(a, b, WORD_BITS);
    XorBound(a, b, WORD_BITS);
    TestAnd(a, b, i);
    TestAnd(a, BitNot(b), i);
    TestNot(b, i);
    TestOr(a, b, i);
    TestXor(a, b, i);
  }

  /** The words written by cpumask_and, or, xor and andnot: whole words, then a masked last one. */
  ghost predicate Combined(op: Op, u: seq<nat>, v: seq<nat>, w: seq<nat>, nr: nat)
    requires Words(u) && Words(v) && |u| == |v| == |w| && nr < WORD_BITS * |w|
  {
    var n := nr / WORD_BITS;
    && (forall i :: 0 <= i < n ==> w[i] == WordOp(op, u[i], v[i]))
    && w[n] == BitAnd(WordOp(op, u[n], v[n]), LastMask(nr))
  }

  lemma CombinedBit(op: Op, u: seq<nat>, v: seq<nat>, w: seq<nat>, nr: nat, c: nat)
    requires Words(u) && Words(v) && |u| == |v| == |w| && nr < WORD_BITS * |w|
    requires Combined(op, u, v, w, nr) && c < WORD_BITS * (nr / WORD_BITS + 1)
    ensures Has(w, c) == (c < nr && BoolOp(op, Has(u, c), Has(v, c)))
    ensures w[c / WORD_BITS] < Pow2(WORD_BITS)
  {
    hide TestBit, WordOp, BitAnd, LastMask, BoolOp, Pow2;
    var i, j := c / WORD_BITS, c % WORD_BITS;
    WordOpBits(op, u[i], v[i], j);
    if i == nr / WORD_BITS {
      LastWordBit(WordOp(op, u[i], v[i]), nr, j);
    }
  }

  /** The last word keeps its bits below nr and loses the others. */
  lemma LastWordBit(x: nat, nr: nat, j: nat)
    requires x < Pow2(WORD_BITS) && j < WORD_BITS
    ensures BitAnd(x, LastMask(nr)) < Pow2(WORD_BITS)
    ensures TestBit(BitAnd(x, LastMask(nr)), j) == (j < nr % WORD_BITS && TestBit(x, j))
  {
    hide TestBit, BitAnd, Pow2;
    TestAnd(x, LastMask(nr), j);
    LowOnes(nr % WORD_BITS, j);
    AndBound(x, LastMask(nr), WORD_BITS);
  }

  /** The combined mask is the set operation on the CPUs below nr, without stray bits. */
  lemma CombinedMembers(op: Op, u: seq<nat>, v: seq<nat>, w: seq<nat>, nr: nat)
    requires Words(u) && Words(v) && |u| == |v| == |w| && nr < WORD_BITS * |w|
    requires Combined(op, u, v, w, nr)
    ensures Members(w, nr) == SetOp(op, Members(u, nr), Members(v, nr))
    ensures forall c: nat :: nr <= c < WORD_BITS * (nr / WORD_BITS + 1) ==> !Has(w, c)
    ensures forall i :: 0 <= i <= nr / WORD_BITS ==> w[i] < Pow2(WORD_BITS)
  {
    hide Has, Combined;
    forall c: nat | c < WORD_BITS * (nr / WORD_BITS + 1)
      ensures Has(w, c) == (c < nr && BoolOp(op, Has(u, c), Has(v, c)))
    {
      CombinedBit(op, u, v, w, nr, c);
    }
    forall i | 0 <= i <= nr / WORD_BITS ensures w[i] < Pow2(WORD_BITS) {
      CombinedBit(op, u, v, w, nr, WORD_BITS * i);
    }
  }

  lemma {:induction false} OrZero(a: nat, b: nat)
    ensures BitOr(a, b) == 0 <==> a == 0 && b == 0
  {
    if a != 0 && b != 0 {
      OrZero(a / 2, b / 2);
    }
  }

  /** cpumask_and, cpumask_or, cpumask_xor and cpumask_andnot; dst may be one of the sources. The result
      of and and andnot tells whether dst is not empty. */
  method Combine(op: Op, dst: array<nat>, src1: array<nat>, src2: array<nat>, nr: nat) returns (some: bool)
    requires Words(src1[..]) && Words(src2[..]) && Words(dst[..])
    requires src1.Length == src2.Length == dst.Length && nr < WORD_BITS * dst.Length
    modifies dst
    ensures Words(dst[..])
    ensures Members(dst[..], nr) == SetOp(op, old(Members(src1[..], nr)), old(Members(src2[..], nr)))
    ensures forall c: nat :: nr <= c < WORD_BITS * (nr / WORD_BITS + 1) ==> !Has(dst[..], c)
    ensures dst[nr / WORD_BITS + 1..] == old(dst[nr / WORD_BITS + 1..])
    ensures some <==> Members(dst[..], nr) != {}
  {
    hide Has, WordOp, BitAnd, BitOr, LastMask, Members, SetOp, Pow2;
    ghost var u, v := src1[..], src2[..];
    var n := nr / WORD_BITS;
    var ret := 0;
    for i := 0 to n
      invariant forall j :: 0 <= j < i ==> dst[j] == WordOp(op, u[j], v[j])
      invariant forall j :: i <= j < dst.Length ==> dst[j] == old(dst[j]) && src1[j] == u[j] && src2[j] == v[j]
      invariant ret == 0 <==> forall j :: 0 <= j < i ==> dst[j] == 0
    {
      dst[i] := WordOp(op, src1[i], src2[i]);
      OrZero(ret, dst[i]);
      ret := BitOr(ret, dst[i]);
    }
    dst[n] := BitAnd(WordOp(op, src1[n], src2[n]), LastMask(nr));
    OrZero(ret, dst[n]);
    some := BitOr(ret, dst[n]) != 0;
    CombinedMembers(op, u, v, dst[..], nr);
    CombinedClear(op, u, v, dst[..], nr);
  }

  lemma CombinedClear(op: Op, u: seq<nat>, v: seq<nat>, w: seq<nat>, nr: nat)
    requires Words(u) && Words(v) && Words(w) && |u| == |v| == |w| && nr < WORD_BITS * |w|
    requires Combined(op, u, v, w, nr)
    ensures Members(w, nr) == {} <==> forall i :: 0 <= i <= nr / WORD_BITS ==> w[i] == 0
  {
    ClearMeansEmpty(w, nr);
    LastMaskZero(nr);
    var n, x := nr / WORD_BITS, WordOp(op, u[nr / WORD_BITS], v[nr / WORD_BITS]);
    AndTwice(x, nr % WORD_BITS);
    if nr % WORD_BITS == 0 {
      assert BitAnd(x, 0) == 0;
    }
  }

  lemma AndTwice(x: nat, n: nat)
    ensures BitAnd(BitAnd(x, Pow2(n) - 1), Pow2(n) - 1) == BitAnd(x, Pow2(n) - 1)
  {
    AndBound(Pow2(n) - 1, x, n);
    AndAllOnes(BitAnd(x, Pow2(n) - 1), n);
  }

  // ----- Single CPUs, counting and iteration -----

  /** cpumask_set_cpu and cpumask_clear_cpu. */
  method SetCpu(mask: array<nat>, nr: nat, cpu: nat, on: bool)
    requires Holds(mask[..], nr) && cpu < nr
    modifies mask
    ensures Words(mask[..])
    ensures forall c: nat :: Has(mask[..], c) == if c == cpu then on else old(Has(mask[..], c))
  {
    hide TestBit, BitOr, BitAnd, BitNot, Pow2;
    var i, j := cpu / WORD_BITS, cpu % WORD_BITS;
    ghost var u := mask[..];
    SetBitMeaning(u[i], j);
    mask[i] := if on then BitOr(mask[i], Pow2(j)) else BitAnd(mask[i], BitNot(Pow2(j)));
    forall c: nat ensures Has(mask[..], c) == if c == cpu then on else Has(u, c) {
    }
  }

  lemma SetBitMeaning(x: nat, j: nat)
    requires x < Pow2(WORD_BITS) && j < WORD_BITS
    ensures Pow2(j) < Pow2(WORD_BITS)
    ensures BitOr(x, Pow2(j)) < Pow2(WORD_BITS) && BitAnd(x, BitNot(Pow2(j))) < Pow2(WORD_BITS)
    ensures forall i: nat :: i < WORD_BITS ==> TestBit(BitOr(x, Pow2(j)), i) == (i == j || TestBit(x, i))
    ensures forall i: nat :: i < WORD_BITS ==> TestBit(BitAnd(x, BitNot(Pow2(j))), i) == (i != j && TestBit(x, i))
  {
    Pow2StrictMono(j, WORD_BITS);
    OrBound(x, Pow2(j), WORD_BITS);
    AndBound(x, BitNot(Pow2(j)), WORD_BITS);
    hide BitOr, BitAnd, BitNot, TestBit;
    forall i: nat | i < WORD_BITS
      ensures TestBit(BitOr(x, Pow2(j)), i) == (i == j || TestBit(x, i))
      ensures TestBit(BitAnd(x, BitNot(Pow2(j))), i) == (i != j && TestBit(x, i))
    {
      TestOr(x, Pow2(j), i);
      TestAnd(x, BitNot(Pow2(j)), i);
      TestNot(Pow2(j), i);
      OneBit(j, i);
    }
  }

  lemma {:induction false} OneBit(j: nat, i: nat)
    ensures TestBit(Pow2(j), i) <==> i == j
    decreases j
  {
    if j > 0 && i > 0 {
      OneBit(j - 1, i - 1);
    } else if j == 0 && i > 0 {
      TestBitZero(i - 1);
    }
  }

  /** cpumask_weight: the number of CPUs in the mask. */
  method Weight(mask: seq<nat>, nr: nat) returns (w: nat)
    requires Holds(mask, nr)
    ensures w == |Members(mask, nr)|
  {
    w := 0;
    for i := 0 to nr
      invariant w == |Members(mask, i)|
    {
      assert Members(mask, i + 1) == Members(mask, i) + if Has(mask, i) then {i} else {};
      if Has(mask, i) {
        w := w + 1;
      }
    }
  }

  /** cpumask_next: the first CPU of the mask after cpu, or nr. */
  method Next(cpu: int, mask: seq<nat>, nr: nat) returns (r: nat)
    requires -1 <= cpu < nr
    ensures cpu < r <= nr && (r < nr ==> Has(mask, r))
    ensures forall c: nat :: cpu < c < r ==> !Has(mask, c)
  {
    r := cpu + 1;
    while r < nr && !Has(mask, r)
      invariant cpu < r <= nr
      invariant forall c: nat :: cpu < c < r ==> !Has(mask, c)
    {
      r := r + 1;
    }
  }

  /** for_each_cpu: visits exactly the CPUs of the mask, each once, in increasing order. */
  method ForEachCpu(mask: seq<nat>, nr: nat) returns (visited: seq<nat>)
    ensures forall i, j :: 0 <= i < j < |visited| ==> visited[i] < visited[j]
    ensures forall c :: c in visited <==> c in Members(mask, nr)
  {
    visited := [];
    var cpu := Next(-1, mask, nr);
    while cpu < nr
      invariant cpu <= nr && (cpu < nr ==> Has(mask, cpu))
      invariant forall i, j :: 0 <= i < j < |visited| ==> visited[i] < visited[j]
      invariant forall i :: 0 <= i < |visited| ==> visited[i] < cpu
      invariant forall c: nat :: c in visited <==> c < cpu && Has(mask, c)
      decreases nr - cpu
    {
      visited := visited + [cpu];
      cpu := Next(cpu, mask, nr);
    }
  }
}
