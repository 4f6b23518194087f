/** Byte sizes and alignments turned into block orders (lib/alloc_page.c, memalign_pages_flags). */
module PageBytes {
  import opened Bits
  import opened PageArea

  /** PAGE_ALIGN on a 64-bit word: the addition wraps around. */
  function PageAlign(x: nat): (r: nat) {
    AlignDown((x + PAGE_SIZE - 1) % WORD, PAGE_SHIFT)
  }

  /** get_order(PAGE_ALIGN(x) >> PAGE_SHIFT). */
  function RequestOrder(x: nat): (k: nat) {
    GetOrder(PageAlign(x) / PAGE_SIZE)
  }

  lemma PageAlignPages(x: nat)
    requires x <= WORD - PAGE_SIZE
    ensures PageAlign(x) / PAGE_SIZE == (x + PAGE_SIZE - 1) / PAGE_SIZE
    ensures PageAlign(x) % PAGE_SIZE == 0
  {
    var y := x + PAGE_SIZE - 1;
    assert y % WORD == y;
    assert Pow2(PAGE_SHIFT) == PAGE_SIZE by { Pow2Word(); }
    AlignedMeaning(y, PAGE_SHIFT);
    hide AlignDown;
  }

  lemma PageAlignWraps(x: nat)
    requires WORD - PAGE_SIZE < x < WORD
    ensures PageAlign(x) == 0
  {
    var y := (x + PAGE_SIZE - 1) % WORD;
    assert y == x + PAGE_SIZE - 1 - WORD < PAGE_SIZE;
    assert Pow2(PAGE_SHIFT) == PAGE_SIZE by { Pow2Word(); }
    ZeroAligned(PAGE_SHIFT);
    AlignDownUnique(y, PAGE_SHIFT, 0);
  }

  /** The requested order is the least that covers the byte size; it covers it exactly when rounding
      up to whole pages does not wrap around. */
  lemma RequestOrderLeast(size: nat, k: nat)
    requires size < WORD
    ensures size <= PAGE_SIZE * Pow2(RequestOrder(size)) <==> size <= WORD - PAGE_SIZE
    ensures size <= WORD - PAGE_SIZE && size <= PAGE_SIZE * Pow2(k) ==> RequestOrder(size) <= k
    ensures size > WORD - PAGE_SIZE ==> RequestOrder(size) == 0
  {
    if size <= WORD - PAGE_SIZE {
      PageAlignPages(size);
      GetOrderLeast(PageAlign(size) / PAGE_SIZE, k);
    } else {
      PageAlignWraps(size);
    }
  }

  lemma PagesOfPower(e: nat)
    ensures (Pow2(e) + PAGE_SIZE - 1) / PAGE_SIZE == Pow2(if e <= PAGE_SHIFT then 0 else e - PAGE_SHIFT)
  {
    assert Pow2(PAGE_SHIFT) == PAGE_SIZE by { Pow2Word(); }
    if e <= PAGE_SHIFT {
      Pow2Mono(e, PAGE_SHIFT);
    } else {
      Pow2Add(e - PAGE_SHIFT, PAGE_SHIFT);
    }
  }

  lemma RequestOrderOfPower(e: nat)
    requires e < WORD_BITS
    ensures RequestOrder(Pow2(e)) == if e <= PAGE_SHIFT then 0 else e - PAGE_SHIFT
  {
    hide PageAlign, GetOrder, IsPowerOf2;
    assert Pow2(e) <= WORD - PAGE_SIZE by {
      Pow2Mono(e, 63);
      Pow2Word();
    }
    PageAlignPages(Pow2(e));
    PagesOfPower(e);
    OrderOfPower(if e <= PAGE_SHIFT then 0 else e - PAGE_SHIFT);
  }

  lemma OrderOfPower(k: nat)
    ensures GetOrder(Pow2(k)) == k
  {
    PowerOf2Test(k);
  }

  /** A block aligned to the order computed from a power-of-two alignment starts at an address with
      that alignment in bytes. */
  lemma AlignmentOrderSound(e: nat, pfn: nat)
    requires e < WORD_BITS && Aligned(pfn, RequestOrder(Pow2(e)))
    ensures Aligned(pfn * PAGE_SIZE, e)
  {
    hide Aligned, RequestOrder;
    RequestOrderOfPower(e);
    var k := RequestOrder(Pow2(e));
    ShiftAligned(pfn, k, PAGE_SHIFT);
    Pow2Word();
    AlignedLower(pfn * Pow2(PAGE_SHIFT), k + PAGE_SHIFT, e);
  }

  lemma {:induction false} ShiftAligned(x: nat, k: nat, n: nat)
    requires Aligned(x, k)
    ensures Aligned(x * Pow2(n), k + n)
  {
    if n > 0 {
      ShiftAligned(x, k, n - 1);
      var y := x * Pow2(n - 1);
      assert x * Pow2(n) == 2 * y by { MulAssoc(x, 2, Pow2(n - 1)); }
      assert (2 * y) / 2 == y && (2 * y) % 2 == 0;
    }
  }
}
