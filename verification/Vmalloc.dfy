/** The virtual allocator (lib/vmalloc.c): addresses taken downwards from the top of a virtual range,
    backed page by page, with metadata hidden in front of each allocation. */
module Vmalloc {
  import opened Basics
  import opened Bits
  import Lists
  import opened PageArea
  import opened PageBytes

  // ----- Taking addresses -----

  /** do_alloc_vpages in 64-bit arithmetic: subtract, mask down to the alignment, make room for metadata. */
  function NextTop(vfreeTop: nat, nr: nat, order: nat, metadata: bool): (ptr: nat)
    requires PAGE_SHIFT + order <= WORD_BITS
  {
    var p := BitAnd((vfreeTop - PAGE_SIZE * nr) % WORD, GenMask(WORD_BITS, PAGE_SHIFT + order));
    if metadata then (p - PAGE_SIZE) % WORD else p
  }

  function Extra(metadata: bool): (n: nat) {
    if metadata then PAGE_SIZE else 0
  }

  /** There is room below top (an address up to 2^64) for nr aligned pages and the metadata page. */
  predicate Fits(top: nat, nr: nat, order: nat, metadata: bool) {
    PAGE_SIZE * nr <= top && AlignDown(top - PAGE_SIZE * nr, PAGE_SHIFT + order) >= Extra(metadata)
  }

  lemma NextTopMasked(t: nat, nr: nat, order: nat, metadata: bool)
    requires PAGE_SHIFT + order <= WORD_BITS
    ensures NextTop(t, nr, order, metadata) ==
            (AlignDown((t - PAGE_SIZE * nr) % WORD, PAGE_SHIFT + order) - Extra(metadata)) % WORD
  {
    hide BitAnd, GenMask, AlignDown, Pow2;
    var q := (t - PAGE_SIZE * nr) % WORD;
    assert q < Pow2(WORD_BITS) by { Pow2Word(); }
    HighMaskAlignsDown(q, WORD_BITS, PAGE_SHIFT + order);
    var d := AlignDown(q, PAGE_SHIFT + order);
    assert d < WORD && d % WORD == d;
  }

  lemma NextTopWord(t: nat, nr: nat, order: nat, metadata: bool)
    requires PAGE_SHIFT + order <= WORD_BITS
    ensures NextTop(t, nr, order, metadata) < WORD
  {
    hide NextTop, AlignDown;
    NextTopMasked(t, nr, order, metadata);
  }

  /** The new top lies far enough below the old one exactly when there is room: then it is what unbounded
      arithmetic gives, otherwise the addresses have wrapped around and overlap what was taken before. */
  lemma NextTopExact(top: nat, nr: nat, order: nat, metadata: bool)
    requires PAGE_SHIFT + order <= WORD_BITS && 0 < top <= WORD && nr >= 1
    ensures var p := NextTop(top % WORD, nr, order, metadata);
      && (Fits(top, nr, order, metadata) <==> p + Extra(metadata) + PAGE_SIZE * nr <= top)
      && (Fits(top, nr, order, metadata) ==>
            p == AlignDown(top - PAGE_SIZE * nr, PAGE_SHIFT + order) - Extra(metadata))
  {
    hide NextTop, AlignDown, GenMask, BitAnd, Pow2;
    NextTopMasked(top % WORD, nr, order, metadata);
    if PAGE_SIZE * nr <= top {
      var q := top - PAGE_SIZE * nr;
      assert (top % WORD - PAGE_SIZE * nr) % WORD == q;
      AlignedPages(q, PAGE_SHIFT + order);
      var d := AlignDown(q, PAGE_SHIFT + order);
      assert d >= Extra(metadata) ==> (d - Extra(metadata)) % WORD == d - Extra(metadata);
      assert d < Extra(metadata) ==> d == 0 && (d - Extra(metadata)) % WORD == WORD - PAGE_SIZE;
    }
  }

  lemma AlignedPages(q: nat, k: nat)
    requires k >= PAGE_SHIFT
    ensures AlignDown(q, k) % PAGE_SIZE == 0
  {
    AlignDownAligned(q, k);
    AlignedLower(AlignDown(q, k), k, PAGE_SHIFT);
    AlignedMeaning(AlignDown(q, k), PAGE_SHIFT);
    assert Pow2(PAGE_SHIFT) == PAGE_SIZE by { Pow2Word(); }
    hide AlignDown, Aligned;
  }

  // ----- What to allocate for a request -----

  datatype Plan = OnePage(offset: nat) | Many(pages: nat, order: nat) | Refused

  /** The choice vm_memalign makes, in 64-bit arithmetic; Refused when an assert fires. */
  function PlanFor(alignment: nat, size: nat): (p: Plan) {
    var a := if alignment < 8 then 8 else alignment;
    if (a + size) % WORD <= PAGE_SIZE then
      if a < PAGE_SIZE then OnePage(a) else Refused
    else Many(PageAlign(size) / PAGE_SIZE, GetOrder(PageAlign(a) / PAGE_SIZE))
  }

  /** The bytes a plan provides from the returned address on. */
  function Provides(p: Plan): (n: int) {
    match p
    case OnePage(offset) => PAGE_SIZE - offset
    case Many(n, _) => n * PAGE_SIZE
    case Refused => 0
  }

  /** A plan provides the requested bytes exactly when rounding the size up to pages does not wrap. */
  lemma PlanCovers(alignment: nat, size: nat)
    requires 0 < size < WORD && 0 < alignment < WORD && IsPowerOf2(alignment)
    requires PlanFor(alignment, size) != Refused
    ensures Provides(PlanFor(alignment, size)) >= size <==> size <= WORD - PAGE_SIZE
    ensures PlanFor(alignment, size).Many? && size <= WORD - PAGE_SIZE ==> PlanFor(alignment, size).pages >= 1
  {
    hide PageAlign, IsPowerOf2, GetOrder;
    if size <= WORD - PAGE_SIZE {
      PageAlignPages(size);
    } else {
      PageAlignWraps(size);
    }
  }

  // ----- What that choice amounts to -----

  function AtLeast8(alignment: nat): (a: nat) {
    if alignment < 8 then 8 else alignment
  }

  /** The sum of alignment and size passes 2^64 and comes out as at most a page. */
  predicate SumWraps(a: nat, size: nat) {
    a >= PAGE_SIZE && WORD <= a + size <= WORD + PAGE_SIZE
  }

  /** The pages that hold size bytes. */
  function PagesFor(size: nat): (n: nat) {
    (size + PAGE_SIZE - 1) / PAGE_SIZE
  }

  /** The alignment of a power of two bytes, but at least a page, as a bit count. */
  function AlignBits(a: nat): (k: nat) {
    if a <= PAGE_SIZE then PAGE_SHIFT else Log2(a)
  }

  /** One page when alignment and size fit one together, refusal when their sum wraps to a page or less, and
      otherwise just the pages that hold the size, at the next multiple of the alignment or of a page. */
  lemma PlanIs(alignment: nat, size: nat)
    requires 0 < size <= WORD - PAGE_SIZE && 0 < alignment < WORD && IsPowerOf2(alignment)
    ensures var a := AtLeast8(alignment); var p := PlanFor(alignment, size);
      if a + size <= PAGE_SIZE then p == OnePage(a)
      else if SumWraps(a, size) then p == Refused
      else p.Many? && p.pages == PagesFor(size) && PAGE_SHIFT + p.order == AlignBits(a)
  {
    hide PageAlign, IsPowerOf2, GetOrder, Log2;
    var a := AtLeast8(alignment);
    assert (a + size) % WORD == if a + size < WORD then a + size else a + size - WORD;
    PageAlignPages(size);
    AlignBitsOf(alignment);
  }

  lemma AlignBitsOf(alignment: nat)
    requires 0 < alignment < WORD && IsPowerOf2(alignment)
    ensures PAGE_SHIFT + GetOrder(PageAlign(AtLeast8(alignment)) / PAGE_SIZE) == AlignBits(AtLeast8(alignment))
  {
    var a := AtLeast8(alignment);
    assert IsPowerOf2(a) by { PowerOf2Test(3); assert Pow2(3) == 8; }
    IsPowerOf2Meaning(a);
    hide IsPowerOf2, Log2;
    var e := Log2(a);
    assert Pow2(WORD_BITS) == WORD && Pow2(PAGE_SHIFT) == PAGE_SIZE by { Pow2Word(); }
    Pow2StrictMono(e, WORD_BITS);
    Pow2StrictMono(PAGE_SHIFT, e);
    RequestOrderOfPower(e);
    assert RequestOrder(a) == GetOrder(PageAlign(a) / PAGE_SIZE);
  }

  // ----- The allocator -----

  const VM_MAGIC: nat := 0x7E57C0DE
  const WORDS: nat := 512

  /** A live allocation: its first virtual page and the physical pages behind it, in order. */
  datatype Block = Block(first: nat, pages: seq<nat>)

  /** What vm_memalign returns; Abort when an assert fires. A single page is handed out even when no
      physical page is left: it is then mapped to frame 0. */
  datatype Result = Null | Ptr(addr: nat) | Unbacked(addr: nat) | Abort

  /** Contents of physical pages, in 8-byte words. */
  type Memory = map<nat, seq<nat>>

  ghost predicate Words(m: Memory) {
    forall p :: p in m ==> |m[p]| == WORDS
  }

  /** Freeing and allocating pages rewrites list links: the first two words of free pages. */
  ghost predicate LinksOnly(m: Memory, m': Memory, free: set<nat>)
    requires Words(m)
  {
    && m'.Keys == m.Keys && Words(m')
    && forall p :: p in m ==> (p !in free ==> m'[p] == m[p]) && m'[p][2..] == m[p][2..]
  }

  /** The write through GET_MAGIC: the word before the given offset of a page, if there is memory behind it. */
  function WithMagic(m: Memory, page: nat, offset: nat): (m': Memory)
    requires 8 <= offset < PAGE_SIZE && (page in m ==> |m[page]| == WORDS)
    ensures m'.Keys == m.Keys && forall p :: p in m && p != page ==> m'[p] == m[p]
    ensures page in m ==> |m'[page]| == WORDS && m'[page][offset / 8 - 1] == VM_MAGIC
  {
    if page in m then
      var w: seq<nat> := m[page];
      m[page := w[offset / 8 - 1 := VM_MAGIC]]
    else m
  }

  /** The word in front of an address inside a page. */
  function MagicWord(a: nat): (i: nat)
    requires a % PAGE_SIZE != 0 && a % 8 == 0
    ensures i < WORDS
  {
    var offset := a % PAGE_SIZE;
    assert offset >= 8;
    offset / 8 - 1
  }

  /** The metadata found in front of the pointer a. */
  ghost predicate Tagged(m: Memory, a: nat, b: Block) {
    && b.pages != [] && (forall i :: 0 <= i < |b.pages| ==> b.pages[i] in m)
    && |m[b.pages[0]]| == WORDS
    && if a % PAGE_SIZE != 0 then
         && |b.pages| == 1 && b.first == a / PAGE_SIZE
         && a % 8 == 0 && m[b.pages[0]][MagicWord(a)] == VM_MAGIC
       else
         && |b.pages| >= 2 && b.first + 1 == a / PAGE_SIZE
         && m[b.pages[0]][WORDS - 2] == |b.pages| - 1 && m[b.pages[0]][WORDS - 1] == VM_MAGIC
  }

  ghost predicate Mapped(pt: map<nat, nat>, b: Block) {
    forall v :: b.first <= v < b.first + |b.pages| ==> v in pt && pt[v] == b.pages[v - b.first]
  }

  ghost function PagesOf(pages: seq<nat>): (s: set<nat>)
    ensures forall p :: p in s <==> p in pages
  {
    set p | p in pages
  }

  /** A live block is tagged, mapped, lies above top, and its physical pages are its own. */
  ghost predicate BlockOk(m: Memory, pt: map<nat, nat>, free: set<nat>, top: nat, a: nat, b: Block) {
    && Tagged(m, a, b) && Mapped(pt, b) && Distinct(b.pages)
    && (forall i :: 0 <= i < |b.pages| ==> b.pages[i] !in free && b.pages[i] != 0)
    && top <= PAGE_SIZE * b.first && PAGE_SIZE * (b.first + |b.pages|) <= WORD
  }

  ghost predicate Apart(b: Block, c: Block) {
    && (b.first + |b.pages| <= c.first || c.first + |c.pages| <= b.first)
    && forall p :: p in b.pages ==> p !in c.pages
  }

  /** A live block stays good while its pages, their mapping and their ownership stay as they are. */
  lemma BlockStable(m: Memory, pt: map<nat, nat>, free: set<nat>, top: nat, a: nat, b: Block,
                    m': Memory, pt': map<nat, nat>, free': set<nat>, top': nat)
    requires BlockOk(m, pt, free, top, a, b) && top' <= top
    requires forall i :: 0 <= i < |b.pages| ==>
      b.pages[i] in m' && m'[b.pages[i]] == m[b.pages[i]] && b.pages[i] !in free'
    requires forall v :: b.first <= v < b.first + |b.pages| && v in pt ==> v in pt' && pt'[v] == pt[v]
    ensures BlockOk(m', pt', free', top', a, b)
  {
  }

  /** Memory, page table, free physical pages, lowest virtual address in use, live allocations. */
  datatype Space = Space(mem: Memory, pt: map<nat, nat>, free: set<nat>, top: nat, live: map<nat, Block>)

  ghost predicate Consistent(s: Space) {
    && s.top <= WORD && s.top % PAGE_SIZE == 0
    && Words(s.mem) && s.free <= s.mem.Keys && 0 !in s.free
    && (forall a :: a in s.live ==> BlockOk(s.mem, s.pt, s.free, s.top, a, s.live[a]))
    && (forall a, b :: a in s.live && b in s.live && a != b ==> Apart(s.live[a], s.live[b]))
  }

  /** Everything outside the pages that were free and frame 0, and every mapping at or above the old top, is
      kept. */
  ghost predicate Below(s: Space, s': Space) {
    && s'.top <= s.top && s'.top % PAGE_SIZE == 0
    && Words(s'.mem) && s'.mem.Keys == s.mem.Keys && s'.free <= s.free
    && (forall p :: p in s.mem && p !in s.free && p != 0 ==> s'.mem[p] == s.mem[p])
    && (forall v :: PAGE_SIZE * v >= s.top && v in s.pt ==> v in s'.pt && s'.pt[v] == s.pt[v])
  }

  lemma BelowKeeps(s: Space, s': Space)
    requires Consistent(s) && Below(s, s') && s'.live == s.live
    ensures Consistent(s')
  {
    hide BlockOk, Apart;
    forall a | a in s.live ensures BlockOk(s'.mem, s'.pt, s'.free, s'.top, a, s.live[a]) {
      LiveFacts(s, a);
      BlockStable(s.mem, s.pt, s.free, s.top, a, s.live[a], s'.mem, s'.pt, s'.free, s'.top);
    }
  }

  lemma LiveFacts(s: Space, a: nat)
    requires Consistent(s) && a in s.live
    ensures var b := s.live[a];
      && (forall i :: 0 <= i < |b.pages| ==> b.pages[i] in s.mem && b.pages[i] !in s.free && b.pages[i] != 0)
      && s.top <= PAGE_SIZE * b.first
      && (if a % PAGE_SIZE != 0 then b.first == a / PAGE_SIZE else b.first + 1 == a / PAGE_SIZE)
  {
    assert BlockOk(s.mem, s.pt, s.free, s.top, a, s.live[a]);
  }

  /** A new block on pages that were free, below everything allocated before, joins the live ones. */
  lemma NewBlockKeeps(s: Space, s': Space, a: nat, b: Block)
    requires Consistent(s) && Below(s, s') && s'.live == s.live[a := b]
    requires BlockOk(s'.mem, s'.pt, s'.free, s'.top, a, b)
    requires PAGE_SIZE * (b.first + |b.pages|) <= s.top && forall p :: p in b.pages ==> p in s.free
    ensures Consistent(s') && a !in s.live
    ensures forall c :: c in s.live ==> Apart(b, s.live[c])
  {
    hide BlockOk;
    BelowKeeps(s, s'.(live := s.live));
    forall c | c in s.live ensures c != a && Apart(b, s.live[c]) {
      LiveFacts(s, c);
      assert PAGE_SIZE * (b.first + |b.pages|) <= PAGE_SIZE * s.live[c].first;
      NewPointer(s, s', a, b, c);
    }
  }

  lemma NewPointer(s: Space, s': Space, a: nat, b: Block, c: nat)
    requires Consistent(s) && c in s.live && BlockOk(s'.mem, s'.pt, s'.free, s'.top, a, b)
    requires PAGE_SIZE * (b.first + |b.pages|) <= s.top
    ensures c != a
  {
    LiveFacts(s, c);
  }

  lemma MapBelow(s: Space, s': Space, v: nat, page: nat)
    requires s'.top <= s.top && s'.top % PAGE_SIZE == 0 && s'.free <= s.free
    requires Words(s'.mem) && s'.mem.Keys == s.mem.Keys
    requires forall p :: p in s.mem && p !in s.free && p != 0 ==> s'.mem[p] == s.mem[p]
    requires s'.pt == s.pt[v := page] && PAGE_SIZE * v < s.top
    ensures Below(s, s')
  {
  }

  /** One more page taken and mapped below the old top. */
  lemma BelowStep(s: Space, s1: Space, s2: Space, v: nat, page: nat)
    requires Below(s, s1) && s2.top == s1.top && Words(s2.mem) && s2.mem.Keys == s1.mem.Keys && s2.free <= s1.free
    requires forall p :: p in s1.mem && p !in s1.free && p != 0 ==> s2.mem[p] == s1.mem[p]
    requires s2.pt == s1.pt[v := page] && PAGE_SIZE * v < s.top
    ensures Below(s, s2)
  {
  }

  /** The pages gathered so far for a block that starts at virtual page v. */
  ghost predicate Gathered(s: Space, s': Space, v: nat, pages: seq<nat>) {
    && Distinct(pages) && Mapped(s'.pt, Block(v, pages))
    && forall i :: 0 <= i < |pages| ==>
         pages[i] in s.free && pages[i] !in s'.free && pages[i] in s'.mem && pages[i] != 0
  }

  lemma GatherStep(s: Space, s1: Space, s2: Space, v: nat, pages: seq<nat>, page: nat)
    requires Gathered(s, s1, v, pages) && page in s1.free && s1.free <= s.free && page != 0
    requires s2.free == s1.free - {page} && s2.mem.Keys == s1.mem.Keys && page in s1.mem
    requires s2.pt == s1.pt[v + |pages| := page]
    ensures Gathered(s, s2, v, pages + [page])
  {
  }

  lemma ManyOk(s: Space, s': Space, v: nat, pages: seq<nat>)
    requires Gathered(s, s', v, pages) && |pages| >= 2 && |s'.mem[pages[0]]| == WORDS
    requires s'.mem[pages[0]][WORDS - 2] == |pages| - 1 && s'.mem[pages[0]][WORDS - 1] == VM_MAGIC
    requires s'.top <= PAGE_SIZE * v && PAGE_SIZE * (v + |pages|) <= WORD
    ensures BlockOk(s'.mem, s'.pt, s'.free, s'.top, PAGE_SIZE * (v + 1), Block(v, pages))
  {
  }

  lemma SingleOk(m: Memory, pt: map<nat, nat>, free: set<nat>, top: nat, a: nat, v: nat, page: nat)
    requires page in m && |m[page]| == WORDS && page !in free && page != 0 && v in pt && pt[v] == page
    requires a / PAGE_SIZE == v && a % PAGE_SIZE >= 8 && a % 8 == 0 && m[page][a % PAGE_SIZE / 8 - 1] == VM_MAGIC
    requires top <= PAGE_SIZE * v && PAGE_SIZE * (v + 1) <= WORD
    ensures BlockOk(m, pt, free, top, a, Block(v, [page]))
  {
  }

  lemma WithinPage(p: nat, offset: nat)
    requires p % PAGE_SIZE == 0 && offset < PAGE_SIZE && offset % 8 == 0
    ensures (p + offset) / PAGE_SIZE == p / PAGE_SIZE && (p + offset) % PAGE_SIZE == offset
    ensures (p + offset) % 8 == 0 && PAGE_SIZE * (p / PAGE_SIZE) == p
  {
    var k, j := p / PAGE_SIZE, offset / 8;
    DivUnique(p + offset, PAGE_SIZE, k, offset);
    DivUnique(p + offset, 8, WORDS * k + j, 0);
  }

  /** Where the metadata in front of a page-aligned address lies. */
  lemma InFrontOfPage(a: nat)
    requires a % PAGE_SIZE == 0 && a > 0
    ensures a >= PAGE_SIZE && (a - 16) / PAGE_SIZE == (a - 8) / PAGE_SIZE == a / PAGE_SIZE - 1
    ensures (a - 16) % PAGE_SIZE / 8 == WORDS - 2 && (a - 8) % PAGE_SIZE / 8 == WORDS - 1
  {
    var k := a / PAGE_SIZE - 1;
    DivUnique(a - 16, PAGE_SIZE, k, PAGE_SIZE - 16);
    DivUnique(a - 8, PAGE_SIZE, k, PAGE_SIZE - 8);
  }

  /** Rewriting list links leaves the page count readable. */
  lemma CountKept(m: Memory, m': Memory, free: set<nat>, a: nat, b: Block)
    requires Words(m) && LinksOnly(m, m', free) && Tagged(m, a, b) && a % PAGE_SIZE == 0
    ensures Words(m') && (forall i :: 0 <= i < |b.pages| ==> b.pages[i] in m')
    ensures m'[b.pages[0]][WORDS - 2] == |b.pages| - 1
  {
    var p := b.pages[0];
    assert m'[p][2..][WORDS - 4] == m[p][2..][WORDS - 4];
  }

  /** a is a new live pointer with block b, on pages that were free, apart from every earlier block. */
  ghost predicate NewBlock(s: Space, s': Space, a: nat, b: Block) {
    && a !in s.live && s'.live == s.live[a := b]
    && (forall p :: p in b.pages ==> p in s.free && p !in s'.free)
    && (forall c :: c in s.live ==> Apart(b, s.live[c]))
  }

  ghost predicate SpaceOk(s: Space) {
    Words(s.mem) && s.free <= s.mem.Keys && 0 !in s.free
  }

  /** One page below the top, with its magic word, is a new block. */
  lemma OnePageJoins(s: Space, s': Space, v: nat, offset: nat, page: nat)
    requires Consistent(s) && page in s.free && page in s.mem && page !in s'.free && s'.free <= s.free
    requires Words(s'.mem) && s'.mem.Keys == s.mem.Keys
    requires forall p :: p in s.mem && p !in s.free && p != 0 ==> s'.mem[p] == s.mem[p]
    requires 8 <= offset < PAGE_SIZE && offset % 8 == 0 && s'.mem[page][offset / 8 - 1] == VM_MAGIC
    requires s'.pt == s.pt[v := page] && s'.top == PAGE_SIZE * v && s'.top + PAGE_SIZE <= s.top
    requires s'.live == s.live[s'.top + offset := Block(v, [page])]
    ensures Consistent(s') && Below(s, s') && NewBlock(s, s', s'.top + offset, Block(v, [page]))
  {
    hide BlockOk, Apart, Below;
    WithinPage(s'.top, offset);
    SingleOk(s'.mem, s'.pt, s'.free, s'.top, s'.top + offset, v, page);
    MapBelow(s, s', v, page);
    NewBlockKeeps(s, s', s'.top + offset, Block(v, [page]));
  }

  lemma BelowLive(s: Space, s': Space, l: map<nat, Block>)
    requires Below(s, s')
    ensures Below(s, s'.(live := l))
  {
  }

  lemma GatheredPages(s: Space, s': Space, v: nat, pages: seq<nat>)
    requires Gathered(s, s', v, pages)
    ensures forall p :: p in pages ==> p in s.free && p !in s'.free
  {
  }

  /** The virtual range has room for what a request takes. */
  predicate RoomFor(top: nat, alignment: nat, size: nat) {
    var a := AtLeast8(alignment);
    if a + size <= PAGE_SIZE then PAGE_SIZE <= top
    else SumWraps(a, size) || FitsAt(top, PagesFor(size), AlignBits(a))
  }

  /** n pages aligned to 2^k, and the metadata page in front of them, lie below top. */
  predicate FitsAt(top: nat, n: nat, k: nat) {
    PAGE_SIZE * n <= top && AlignDown(top - PAGE_SIZE * n, k) >= PAGE_SIZE
  }

  lemma TopAligned(s: Space)
    requires Consistent(s)
    ensures s.top % PAGE_SIZE == 0
  {
  }

  lemma RoomOne(top: nat, alignment: nat, size: nat)
    requires RoomFor(top, alignment, size) && AtLeast8(alignment) + size <= PAGE_SIZE && top % PAGE_SIZE == 0
    ensures Fits(top, 1, 0, false) && top > 0
  {
    hide Fits;
    TopPage(top);
  }

  lemma RoomMany(top: nat, alignment: nat, size: nat, order: nat)
    requires RoomFor(top, alignment, size) && AtLeast8(alignment) + size > PAGE_SIZE
    requires 0 < size && !SumWraps(AtLeast8(alignment), size) && PAGE_SHIFT + order == AlignBits(AtLeast8(alignment))
    requires 0 < alignment < WORD && IsPowerOf2(alignment)
    ensures var n := PagesFor(size);
      && n >= 1 && PAGE_SIZE * n >= size && Fits(top, n, order, true) && top > 0
      && PAGE_SHIFT + order <= WORD_BITS && AlignDown(top - PAGE_SIZE * n, PAGE_SHIFT + order) % alignment == 0
  {
    hide AlignDown, Pow2, IsPowerOf2, AlignBits;
    AlignBitsOf(alignment);
    ManyAligned(top - PAGE_SIZE * PagesFor(size), alignment);
  }

  lemma FitsPage(top: nat)
    requires Fits(top, 1, 0, false)
    ensures top >= PAGE_SIZE
  {
  }

  /** A whole page below a page-aligned top is its own rounding down. */
  lemma TopPage(top: nat)
    requires top % PAGE_SIZE == 0 && top >= PAGE_SIZE
    ensures Fits(top, 1, 0, false) && AlignDown(top - PAGE_SIZE, PAGE_SHIFT) == top - PAGE_SIZE
  {
    var q := top - PAGE_SIZE;
    assert Pow2(PAGE_SHIFT) == PAGE_SIZE by { Pow2Word(); }
    hide AlignDown, Aligned, Pow2;
    AlignedMeaning(q, PAGE_SHIFT);
    AlignDownUnique(q, PAGE_SHIFT, q);
  }

  lemma PowerPositive(n: nat)
    requires IsPowerOf2(n)
    ensures n > 0
  {
  }

  lemma SmallPower(alignment: nat) returns (e: nat, e': nat)
    requires 0 < alignment < PAGE_SIZE && IsPowerOf2(alignment)
    ensures alignment == Pow2(e) && e <= e' && 3 <= e' <= PAGE_SHIFT && Pow2(3) == 8
    ensures Pow2(e') == if alignment < 8 then 8 else alignment
  {
    IsPowerOf2Meaning(alignment);
    hide IsPowerOf2, Log2;
    e := Log2(alignment);
    e' := if alignment < 8 then 3 else e;
    assert Pow2(PAGE_SHIFT) == PAGE_SIZE && Pow2(3) == 8 by { Pow2Word(); }
    Pow2StrictMono(e, 3);
    Pow2StrictMono(e, PAGE_SHIFT);
  }

  lemma OnePageAligned(top: nat, alignment: nat)
    requires top % PAGE_SIZE == 0 && 0 < alignment < PAGE_SIZE && IsPowerOf2(alignment)
    ensures var a := if alignment < 8 then 8 else alignment;
      (top + a) % alignment == 0 && a % 8 == 0
  {
    hide IsPowerOf2, Pow2;
    var e, e' := SmallPower(alignment);
    MultipleAligned(top, e', e);
    MultipleAligned(0, e', 3);
  }

  lemma MultipleAligned(top: nat, e': nat, e: nat)
    requires top % PAGE_SIZE == 0 && e <= e' <= PAGE_SHIFT
    ensures (top + Pow2(e')) % Pow2(e) == 0
  {
    assert Pow2(PAGE_SHIFT) == PAGE_SIZE by { Pow2Word(); }
    AlignedMeaning(top, PAGE_SHIFT);
    AlignedLower(top, PAGE_SHIFT, e');
    AlignedNext(top, e');
    AlignedLower(top + Pow2(e'), e', e);
    AlignedMeaning(top + Pow2(e'), e);
  }

  lemma ManyAligned(x: nat, alignment: nat)
    requires 0 < alignment < WORD && IsPowerOf2(alignment)
    ensures var a := if alignment < 8 then 8 else alignment; var k := PAGE_SHIFT + GetOrder(PageAlign(a) / PAGE_SIZE);
      k <= WORD_BITS && AlignDown(x, k) % alignment == 0
  {
    var a := if alignment < 8 then 8 else alignment;
    IsPowerOf2Meaning(alignment);
    var e := Log2(alignment);
    var e' := if alignment < 8 then 3 else e;
    assert Pow2(3) == 8 && Pow2(WORD_BITS) == WORD by { Pow2Word(); }
    Pow2StrictMono(e, 3);
    Pow2StrictMono(e, WORD_BITS);
    RequestOrderOfPower(e');
    assert RequestOrder(a) == GetOrder(PageAlign(a) / PAGE_SIZE);
    var k := PAGE_SHIFT + RequestOrder(a);
    hide IsPowerOf2, Log2, Aligned, AlignDown, RequestOrder;
    AlignDownAligned(x, k);
    AlignedLower(AlignDown(x, k), k, e);
    AlignedMeaning(AlignDown(x, k), e);
  }

  /** The pages of block b go back to the page allocator; nothing else changes but list links. */
  lemma ReturnKeeps(s: Space, s': Space, a: nat)
    requires Consistent(s) && a in s.live && s'.live == s.live - {a} && s'.pt == s.pt && s'.top == s.top
    requires s'.free == s.free + PagesOf(s.live[a].pages) && LinksOnly(s.mem, s'.mem, s'.free)
    ensures Consistent(s')
  {
    hide BlockOk;
    LiveFacts(s, a);
    assert 0 !in s.live[a].pages by { assert BlockOk(s.mem, s.pt, s.free, s.top, a, s.live[a]); OwnPages(s, a); }
    forall c | c in s'.live ensures BlockOk(s'.mem, s'.pt, s'.free, s'.top, c, s'.live[c]) {
      LiveFacts(s, c);
      assert Apart(s.live[c], s.live[a]);
      assert forall i :: 0 <= i < |s.live[c].pages| ==> s.live[c].pages[i] in s.live[c].pages;
      BlockStable(s.mem, s.pt, s.free, s.top, c, s.live[c], s'.mem, s'.pt, s'.free, s'.top);
    }
  }

  lemma OwnPages(s: Space, a: nat)
    requires Consistent(s) && a in s.live
    ensures 0 !in s.live[a].pages && Distinct(s.live[a].pages) && Tagged(s.mem, a, s.live[a]) && Mapped(s.pt, s.live[a])
    ensures |s.live[a].pages| <= WORD / PAGE_SIZE && a > 0
    ensures forall i :: 0 <= i < |s.live[a].pages| ==> s.live[a].pages[i] != 0
  {
    assert BlockOk(s.mem, s.pt, s.free, s.top, a, s.live[a]);
  }

  lemma NullNotLive(s: Space)
    requires Consistent(s)
    ensures 0 !in s.live
  {
    if 0 in s.live { OwnPages(s, 0); }
  }

  lemma LinksTrans(m: Memory, m1: Memory, m2: Memory, f1: set<nat>, f2: set<nat>)
    requires Words(m) && LinksOnly(m, m1, f1) && LinksOnly(m1, m2, f2) && f1 <= f2
    ensures LinksOnly(m, m2, f2)
  {
  }

  /** One page further in the freeing loop. */
  lemma NextFreed(pages: seq<nat>, i: nat)
    requires Distinct(pages) && i < |pages|
    ensures pages[i] !in PagesOf(pages[..i]) && PagesOf(pages[..i + 1]) == PagesOf(pages[..i]) + {pages[i]}
  {
    assert pages[..i + 1] == pages[..i] + [pages[i]];
  }

  /** Memory after the list code has rewritten links, in some coding of addresses. */
  function Rewritten(m: Memory, l: Lists.Links, l': Lists.Links, code: Lists.Addr -> nat): (m': Memory)
    requires Words(m)
  {
    map p | p in m ::
      var a := Lists.Page(p);
      if a !in l' || (a in l && l'[a] == l[a]) then m[p] else m[p][0 := code(l'[a].prev)][1 := code(l'[a].next)]
  }

  /** What is assumed above of the page allocator follows from what its methods promise: links are written in
      usable pages only. */
  lemma AllocatorTouchesLinksOnly(m: Memory, l: Lists.Links, l': Lists.Links, code: Lists.Addr -> nat,
                                  usable: iset<nat>, free: set<nat>)
    requires Words(m) && Lists.LinksKept(l, l', usable) && forall p: nat :: p in usable && p in m ==> p in free
    ensures LinksOnly(m, Rewritten(m, l, l', code), free)
  {
  }

  lemma NoLinks(m: Memory, free: set<nat>)
    requires Words(m)
    ensures LinksOnly(m, m, free)
  {
  }

  lemma NothingGathered(s: Space, s': Space, v: nat)
    requires Below(s, s')
    ensures Gathered(s, s', v, []) && s'.free <= s.free
  {
  }

  lemma BelowTop(s: Space, s': Space)
    requires Consistent(s) && s'.top <= s.top && s'.top % PAGE_SIZE == 0 && s' == s.(top := s'.top)
    ensures Below(s, s') && SpaceOk(s')
  {
    hide BlockOk, Apart;
  }

  lemma BelowSame(s: Space, s1: Space, s2: Space)
    requires Below(s, s1) && s2.top == s1.top && Words(s2.mem) && s2.mem.Keys == s1.mem.Keys && s2.free <= s1.free
    requires forall p :: p in s1.mem && p !in s1.free && p != 0 ==> s2.mem[p] == s1.mem[p]
    requires s2.pt == s1.pt
    ensures Below(s, s2)
  {
  }

  class Vm {
    var vfreeTop: nat
    var pt: map<nat, nat>
    var mem: Memory
    var free: set<nat>
    ghost var top: nat
    ghost var live: map<nat, Block>
    ghost var denied: bool  // some call of alloc_page returned no page

    /** init_alloc_vpage: addresses are taken below t, 2^64 standing for the top of the address space. */
    constructor (t: nat, m: Memory, pages: set<nat>)
      requires t <= WORD && t % PAGE_SIZE == 0 && Words(m) && pages <= m.Keys && 0 !in pages
      ensures Valid() && top == t && live == map[] && free == pages && mem == m && !denied
    {
      vfreeTop, pt, mem, free, top, live, denied := t % WORD, map[], m, pages, t, map[], false;
    }

    ghost function View(): (s: Space)
      reads this
    {
      Space(mem, pt, free, top, live)
    }

    ghost predicate Valid()
      reads this
    {
      vfreeTop == top % WORD && Consistent(View())
    }

    /** Some link words of free pages change. */
    method TouchLinks()
      requires Words(mem)
      modifies this`mem
      ensures LinksOnly(old(mem), mem, free)
    {
      var l: map<nat, (nat, nat)> := *;
      mem := map p | p in mem :: if p in free && p in l then mem[p][0 := l[p].0][1 := l[p].1] else mem[p];
    }

    /** alloc_page: any free page, zeroed, or 0 when the page allocator has none to give. */
    method AllocPage() returns (page: nat)
      requires Words(mem) && free <= mem.Keys && 0 !in free
      modifies this`mem, this`free, this`denied
      ensures denied == (old(denied) || page == 0) && (page == 0 ==> mem == old(mem))
      ensures free == old(free) - {page} && free <= mem.Keys && 0 !in free
      ensures page != 0 ==> page in old(free) && page in mem && mem[page] == seq(WORDS, _ => 0)
      ensures Words(mem) && mem.Keys == old(mem).Keys
      ensures forall p :: p in mem && p !in old(free) ==> mem[p] == old(mem)[p]
    {
      page := *;
      if page !in free {
        page, denied := 0, true;
        return;
      }
      free := free - {page};
      mem := mem[page := seq(WORDS, _ => 0)];
      TouchLinks();
    }

    /** free_page on an allocated page. */
    method FreePage(page: nat)
      requires Words(mem) && page in mem && page !in free
      modifies this`mem, this`free
      ensures free == old(free) + {page} && LinksOnly(old(mem), mem, free)
    {
      free := free + {page};
      TouchLinks();
    }

    /** do_alloc_vpages: the range lies below the old top exactly when there is room for it; then it is the
        highest aligned one. */
    method DoAllocVpages(nr: nat, order: nat, metadata: bool) returns (ptr: nat)
      requires PAGE_SHIFT + order <= WORD_BITS && top <= WORD && vfreeTop == top % WORD && nr >= 1
      modifies this`vfreeTop, this`top
      ensures ptr == vfreeTop == top < WORD
      ensures Fits(old(top), nr, order, metadata) <==> ptr + Extra(metadata) + PAGE_SIZE * nr <= old(top)
      ensures Fits(old(top), nr, order, metadata) ==>
        ptr == AlignDown(old(top) - PAGE_SIZE * nr, PAGE_SHIFT + order) - Extra(metadata)
    {
      NextTopWord(vfreeTop, nr, order, metadata);
      if top > 0 { NextTopExact(top, nr, order, metadata); }
      ptr := NextTop(vfreeTop, nr, order, metadata);
      vfreeTop := ptr;
      top := ptr;
    }

    /** vm_alloc_one_page. Without a physical page the address is mapped to frame 0 and the magic word goes
        there. */
    method VmAllocOnePage(offset: nat) returns (r: Result)
      requires Valid() && 8 <= offset < PAGE_SIZE && offset % 8 == 0 && top > 0 && Fits(top, 1, 0, false)
      modifies this
      ensures Valid() && Below(old(View()), View()) && (r.Ptr? || r.Unbacked?)
      ensures r.addr == top + offset && top == old(top) - PAGE_SIZE
      ensures if r.Ptr? then denied == old(denied) else denied && live == old(live)
      ensures r.Unbacked? ==> pt == old(pt)[top / PAGE_SIZE := 0] && mem == WithMagic(old(mem), 0, offset)
      ensures r.Ptr? ==> r.addr in live && NewBlock(old(View()), View(), r.addr, live[r.addr])
      ensures r.Ptr? ==> PAGE_SIZE * live[r.addr].first == top && |live[r.addr].pages| == 1
    {
      hide AlignDown, BlockOk, Apart, Below, LinksOnly, WithMagic, Fits, Pow2, NewBlock;
      FitsPage(top);
      TopPage(top);
      var p := DoAllocVpages(1, 0, false);
      WithinPage(p, offset);
      var page := AllocPage();
      var v := p / PAGE_SIZE;
      pt := pt[v := page];
      mem := WithMagic(mem, page, offset);
      if page == 0 {
        MapBelow(old(View()), View(), v, 0);
        BelowKeeps(old(View()), View());
        return Unbacked(p + offset);
      }
      r := Ptr(p + offset);
      live := live[r.addr := Block(v, [page])];
      OnePageJoins(old(View()), View(), v, offset, page);
    }

    /** The loop of vm_memalign: backs n virtual pages from v on, or stops when no page is left. */
    method BackAt(v: nat, n: nat, ghost s: Space) returns (ok: bool, ghost pages: seq<nat>)
      requires Below(s, View()) && SpaceOk(View()) && PAGE_SIZE * (v + n) <= s.top
      modifies this`pt, this`mem, this`free, this`denied
      ensures denied == (old(denied) || !ok)
      ensures ok ==> |pages| == n && Gathered(s, View(), v, pages)
      ensures Below(s, View()) && SpaceOk(View())
    {
      hide Below, Gathered;
      pages := [];
      NothingGathered(s, View(), v);
      for i := 0 to n
        invariant |pages| == i && Gathered(s, View(), v, pages) && Below(s, View()) && SpaceOk(View()) && free <= s.free
        invariant top == old(top) && denied == old(denied)
      {
        ghost var s1 := View();
        var page := AllocPage();
        if page == 0 {
          BelowSame(s, s1, View());
          return false, pages;
        }
        pt := pt[v + i := page];
        BelowStep(s, s1, View(), v + i, page);
        GatherStep(s, s1, View(), v, pages, page);
        pages := pages + [page];
      }
      return true, pages;
    }

    /** The multi-page part of vm_memalign: n pages and, before them, one for the metadata. */
    method VmAllocMany(n: nat, order: nat) returns (r: Result)
      requires Valid() && n >= 1 && PAGE_SHIFT + order <= WORD_BITS && top > 0 && Fits(top, n, order, true)
      modifies this
      ensures (r.Ptr? || r.Abort?) && denied == (old(denied) || r.Abort?)
      ensures r.Ptr? ==> Valid() && Below(old(View()), View()) && r.addr in live
      ensures r.Ptr? ==> NewBlock(old(View()), View(), r.addr, live[r.addr])
      ensures r.Ptr? ==> PAGE_SIZE * live[r.addr].first == top && |live[r.addr].pages| == n + 1
      ensures r.Ptr? ==> r.addr == top + PAGE_SIZE == AlignDown(old(top) - PAGE_SIZE * n, PAGE_SHIFT + order)
    {
      hide AlignDown, BlockOk, Apart, Below, Gathered;
      ghost var s := View();
      AlignedPages(top - PAGE_SIZE * n, PAGE_SHIFT + order);
      var p := DoAllocVpages(n, order, true);
      assert p % PAGE_SIZE == 0;
      BelowTop(s, View());
      ghost var s1 := View();
      var v := p / PAGE_SIZE;
      var ok;
      ghost var pages;
      ok, pages := BackAt(v, n + 1, s);
      if !ok {
        return Abort;
      }
      var a := p + PAGE_SIZE;
      WriteMetadata(a, n, s, v, pages);
      ghost var s2 := View();
      ManyOk(s, s2, v, pages);
      live := live[a := Block(v, pages)];
      BelowLive(s, s2, live);
      GatheredPages(s, s2, v, pages);
      NewBlockKeeps(s, View(), a, Block(v, pages));
      return Ptr(a);
    }

    /** The writes through GET_METADATA: the two words before the address a. */
    method WriteMetadata(a: nat, n: nat, ghost s: Space, ghost v: nat, ghost pages: seq<nat>)
      requires Below(s, View()) && SpaceOk(View()) && Gathered(s, View(), v, pages)
      requires |pages| == n + 1 >= 2 && a == PAGE_SIZE * (v + 1)
      modifies this`mem
      ensures Below(s, View()) && SpaceOk(View()) && Gathered(s, View(), v, pages)
      ensures mem[pages[0]][WORDS - 2] == n && mem[pages[0]][WORDS - 1] == VM_MAGIC
    {
      var mp := pt[(a - 16) / PAGE_SIZE];
      var w: seq<nat> := mem[mp];
      w := w[(a - 16) % PAGE_SIZE / 8 := n];
      w := w[(a - 8) % PAGE_SIZE / 8 := VM_MAGIC];
      mem := mem[mp := w];
    }

    /** vm_memalign: while the address range has room, the result is aligned, fully backed, and on pages of
        its own; it fails exactly when an assert on the arguments fires or a physical page is missing. */
    method VmMemalign(alignment: nat, size: nat) returns (r: Result)
      requires Valid() && alignment < WORD && size <= WORD - PAGE_SIZE
      requires size > 0 && IsPowerOf2(alignment) ==> RoomFor(top, alignment, size)
      modifies this
      ensures size == 0 ==> r == Null && View() == old(View())
      ensures size > 0 && (!IsPowerOf2(alignment) || SumWraps(AtLeast8(alignment), size)) ==> r == Abort
      ensures size > 0 && IsPowerOf2(alignment) && !SumWraps(AtLeast8(alignment), size) ==>
        && denied == (old(denied) || !r.Ptr?)
        && (r.Ptr? || if AtLeast8(alignment) + size <= PAGE_SIZE then r.Unbacked? else r == Abort)
      ensures r.Unbacked? ==> Valid() && live == old(live) && Below(old(View()), View())
      ensures r.Ptr? ==> Below(old(View()), View())
      ensures r.Ptr? ==> Valid() && r.addr in live && NewBlock(old(View()), View(), r.addr, live[r.addr])
      ensures r.Ptr? ==> alignment > 0 && r.addr % alignment == 0
      ensures r.Ptr? ==> PAGE_SIZE * live[r.addr].first <= r.addr
      ensures r.Ptr? ==> r.addr + size <= PAGE_SIZE * (live[r.addr].first + |live[r.addr].pages|)
      ensures r.Ptr? ==> var a := AtLeast8(alignment); var b := live[r.addr];
        if a + size <= PAGE_SIZE then |b.pages| == 1 && r.addr == PAGE_SIZE * b.first + a == old(top) - PAGE_SIZE + a
        else
          && |b.pages| == PagesFor(size) + 1 && r.addr == PAGE_SIZE * (b.first + 1)
          && r.addr == AlignDown(old(top) - PAGE_SIZE * PagesFor(size), AlignBits(a))
    {
      hide AlignDown, BlockOk, Apart, Below, Gathered, IsPowerOf2, NewBlock, PageAlign, GetOrder, Words, Pow2, Log2;
      hide PlanFor, PagesFor, AlignBits, Fits, FitsAt, RoomFor, Consistent;
      if size == 0 {
        return Null;
      }
      if !IsPowerOf2(alignment) {
        return Abort;
      }
      PowerPositive(alignment);
      PlanIs(alignment, size);
      var plan := PlanFor(alignment, size);
      match plan
      case OnePage(offset) =>
        OnePageAligned(0, alignment);
        TopAligned(View());
        RoomOne(top, alignment, size);
        r := VmAllocOnePage(offset);
        if r.Ptr? { TopAligned(View()); OnePageAligned(top, alignment); }
      case Many(n, order) =>
        RoomMany(top, alignment, size, order);
        r := VmAllocMany(n, order);
      case Refused => r := Abort;
    }

    /** The word of memory at virtual address a. */
    function Load(a: nat): (w: nat)
      requires Words(mem) && a / PAGE_SIZE in pt && pt[a / PAGE_SIZE] in mem
      reads this
    {
      mem[pt[a / PAGE_SIZE]][a % PAGE_SIZE / 8]
    }

    /** vm_free on NULL or a live pointer: page alignment alone selects the branch, the asserts hold, and
        exactly the backing pages are freed, once each, although npages is read again from the metadata
        page after that page was freed. */
    method VmFree(a: nat)
      requires Valid() && (a == 0 || a in live)
      modifies this`mem, this`free, this`live
      ensures Valid() && (a == 0 ==> View() == old(View()))
      ensures a != 0 ==> live == old(live) - {a} && free == old(free) + PagesOf(old(live)[a].pages)
      ensures LinksOnly(old(mem), mem, free)
    {
      if a == 0 {
        NullNotLive(View());
        return;
      }
      hide BlockOk, Apart, LinksOnly, Tagged, Mapped, Distinct;
      ghost var s := View();
      ghost var b := live[a];
      OwnPages(s, a);
      LiveFacts(s, a);
      if a % PAGE_SIZE != 0 {
        FreeSingle(a, b);
      } else {
        FreeAll(a, b);
      }
      live := live - {a};
      ReturnKeeps(s, View(), a);
    }

    method FreeSingle(a: nat, ghost b: Block)
      requires Words(mem) && a % PAGE_SIZE != 0 && Tagged(mem, a, b) && Mapped(pt, b)
      requires forall i :: 0 <= i < |b.pages| ==> b.pages[i] !in free && b.pages[i] != 0
      modifies this`mem, this`free
      ensures free == old(free) + PagesOf(b.pages)
      ensures LinksOnly(old(mem), mem, free)
    {
      assert Load(a - 8) == VM_MAGIC;
      var page := pt[a / PAGE_SIZE];
      assert page == b.pages[0] && page != 0;
      FreePage(page);
      assert b.pages == [page];
    }

    /** The freeing loop of vm_free. */
    method FreeAll(a: nat, ghost b: Block)
      requires Words(mem) && a % PAGE_SIZE == 0 && Tagged(mem, a, b) && Mapped(pt, b) && Distinct(b.pages)
      requires forall i :: 0 <= i < |b.pages| ==> b.pages[i] !in free && b.pages[i] != 0
      requires |b.pages| <= WORD / PAGE_SIZE
      modifies this`mem, this`free
      ensures free == old(free) + PagesOf(b.pages)
      ensures LinksOnly(old(mem), mem, free)
    {
      InFrontOfPage(a);
      assert Load(a - 8) == VM_MAGIC && 0 < Load(a - 16) < WORD / PAGE_SIZE;
      FreeLoop(a, b);
    }

    method FreeLoop(a: nat, ghost b: Block)
      requires Words(mem) && a % PAGE_SIZE == 0 && a > 0 && Tagged(mem, a, b) && Mapped(pt, b) && Distinct(b.pages)
      requires forall i :: 0 <= i < |b.pages| ==> b.pages[i] !in free && b.pages[i] != 0
      modifies this`mem, this`free
      ensures free == old(free) + PagesOf(b.pages)
      ensures LinksOnly(old(mem), mem, free)
    {
      InFrontOfPage(a);
      var v := (a - 16) / PAGE_SIZE;
      assert v == b.first && v in pt && pt[v] == b.pages[0];
      NoLinks(mem, free);
      CountKept(mem, mem, free, a, b);
      hide LinksOnly, Tagged, Words, Distinct, PagesOf;
      var i := 0;
      while i < Load(a - 16) + 1
        invariant 0 <= i <= |b.pages| && LinksOnly(old(mem), mem, free)
        invariant free == old(free) + PagesOf(b.pages[..i])
        invariant v in pt && pt[v] == b.pages[0]
        invariant Words(mem) && forall j :: 0 <= j < |b.pages| ==> b.pages[j] in mem
        invariant Load(a - 16) + 1 == |b.pages|
        decreases |b.pages| - i
      {
        ghost var m1, f1 := mem, free;
        var page := pt[v + i];
        assert page == b.pages[i] && page != 0;
        NextFreed(b.pages, i);
        FreePage(page);
        LinksTrans(old(mem), m1, mem, f1, free);
        CountKept(old(mem), mem, free, a, b);
        i := i + 1;
      }
      assert b.pages[..i] == b.pages;
    }
  }
}
