/** The split virtqueue driver (lib/virtio.c) against a device that returns each buffer once
    (section 2.6, Split Virtqueues, of VIRTIO 1.1). */
module Virtio {
  import opened Basics
  import opened Bits

  datatype Desc = Desc(addr: nat, len: nat, flags: nat, next: nat)
  datatype Used = Used(id: nat, len: nat)

  const IDX: nat := 0x1_0000

  /** What driver and device share, and the driver's own fields. A NULL data entry is None. */
  datatype Ring = Ring(num: nat, desc: seq<Desc>, data: seq<Option<nat>>, freeHead: nat, numFree: nat,
                       avail: seq<nat>, availIdx: nat, used: seq<Used>, lastUsed: nat, numAdded: nat) {
    predicate Shaped() {
      && 1 <= num <= 0x8000 && IsPowerOf2(num)
      && |desc| == |data| == |avail| == |used| == num
    }
  }

  /** idx & (num - 1). */
  function Slot(idx: nat, num: nat): (r: nat)
    requires num >= 1
  {
    BitAnd(idx, num - 1)
  }

  lemma DividesIdx(num: nat) returns (m: nat)
    requires 1 <= num <= 0x8000 && IsPowerOf2(num)
    ensures m > 0 && IDX == num * m && num == Pow2(Log2(num))
  {
    IsPowerOf2Meaning(num);
    hide IsPowerOf2, Log2;
    var k, n := Log2(num), 16;
    assert Pow2(n) == IDX by { Pow2Word(); }
    Pow2StrictMono(k, n);
    m := Pow2(n - k);
    Pow2Add(k, n - k);
  }

  /** For a power of two, a free-running counter and its 16-bit value select the same ring slot. */
  lemma SlotIsRemainder(n: nat, num: nat)
    requires 1 <= num <= 0x8000 && IsPowerOf2(num)
    ensures Slot(n % IDX, num) == n % num
  {
    var m := DividesIdx(num);
    LowMaskIsRemainder(n % IDX, Log2(num));
    ModMod(n, num, m);
  }

  lemma ModMod(n: nat, a: nat, b: nat)
    requires a > 0 && b > 0 && a * b > 0
    ensures n % (a * b) % a == n % a
  {
    var r := n % (a * b);
    var q := n / (a * b);
    assert n == (a * b) * q + r;
    assert n == a * (b * q) + r by { MulAssoc(a, b, q); }
    DivAddMultiple(r, a, b * q);
  }

  /** Fewer than num counter values apart, two slots differ. */
  lemma SlotsDiffer(i: nat, j: nat, num: nat)
    requires num >= 1 && i < j < i + num
    ensures i % num != j % num
  {
    if i % num == j % num {
      assert j - i == num * (j / num - i / num);
      if j / num <= i / num {
        MulLeft(num, j / num - i / num, 0);
      } else {
        MulLeft(num, 1, j / num - i / num);
      }
      assert false;
    }
  }

  // ----- The driver -----

  function Init(r: Ring): (r': Ring)
    requires r.Shaped()
  {
    r.(desc := seq(r.num, i requires 0 <= i < r.num => if i < r.num - 1 then r.desc[i].(next := i + 1) else r.desc[i]),
       data := seq(r.num, _ => None), numFree := r.num, lastUsed := 0, numAdded := 0, freeHead := 0)
  }

  /** virtqueue_add_outbuf; false is the return value -1. */
  function AddOutbuf(r: Ring, buf: nat, len: nat): (res: (Ring, bool))
    requires r.Shaped() && (r.numFree > 0 ==> r.freeHead < r.num)
    ensures res.0.Shaped()
  {
    if r.numFree == 0 then (r, false)
    else
      var h := r.freeHead;
      LowMask(r.availIdx, r.num);
      (r.(numFree := r.numFree - 1,
          desc := r.desc[h := Desc(buf, len, 0, r.desc[h].next)],
          freeHead := r.desc[h].next,
          data := r.data[h := Some(buf)],
          avail := r.avail[Slot(r.availIdx, r.num) := h],
          availIdx := (r.availIdx + 1) % IDX,
          numAdded := r.numAdded + 1), true)
  }

  lemma LowMask(idx: nat, num: nat)
    requires 1 <= num && IsPowerOf2(num)
    ensures Slot(idx, num) < num
  {
    IsPowerOf2Meaning(num);
    LowMaskIsRemainder(idx, Log2(num));
  }

  predicate HasNext(d: Desc) {
    d.flags % 2 == 1
  }

  /** c is the chain of descriptors that starts at c[0]. */
  ghost predicate Chain(r: Ring, c: seq<nat>)
    requires r.Shaped()
  {
    && |c| >= 1 && (forall i :: 0 <= i < |c| ==> c[i] < r.num)
    && (forall i :: 0 <= i < |c| - 1 ==> HasNext(r.desc[c[i]]) && r.desc[c[i]].next == c[i + 1])
    && !HasNext(r.desc[c[|c| - 1]])
  }

  /** detach_buf on the chain c. */
  ghost function Detach(r: Ring, c: seq<nat>): (r': Ring)
    requires r.Shaped() && Chain(r, c)
  {
    var l := c[|c| - 1];
    r.(data := r.data[c[0] := None], desc := r.desc[l := r.desc[l].(next := r.freeHead)],
       freeHead := c[0], numFree := r.numFree + |c|)
  }

  /** The links from free_head visit the descriptors of free, in order. */
  ghost predicate FreeLinks(r: Ring, free: seq<nat>)
    requires r.Shaped()
  {
    && r.numFree == |free| && (forall i :: 0 <= i < |free| ==> free[i] < r.num)
    && (free != [] ==> r.freeHead == free[0])
    && (forall i :: 0 <= i < |free| - 1 ==> r.desc[free[i]].next == free[i + 1])
  }

  /** Detaching puts a whole chain, of any length, in front of the free ones, forgets its buffer and changes
      nothing else. */
  lemma DetachFreesChain(r: Ring, c: seq<nat>, free: seq<nat>)
    requires r.Shaped() && Chain(r, c) && FreeLinks(r, free)
    requires Distinct(c) && forall h :: h in c ==> h !in free
    ensures var r' := Detach(r, c);
      && r'.Shaped() && FreeLinks(r', c + free) && r'.data == r.data[c[0] := None]
      && (forall h :: 0 <= h < r.num && h != c[|c| - 1] ==> r'.desc[h] == r.desc[h])
      && r'.desc[c[|c| - 1]].(next := 0) == r.desc[c[|c| - 1]].(next := 0)
      && r'.avail == r.avail && r'.used == r.used && r'.availIdx == r.availIdx && r'.lastUsed == r.lastUsed
  {
    hide IsPowerOf2;
    var r', l, f := Detach(r, c), c[|c| - 1], c + free;
    forall i | 0 <= i < |f| - 1 ensures r'.desc[f[i]].next == f[i + 1] {
      if i < |c| - 1 {
        assert c[i] != l;
      } else if i >= |c| {
        assert free[i - |c|] in free && l in c;
      }
    }
  }

  /** virtqueue_get_buf, given the chain of the buffer at the head of the used ring. */
  ghost function GetBuf(r: Ring, c: seq<nat>): (res: (Ring, Option<nat>, nat))
    requires r.Shaped() && Chain(r, c) && c[0] == r.used[SlotBound(r.lastUsed, r.num)].id
  {
    var u := r.used[SlotBound(r.lastUsed, r.num)];
    (Detach(r, c).(lastUsed := (r.lastUsed + 1) % IDX), r.data[u.id], u.len)
  }

  function SlotBound(idx: nat, num: nat): (r: nat)
    requires 1 <= num && IsPowerOf2(num)
    ensures r < num && r == Slot(idx, num)
  {
    LowMask(idx, num);
    Slot(idx, num)
  }

  // ----- The driver's state in memory -----

  class Virtqueue {
    const num: nat
    const desc: array<Desc>
    const data: array<Option<nat>>
    const avail: array<nat>
    const used: array<Used>
    var freeHead: nat
    var numFree: nat
    var availIdx: nat
    var lastUsed: nat
    var numAdded: nat

    ghost function View(): (r: Ring)
      reads this, desc, data, avail, used
    {
      Ring(num, desc[..], data[..], freeHead, numFree, avail[..], availIdx, used[..], lastUsed, numAdded)
    }

    ghost predicate Shaped()
      reads this, desc, data, avail, used
    {
      View().Shaped()
    }

    /** vring_init_virtqueue on the zeroed pages of the ring; the last next field is not written. */
    constructor (n: nat, d: array<Desc>, a: array<nat>, u: array<Used>)
      requires 1 <= n <= 0x8000 && IsPowerOf2(n) && d.Length == a.Length == u.Length == n
      modifies d
      ensures num == n && desc == d && avail == a && used == u && fresh(data) && availIdx == 0
      ensures Shaped() && View() == Init(Ring(n, old(d[..]), seq(n, _ => None), 0, 0, old(a[..]), 0, old(u[..]), 0, 0))
    {
      var dat := new Option<nat>[n](_ => None);
      for i := 0 to n - 1
        invariant forall j :: 0 <= j < n ==> d[j] == if j < i then old(d[j]).(next := j + 1) else old(d[j])
        invariant forall j :: 0 <= j < n ==> dat[j] == None
      {
        d[i] := d[i].(next := i + 1);
        dat[i] := None;
      }
      dat[n - 1] := None;
      num, desc, data, avail, used := n, d, dat, a, u;
      freeHead, numFree, availIdx, lastUsed, numAdded := 0, n, 0, 0, 0;
      new;
      assert View() == Init(Ring(n, old(d[..]), seq(n, _ => None), 0, 0, old(a[..]), 0, old(u[..]), 0, 0));
    }

    /** virtqueue_add_outbuf. */
    method Add(buf: nat, len: nat) returns (ok: bool)
      requires Shaped() && buf != 0 && len != 0 && (numFree > 0 ==> freeHead < num)
      modifies this, desc, data, avail
      ensures Shaped() && (View(), ok) == AddOutbuf(old(View()), buf, len)
    {
      if numFree == 0 {
        return false;
      }
      numFree := numFree - 1;
      var head := freeHead;
      desc[head] := desc[head].(flags := 0);
      desc[head] := desc[head].(addr := buf);
      desc[head] := desc[head].(len := len);
      freeHead := desc[head].next;
      data[head] := Some(buf);
      LowMask(availIdx, num);
      avail[Slot(availIdx, num)] := head;
      availIdx := (availIdx + 1) % IDX;
      numAdded := numAdded + 1;
      assert desc[..] == old(desc[..])[head := Desc(buf, len, 0, old(desc[head]).next)];
      assert data[..] == old(data[..])[head := Some(buf)];
      assert avail[..] == old(avail[..])[Slot(old(availIdx), num) := head];
      return true;
    }

    /** detach_buf. */
    method DetachBuf(head: nat, ghost c: seq<nat>)
      requires Shaped() && Chain(View(), c) && c[0] == head
      modifies this, desc, data
      ensures Shaped() && View() == Detach(old(View()), c)
    {
      var i := head;
      data[head] := None;
      ghost var k := 0;
      ghost var dat := data[..];
      assert dat == old(data[..])[head := None];
      while HasNext(desc[i])
        invariant 0 <= k < |c| && i == c[k] && numFree == old(numFree) + k
        invariant desc[..] == old(desc[..]) && data[..] == dat
        invariant unchanged(avail) && unchanged(used) && unchanged(this`freeHead)
        invariant unchanged(this`availIdx) && unchanged(this`lastUsed) && unchanged(this`numAdded)
        decreases |c| - k
      {
        i := desc[i].next;
        numFree := numFree + 1;
        k := k + 1;
      }
      assert k == |c| - 1;
      desc[i] := desc[i].(next := freeHead);
      freeHead := head;
      numFree := numFree + 1;
      assert desc[..] == old(desc[..])[i := old(desc[i]).(next := old(freeHead))];
    }

    /** virtqueue_get_buf, when the device has used a buffer. */
    method Get(ghost c: seq<nat>) returns (buf: Option<nat>, len: nat)
      requires Shaped() && Chain(View(), c) && c[0] == View().used[SlotBound(lastUsed, num)].id
      modifies this, desc, data
      ensures Shaped() && (View(), buf, len) == GetBuf(old(View()), c)
    {
      var slot := SlotBound(lastUsed, num);
      var i := used[slot].id;
      len := used[slot].len;
      buf := data[i];
      DetachBuf(i, c);
      lastUsed := (lastUsed + 1) % IDX;
    }
  }
}
