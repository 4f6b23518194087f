/** Every run of the virtqueue driver against a device that takes available heads in order and returns
    each of them once, in any order. */
module VirtioRuns {
  import opened Basics
  import opened Bits
  import opened Virtio

  /** The ring, with what is where: heads offered and not yet taken, heads the device works on, used
      entries not yet collected, the free list, the buffer last added under each head, and all buffers added
      so far in order. The counters never wrap; the 16-bit indices in the ring are their low bits. */
  datatype System = System(ring: Ring, waiting: seq<nat>, device: set<nat>, back: seq<Used>, free: seq<nat>,
                           bufs: map<nat, (nat, nat)>, log: seq<(nat, nat)>,
                           added: nat, fetched: nat, returned: nat, got: nat)

  ghost predicate Counts(s: System) {
    && s.ring.Shaped()
    && s.ring.availIdx == s.added % IDX && s.ring.lastUsed == s.got % IDX && s.ring.numAdded == s.added
    && s.added == s.fetched + |s.waiting| && s.fetched == s.returned + |s.device| && s.returned == s.got + |s.back|
    && s.ring.numFree == |s.free| && |s.free| + (s.added - s.got) == s.ring.num
  }

  /** The slots of a ring from counter value `from` on hold the entries of q. */
  ghost predicate Slots<T>(ring: seq<T>, from: nat, q: seq<T>) {
    && |ring| >= 1 && |q| <= |ring|
    && forall k :: 0 <= k < |q| ==> ring[SlotAt(from, k, |ring|)] == q[k]
  }

  function SlotAt(from: nat, k: int, n: nat): (r: nat)
    requires n >= 1 && from + k >= 0
    ensures r < n
  {
    ModBounds(from + k, n);
    (from + k) % n
  }

  /** Writing the next slot overwrites no entry that is still queued. */
  lemma SlotsPut<T>(ring: seq<T>, from: nat, q: seq<T>, x: T)
    requires Slots(ring, from, q) && |q| < |ring|
    ensures Slots(ring[SlotAt(from, |q|, |ring|) := x], from, q + [x])
  {
    var n := |ring|;
    forall k | 0 <= k < |q| ensures SlotAt(from, k, n) != SlotAt(from, |q|, n) {
      SlotsDiffer(from + k, from + |q|, n);
    }
    hide SlotAt;
  }

  lemma SlotsTake<T>(ring: seq<T>, from: nat, q: seq<T>)
    requires Slots(ring, from, q) && q != []
    ensures ring[SlotAt(from, 0, |ring|)] == q[0] && Slots(ring, from + 1, q[1..])
  {
    var r := q[1..];
    forall k | 0 <= k < |r| ensures ring[SlotAt(from + 1, k, |ring|)] == r[k] {
      assert SlotAt(from + 1, k, |ring|) == SlotAt(from, k + 1, |ring|);
      assert r[k] == q[k + 1];
    }
  }

  /** The slots between the device's and the driver's position hold the heads on offer. */
  ghost predicate WaitingOk(s: System)
    requires s.ring.Shaped()
  {
    && Distinct(s.waiting)
    && Slots(s.ring.avail, s.fetched, s.waiting)
  }

  ghost predicate BackOk(s: System)
    requires s.ring.Shaped()
  {
    && (forall i, j :: 0 <= i < j < |s.back| ==> s.back[i].id != s.back[j].id)
    && Slots(s.ring.used, s.got, s.back)
  }

  /** The first num_free links from free_head visit distinct descriptors, exactly those without data. */
  ghost predicate FreeOk(r: Ring, free: seq<nat>)
    requires r.Shaped()
  {
    && Distinct(free)
    && (forall i :: 0 <= i < |free| ==> free[i] < r.num)
    && (forall h :: h in free <==> 0 <= h < r.num && r.data[h] == None)
    && (free != [] ==> r.freeHead == free[0])
    && (forall i :: 0 <= i < |free| - 1 ==> r.desc[free[i]].next == free[i + 1])
  }

  /** An in-flight head carries the buffer and length it was added with, in a single descriptor without flags:
      no next one, readable by the device, not indirect. */
  ghost predicate Held(s: System, h: nat)
    requires s.ring.Shaped()
  {
    && h < s.ring.num && h in s.bufs
    && s.ring.data[h] == Some(s.bufs[h].0)
    && s.ring.desc[h].addr == s.bufs[h].0 && s.ring.desc[h].len == s.bufs[h].1 && s.ring.desc[h].flags == 0
  }

  ghost predicate InBack(s: System, h: nat) {
    exists k :: 0 <= k < |s.back| && s.back[k].id == h
  }

  ghost predicate HeldOk(s: System)
    requires s.ring.Shaped()
  {
    && (forall h :: h in s.waiting ==> Held(s, h) && h !in s.device && !InBack(s, h))
    && (forall h :: h in s.device ==> Held(s, h) && !InBack(s, h))
    && (forall k :: 0 <= k < |s.back| ==> Held(s, s.back[k].id))
  }

  /** The heads on offer carry the buffers that were added last, in the order they were added. */
  ghost predicate LogOk(s: System) {
    && |s.log| == s.added && s.added == s.fetched + |s.waiting|
    && forall k :: 0 <= k < |s.waiting| ==> s.waiting[k] in s.bufs && s.bufs[s.waiting[k]] == s.log[s.fetched + k]
  }

  ghost predicate Inv(s: System) {
    Counts(s) && WaitingOk(s) && BackOk(s) && FreeOk(s.ring, s.free) && HeldOk(s) && LogOk(s)
  }

  // ----- Steps -----

  datatype Step = Add(buf: nat, len: nat) | Fetch | Complete(head: nat, written: nat) | Get

  ghost predicate Enabled(s: System, a: Step) {
    && s.ring.Shaped()
    && match a
       case Add(buf, len) => buf != 0 && len != 0 && (s.ring.numFree > 0 ==> s.ring.freeHead < s.ring.num)
       case Fetch => s.ring.availIdx != s.fetched % IDX
       case Complete(h, _) => h in s.device
       case Get =>
         && s.back != [] && Chain(s.ring, [s.back[0].id])
         && s.back[0] == s.ring.used[SlotBound(s.ring.lastUsed, s.ring.num)]
  }

  ghost function Apply(s: System, a: Step): (s': System)
    requires Enabled(s, a)
  {
    match a
    case Add(buf, len) =>
      var r := AddOutbuf(s.ring, buf, len);
      if !r.1 then s
      else s.(ring := r.0, waiting := s.waiting + [s.ring.freeHead], added := s.added + 1,
              free := if s.free == [] then [] else s.free[1..], bufs := s.bufs[s.ring.freeHead := (buf, len)],
              log := s.log + [(buf, len)])
    case Fetch =>
      var h := s.ring.avail[SlotAt(s.fetched, 0, s.ring.num)];
      s.(device := s.device + {h}, fetched := s.fetched + 1, waiting := if s.waiting == [] then [] else s.waiting[1..])
    case Complete(h, w) =>
      var u := Used(h, w);
      s.(ring := s.ring.(used := s.ring.used[SlotAt(s.returned, 0, s.ring.num) := u]), device := s.device - {h},
         back := s.back + [u], returned := s.returned + 1)
    case Get =>
      var h := s.back[0].id;
      s.(ring := GetBuf(s.ring, [h]).0, back := s.back[1..], got := s.got + 1, free := [h] + s.free)
  }

  // ----- Add -----

  lemma AddKeeps(s: System, buf: nat, len: nat)
    requires Inv(s) && Enabled(s, Add(buf, len)) && s.ring.numFree > 0
    ensures Inv(Apply(s, Add(buf, len)))
  {
    hide WaitingOk, BackOk, HeldOk, LogOk, IsPowerOf2;
    var s' := Apply(s, Add(buf, len));
    var h := s.free[0];
    assert h in s.free;
    SlotIsRemainder(s.added, s.ring.num);
    AddWaiting(s, buf, len);
    AddFree(s, buf, len);
    AddHeld(s, buf, len);
    AddLog(s, buf, len);
    AddCount(s.added);
  }

  lemma AddLog(s: System, buf: nat, len: nat)
    requires Inv(s) && Enabled(s, Add(buf, len)) && s.ring.numFree > 0
    ensures LogOk(Apply(s, Add(buf, len)))
  {
    hide IsPowerOf2, Slot, WaitingOk, BackOk, FreeOk, Held;
    FreeHead(s);
    var s' := Apply(s, Add(buf, len));
    forall k | 0 <= k < |s.waiting| ensures s'.waiting[k] == s.waiting[k] && s.waiting[k] != s.ring.freeHead {
      assert s.waiting[k] in s.waiting;
    }
  }

  lemma AddCount(n: nat)
    ensures (n % IDX + 1) % IDX == (n + 1) % IDX
  {
  }

  lemma AddWaiting(s: System, buf: nat, len: nat)
    requires Inv(s) && Enabled(s, Add(buf, len)) && s.ring.numFree > 0
    ensures WaitingOk(Apply(s, Add(buf, len))) && BackOk(Apply(s, Add(buf, len)))
  {
    hide Held, IsPowerOf2, Slot, Slots, FreeOk;
    SlotIsRemainder(s.added, s.ring.num);
    FreeHead(s);
    SlotsPut(s.ring.avail, s.fetched, s.waiting, s.ring.freeHead);
  }

  lemma FreeHead(s: System)
    requires Inv(s) && s.ring.numFree > 0
    ensures s.ring.freeHead in s.free && s.ring.freeHead !in s.waiting
  {
    assert s.free[0] in s.free;
    NotHeld(s, s.free[0]);
  }

  /** A free descriptor is not in flight. */
  lemma NotHeld(s: System, h: nat)
    requires Inv(s) && h in s.free
    ensures h !in s.waiting && h !in s.device && !InBack(s, h)
  {
    assert !Held(s, h);
  }

  lemma AddFree(s: System, buf: nat, len: nat)
    requires Inv(s) && Enabled(s, Add(buf, len)) && s.ring.numFree > 0
    ensures FreeOk(Apply(s, Add(buf, len)).ring, s.free[1..])
  {
    hide Held, IsPowerOf2, Slot, WaitingOk, BackOk;
    var r := Apply(s, Add(buf, len)).ring;
    var h, f := s.free[0], s.free[1..];
    assert h in s.free;
    forall x ensures x in f <==> 0 <= x < r.num && r.data[x] == None {
      assert x in s.free <==> x == h || x in f;
      assert h !in f;
    }
    forall i | 0 <= i < |f| - 1 ensures r.desc[f[i]].next == f[i + 1] {
      assert f[i] == s.free[i + 1] && f[i + 1] == s.free[i + 2];
      assert s.free[i + 1] in s.free;
    }
  }

  lemma AddHeld(s: System, buf: nat, len: nat)
    requires Inv(s) && Enabled(s, Add(buf, len)) && s.ring.numFree > 0
    ensures HeldOk(Apply(s, Add(buf, len)))
  {
    hide IsPowerOf2, Slot, WaitingOk, BackOk;
    var s' := Apply(s, Add(buf, len));
    var h := s.free[0];
    assert h in s.free;
    NotHeld(s, h);
    forall x: nat | Held(s, x) && x != h ensures Held(s', x) {
    }
    forall x: nat ensures InBack(s', x) == InBack(s, x) {
    }
    assert Held(s', h);
    forall k | 0 <= k < |s.back| ensures s.back[k].id != h {
      assert InBack(s, s.back[k].id);
    }
  }

  // ----- Fetch -----

  /** The device sees a difference between the indices exactly when a head is on offer. */
  lemma FetchGuard(s: System)
    requires Inv(s)
    ensures s.ring.availIdx != s.fetched % IDX <==> s.waiting != []
  {
    if s.waiting != [] {
      SlotsDiffer(s.fetched, s.added, IDX);
    }
  }

  lemma FetchKeeps(s: System)
    requires Inv(s) && Enabled(s, Fetch)
    ensures Inv(Apply(s, Fetch))
  {
    hide Held, Slots, IsPowerOf2;
    FetchGuard(s);
    SlotsTake(s.ring.avail, s.fetched, s.waiting);
    var s' := Apply(s, Fetch);
    var h := s.waiting[0];
    assert h in s.waiting;
    SameRingHeld(s, s');
    forall x ensures x in s.waiting <==> x == h || x in s'.waiting {
      assert s.waiting == [h] + s'.waiting;
    }
    assert h !in s'.waiting;
    forall x: nat ensures InBack(s', x) == InBack(s, x) {
    }
  }

  lemma SameRingHeld(s: System, s': System)
    requires s.ring.Shaped() && s'.ring.Shaped() && s'.bufs == s.bufs && s'.ring.num == s.ring.num
    requires s'.ring.desc == s.ring.desc && s'.ring.data == s.ring.data
    ensures forall x: nat :: Held(s', x) == Held(s, x)
  {
  }

  // ----- Complete -----

  lemma CompleteKeeps(s: System, h: nat, w: nat)
    requires Inv(s) && Enabled(s, Complete(h, w))
    ensures Inv(Apply(s, Complete(h, w)))
  {
    hide Held, Slots, IsPowerOf2;
    var s' := Apply(s, Complete(h, w));
    assert s.device != {} && |s.back| < s.ring.num;
    assert s.returned == s.got + |s.back|;
    SlotsPut(s.ring.used, s.got, s.back, Used(h, w));
    assert SlotAt(s.returned, 0, s.ring.num) == SlotAt(s.got, |s.back|, s.ring.num);
    SameRingHeld(s, s');
    forall x: nat ensures InBack(s', x) == (InBack(s, x) || x == h) {
      if InBack(s, x) {
        var k :| 0 <= k < |s.back| && s.back[k].id == x;
        assert s'.back[k].id == x;
      }
      assert s'.back[|s.back|].id == h;
    }
    forall k | 0 <= k < |s.back| ensures s.back[k].id != h {
      assert InBack(s, s.back[k].id);
    }
  }

  // ----- Get -----

  /** The driver finds the oldest uncollected used entry, a single descriptor. */
  lemma GetGuard(s: System)
    requires Inv(s) && s.back != []
    ensures Enabled(s, Get)
  {
    hide IsPowerOf2, Slot;
    SlotIsRemainder(s.got, s.ring.num);
    SlotsTake(s.ring.used, s.got, s.back);
    assert Held(s, s.back[0].id);
  }

  /** virtqueue_get_buf returns the buffer that was added under the returned head, and the device's length. */
  lemma GetReturnsAdded(s: System)
    requires Inv(s) && s.back != []
    ensures Enabled(s, Get) && s.back[0].id in s.bufs
    ensures GetBuf(s.ring, [s.back[0].id]).1 == Some(s.bufs[s.back[0].id].0)
    ensures GetBuf(s.ring, [s.back[0].id]).2 == s.back[0].len
  {
    GetGuard(s);
    assert Held(s, s.back[0].id);
  }

  lemma GetKeeps(s: System)
    requires Inv(s) && Enabled(s, Get)
    ensures Inv(Apply(s, Get))
  {
    hide Slots, IsPowerOf2, Slot, HasNext;
    var s' := Apply(s, Get);
    var h := s.back[0].id;
    SlotsTake(s.ring.used, s.got, s.back);
    AddCount(s.got);
    assert Held(s, h) && InBack(s, h);
    GetFree(s);
    GetHeld(s);
  }

  lemma GetFree(s: System)
    requires Inv(s) && Enabled(s, Get)
    ensures FreeOk(Apply(s, Get).ring, [s.back[0].id] + s.free)
  {
    hide Slots, IsPowerOf2, Slot, HasNext;
    var r := Apply(s, Get).ring;
    var h := s.back[0].id;
    var f := [h] + s.free;
    assert Held(s, h);
    assert h !in s.free;
    forall x ensures x in f <==> 0 <= x < r.num && r.data[x] == None {
      assert x in f <==> x == h || x in s.free;
    }
    forall i | 0 <= i < |f| - 1 ensures r.desc[f[i]].next == f[i + 1] {
      if i > 0 {
        assert f[i] == s.free[i - 1] && f[i + 1] == s.free[i];
        assert s.free[i - 1] in s.free;
      }
    }
  }

  lemma GetHeld(s: System)
    requires Inv(s) && Enabled(s, Get)
    ensures HeldOk(Apply(s, Get))
  {
    hide Slots, IsPowerOf2, Slot, HasNext;
    var s' := Apply(s, Get);
    var h := s.back[0].id;
    assert InBack(s, h);
    forall x: nat | Held(s, x) && x != h ensures Held(s', x) {
    }
    forall x: nat | InBack(s', x) ensures InBack(s, x) {
      var k :| 0 <= k < |s'.back| && s'.back[k].id == x;
      assert s.back[k + 1].id == x;
    }
    forall k | 0 <= k < |s'.back| ensures s'.back[k].id != h {
      assert s'.back[k] == s.back[k + 1];
    }
  }

  /** The driver may always try to add: the next free descriptor exists whenever num_free says so. */
  lemma AddGuard(s: System, buf: nat, len: nat)
    requires Inv(s) && buf != 0 && len != 0
    ensures Enabled(s, Add(buf, len))
  {
    if s.free != [] { assert s.free[0] in s.free; }
  }

  // ----- Runs -----

  lemma StepKeeps(s: System, a: Step)
    requires Inv(s) && Enabled(s, a)
    ensures Inv(Apply(s, a))
  {
    match a
    case Add(buf, len) => if s.ring.numFree > 0 { AddKeeps(s, buf, len); }
    case Fetch => FetchKeeps(s);
    case Complete(h, w) => CompleteKeeps(s, h, w);
    case Get => GetKeeps(s);
  }

  /** The state after vring_init_virtqueue: every descriptor is free, linked in order. */
  ghost predicate Started(s: System) {
    && (exists r: Ring :: r.Shaped() && r.availIdx == 0 && s.ring == Init(r))
    && s.waiting == [] && s.device == {} && s.back == [] && s.bufs == map[] && s.log == []
    && s.added == s.fetched == s.returned == s.got == 0
    && s.free == seq(s.ring.num, i => i)
  }

  lemma StartedOk(s: System)
    requires Started(s)
    ensures Inv(s)
  {
    hide IsPowerOf2;
    var r: Ring :| r.Shaped() && r.availIdx == 0 && s.ring == Init(r);
    forall h ensures h in s.free <==> 0 <= h < s.ring.num {
      if 0 <= h < s.ring.num { assert s.free[h] == h; }
    }
    forall i | 0 <= i < |s.free| - 1 ensures s.ring.desc[s.free[i]].next == s.free[i + 1] {
      assert s.free[i] == i && s.free[i + 1] == i + 1;
    }
  }

  ghost predicate Reached(steps: seq<Step>, s: System)
    decreases |steps|
  {
    if steps == [] then Started(s)
    else
      var n := |steps| - 1;
      exists r :: Reached(steps[..n], r) && Enabled(r, steps[n]) && s == Apply(r, steps[n])
  }

  /** Every run keeps the free list, the rings and the in-flight buffers consistent. */
  lemma {:induction false} RunsKeepInvariant(steps: seq<Step>, s: System)
    requires Reached(steps, s)
    ensures Inv(s)
    decreases |steps|
  {
    hide Inv, Started, Enabled, Apply;
    if steps == [] {
      StartedOk(s);
    } else {
      var n := |steps| - 1;
      var r :| Reached(steps[..n], r) && Enabled(r, steps[n]) && s == Apply(r, steps[n]);
      RunsKeepInvariant(steps[..n], r);
      StepKeeps(r, steps[n]);
    }
  }

  /** In every run: following num_free links from free_head visits exactly the descriptors without data,
      and free and in-flight descriptors add up to the queue size. */
  lemma FreePlusInFlight(steps: seq<Step>, s: System)
    requires Reached(steps, s)
    ensures s.ring.Shaped() && |s.free| == s.ring.numFree && FreeOk(s.ring, s.free)
    ensures s.ring.numFree + |s.waiting| + |s.device| + |s.back| == s.ring.num
  {
    RunsKeepInvariant(steps, s);
  }

  /** In every run: what the device fetches next is the buffer that was added in that turn, in one descriptor that
      the device may read and that leads nowhere else. */
  lemma DeviceFetchesAdded(steps: seq<Step>, s: System)
    requires Reached(steps, s) && Enabled(s, Fetch)
    ensures var h := s.ring.avail[SlotAt(s.fetched, 0, s.ring.num)];
      && s.fetched < |s.log| == s.added && h < s.ring.num
      && s.ring.desc[h].addr == s.log[s.fetched].0 && s.ring.desc[h].len == s.log[s.fetched].1
      && s.ring.desc[h].flags == 0
      && h in Apply(s, Fetch).device
  {
    hide Reached, IsPowerOf2, Slots;
    RunsKeepInvariant(steps, s);
    FetchGuard(s);
    SlotsTake(s.ring.avail, s.fetched, s.waiting);
    assert Held(s, s.waiting[0]);
  }

  /** In every run: what the device works on stays as it was fetched, until it is returned. */
  lemma DeviceBuffersStay(steps: seq<Step>, s: System, a: Step, h: nat)
    requires Reached(steps, s) && Enabled(s, a) && h in s.device
    requires forall w :: a != Complete(h, w)
    ensures Apply(s, a).ring.Shaped() && s.ring.Shaped() && h < s.ring.num == Apply(s, a).ring.num
    ensures h in Apply(s, a).device
    ensures var d, d' := s.ring.desc[h], Apply(s, a).ring.desc[h];
      d'.addr == d.addr && d'.len == d.len && d'.flags == d.flags == 0 && Apply(s, a).ring.data[h] == s.ring.data[h]
  {
    hide Reached, IsPowerOf2, Slots, Slot;
    RunsKeepInvariant(steps, s);
    assert Held(s, h);
    if a.Add? && s.ring.numFree > 0 {
      assert s.free[0] in s.free;
      NotHeld(s, s.free[0]);
    }
    if a.Get? { assert InBack(s, s.back[0].id); }
  }

  /** In every run: adding fails exactly when all descriptors are in flight. */
  lemma AddFailsWhenFull(steps: seq<Step>, s: System, buf: nat, len: nat)
    requires Reached(steps, s) && Enabled(s, Add(buf, len))
    ensures !AddOutbuf(s.ring, buf, len).1 <==> |s.waiting| + |s.device| + |s.back| == s.ring.num
    ensures !AddOutbuf(s.ring, buf, len).1 ==> Apply(s, Add(buf, len)) == s
    ensures AddOutbuf(s.ring, buf, len).1 ==> Apply(s, Add(buf, len)).log == s.log + [(buf, len)]
  {
    hide Reached, IsPowerOf2, Slots, Slot, Held, FreeOk;
    RunsKeepInvariant(steps, s);
  }

  /** In every run no step that ought to be possible is blocked: the driver may add any buffer, it can collect
      whatever the device has used, and the device sees new heads exactly when some are on offer. */
  lemma StepsNotBlocked(steps: seq<Step>, s: System, buf: nat, len: nat)
    requires Reached(steps, s) && buf != 0 && len != 0
    ensures Enabled(s, Add(buf, len))
    ensures s.back != [] ==> Enabled(s, Get)
    ensures Enabled(s, Fetch) <==> s.waiting != []
  {
    hide Reached, IsPowerOf2;
    RunsKeepInvariant(steps, s);
    AddGuard(s, buf, len);
    FetchGuard(s);
    if s.back != [] { GetGuard(s); }
  }
}
