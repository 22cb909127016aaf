/** The fixed-capacity FIFO experience-replay buffer shared by both agents
    (class ReplayBuffer, identical in ddpg_sp/DDPG_class.py and
    sac_sp/SAC_class.py).  Five parallel arrays hold one transition per slot;
    `ptr` is the next slot to write and `size` the number of filled slots. */
module Replay {
  import opened Outcomes
  import opened Modular

  /** One environment step, as handed to `store(obs, act, rew, next_obs, done)`. */
  datatype Transition = Transition(obs: seq<real>, act: seq<real>, rew: real, nextObs: seq<real>, done: bool)

  /** What one slot of the five arrays holds; `done_buf` is a float array. */
  datatype Row = Row(obs: seq<real>, act: seq<real>, rew: real, nextObs: seq<real>, done: real)

  /** The five arrays gathered at a batch of indices (`sample_batch`'s dict). */
  datatype Batch = Batch(obs1: seq<seq<real>>, obs2: seq<seq<real>>, acts: seq<seq<real>>, rews: seq<real>, done: seq<real>)

  /** Sampling at least one index from a buffer that holds nothing: numpy's
      `randint(0, 0, size=b)` raises for `b > 0`. */
  datatype SampleError = EmptyBuffer

  function Min(a: int, b: int): int
  {
    if a <= b then a else b
  }

  /** Writing a bool into a float32 array stores 1.0 or 0.0. */
  function DoneValue(done: bool): (v: real)
    ensures v == 1.0 <==> done
    ensures v == 0.0 <==> !done
  {
    if done then 1.0 else 0.0
  }

  function RowOf(t: Transition): Row
  {
    Row(t.obs, t.act, t.rew, t.nextObs, DoneValue(t.done))
  }

  function Zeros(n: nat): (z: seq<real>)
    ensures |z| == n && forall k :: 0 <= k < n ==> z[k] == 0.0
  {
    seq(n, _ => 0.0)
  }

  /** The contents of a slot that `np.zeros` created and no store has touched. */
  function ZeroRow(obsDim: nat, actDim: nat): Row
  {
    Row(Zeros(obsDim), Zeros(actDim), 0.0, Zeros(obsDim), 0.0)
  }

  /** A transition whose vectors have the buffer's row widths. */
  predicate Fits(t: Transition, obsDim: nat, actDim: nat)
  {
    |t.obs| == obsDim && |t.nextObs| == obsDim && |t.act| == actDim
  }

  function BatchRow(b: Batch, k: nat): Row
    requires k < |b.obs1| && k < |b.obs2| && k < |b.acts| && k < |b.rews| && k < |b.done|
  {
    Row(b.obs1[k], b.acts[k], b.rews[k], b.obs2[k], b.done[k])
  }

  /** numpy fancy indexing `src[idxs]`. */
  function Gather<T>(src: seq<T>, idxs: seq<nat>): (r: seq<T>)
    requires forall k :: 0 <= k < |idxs| ==> idxs[k] < |src|
    ensures |r| == |idxs| && forall k :: 0 <= k < |idxs| ==> r[k] == src[idxs[k]]
  {
    seq(|idxs|, k requires 0 <= k < |idxs| => src[idxs[k]])
  }

  function RowsOf(ts: seq<Transition>): (rs: seq<Row>)
    ensures |rs| == |ts| && forall k :: 0 <= k < |ts| ==> rs[k] == RowOf(ts[k])
  {
    seq(|ts|, k requires 0 <= k < |ts| => RowOf(ts[k]))
  }

  /** The last `Min(|h|, m)` entries of `h`, as rows. */
  function Window(h: seq<Transition>, m: nat): seq<Row>
  {
    RowsOf(h[|h| - Min(|h|, m)..])
  }

  /** One more store appends to the window, dropping its head once it is full. */
  lemma WindowAfterStore(h: seq<Transition>, t: Transition, m: nat)
    requires 0 < m
    ensures Window(h + [t], m) ==
      if |h| < m then Window(h, m) + [RowOf(t)] else Window(h, m)[1..] + [RowOf(t)]
  {
    var h1 := h + [t];
    if |h| < m {
      assert h1[|h1| - Min(|h1|, m)..] == h + [t];
    } else {
      assert h1[|h1| - Min(|h1|, m)..] == h[|h| - m..][1..] + [t];
    }
  }

  /** `(ptr + 1) % max_size` for a cursor inside a buffer of capacity `m`:
      the next slot, wrapping to 0 after the last. */
  function NextSlot(p: nat, m: nat): (q: nat)
    requires p < m
    ensures q == if p + 1 == m then 0 else p + 1
  {
    if p + 1 == m then
      ModUnique(p + 1, m, 1, 0);
      (p + 1) % m
    else
      ModUnique(p + 1, m, 0, p + 1);
      (p + 1) % m
  }

  /** The insertion index (0-based count of earlier stores) of the transition
      that occupies slot `i` after `n` stores into a buffer of capacity `m`:
      the most recent insertion congruent to `i` modulo `m`, and therefore one
      of the last `m` insertions. */
  ghost function Owner(n: nat, m: nat, i: nat): (o: nat)
    requires 0 < m && i < m && i < n
    ensures o < n && Mod(o, m) == i
    ensures n - m <= o
    decreases n
  {
    if Mod(n - 1, m) == i then n - 1 else Owner(n - 1, m, i)
  }

  /** The slot contents after the stores `h` (oldest first) into a fresh
      buffer of capacity `m`: the zero rows of `np.zeros`, each store then
      overwriting slot `index % m`. */
  function Layout(h: seq<Transition>, m: nat, obsDim: nat, actDim: nat): (slots: seq<Row>)
    ensures |slots| == m
    decreases |h|
  {
    if h == [] || m == 0 then seq(m, _ => ZeroRow(obsDim, actDim))
    else
      var prev := Layout(h[..|h| - 1], m, obsDim, actDim);
      prev[Mod(|h| - 1, m) := RowOf(h[|h| - 1])]
  }

  /** One store overwrites exactly the slot its insertion index maps to. */
  lemma LayoutAfterStore(h: seq<Transition>, t: Transition, m: nat, obsDim: nat, actDim: nat)
    requires 0 < m
    ensures Layout(h + [t], m, obsDim, actDim) == Layout(h, m, obsDim, actDim)[Mod(|h|, m) := RowOf(t)]
  {
    assert (h + [t])[..|h|] == h;
  }

  /** Slot `i` holds the transition of its owner, or zeros if no store has
      reached it yet. */
  lemma {:induction false} LayoutSlot(h: seq<Transition>, m: nat, obsDim: nat, actDim: nat, i: nat)
    requires 0 < m && i < m
    ensures Layout(h, m, obsDim, actDim)[i] ==
      if i < |h| then RowOf(h[Owner(|h|, m, i)]) else ZeroRow(obsDim, actDim)
    decreases |h|
  {
    if h != [] {
      var n := |h| - 1;
      var prev := h[..n];
      var p := Mod(n, m);
      assert Layout(h, m, obsDim, actDim) == Layout(prev, m, obsDim, actDim)[p := RowOf(h[n])];
      LayoutSlot(prev, m, obsDim, actDim, i);
      if i == p {
        assert i < |h|;
        assert Owner(|h|, m, i) == n;
      } else {
        if i < n {
          assert Owner(|h|, m, i) == Owner(n, m, i);
          assert h[Owner(n, m, i)] == prev[Owner(n, m, i)];
        }
      }
    }
  }

  /** No insertion later than the owner of a slot maps to that slot. */
  lemma OwnerIsLatest(n: nat, m: nat, i: nat, j: int)
    requires 0 < m && i < m && i < n
    requires Owner(n, m, i) < j < n
    ensures Mod(j, m) != i
  {
    ModWindow(Owner(n, m, i), j, m);
  }

  /** Every one of the last `m` insertions still owns its slot. */
  lemma OwnerOfRecent(n: nat, m: nat, j: nat)
    requires 0 < m && n - m <= j < n
    ensures Mod(j, m) < n && Owner(n, m, Mod(j, m)) == j
  {
    var o := Owner(n, m, Mod(j, m));
    if o < j {
      ModWindow(o, j, m);
    } else if j < o {
      ModWindow(j, o, m);
    }
  }

  /** `n` slots read from slot `first` on, wrapping around. */
  function InOrder(slots: seq<Row>, first: nat, n: nat, m: nat): (r: seq<Row>)
    requires 0 < m && |slots| == m
    ensures |r| == n
  {
    seq(n, k requires 0 <= k < n => slots[Mod(first + k, m)])
  }

  /** Where the oldest surviving store sits after `n` stores into capacity
      `m`: slot 0 while filling, the next slot to overwrite once full. */
  function FirstSlot(n: nat, m: nat): (f: nat)
    requires 0 < m
    ensures f < m
  {
    if n < m then 0 else Mod(n, m)
  }

  /** Position `k` of the in-order view is the slot of insertion `n - Min(n, m) + k`. */
  lemma InOrderSlot(n: nat, m: nat, k: nat)
    requires 0 < m && k < Min(n, m)
    ensures Mod(FirstSlot(n, m) + k, m) == Mod(n - Min(n, m) + k, m)
  {
    if m <= n {
      ModOfSum(n, k, m);
      assert Mod(n + k, m) == Mod(n - m + k, m);
    }
  }

  /** The slot read at position `k` of the in-order view holds insertion `|h| - Min(|h|, m) + k`. */
  lemma InOrderHolds(h: seq<Transition>, m: nat, obsDim: nat, actDim: nat, k: nat)
    requires 0 < m && k < Min(|h|, m)
    ensures Layout(h, m, obsDim, actDim)[Mod(FirstSlot(|h|, m) + k, m)] == Window(h, m)[k]
  {
    InOrderSlot(|h|, m, k);
    RecentSlot(h, m, obsDim, actDim, |h| - Min(|h|, m) + k);
    WindowAt(h, m, k);
  }

  lemma WindowAt(h: seq<Transition>, m: nat, k: nat)
    requires k < Min(|h|, m)
    ensures Window(h, m)[k] == RowOf(h[|h| - Min(|h|, m) + k])
  {
  }

  /** Each of the last `m` stores still sits in its slot. */
  lemma RecentSlot(h: seq<Transition>, m: nat, obsDim: nat, actDim: nat, j: nat)
    requires 0 < m && |h| - m <= j < |h|
    ensures Layout(h, m, obsDim, actDim)[Mod(j, m)] == RowOf(h[j])
  {
    OwnerOfRecent(|h|, m, j);
    LayoutSlot(h, m, obsDim, actDim, Mod(j, m));
  }

  /** Two views agree when they agree position by position. */
  lemma InOrderEq(slots: seq<Row>, first: nat, n: nat, m: nat, w: seq<Row>)
    requires 0 < m && |slots| == m && |w| == n
    requires forall k :: 0 <= k < n ==> slots[Mod(first + k, m)] == w[k]
    ensures InOrder(slots, first, n, m) == w
  {
  }

  /** Read from the slot the next store would overwrite (slot 0 while the
      buffer is filling), the layout lists the last `m` stores in order. */
  lemma ContentsOfLayout(h: seq<Transition>, m: nat, obsDim: nat, actDim: nat)
    requires 0 < m
    ensures InOrder(Layout(h, m, obsDim, actDim), FirstSlot(|h|, m), Min(|h|, m), m) == Window(h, m)
  {
    forall k | 0 <= k < Min(|h|, m)
      ensures Layout(h, m, obsDim, actDim)[Mod(FirstSlot(|h|, m) + k, m)] == Window(h, m)[k]
    {
      InOrderHolds(h, m, obsDim, actDim, k);
    }
    InOrderEq(Layout(h, m, obsDim, actDim), FirstSlot(|h|, m), Min(|h|, m), m, Window(h, m));
  }

  /** Cursor, fill count and slot contents of a buffer of capacity `m` agree
      with the stores `h` made into it since construction. */
  ghost predicate Consistent(slots: seq<Row>, ptr: nat, size: nat, h: seq<Transition>, m: nat, obsDim: nat, actDim: nat)
  {
    && (m == 0 ==> h == [] && ptr == 0)
    && (m > 0 ==> ptr == Mod(|h|, m))
    && size == Min(|h|, m)
    && (forall j :: 0 <= j < |h| ==> Fits(h[j], obsDim, actDim))
    && slots == Layout(h, m, obsDim, actDim)
  }

  /** One `store` keeps the buffer consistent with its stores. */
  lemma StoreStep(slots: seq<Row>, ptr: nat, size: nat, h: seq<Transition>, m: nat, obsDim: nat, actDim: nat, t: Transition)
    requires Consistent(slots, ptr, size, h, m, obsDim, actDim) && 0 < m && Fits(t, obsDim, actDim)
    ensures ptr < m
    ensures Consistent(slots[ptr := RowOf(t)], NextSlot(ptr, m), Min(size + 1, m), h + [t], m, obsDim, actDim)
  {
    ModSucc(|h|, m);
    LayoutAfterStore(h, t, m, obsDim, actDim);
  }

  /** FIFO, on values: a consistent buffer read from its oldest slot on lists
      the last `size` stores in insertion order. */
  lemma ConsistentContents(slots: seq<Row>, ptr: nat, size: nat, h: seq<Transition>, m: nat, obsDim: nat, actDim: nat)
    requires Consistent(slots, ptr, size, h, m, obsDim, actDim) && 0 < m
    ensures |slots| == m
    ensures InOrder(slots, if size < m then 0 else ptr, size, m) == Window(h, m)
  {
    ContentsOfLayout(h, m, obsDim, actDim);
  }

  /** FIFO for one `store`: the in-order view gains the new row at its end,
      and loses its head when the buffer was already full. */
  lemma StoreAppends(slots: seq<Row>, ptr: nat, size: nat, h: seq<Transition>, m: nat, obsDim: nat, actDim: nat, t: Transition)
    requires Consistent(slots, ptr, size, h, m, obsDim, actDim) && 0 < m && Fits(t, obsDim, actDim)
    ensures ptr < m && |slots| == m
    ensures
      var size' := Min(size + 1, m);
      InOrder(slots[ptr := RowOf(t)], if size' < m then 0 else NextSlot(ptr, m), size', m)
      == if size < m then InOrder(slots, 0, size, m) + [RowOf(t)]
         else InOrder(slots, ptr, size, m)[1..] + [RowOf(t)]
  {
    ConsistentContents(slots, ptr, size, h, m, obsDim, actDim);
    StoreStep(slots, ptr, size, h, m, obsDim, actDim, t);
    ConsistentContents(slots[ptr := RowOf(t)], NextSlot(ptr, m), Min(size + 1, m), h + [t], m, obsDim, actDim);
    WindowAfterStore(h, t, m);
  }

  class ReplayBuffer {
    const obsDim: nat
    const actDim: nat
    const maxSize: nat
    const obs1Buf: array<seq<real>>
    const obs2Buf: array<seq<real>>
    const actsBuf: array<seq<real>>
    const rewsBuf: array<real>
    const doneBuf: array<real>
    var ptr: nat
    var size: nat

    /** Every transition ever stored, oldest first. */
    ghost var history: seq<Transition>
    ghost const Repr: set<object>

    /** Every array has `maxSize` rows. */
    ghost predicate Shaped()
    {
      obs1Buf.Length == maxSize && obs2Buf.Length == maxSize && actsBuf.Length == maxSize
      && rewsBuf.Length == maxSize && doneBuf.Length == maxSize
    }

    ghost function RowAt(i: nat): Row
      reads obs1Buf, obs2Buf, actsBuf, rewsBuf, doneBuf
      requires Shaped() && i < maxSize
    {
      Row(obs1Buf[i], actsBuf[i], rewsBuf[i], obs2Buf[i], doneBuf[i])
    }

    /** The five arrays read slot by slot. */
    ghost function Slots(): (slots: seq<Row>)
      reads obs1Buf, obs2Buf, actsBuf, rewsBuf, doneBuf
      requires Shaped()
      ensures |slots| == maxSize
    {
      seq(maxSize, i requires 0 <= i < maxSize && Shaped() reads obs1Buf, obs2Buf, actsBuf, rewsBuf, doneBuf => RowAt(i))
    }

    ghost predicate Valid()
      reads this, Repr
      ensures Valid() ==> this in Repr
    {
      && Repr == {this, obs1Buf, obs2Buf, actsBuf, rewsBuf, doneBuf}
      && obs1Buf != obs2Buf && obs1Buf != actsBuf && obs2Buf != actsBuf && rewsBuf != doneBuf
      && Shaped()
      && Consistent(Slots(), ptr, size, history, maxSize, obsDim, actDim)
    }

    /** The slot the next store overwrites once the buffer is full, and
        slot 0 before that: where the oldest surviving transition sits. */
    ghost function Oldest(): nat
      reads this
    {
      if size < maxSize then 0 else ptr
    }

    /** The filled slots read in insertion order, oldest first. */
    ghost function Contents(): (c: seq<Row>)
      reads this, obs1Buf, obs2Buf, actsBuf, rewsBuf, doneBuf
      requires Shaped()
      ensures |c| == if maxSize == 0 then 0 else size
    {
      if maxSize == 0 then [] else InOrder(Slots(), Oldest(), size, maxSize)
    }

    /** The insertion index of the transition held by filled slot `i`. */
    ghost function SlotOwner(i: nat): nat
      reads this, Repr
      requires Valid() && i < size
    {
      Owner(|history|, maxSize, i)
    }

    /** `__init__(obs_dim, act_dim, size)`: five zero-filled arrays of
        `capacity` rows, `ptr = size = 0`, `max_size = capacity`. */
    constructor (obsDim: nat, actDim: nat, capacity: nat)
      ensures Valid() && fresh(Repr)
      ensures this.obsDim == obsDim && this.actDim == actDim && maxSize == capacity
      ensures ptr == 0 && size == 0 && history == [] && Contents() == []
      ensures forall i :: 0 <= i < capacity ==> RowAt(i) == ZeroRow(obsDim, actDim)
    {
      this.obsDim, this.actDim, maxSize := obsDim, actDim, capacity;
      var o1 := new seq<real>[capacity](_ => Zeros(obsDim));
      var o2 := new seq<real>[capacity](_ => Zeros(obsDim));
      var ac := new seq<real>[capacity](_ => Zeros(actDim));
      var rw := new real[capacity](_ => 0.0);
      var dn := new real[capacity](_ => 0.0);
      obs1Buf, obs2Buf, actsBuf, rewsBuf, doneBuf := o1, o2, ac, rw, dn;
      ptr, size := 0, 0;
      history := [];
      Repr := {this, o1, o2, ac, rw, dn};
      new;
      assert forall i :: 0 <= i < capacity ==> RowAt(i) == ZeroRow(obsDim, actDim);
      assert Slots() == Layout([], capacity, obsDim, actDim);
    }

    /** Filled slot `i` holds the most recent transition whose insertion
        index is congruent to `i` modulo `max_size`, one of the last
        `max_size` stored. */
    lemma SlotIsLatest(i: nat)
      requires Valid() && i < size
      ensures SlotOwner(i) % maxSize == i
      ensures |history| - maxSize <= SlotOwner(i) < |history|
      ensures forall j :: SlotOwner(i) < j < |history| ==> j % maxSize != i
      ensures Slots()[i] == RowOf(history[SlotOwner(i)])
    {
      var o := SlotOwner(i);
      ModIsRemainder(o, maxSize);
      forall j | o < j < |history|
        ensures j % maxSize != i
      {
        OwnerIsLatest(|history|, maxSize, i, j);
        ModIsRemainder(j, maxSize);
      }
      LayoutSlot(history, maxSize, obsDim, actDim, i);
    }

    /** After `n` stores from empty, `ptr == n % max_size` and
        `size == min(n, max_size)`: both stay inside the arrays. */
    lemma CursorAfterStores()
      requires Valid() && maxSize > 0
      ensures ptr == |history| % maxSize && ptr < maxSize
      ensures size == Min(|history|, maxSize) && size <= maxSize
    {
      ModIsRemainder(|history|, maxSize);
    }

    /** FIFO: read from the oldest slot on, the buffer holds exactly the last
        `size` transitions stored, in insertion order. */
    lemma ContentsAreLatest()
      requires Valid()
      ensures Contents() == Window(history, maxSize)
    {
      if maxSize > 0 {
        ConsistentContents(Slots(), ptr, size, history, maxSize, obsDim, actDim);
      }
    }

    /** The five row writes of `store` at slot `p`. */
    method WriteSlot(p: nat, obs: seq<real>, act: seq<real>, rew: real, nextObs: seq<real>, done: bool)
      requires Valid() && p < maxSize
      modifies obs1Buf, obs2Buf, actsBuf, rewsBuf, doneBuf
      ensures Slots() == old(Slots())[p := RowOf(Transition(obs, act, rew, nextObs, done))]
    {
      obs1Buf[p] := obs;
      obs2Buf[p] := nextObs;
      actsBuf[p] := act;
      rewsBuf[p] := rew;
      doneBuf[p] := DoneValue(done);
    }

    /** `store`: writes the five fields at `ptr` and nothing else, advances
        `ptr` modulo `max_size` and saturates `size` at `max_size`. */
    method Store(obs: seq<real>, act: seq<real>, rew: real, nextObs: seq<real>, done: bool)
      requires Valid()
      requires maxSize > 0
      requires |obs| == obsDim && |nextObs| == obsDim && |act| == actDim
      modifies Repr
      ensures Valid()
      ensures history == old(history) + [Transition(obs, act, rew, nextObs, done)]
      ensures ptr == if old(ptr) + 1 == maxSize then 0 else old(ptr) + 1
      ensures size == Min(old(size) + 1, maxSize)
      ensures Slots() == old(Slots())[old(ptr) := RowOf(Transition(obs, act, rew, nextObs, done))]
    {
      ghost var t := Transition(obs, act, rew, nextObs, done);
      ghost var h0, slots0 := history, Slots();
      StoreStep(slots0, ptr, size, h0, maxSize, obsDim, actDim, t);
      var p := ptr;
      WriteSlot(p, obs, act, rew, nextObs, done);
      history := history + [t];
      size := Min(size + 1, maxSize);
      ptr := NextSlot(p, maxSize);
    }

    /** `sample_batch(batch_size)` with the drawn indices passed in: all five
        outputs gather the same slots, and each slot holds one of the last
        `size` transitions stored.  On an empty buffer `randint(0, 0, size=b)`
        raises for any `b > 0`; a zero-size draw returns an empty index array
        before the bounds are checked, so `sample_batch(0)` yields empty
        arrays. */
    method SampleBatch(idxs: seq<nat>, batchSize: nat := 32) returns (r: Result<Batch, SampleError>)
      requires Valid()
      requires |idxs| == batchSize
      requires size > 0 ==> forall k :: 0 <= k < batchSize ==> idxs[k] < size
      ensures r.Failure? <==> size == 0 && batchSize > 0
      ensures r.Success? ==>
        |r.value.obs1| == batchSize && |r.value.obs2| == batchSize && |r.value.acts| == batchSize
        && |r.value.rews| == batchSize && |r.value.done| == batchSize
      ensures r.Success? ==> forall k :: 0 <= k < batchSize ==> BatchRow(r.value, k) == Slots()[idxs[k]]
      ensures r.Success? ==> forall k :: 0 <= k < batchSize ==>
        |history| - size <= SlotOwner(idxs[k]) && BatchRow(r.value, k) == RowOf(history[SlotOwner(idxs[k])])
    {
      if size == 0 && batchSize > 0 {
        return Failure(EmptyBuffer);
      }
      r := Success(Batch(Gather(obs1Buf[..], idxs), Gather(obs2Buf[..], idxs), Gather(actsBuf[..], idxs),
                         Gather(rewsBuf[..], idxs), Gather(doneBuf[..], idxs)));
      forall k | 0 <= k < batchSize
        ensures BatchRow(r.value, k) == RowOf(history[SlotOwner(idxs[k])])
      {
        SlotIsLatest(idxs[k]);
      }
    }
  }
}
