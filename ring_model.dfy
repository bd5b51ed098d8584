/**
 * The state of a RingBuffer as a value: its storage slots, the next write
 * slot `front`, the oldest-element slot `back` and the element `count`.
 * Add and Remove are the single steps the class performs; the lemmas prove
 * that the live window of slots behaves as a BoundedQueue.
 */
module RingModel {
  import opened BoundedQueue

  datatype Ring = Ring(slots: seq<int>, front: nat, back: nat, count: nat)

  /** `k` reduced into `[0, cap)` for `k < 2 * cap`, without division. */
  function Wrap(k: nat, cap: nat): (r: nat)
    requires 0 < cap && k < 2 * cap
    ensures r < cap
  {
    if k < cap then k else k - cap
  }

  /** The `i`-th slot of `s` counting circularly from index `start`. */
  function Circular(s: seq<int>, start: nat, i: nat): int
    requires start < |s| && i < |s|
  {
    s[Wrap(start + i, |s|)]
  }

  /** Circular reading is reading modulo the capacity. */
  lemma CircularIsMod(s: seq<int>, start: nat, i: nat)
    requires start < |s| && i < |s|
    ensures Circular(s, start, i) == s[(start + i) % |s|]
  {
    WrapIsMod(start + i, |s|);
  }

  /** The index bookkeeping every reachable state satisfies. */
  predicate Inv(r: Ring)
  {
    0 < |r.slots| && r.front < |r.slots| && r.back < |r.slots| && r.count <= |r.slots|
    && r.front == Wrap(r.back + r.count, |r.slots|)
  }

  /** The front index is `count` slots past the back index, modulo capacity. */
  lemma FrontFollowsBack(r: Ring)
    requires Inv(r)
    ensures r.front == (r.back + r.count) % |r.slots|
    ensures r.count == 0 || r.count == |r.slots| <==> r.front == r.back
  {
    WrapIsMod(r.back + r.count, |r.slots|);
  }

  /** A freshly constructed buffer over storage `slots`, whose values are left as they were. */
  function Empty(slots: seq<int>): (r: Ring)
    requires 0 < |slots|
    ensures Inv(r) && Items(r) == [] && r.slots == slots
    ensures r.front == 0 && r.back == 0
  {
    Ring(slots, 0, 0, 0)
  }

  /** AdvanceIndex: one step forward, wrapping from the last slot to slot 0. */
  function Next(ix: nat, cap: nat): (r: nat)
    requires ix < cap
    ensures r < cap
  {
    if ix + 1 >= cap then 0 else ix + 1
  }

  /** Advancing an index is adding one modulo the capacity, so it never leaves `[0, cap)`. */
  lemma NextIsMod(ix: nat, cap: nat)
    requires ix < cap
    ensures Next(ix, cap) == (ix + 1) % cap
  {
    if ix + 1 == cap {
      ModUnique(ix + 1, 1, 0, cap);
    }
  }

  /** The logical contents: the `count` slots starting at `back`, read circularly. */
  function Items(r: Ring): (q: seq<int>)
    requires Inv(r)
    ensures |q| == r.count
    ensures forall i :: 0 <= i < r.count ==> q[i] == Circular(r.slots, r.back, i)
  {
    seq(r.count, i requires 0 <= i < r.count => Circular(r.slots, r.back, i))
  }

  /** The contents are the `count` slots starting at `back`, read modulo the capacity. */
  lemma ItemsCircular(r: Ring)
    requires Inv(r)
    ensures forall i :: 0 <= i < r.count ==> Items(r)[i] == r.slots[(r.back + i) % |r.slots|]
  {
    forall i | 0 <= i < r.count ensures Items(r)[i] == r.slots[(r.back + i) % |r.slots|] {
      CircularIsMod(r.slots, r.back, i);
    }
  }

  /**
   * Add `val`: it goes into the front slot, front advances; a full buffer
   * also advances back, evicting its oldest element. The flag is true when
   * nothing was evicted.
   */
  function Add(r: Ring, val: int): (res: (Ring, bool))
    requires Inv(r)
    ensures Inv(res.0) && |res.0.slots| == |r.slots|
    ensures res.1 <==> r.count < |r.slots|
    ensures res.0.slots == r.slots[r.front := val]
    ensures res.0.front == Next(r.front, |r.slots|)
    ensures res.1 ==> res.0.back == r.back && res.0.count == r.count + 1
    ensures !res.1 ==> res.0.back == res.0.front && res.0.count == |r.slots|
  {
    var cap := |r.slots|;
    var full := r.count == cap;
    (Ring(r.slots[r.front := val], Next(r.front, cap),
          if full then Next(r.back, cap) else r.back,
          if full then r.count else r.count + 1),
     !full)
  }

  /**
   * Remove: a non-empty buffer hands out the value at back, clears that slot
   * to 0 and advances back; an empty one reports false with a 0 value and
   * stays as it was.
   */
  function Remove(r: Ring): (res: (Ring, bool, int))
    requires Inv(r)
    ensures Inv(res.0) && |res.0.slots| == |r.slots|
    ensures res.1 <==> r.count > 0
    ensures res.1 ==> res.2 == r.slots[r.back] && res.0.slots == r.slots[r.back := 0]
    ensures res.1 ==> res.0.back == Next(r.back, |r.slots|) && res.0.count == r.count - 1
    ensures res.0.front == r.front
    ensures !res.1 ==> res.0 == r && res.2 == 0
  {
    if r.count > 0 then
      (Ring(r.slots[r.back := 0], r.front, Next(r.back, |r.slots|), r.count - 1), true, r.slots[r.back])
    else
      (r, false, 0)
  }

  /** Arithmetic facts on `%` the solver does not find by itself. */
  lemma ModUnique(k: int, q: int, m: int, cap: int)
    requires 0 < cap && 0 <= m < cap && k == q * cap + m
    ensures k % cap == m
  {
    var q', m' := k / cap, k % cap;
    assert k == q' * cap + m';
    assert (q - q') * cap == m' - m;
    if q - q' >= 1 {
      MulAtLeast(q - q', cap);
    } else if q' - q >= 1 {
      MulAtLeast(q' - q, cap);
    }
  }

  lemma MulAtLeast(d: int, cap: int)
    requires 0 < cap && 1 <= d
    ensures d * cap >= cap
  {
  }

  lemma WrapIsMod(k: nat, cap: nat)
    requires 0 < cap && k < 2 * cap
    ensures Wrap(k, cap) == k % cap
  {
    if k >= cap {
      ModUnique(k, 1, k - cap, cap);
    }
  }

  /** One more step after reducing modulo `cap` lands where the unreduced step does. */
  lemma ModStep(k: nat, cap: nat)
    requires 0 < cap
    ensures (k % cap + 1) % cap == (k + 1) % cap
  {
    var q, m := k / cap, k % cap;
    assert k == q * cap + m;
    if m + 1 < cap {
      ModUnique(k + 1, q, m + 1, cap);
    } else {
      assert (q + 1) * cap == q * cap + cap;
      ModUnique(k + 1, q + 1, 0, cap);
      ModUnique(m + 1, 1, 0, cap);
    }
  }

  /** Add implements Push: the contents gain `val` at the tail, losing their head when full. */
  lemma AddPushes(r: Ring, val: int)
    requires Inv(r)
    ensures Items(Add(r, val).0) == Push(Items(r), |r.slots|, val)
  {
    if r.count < |r.slots| {
      AddAppends(r, val);
    } else {
      AddEvicts(r, val);
    }
  }

  lemma AddAppends(r: Ring, val: int)
    requires Inv(r) && r.count < |r.slots|
    ensures Items(Add(r, val).0) == Items(r) + [val]
  {
    var cap, r' := |r.slots|, Add(r, val).0;
    var q, q' := Items(r), Items(r');
    assert |q'| == |q| + 1;
    forall i | 0 <= i < |q'| ensures q'[i] == (q + [val])[i] {
      if i < r.count {
        assert Wrap(r.back + i, cap) != r.front;
      }
    }
  }

  lemma AddEvicts(r: Ring, val: int)
    requires Inv(r) && r.count == |r.slots|
    ensures Items(Add(r, val).0) == Items(r)[1..] + [val]
  {
    var cap, r' := |r.slots|, Add(r, val).0;
    var q, q' := Items(r), Items(r');
    assert |q'| == |q|;
    forall i | 0 <= i < |q'| ensures q'[i] == (q[1..] + [val])[i] {
      if i < cap - 1 {
        assert Wrap(r'.back + i, cap) == Wrap(r.back + i + 1, cap);
      }
    }
  }

  /** Remove implements a pop: it hands out the head and the contents lose it. */
  lemma RemovePops(r: Ring)
    requires Inv(r)
    ensures Remove(r).1 ==> Remove(r).2 == Items(r)[0] && Items(Remove(r).0) == Items(r)[1..]
    ensures !Remove(r).1 ==> Items(r) == [] && Items(Remove(r).0) == []
  {
    var cap, r' := |r.slots|, Remove(r).0;
    if r.count > 0 {
      var q, q' := Items(r), Items(r');
      assert |q'| == |q[1..]|;
      forall i | 0 <= i < |q'| ensures q'[i] == q[1..][i] {
        assert Wrap(r'.back + i, cap) == Wrap(r.back + i + 1, cap);
      }
    }
  }

  /** `xs` added one by one, first to last. */
  function AddAll(r: Ring, xs: seq<int>): (r': Ring)
    requires Inv(r)
    ensures Inv(r') && |r'.slots| == |r.slots|
    decreases |xs|
  {
    if xs == [] then r else Add(AddAll(r, xs[..|xs| - 1]), xs[|xs| - 1]).0
  }

  /**
   * After `n` adds, front has moved `n` slots, the count is `min(count + n, capacity)`,
   * and the contents are those of the bounded queue that saw the same values.
   */
  lemma AddAllSpec(r: Ring, xs: seq<int>)
    requires Inv(r)
    ensures var r' := AddAll(r, xs);
      && Items(r') == PushAll(Items(r), |r.slots|, xs)
      && r'.front == (r.front + |xs|) % |r.slots|
      && r'.count == if r.count + |xs| <= |r.slots| then r.count + |xs| else |r.slots|
  {
    AddAllItems(r, xs);
    AddAllIndices(r, xs);
  }

  lemma {:induction false} AddAllItems(r: Ring, xs: seq<int>)
    requires Inv(r)
    ensures Items(AddAll(r, xs)) == PushAll(Items(r), |r.slots|, xs)
    decreases |xs|
  {
    if xs != [] {
      var init, x := xs[..|xs| - 1], xs[|xs| - 1];
      AddAllItems(r, init);
      AddPushes(AddAll(r, init), x);
    }
  }

  lemma {:induction false} AddAllIndices(r: Ring, xs: seq<int>)
    requires Inv(r)
    ensures var r' := AddAll(r, xs);
      && r'.front == (r.front + |xs|) % |r.slots|
      && r'.count == if r.count + |xs| <= |r.slots| then r.count + |xs| else |r.slots|
    decreases |xs|
  {
    var cap := |r.slots|;
    if xs != [] {
      var init := xs[..|xs| - 1];
      AddAllIndices(r, init);
      NextIsMod(AddAll(r, init).front, cap);
      ModStep(r.front + |init|, cap);
    } else {
      assert r.front % cap == r.front;
    }
  }

  /** The values `1, 2, ..., n`. */
  function UpTo(n: nat): (s: seq<int>)
    ensures |s| == n && forall k :: 0 <= k < n ==> s[k] == k + 1
  {
    seq(n, k requires 0 <= k < n => k + 1)
  }

  /** One more step of the fold that PopulateAll performs. */
  lemma AddAllUpToStep(r: Ring, i: nat)
    requires Inv(r) && 0 < i
    ensures AddAll(r, UpTo(i)) == Add(AddAll(r, UpTo(i - 1)), i).0
  {
    assert UpTo(i)[..i - 1] == UpTo(i - 1);
  }

  /**
   * PopulateAll: add `1, 2, ..., capacity`. Whatever the buffer held before,
   * it ends full of exactly those values, with front and back at the old front.
   */
  function PopulateAll(r: Ring): (r': Ring)
    requires Inv(r)
    ensures Inv(r') && |r'.slots| == |r.slots|
    ensures Items(r') == UpTo(|r.slots|)
    ensures r'.count == |r.slots| && r'.front == r.front && r'.back == r.front
  {
    FillsWholeBuffer(r, UpTo(|r.slots|));
    AddAll(r, UpTo(|r.slots|))
  }

  /** A capacity's worth of adds replaces the whole contents and brings front back to where it was. */
  lemma FillsWholeBuffer(r: Ring, xs: seq<int>)
    requires Inv(r) && |xs| == |r.slots|
    ensures var r' := AddAll(r, xs);
      Items(r') == xs && r'.count == |r.slots| && r'.front == r.front && r'.back == r.front
  {
    FillsWholeIndices(r, xs);
    FillsWholeItems(r, xs);
  }

  lemma FillsWholeIndices(r: Ring, xs: seq<int>)
    requires Inv(r) && |xs| == |r.slots|
    ensures var r' := AddAll(r, xs);
      r'.count == |r.slots| && r'.front == r.front && r'.back == r.front
  {
    var cap := |r.slots|;
    AddAllIndices(r, xs);
    ModUnique(r.front + cap, 1, r.front, cap);
  }

  lemma FillsWholeItems(r: Ring, xs: seq<int>)
    requires Inv(r) && |xs| == |r.slots|
    ensures Items(AddAll(r, xs)) == xs
  {
    var cap := |r.slots|;
    calc {
      Items(AddAll(r, xs));
      { AddAllItems(r, xs); }
      PushAll(Items(r), cap, xs);
      { PushAllKeepsNewest(Items(r), cap, xs); }
      Last(Items(r) + xs, cap);
      { LastOfAppend(Items(r), xs); }
      xs;
    }
  }

  /**
   * Starting from any empty buffer, adding at least a capacity's worth of
   * values leaves it full, with front and back both `|xs|` slots further on
   * and the contents the newest `capacity` values.
   */
  lemma FillFromEmpty(r: Ring, xs: seq<int>)
    requires Inv(r) && r.count == 0 && |r.slots| <= |xs|
    ensures var r' := AddAll(r, xs); var cap := |r.slots|;
      && r'.count == cap
      && r'.front == (r.front + |xs|) % cap && r'.back == r'.front
      && Items(r') == xs[|xs| - cap..]
  {
    AddAllIndices(r, xs);
    FrontFollowsBack(AddAll(r, xs));
    FromEmptyItems(r, xs);
  }

  /** Whatever is added to an empty buffer, it holds the newest `capacity` of those values. */
  lemma FromEmptyItems(r: Ring, xs: seq<int>)
    requires Inv(r) && r.count == 0
    ensures Items(AddAll(r, xs)) == Last(xs, |r.slots|)
  {
    var cap := |r.slots|;
    var e: seq<int> := [];
    calc {
      Items(AddAll(r, xs));
      { AddAllItems(r, xs); }
      PushAll(Items(r), cap, xs);
      { assert Items(r) == e; }
      PushAll(e, cap, xs);
      { PushAllKeepsNewest(e, cap, xs); }
      Last(e + xs, cap);
      { assert e + xs == xs; }
      Last(xs, cap);
    }
  }

  /** The slots of a full buffer are its contents rotated so that the oldest sits at `back`. */
  lemma FullIsRotation(r: Ring)
    requires Inv(r) && r.count == |r.slots|
    ensures r.slots == Items(r)[|r.slots| - r.back..] + Items(r)[..|r.slots| - r.back]
  {
    var cap, q := |r.slots|, Items(r);
    var rot := q[cap - r.back..] + q[..cap - r.back];
    assert |rot| == cap;
    forall j | 0 <= j < cap ensures r.slots[j] == rot[j] {
      if j < r.back {
        assert rot[j] == q[j + cap - r.back];
        assert Wrap(r.back + (j + cap - r.back), cap) == j;
      } else {
        assert rot[j] == q[j - r.back];
        assert Wrap(r.back + (j - r.back), cap) == j;
      }
    }
  }

  /**
   * Up to `n` removals, first to last: the ring afterwards and the values
   * the successful removals handed out.
   */
  function Drain(r: Ring, n: nat): (res: (Ring, seq<int>))
    requires Inv(r)
    ensures Inv(res.0) && |res.0.slots| == |r.slots|
  {
    if n == 0 then (r, [])
    else
      var prev := Drain(r, n - 1);
      var step := Remove(prev.0);
      (step.0, if step.1 then prev.1 + [step.2] else prev.1)
  }

  function Min(a: nat, b: nat): nat
  {
    if a <= b then a else b
  }

  /**
   * `n` removals take `m = min(n, count)` elements: front never moves, count
   * drops by `m` and back moves `m` slots on, wrapping past the last slot.
   */
  lemma {:induction false} DrainIndices(r: Ring, n: nat)
    requires Inv(r)
    ensures var r' := Drain(r, n).0;
      && r'.front == r.front && r'.count == r.count - Min(n, r.count)
      && r'.back == Wrap(r.back + Min(n, r.count), |r.slots|)
  {
    if n > 0 {
      DrainIndices(r, n - 1);
    }
  }

  /** The `m = min(n, count)` elements taken are the oldest `m`, in FIFO order; the rest stay. */
  lemma {:induction false} DrainOut(r: Ring, n: nat)
    requires Inv(r)
    ensures Drain(r, n).1 == Items(r)[..Min(n, r.count)]
    ensures Items(Drain(r, n).0) == Items(r)[Min(n, r.count)..]
  {
    if n > 0 {
      DrainOut(r, n - 1);
      var prev := Drain(r, n - 1);
      var step := Remove(prev.0);
      assert Drain(r, n) == (step.0, if step.1 then prev.1 + [step.2] else prev.1);
      var m := Min(n - 1, r.count);
      RemovePops(prev.0);
      if m < r.count {
        var q := Items(r);
        assert Items(prev.0) == q[m..];
        assert step.1 && step.2 == q[m];
        SliceStep(q, m);
        assert Min(n, r.count) == m + 1;
        assert Drain(r, n).1 == q[..m] + [q[m]];
        assert Items(Drain(r, n).0) == q[m..][1..];
      } else {
        assert !step.1 && Min(n, r.count) == m;
      }
    }
  }

  /** Clearing the slot `m` places past `start` changes that slot only. */
  lemma ClearOne(s: seq<int>, start: nat, m: nat, i: nat)
    requires start < |s| && m < |s| && i < |s|
    ensures Circular(s[Wrap(start + m, |s|) := 0], start, i)
      == if i == m then 0 else Circular(s, start, i)
  {
  }

  /** The `m = min(n, count)` vacated slots read 0; every other slot keeps its value. */
  lemma {:induction false} DrainSlots(r: Ring, n: nat)
    requires Inv(r)
    ensures forall i :: 0 <= i < |r.slots| ==>
      Circular(Drain(r, n).0.slots, r.back, i)
        == if i < Min(n, r.count) then 0 else Circular(r.slots, r.back, i)
  {
    if n > 0 {
      DrainSlots(r, n - 1);
      var mid, m := Drain(r, n - 1).0.slots, Min(n - 1, r.count);
      if m < r.count {
        DrainClearsNext(r, n);
        forall i | 0 <= i < |r.slots| ensures
          Circular(Drain(r, n).0.slots, r.back, i) == if i < m + 1 then 0 else Circular(r.slots, r.back, i)
        {
          ClearOne(mid, r.back, m, i);
        }
      } else {
        DrainClearsNext(r, n);
      }
    }
  }

  /** The `n`-th removal clears the slot `n - 1` places past the original back, if any element is left. */
  lemma DrainClearsNext(r: Ring, n: nat)
    requires Inv(r) && n > 0
    ensures var m := Min(n - 1, r.count);
      if m < r.count then
        && Min(n, r.count) == m + 1
        && Drain(r, n).0.slots == Drain(r, n - 1).0.slots[Wrap(r.back + m, |r.slots|) := 0]
      else
        Min(n, r.count) == m && Drain(r, n).0.slots == Drain(r, n - 1).0.slots
  {
    DrainIndices(r, n - 1);
    var prev := Drain(r, n - 1).0;
    var step := Remove(prev);
    assert Drain(r, n).0 == step.0;
    if Min(n - 1, r.count) < r.count {
      assert prev.count > 0 && prev.back == Wrap(r.back + Min(n - 1, r.count), |r.slots|);
    }
  }

  /** FIFO order: `n <= capacity` values added to an empty buffer come back out in the order they went in, leaving it empty. */
  lemma FifoRoundTrip(r: Ring, xs: seq<int>)
    requires Inv(r) && r.count == 0 && |xs| <= |r.slots|
    ensures var (r', out) := Drain(AddAll(r, xs), |xs|);
      out == xs && r'.count == 0 && r'.front == r'.back
  {
    var cap, full := |r.slots|, AddAll(r, xs);
    var e: seq<int> := [];
    calc {
      Items(full);
      { AddAllItems(r, xs); }
      PushAll(Items(r), cap, xs);
      { assert Items(r) == e; }
      PushAll(e, cap, xs);
      { PushAllFromEmpty(cap, xs); }
      xs;
    }
    AddAllIndices(r, xs);
    DrainIndices(full, |xs|);
    DrainOut(full, |xs|);
    assert Items(full)[..|xs|] == xs;
  }
}
