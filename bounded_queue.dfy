/**
 * The abstract view of a ring buffer: a FIFO queue of bounded length that,
 * when it is full, drops its oldest element to make room for a new one.
 * The ring buffer's array, indices and count are proved to implement this view.
 */
module BoundedQueue {

  /** The newest `k` elements of `s` (all of `s` when it has at most `k`). */
  function Last(s: seq<int>, k: nat): (r: seq<int>)
    ensures |r| == if |s| <= k then |s| else k
    ensures forall i :: 0 <= i < |r| ==> r[i] == s[|s| - |r| + i]
  {
    if |s| <= k then s else s[|s| - k..]
  }

  /**
   * Append `x` to the queue `q` of capacity `cap`; a full queue first loses
   * its head. Stated against `Last`: the queue keeps the newest `cap` values.
   */
  function Push(q: seq<int>, cap: nat, x: int): (r: seq<int>)
    requires 0 < cap && |q| <= cap
    ensures r == Last(q + [x], cap)
    ensures |r| <= cap && r[|r| - 1] == x
    ensures |q| < cap ==> r[..|q|] == q
    ensures |q| == cap ==> r[..cap - 1] == q[1..]
  {
    if |q| < cap then q + [x] else q[1..] + [x]
  }

  /** Push every element of `xs`, first to last. */
  function PushAll(q: seq<int>, cap: nat, xs: seq<int>): (r: seq<int>)
    requires 0 < cap && |q| <= cap
    ensures |r| <= cap
    decreases |xs|
  {
    if xs == [] then q
    else Push(PushAll(q, cap, xs[..|xs| - 1]), cap, xs[|xs| - 1])
  }

  /** Keeping the newest `k` twice is keeping the newest `k` once. */
  lemma LastOfLast(s: seq<int>, t: seq<int>, k: nat)
    ensures Last(Last(s, k) + t, k) == Last(s + t, k)
  {
    var a, b := Last(Last(s, k) + t, k), Last(s + t, k);
    assert |a| == |b|;
    forall i | 0 <= i < |a| ensures a[i] == b[i] {
      var u := Last(s, k) + t;
      if |u| - |a| + i >= |Last(s, k)| {
        assert a[i] == t[|u| - |a| + i - |Last(s, k)|];
      } else {
        assert a[i] == Last(s, k)[|u| - |a| + i];
      }
    }
  }

  /**
   * After any number of pushes, the queue holds exactly the newest `cap` of
   * all the values it has ever seen, oldest first.
   */
  lemma {:induction false} PushAllKeepsNewest(q: seq<int>, cap: nat, xs: seq<int>)
    requires 0 < cap && |q| <= cap
    ensures PushAll(q, cap, xs) == Last(q + xs, cap)
    decreases |xs|
  {
    if xs != [] {
      var init, x := xs[..|xs| - 1], xs[|xs| - 1];
      calc {
        PushAll(q, cap, xs);
        Push(PushAll(q, cap, init), cap, x);
        { PushAllKeepsNewest(q, cap, init); }
        Push(Last(q + init, cap), cap, x);
        Last(Last(q + init, cap) + [x], cap);
        { LastOfLast(q + init, [x], cap); }
        Last((q + init) + [x], cap);
        { assert (q + init) + [x] == q + xs; }
        Last(q + xs, cap);
      }
    } else {
      assert q + xs == q;
    }
  }

  /** FIFO: at most `cap` values pushed into an empty queue are all kept, in order. */
  lemma {:induction false} PushAllFromEmpty(cap: nat, xs: seq<int>)
    requires 0 < cap && |xs| <= cap
    ensures PushAll([], cap, xs) == xs
  {
    PushAllKeepsNewest([], cap, xs);
    assert [] + xs == xs;
  }

  /** Whatever came before, the newest `|xs|` values of `q + xs` are `xs`. */
  lemma LastOfAppend(q: seq<int>, xs: seq<int>)
    ensures Last(q + xs, |xs|) == xs
  {
    var s := q + xs;
    if |s| > |xs| {
      assert s[|s| - |xs|..] == xs;
    }
  }

  /** Taking one more element from the head of `q`. */
  lemma SliceStep(q: seq<int>, m: nat)
    requires m < |q|
    ensures q[..m + 1] == q[..m] + [q[m]] && q[m + 1..] == q[m..][1..]
  {
  }
}
