/**
 * The unit-test scenarios of the ring buffer, as lemmas about the model.
 * Every scenario starts from the same fixture: a buffer of 10 slots, whatever
 * values its fresh storage happens to hold, filled by PopulateAll with 1..10.
 * Each lemma states the exact slots, indices and count the scenario ends in.
 */
module Scenarios {
  import opened BoundedQueue
  import opened RingModel
  import RingBuffers

  /** The fixture: a 10-slot buffer over storage `init`, populated with 1..10. */
  function Fixture(init: seq<int>): Ring
    requires |init| == 10
  {
    PopulateAll(Empty(init))
  }

  /** Remove with the value dropped, as the scenarios call it. */
  function Discard(r: Ring): Ring
    requires Inv(r)
  {
    Remove(r).0
  }

  lemma PopulationTen(init: seq<int>)
    requires |init| == 10
    ensures var r := Fixture(init);
      && Inv(r)
      && r.slots == [1, 2, 3, 4, 5, 6, 7, 8, 9, 10]
      && r.front == 0 && r.back == 0 && r.count == 10
  {
    var r := Fixture(init);
    FullIsRotation(r);
    assert r.back == 0 && Items(r) == UpTo(10);
    assert UpTo(10) == [1, 2, 3, 4, 5, 6, 7, 8, 9, 10];
    assert r.slots == Items(r);
  }

  lemma Wrap1(init: seq<int>)
    requires |init| == 10
    ensures var res := Add(Fixture(init), 11);
      && !res.1
      && res.0.slots == [11, 2, 3, 4, 5, 6, 7, 8, 9, 10]
      && res.0.front == 1 && res.0.back == 1 && res.0.count == 10
  {
    PopulationTen(init);
  }

  lemma Wrap2(init: seq<int>)
    requires |init| == 10
    ensures var r := Add(Add(Fixture(init), 11).0, 12).0;
      && r.slots == [11, 12, 3, 4, 5, 6, 7, 8, 9, 10]
      && r.front == 2 && r.back == 2 && r.count == 10
  {
    Wrap1(init);
  }

  lemma Remove1(init: seq<int>)
    requires |init| == 10
    ensures var r := Discard(Add(Add(Fixture(init), 11).0, 12).0);
      && r.slots == [11, 12, 0, 4, 5, 6, 7, 8, 9, 10]
      && r.front == 2 && r.back == 3 && r.count == 9
  {
    Wrap2(init);
  }

  lemma Remove2(init: seq<int>)
    requires |init| == 10
    ensures var r := Discard(Discard(Add(Add(Fixture(init), 11).0, 12).0));
      && r.slots == [11, 12, 0, 0, 5, 6, 7, 8, 9, 10]
      && r.front == 2 && r.back == 4 && r.count == 8
  {
    Remove1(init);
  }

  lemma FillRemoved(init: seq<int>)
    requires |init| == 10
    ensures var r := Add(Discard(Discard(Add(Add(Fixture(init), 11).0, 12).0)), 13).0;
      && r.slots == [11, 12, 13, 0, 5, 6, 7, 8, 9, 10]
      && r.front == 3 && r.back == 4 && r.count == 9
  {
    Remove2(init);
  }

  /** Nine removals from the full fixture leave only the newest value, 10, in the last slot. */
  lemma RemoveBeforeWrap(init: seq<int>)
    requires |init| == 10
    ensures var r := Drain(Fixture(init), 9).0;
      && r.slots == [0, 0, 0, 0, 0, 0, 0, 0, 0, 10]
      && r.front == 0 && r.back == 9 && r.count == 1
  {
    var r0 := Fixture(init);
    PopulationTen(init);
    DrainIndices(r0, 9);
    DrainSlots(r0, 9);
    var s := Drain(r0, 9).0.slots;
    forall j | 0 <= j < 10 ensures s[j] == [0, 0, 0, 0, 0, 0, 0, 0, 0, 10][j] {
      assert Circular(s, 0, j) == s[j];
    }
  }

  /** Ten removals empty the full fixture and clear every slot; back has come round to 0. */
  lemma RemoveWrap1(init: seq<int>)
    requires |init| == 10
    ensures var r := Drain(Fixture(init), 10).0;
      && r.slots == [0, 0, 0, 0, 0, 0, 0, 0, 0, 0]
      && r.front == 0 && r.back == 0 && r.count == 0
  {
    var r0 := Fixture(init);
    PopulationTen(init);
    DrainIndices(r0, 10);
    DrainSlots(r0, 10);
    var s := Drain(r0, 10).0.slots;
    forall j | 0 <= j < 10 ensures s[j] == 0 {
      assert Circular(s, 0, j) == s[j];
    }
  }

  /** Removing past the front: the eleventh removal finds the buffer empty and changes nothing. */
  lemma RemovePastFront(init: seq<int>)
    requires |init| == 10
    ensures var r := Drain(Add(Fixture(init), 11).0, 11).0;
      && r.slots == [0, 0, 0, 0, 0, 0, 0, 0, 0, 0]
      && r.front == 1 && r.back == 1 && r.count == 0
  {
    var r0 := Add(Fixture(init), 11).0;
    Wrap1(init);
    DrainIndices(r0, 11);
    DrainSlots(r0, 11);
    var s := Drain(r0, 11).0.slots;
    forall j | 0 <= j < 10 ensures s[j] == 0 {
      var i := if j == 0 then 9 else j - 1;
      assert Circular(s, 1, i) == s[j];
    }
  }

  /** The values `0, 1, ..., 998`. */
  function Inserted(): (xs: seq<int>)
    ensures |xs| == 999 && forall k :: 0 <= k < 999 ==> xs[k] == k
  {
    seq(999, k requires 0 <= k < 999 => k)
  }

  /** 999 adds over the full fixture keep the newest ten, 989..998, with 989 the oldest at slot 9. */
  lemma InsertLargeAmount(init: seq<int>)
    requires |init| == 10
    ensures var r := AddAll(Fixture(init), Inserted());
      && r.slots == [990, 991, 992, 993, 994, 995, 996, 997, 998, 989]
      && r.front == 9 && r.back == 9 && r.count == 10
  {
    var r0 := Fixture(init);
    var r := AddAll(r0, Inserted());
    PopulationTen(init);
    InsertedIndices(r0);
    InsertedNewest(r0);
    FullIsRotation(r);
    NewestTenRotated(Items(r));
  }

  lemma InsertedIndices(r0: Ring)
    requires Inv(r0) && |r0.slots| == 10 && r0.front == 0 && r0.count == 10
    ensures var r := AddAll(r0, Inserted()); r.front == 9 && r.back == 9 && r.count == 10
  {
    AddAllIndices(r0, Inserted());
    ModUnique(999, 99, 9, 10);
  }

  lemma InsertedNewest(r0: Ring)
    requires Inv(r0) && |r0.slots| == 10
    ensures var q := Items(AddAll(r0, Inserted())); |q| == 10 && forall i :: 0 <= i < 10 ==> q[i] == 989 + i
  {
    var xs := Inserted();
    AddAllSpec(r0, xs);
    PushAllKeepsNewest(Items(r0), 10, xs);
  }

  lemma NewestTenRotated(q: seq<int>)
    requires |q| == 10 && forall i :: 0 <= i < 10 ==> q[i] == 989 + i
    ensures q[1..] + q[..1] == [990, 991, 992, 993, 994, 995, 996, 997, 998, 989]
  {
    assert q == [989, 990, 991, 992, 993, 994, 995, 996, 997, 998];
  }

  /**
   * The test fixture on the class itself: a new 10-slot buffer, populated,
   * holds 1..10 in its storage with both indices at 0.
   */
  method PopulatedTen() returns (rb: RingBuffers.RingBuffer)
    ensures rb.Valid()
    ensures rb.storage[..] == [1, 2, 3, 4, 5, 6, 7, 8, 9, 10]
    ensures rb.front == 0 && rb.back == 0 && rb.count == 10
    ensures rb.Contents == [1, 2, 3, 4, 5, 6, 7, 8, 9, 10]
  {
    rb := new RingBuffers.RingBuffer(10);
    ghost var init := rb.storage[..];
    assert rb.State() == Empty(init);
    rb.PopulateAll();
    PopulationTen(init);
  }
}
