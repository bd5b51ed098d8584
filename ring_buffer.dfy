/**
 * RingBuffer: a fixed-capacity circular FIFO over one array of `elements`
 * slots, allocated once at construction. `front` is where the next element
 * is written, `back` is the oldest element (the next one to remove), and
 * `count` is how many slots hold valid elements. Adding to a full buffer
 * overwrites the oldest element; removing clears the vacated slot to 0.
 *
 * Each state-changing method is proved against the corresponding RingModel
 * step: `Next` for AdvanceIndex, `Remove` for Remove and RemoveAndDiscard,
 * and the fold `AddAll` for the loop in PopulateAll. The ghost field
 * `Contents` is kept equal to the FIFO view `RingModel.Items`, so each method
 * also says what it does to the queue; the getters relate the fields to it.
 */
module RingBuffers {
  import opened BoundedQueue
  import RingModel

  class RingBuffer {
    /** The capacity; a 16-bit value that never changes after construction. */
    const elements: nat
    /** The slots, allocated once by the constructor. */
    const storage: array<int>
    /** Where the next new element will be stored. */
    var front: nat
    /** Where the oldest element will be removed from. */
    var back: nat
    /** How many slots hold valid elements. */
    var count: nat
    /** The elements held, oldest first. */
    ghost var Contents: seq<int>

    /** The fields as a RingModel value. */
    ghost function State(): RingModel.Ring
      reads this, storage
    {
      RingModel.Ring(storage[..], front, back, count)
    }

    ghost predicate Valid()
      reads this, storage
    {
      storage.Length == elements && elements <= 0xFFFF
      && RingModel.Inv(State()) && Contents == RingModel.Items(State())
    }

    /**
     * An empty buffer of `size` slots. The slots themselves are left
     * uninitialised, so nothing is promised about their values.
     */
    constructor (size: nat)
      requires 0 < size <= 0xFFFF
      ensures Valid() && fresh(storage)
      ensures elements == size && storage.Length == size
      ensures front == 0 && back == 0 && count == 0 && Contents == []
    {
      elements := size;
      front, back, count := 0, 0, 0;
      storage := new int[size];
      Contents := [];
    }

    /** AdvanceIndex: the index after `ix`, wrapping past the last slot to 0. */
    method AdvanceIndex(ix: nat) returns (next: nat)
      requires ix < elements
      ensures next == RingModel.Next(ix, elements)
      ensures next < elements && next == (ix + 1) % elements
    {
      RingModel.NextIsMod(ix, elements);
      next := ix + 1;
      if next >= elements {
        next := 0;
      }
    }

    function GetFrontIx(): (ix: nat)
      reads this, storage
      requires Valid()
      ensures ix < elements && ix == (back + |Contents|) % elements
    {
      RingModel.FrontFollowsBack(State());
      front
    }

    function GetBackIx(): (ix: nat)
      reads this, storage
      requires Valid()
      ensures ix < elements
      ensures |Contents| > 0 ==> storage[ix] == Contents[0]
    {
      RingModel.ItemsCircular(State());
      back
    }

    function GetCount(): (n: nat)
      reads this, storage
      requires Valid()
      ensures n == |Contents| && n <= elements
    {
      count
    }

    function GetMaxElements(): (n: nat)
      reads this, storage
      requires Valid()
      ensures n == storage.Length && 0 < n <= 0xFFFF
    {
      elements
    }

    /**
     * GetBuffer: a read-only snapshot of all slots; the contents are found
     * in it `count` slots from `back` on, read circularly.
     */
    function GetBuffer(): (s: seq<int>)
      reads this, storage
      requires Valid()
      ensures |s| == elements
      ensures forall i :: 0 <= i < |Contents| ==> Contents[i] == s[(back + i) % elements]
    {
      RingModel.ItemsCircular(State());
      storage[..]
    }

    /**
     * Add `val` at the front. Returns true when there was room; on a full
     * buffer the oldest element is overwritten and dropped, and it returns false.
     */
    method Add(val: int) returns (noEviction: bool)
      requires Valid()
      modifies this, storage
      ensures Valid()
      ensures (State(), noEviction) == RingModel.Add(old(State()), val)
      ensures noEviction <==> old(count) < elements
      ensures storage[..] == old(storage[..])[old(front) := val]
      ensures Contents == Push(old(Contents), elements, val)
    {
      ghost var before, q := State(), Contents;
      ghost var after := RingModel.Add(before, val);
      RingModel.AddPushes(before, val);
      assert |q| <= elements && q == RingModel.Items(before);
      storage[front] := val;
      front := AdvanceIndex(front);
      count := count + 1;
      if count > elements {
        back := AdvanceIndex(back);
        count := count - 1;
        noEviction := false;
      } else {
        noEviction := true;
      }
      assert storage[..] == after.0.slots;
      assert State() == after.0;
      Contents := Push(q, elements, val);
    }

    /**
     * Remove the oldest element: it is handed out, its slot is cleared to 0
     * and back advances. On an empty buffer the result is false with a 0
     * value, and nothing changes.
     */
    method Remove() returns (removed: bool, outVal: int)
      requires Valid()
      modifies this, storage
      ensures Valid()
      ensures (State(), removed, outVal) == RingModel.Remove(old(State()))
      ensures removed <==> old(Contents) != []
      ensures removed ==> outVal == old(Contents)[0] && Contents == old(Contents)[1..]
      ensures removed ==> storage[..] == old(storage[..])[old(back) := 0]
      ensures !removed ==> outVal == 0 && unchanged(this) && unchanged(storage)
    {
      ghost var before := State();
      RingModel.RemovePops(before);
      if count > 0 {
        outVal := storage[back];
        storage[back] := 0;
        back := AdvanceIndex(back);
        count := count - 1;
        removed := true;
        Contents := Contents[1..];
      } else {
        outVal := 0;
        removed := false;
      }
    }

    /** Remove without an out-value: the element is dropped. */
    method RemoveAndDiscard() returns (removed: bool)
      requires Valid()
      modifies this, storage
      ensures Valid()
      ensures (State(), removed) == (RingModel.Remove(old(State())).0, RingModel.Remove(old(State())).1)
      ensures removed <==> old(Contents) != []
      ensures Contents == if removed then old(Contents)[1..] else old(Contents)
    {
      var discarded;
      removed, discarded := Remove();
    }

    /**
     * PopulateAll: add `1, 2, ..., elements` in turn. Afterwards the buffer is
     * full of exactly those values, oldest first, and front and back are both
     * where front was.
     */
    method PopulateAll()
      requires Valid()
      modifies this, storage
      ensures Valid()
      ensures State() == RingModel.PopulateAll(old(State()))
      ensures Contents == RingModel.UpTo(elements)
      ensures count == elements && front == old(front) && back == front
    {
      ghost var start := State();
      assert RingModel.UpTo(0) == [];
      var i := 1;
      while i <= elements
        invariant 1 <= i <= elements + 1
        invariant Valid()
        invariant State() == RingModel.AddAll(start, RingModel.UpTo(i - 1))
      {
        var _ := Add(i);
        RingModel.AddAllUpToStep(start, i);
        i := i + 1;
      }
    }
  }
}
