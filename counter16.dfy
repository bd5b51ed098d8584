/**
 * Add as the C++ class writes it, with its element count held in 16 bits:
 * the increment happens before the capacity test, so it wraps to 0 when a
 * full buffer has the largest capacity a 16-bit count can describe, 65535.
 * In every other state this agrees with RingModel.Add; a full buffer of
 * 65535 slots reports no eviction, forgets every element and breaks the
 * index invariant. RingModel.Add, with an unbounded count, is the corrected
 * behaviour the rest of the model uses.
 */
module Counter16 {
  import opened RingModel

  /** One more than `c`, as a 16-bit unsigned increment. */
  function Inc16(c: nat): (r: nat)
    requires c <= 0xFFFF
    ensures r <= 0xFFFF
    ensures c < 0xFFFF ==> r == c + 1
    ensures c == 0xFFFF ==> r == 0
  {
    (c + 1) % 0x1_0000
  }

  /** Add with the count incremented in 16 bits before it is compared with the capacity. */
  function AddAsWritten(r: Ring, val: int): (res: (Ring, bool))
    requires Inv(r) && |r.slots| <= 0xFFFF
    ensures !(|r.slots| == 0xFFFF && r.count == 0xFFFF) ==> res == Add(r, val)
  {
    var cap := |r.slots|;
    var c := Inc16(r.count);
    if c > cap then
      (Ring(r.slots[r.front := val], Next(r.front, cap), Next(r.back, cap), c - 1), false)
    else
      (Ring(r.slots[r.front := val], Next(r.front, cap), r.back, c), true)
  }

  /**
   * A full buffer of capacity 65535: the written Add reports that nothing
   * was evicted, its count drops to 0 although every slot still holds a
   * value, and front no longer follows back by the count. Add with an
   * unbounded count evicts the oldest element and stays full.
   */
  lemma CountWrapLosesContents(r: Ring, val: int)
    requires Inv(r) && |r.slots| == 0xFFFF && r.count == 0xFFFF
    ensures var res := AddAsWritten(r, val);
      && res.1 && res.0.count == 0 && !Inv(res.0)
    ensures !Add(r, val).1 && Add(r, val).0.count == 0xFFFF
  {
    var res := AddAsWritten(r, val);
    assert r.front == r.back;
    assert res.0.front == Next(r.back, 0xFFFF) != r.back;
  }

  /** A concrete such buffer: every slot 0, both indices at 0, full. */
  lemma CountWrapExample()
    ensures var r := Ring(seq(0xFFFF, _ => 0), 0, 0, 0xFFFF);
      && Inv(r) && AddAsWritten(r, 7).1 && AddAsWritten(r, 7).0.count == 0
      && !Add(r, 7).1
  {
    var r := Ring(seq(0xFFFF, _ => 0), 0, 0, 0xFFFF);
    CountWrapLosesContents(r, 7);
  }
}
