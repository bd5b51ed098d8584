# RingBuffer, modelled in Dafny

`RingBuffer<DataType>` (RingBuffer_Full.cpp) is a fixed-capacity circular
FIFO. It owns one array of `m_elements` slots, allocated once by the
constructor, and keeps two 16-bit indices and a 16-bit count:

- `m_front` is where the next element is written;
- `m_back` is the oldest element, the next one to be removed;
- `m_count` is how many slots hold valid elements.

`Add` writes at the front and advances it with wrap-around. On a full buffer
it also advances `m_back`, so the oldest element is overwritten, and it
returns `false`. `Remove` hands out the element at the back, clears its slot
to zero and advances the back index. On an empty buffer it returns `false`
with a zeroed out-value and changes nothing. `PopulateAll` adds
`1..m_elements` in turn.

The project is made of five modules:

- `BoundedQueue` (bounded_queue.dfy) is the abstract view: a FIFO queue of
  bounded length that drops its head when a value is pushed onto it while full.
  `PushAll` pushes a whole sequence, and `Last` describes the result as the
  newest `cap` values ever pushed.
- `RingModel` (ring_model.dfy) holds the buffer's state as a value,
  `Ring(slots, front, back, count)`. It has:
  - the index invariant `Inv` (`front == (back + count) mod capacity`);
  - the abstraction `Items` (the `count` slots from `back`, read circularly);
  - the single steps `Add`, `Remove` and `Next` (AdvanceIndex);
  - the folds `AddAll` (many adds) and `Drain` (many removes).
  Its lemmas prove that the ring implements `BoundedQueue`.
- `RingBuffers` (ring_buffer.dfy) is the class itself. It has:
  - an `array<int>` for the storage;
  - `nat` fields `front`, `back` and `count`;
  - a ghost `Contents` holding the queue;
  - a `Valid()` predicate.
  Each state-changing method performs the C++ steps in place. It is proved
  equal to the corresponding `RingModel` step: `Next` for `AdvanceIndex`,
  `Remove` for both `Remove` and `RemoveAndDiscard`, and `AddAll` for the
  loop in `PopulateAll`. `Add` and `Remove` are also proved to push onto, or
  pop from, `Contents`. The getters are read-only functions whose contracts
  relate the fields to `Contents`.
- `Scenarios` (scenarios.dfy) restates each unit test's expected state as a
  lemma about the model. Each test starts from a 10-slot buffer filled by
  `PopulateAll`, whatever its fresh storage held.
- `Counter16` (counter16.dfy) models `Add` with its count kept in 16 bits, as
  written. It shows where that differs from the model (see Findings).

The element type is `int`, the type all the tests use. The zero that the C++
`memset` writes is the integer 0.

## Model

| member | source | states |
|---|---|---|
| BoundedQueue.Push | RingBuffer_Full.cpp:122-138 | one push keeps the newest `cap` values of `q + [x]`; a queue with room keeps every old value, a full one loses exactly its head |
| BoundedQueue.PushAllKeepsNewest | RingBuffer_Full.cpp:114-138 | after any number of pushes the queue holds exactly the newest `cap` of all values it has seen, oldest first |
| BoundedQueue.PushAllFromEmpty | RingBuffer_Full.cpp:35-39 | at most `cap` values pushed into an empty queue are all kept, in the order they were pushed |
| RingModel.FrontFollowsBack | RingBuffer_Full.cpp:52-54 | in every reachable state front is `(back + count) mod capacity`, and `front == back` exactly when the buffer is empty or full |
| RingModel.Empty | RingBuffer_Full.cpp:65-72 | a new buffer satisfies the invariant, has front and back at 0, holds no elements and leaves its slots as they were |
| RingModel.Next | RingBuffer_Full.cpp:56-62 | AdvanceIndex never leaves `[0, capacity)` |
| RingModel.NextIsMod | RingBuffer_Full.cpp:56-62 | AdvanceIndex is adding one modulo the capacity |
| RingModel.ItemsCircular | RingBuffer_Full.cpp:35-39 | the contents are the `count` slots starting at back, read modulo the capacity |
| RingModel.Add | RingBuffer_Full.cpp:122-138 | Add keeps the invariant and writes `val` at the old front, changing no other slot; front advances; it returns true exactly when the buffer was not full; then back stays and count grows by one; when full, back moves to the new front and count stays at capacity |
| RingModel.AddPushes | RingBuffer_Full.cpp:122-138 | Add implements a bounded-queue push: `val` is appended and the oldest element is dropped when full |
| RingModel.Remove | RingBuffer_Full.cpp:146-162 | a non-empty buffer hands out `slots[back]`, clears that slot to 0 and changes no other, advances back and decrements count; an empty one returns false with 0 and is unchanged; front never moves |
| RingModel.RemovePops | RingBuffer_Full.cpp:146-162 | Remove implements a pop: it returns the head and the contents lose it; on failure the contents are empty and stay so |
| RingModel.AddAllSpec | RingBuffer_Full.cpp:122-138 | after n adds the contents are those of the bounded queue after the same pushes; front is `(front + n) mod capacity`; count is `min(count + n, capacity)` |
| RingModel.FillFromEmpty | RingBuffer_Full.cpp:122-138 | at least a capacity's worth of adds into an empty buffer leaves it full; front and back are both at `(front + n) mod capacity`; it holds the newest `capacity` values |
| RingModel.FromEmptyItems | RingBuffer_Full.cpp:122-138 | any sequence of adds into an empty buffer leaves as contents the newest `capacity` of the values added, oldest first |
| RingModel.FillsWholeBuffer | RingBuffer_Full.cpp:114-120 | exactly a capacity's worth of adds, from any state, leaves exactly those values, full, with front and back at the old front |
| RingModel.PopulateAll | RingBuffer_Full.cpp:114-120 | PopulateAll leaves the buffer full of `1..capacity`, oldest first, with front and back at the old front |
| RingModel.FullIsRotation | RingBuffer_Full.cpp:109-112 | the raw storage of a full buffer is its contents rotated so that the oldest sits at back |
| RingModel.DrainIndices | RingBuffer_Full.cpp:146-162 | n removes take `m = min(n, count)` elements; front is unchanged, count drops by m, back moves m slots with wrap-around |
| RingModel.DrainOut | RingBuffer_Full.cpp:146-162 | n removes return the oldest `min(n, count)` elements in FIFO order; the rest stay as contents |
| RingModel.DrainSlots | RingBuffer_Full.cpp:151-153 | after n removes the vacated slots read 0 and every other slot keeps its value |
| RingModel.FifoRoundTrip | RingBuffer_Full.cpp:35-39 | `n <= capacity` values added to an empty buffer and removed n times come out in the order they went in, leaving it empty |
| RingBuffers.RingBuffer.constructor | RingBuffer_Full.cpp:65-72 | a fresh array of exactly `size` slots, capacity `size`, `front == back == count == 0`, no contents, invariant holds |
| RingBuffers.RingBuffer.AdvanceIndex | RingBuffer_Full.cpp:56-62 | the next index is `(ix + 1) mod capacity`, which is below the capacity |
| RingBuffers.RingBuffer.GetFrontIx | RingBuffer_Full.cpp:79-82 | the front index is in range and `|Contents|` slots past back, modulo capacity |
| RingBuffers.RingBuffer.GetBackIx | RingBuffer_Full.cpp:84-87 | the back index is in range and its slot holds the oldest element when there is one |
| RingBuffers.RingBuffer.GetCount | RingBuffer_Full.cpp:89-92 | the count is the number of elements held, at most the capacity |
| RingBuffers.RingBuffer.GetMaxElements | RingBuffer_Full.cpp:94-97 | the capacity is the storage length, between 1 and 65535 |
| RingBuffers.RingBuffer.GetBuffer | RingBuffer_Full.cpp:109-112 | a snapshot of all slots, in which element i of the contents sits at `(back + i) mod capacity` |
| RingBuffers.RingBuffer.Add | RingBuffer_Full.cpp:122-138 | the new state is `RingModel.Add` of the old one; it returns true exactly when the buffer was not full; only the old front slot is written; `Contents` becomes the bounded-queue push of `val` |
| RingBuffers.RingBuffer.Remove | RingBuffer_Full.cpp:146-162 | the new state is `RingModel.Remove` of the old one; on success it returns the oldest element, `Contents` loses its head and only the old back slot changes, to 0; on an empty buffer it returns false with 0 and changes nothing |
| RingBuffers.RingBuffer.RemoveAndDiscard | RingBuffer_Full.cpp:140-144 | Remove without the value: same new state and result flag; `Contents` loses its head exactly when it had one |
| RingBuffers.RingBuffer.PopulateAll | RingBuffer_Full.cpp:114-120 | the loop of adds leaves the state `RingModel.PopulateAll` of the old one; `Contents` is `1..capacity` and front and back are at the old front |
| Scenarios.PopulationTen | RingBuffer_Full.cpp:202-210 | the populated 10-slot fixture holds `1..10`, with front 0, back 0, count 10 |
| Scenarios.Wrap1 | RingBuffer_Full.cpp:212-221 | adding 11 to the fixture returns false and leaves `[11,2..10]`, front 1, back 1, count 10 |
| Scenarios.Wrap2 | RingBuffer_Full.cpp:223-233 | adding 11 and 12 leaves `[11,12,3..10]`, front 2, back 2, count 10 |
| Scenarios.Remove1 | RingBuffer_Full.cpp:235-246 | then one remove leaves `[11,12,0,4..10]`, front 2, back 3, count 9 |
| Scenarios.Remove2 | RingBuffer_Full.cpp:248-260 | a second remove leaves `[11,12,0,0,5..10]`, front 2, back 4, count 8 |
| Scenarios.FillRemoved | RingBuffer_Full.cpp:262-275 | then adding 13 leaves `[11,12,13,0,5..10]`, front 3, back 4, count 9 |
| Scenarios.RemoveBeforeWrap | RingBuffer_Full.cpp:277-289 | nine removes from the fixture leave `[0 x9, 10]`, front 0, back 9, count 1 |
| Scenarios.RemoveWrap1 | RingBuffer_Full.cpp:291-303 | ten removes leave every slot 0, front 0, back 0, count 0 |
| Scenarios.RemovePastFront | RingBuffer_Full.cpp:305-318 | adding 11 then removing eleven times leaves every slot 0, front 1, back 1, count 0 |
| Scenarios.InsertLargeAmount | RingBuffer_Full.cpp:320-332 | adding `0..998` to the fixture leaves `[990..998, 989]`, front 9, back 9, count 10 |
| Scenarios.PopulatedTen | RingBuffer_Full.cpp:174-186 | the class itself, built with 10 slots and populated, stores `1..10` with front 0, back 0, count 10 |
| Counter16.Inc16 | RingBuffer_Full.cpp:126 | a 16-bit increment: one more below 65535, 0 at 65535 |
| Counter16.AddAsWritten | RingBuffer_Full.cpp:122-138 | Add with the 16-bit count agrees with `RingModel.Add` in every state except a full buffer of 65535 slots |
| Counter16.CountWrapLosesContents | RingBuffer_Full.cpp:126-137 | at capacity 65535 a full buffer's Add, as written, reports no eviction, sets count to 0 and breaks the index invariant; `RingModel.Add` evicts and stays full |
| Counter16.CountWrapExample | RingBuffer_Full.cpp:126-137 | one concrete full buffer of 65535 zeros for which the written Add reports no eviction and drops the count to 0 |

## Left out

- `Print` (RingBuffer_Full.cpp:99-107) is console output only.
- `main`, the gtest fixture machinery and the `TEST_F` bodies are not modelled as such. Their expected states are the `Scenarios` lemmas.
- `testComplexClass` makes no assertions and uses a struct element type, so it is not modelled.
- The destructor, `new[]`/`delete[]` and the `std::span` wrapper are memory management. The storage is a Dafny array allocated by the constructor.
- `GetBuffer` returns a mutable view in C++. The model returns a snapshot, `storage[..]`; writes through the view are not modelled.
- `std::memset` clearing is modelled as storing the integer 0. The element type is fixed to `int`; other POD types and their byte layout are not modelled.
- `AdvanceIndex` updates its argument by reference. The model returns the new index, and the caller assigns it to the field.
- RingBuffers.RingBuffer.constructor requires `0 < size`. The source does not check this: with size 0, `Add` writes `m_ringbuffer[0]` out of bounds.
- RingBuffers.RingBuffer.constructor requires `size <= 0xFFFF`, the range of the `uint16_t` parameter.
- RingBuffers.RingBuffer.constructor promises nothing about the initial slot values, because `new DataType[n]` leaves them indeterminate. The scenarios quantify over every initial storage.
- `m_count` is a `uint16_t`, and on a full buffer of 65535 slots the source's increment wraps it to 0 (see Findings). The model's count is an unbounded `nat`, so the members below describe the corrected behaviour there. `Counter16.AddAsWritten` is the as-written single add, and it agrees with RingModel.Add in every other state.
- RingModel.Add: on a full 65535-slot buffer, evicts and stays full, where the source reports no eviction and drops its count to 0.
- RingBuffers.RingBuffer.Add: the same corrected behaviour as RingModel.Add.
- RingModel.AddAll: composes the corrected Add, so any add that meets a full 65535-slot buffer differs from the source.
- RingModel.AddAllSpec: its count `min(count + n, capacity)` and its contents hold for the corrected Add only, once a 65535-slot buffer is full.
- RingModel.FillFromEmpty: promises a full buffer after any number of adds of at least the capacity. At capacity 65535 the source's count wraps on the first add after the buffer fills, so the two differ from 65536 adds on.
- RingModel.FillsWholeBuffer: promises a full buffer from any state. At capacity 65535, starting non-empty, the buffer becomes full before the last add, and the source's count wraps on the first add after the buffer becomes full.
- RingModel.PopulateAll: promises a full buffer of `1..capacity`. At capacity 65535 on a non-empty buffer, the source's count wraps on the first add after the buffer becomes full. It ends with one element fewer than it started with and a broken index relation.
- RingBuffers.RingBuffer.PopulateAll: the same corrected behaviour as RingModel.PopulateAll.
- `m_front` and `m_back` are also 16-bit. They stay below the capacity (at most 65535), so they never wrap and are plain `nat`s.
- The gtest `memcmp(a, data, 10)` compares only the first 10 bytes of the buffers, not 10 ints. The scenario lemmas state the whole 10-slot contents instead.
- There is no concurrency in the source and none is modelled.

## Findings

| source | as written | input that shows it | evidently intended | confidence | as-written member | corrected member |
|---|---|---|---|---|---|---|
| RingBuffer_Full.cpp:126-137 | `m_count++` on a `uint16_t` happens before the `m_count > m_elements` test, so a full buffer of capacity 65535 wraps the count to 0. The test then fails: no eviction is reported, `m_back` stays, and count says empty while front has moved on | `RingBuffer<int>(65535)`, 65535 adds, then one more add | evict the oldest element, keep the count at the capacity and return false, as in every other state | not executed | Counter16.CountWrapLosesContents | RingModel.AddPushes |
