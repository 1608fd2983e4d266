# FixedVector in Dafny

A model of `FixedVector<T, N>`: a vector that holds at most `N` elements. The elements live in an inline block of `N` raw slots, and nothing is ever allocated on the heap. The container's one real job is lifetime bookkeeping:

- slots `[0, size)` hold constructed elements and slots `[size, N)` are raw memory;
- every mutator keeps that boundary exact by placement-new and explicit destructor calls;
- no slot is constructed twice and none is destroyed twice.

The model has four modules and a set of client scenarios:

- `Lifetime` (lifetime.dfy). A slot is `Dead` (raw memory) or `Live(value)`. Every placement-new and destructor call is recorded as an `Event`. `Disciplined` says a history only constructs into raw slots and only destroys live ones. `LiveAfter` gives the liveness a history leaves behind. Its lemmas count constructions and destructions per slot.
- `Sequences` (sequences.dfy). Holds the two exceptions (`length_error` and `out_of_range`, as `Error`) and the `Result` of a call that may throw. It also holds the sequence meaning of a positional insert (`Inserted`) and a range erase (`Erased`), with the lemmas that relate them.
- `FixedVectors` (fixed_vector.dfy). The class `FixedVector<T>`:
  - `const N` is the capacity;
  - `const buffer: array<Slot<T>>` is the inline storage;
  - `var size` is the live count;
  - `ghost var history` is the event log since construction.

  `Valid()` is the class invariant: exactly the slots below `size` are live, and the slots agree with a disciplined history. Construction and destruction go only through `ConstructSlot` and `DestroySlot`, whose preconditions forbid constructing into a live slot or destroying a raw one. Each mutator's contract gives the new `Contents()` in terms of the old one, gives the exact events it appends to `history`, and covers each error case with "nothing changed".
- `Findings` (findings.dfy). Two defects of the code as written, modelled as written (see "## Findings").
- `Scenarios` (scenarios.dfy). Client methods that derive, from the contracts alone, the documented behaviours: copy independence, move-empties-source, `[1,2,3].insert(1, 9)`, `[1,2,3,4].erase(1, 3)`, overflow at capacity, reuse after clear, `at(0)` and `pop_back` on an empty vector, and balanced destruction.

Iterators and pointers are modelled as integer offsets from `begin()`. An offset may be negative, so the `first < begin()` and `pos < begin()` checks are modelled as they are written. A call that throws returns `Err(e)`.

`emplace_back` and `emplace` test `size_ >= N`, which under the invariant `size <= N` means full; the model uses the same test.

## Model

| member | source | states |
|---|---|---|
| `FixedVectors.FixedVector.constructor` | include/fixed_vector_reference.hpp:26 | A new vector has no elements, every slot raw and an empty history. |
| `FixedVectors.FixedVector.ConstructSlot` | include/fixed_vector_reference.hpp:128 | Placement-new is allowed only into a raw slot. Only that slot changes, it becomes live with the value, and one `Constructed` event is logged. The discipline is kept. |
| `FixedVectors.FixedVector.DestroySlot` | include/fixed_vector_reference.hpp:146 | A destructor call is allowed only on a live slot. Only that slot changes, it becomes raw, and one `Destroyed` event is logged. The discipline is kept. |
| `FixedVectors.FixedVector.MoveSlot` | include/fixed_vector_reference.hpp:162 | Move-assigning one live slot onto another, distinct one copies the value into the target and changes no other slot. No lifetime event happens, and the invariant is kept. |
| `FixedVectors.FixedVector.Capacity` | include/fixed_vector_reference.hpp:67 | `capacity()` is the number of slots and bounds the element count. |
| `FixedVectors.FixedVector.Size` | include/fixed_vector_reference.hpp:68 | `size()` is the number of elements and is at most N. |
| `FixedVectors.FixedVector.Empty` | include/fixed_vector_reference.hpp:69 | `empty()` holds exactly when there are no elements. |
| `FixedVectors.FixedVector.Full` | include/fixed_vector_reference.hpp:70 | `full()` holds exactly when the element count is N. |
| `FixedVectors.FixedVector.Get` | include/fixed_vector_reference.hpp:73-79 | `operator[]` below `size` returns that element, which is held in a live slot. Beyond `size` it is undefined behaviour, so it has a precondition. |
| `FixedVectors.FixedVector.At` | include/fixed_vector_reference.hpp:81-93 | `at(i)` throws `out_of_range` exactly when `i >= size`, including `at(0)` on an empty vector. Otherwise it returns element `i`. |
| `FixedVectors.FixedVector.Front` | include/fixed_vector_reference.hpp:95-96 | `front()` of a non-empty vector is its first element. |
| `FixedVectors.FixedVector.Back` | include/fixed_vector_reference.hpp:98-99 | `back()` of a non-empty vector is its last element. |
| `FixedVectors.FixedVector.Clear` | include/fixed_vector_reference.hpp:114-119 | `clear()` destroys slots 0 .. size-1 once each, lowest first. The vector is then empty and valid. |
| `FixedVectors.FixedVector.EmplaceBack` | include/fixed_vector_reference.hpp:121-131 | When full, `emplace_back` throws `length_error` and nothing changes. Otherwise it constructs the value in slot `size` and appends exactly that one event. The contents become the old contents plus the value, and the return is the new element's position. |
| `FixedVectors.FixedVector.PushBack` | include/fixed_vector_reference.hpp:133-139 | `push_back` (both overloads) behaves as `emplace_back`: `length_error` with no change when full, otherwise the value is appended. |
| `FixedVectors.FixedVector.PopBack` | include/fixed_vector_reference.hpp:141-147 | On an empty vector `pop_back` throws `out_of_range` and nothing changes. Otherwise it destroys exactly slot `size-1` and drops the last element, leaving the prefix as it was. |
| `FixedVectors.FixedVector.RelocateUp` | include/fixed_vector_reference.hpp:184-187 | One shift step: the raw slot i is move-constructed from the live slot i-1, then i-1 is destroyed. Nothing else changes. |
| `FixedVectors.FixedVector.ShiftTail` | include/fixed_vector_reference.hpp:183-188 | The shift loop, highest slot first, turns the buffer into `ShiftedSlots`: slot `index` is raw and slots `index+1 .. size` hold what `index .. size-1` held. Each step logs a construction of j and then a destruction of j-1. |
| `Lifetime.ShiftedSlots` | include/fixed_vector_reference.hpp:183-188 | The buffer after the shift, slot by slot: the slots below `index` and above `size` are unchanged, slot `index` is raw, and each slot `j` in `index+1 .. size` holds old slot `j-1`. |
| `FixedVectors.FixedVector.Emplace` | include/fixed_vector_reference.hpp:172-193 | `length_error` when full is checked before the position, so a full vector with a bad position still throws `length_error`. Otherwise a position outside `[0, size]` throws `out_of_range`. Both error paths change nothing. Otherwise the contents become `Inserted(old, pos, v)`, `pos` is returned, and the events are the shift followed by the construction at `pos`. |
| `FixedVectors.FixedVector.Insert` | include/fixed_vector_reference.hpp:195-201 | `insert` (both overloads) has the same errors, the same resulting contents and the same construction and destruction events as `emplace`. |
| `FixedVectors.FixedVector.InsertElement` | include/fixed_vector_reference.hpp:195-197 | Inserting a copy of the vector's own element k at `pos` gives `Inserted(old, pos, old[k])` for every k, with the same events as `emplace`. This is the corrected form of the aliasing finding. |
| `FixedVectors.FixedVector.Compact` | include/fixed_vector_reference.hpp:161-163 | For a non-empty range, the move loop makes the first `size-count` elements equal to `Erased(old, start, start+count)` and leaves the last `count` as they were. |
| `FixedVectors.FixedVector.PopTail` | include/fixed_vector_reference.hpp:165-167 | `count` calls of `pop_back` drop the last `count` elements and destroy slots `size-1` down to `size-count`, in that order. |
| `FixedVectors.FixedVector.Erase` | include/fixed_vector_reference.hpp:153-170 | `erase(first, last)` throws `out_of_range` with no change unless `0 <= first <= last <= size`. Otherwise the contents become `Erased(old, first, last)`, `first` is returned, and only the top `last-first` slots are destroyed, highest first. For an empty range the model moves nothing, whereas the code self-move-assigns every element from `first` on: this is the corrected form of the self-move finding. |
| `FixedVectors.FixedVector.EraseAt` | include/fixed_vector_reference.hpp:149-151 | `erase(pos)` succeeds exactly when `0 <= pos < size`, so `erase(end())` throws. On success it removes element `pos` and destroys only the last slot. |
| `FixedVectors.FixedVector.AppendAll` | include/fixed_vector_reference.hpp:29-31 | The `emplace_back` loop shared by copy and move gives an empty vector the source's elements in order. It constructs slots 0 .. n-1, lowest first. |
| `FixedVectors.FixedVector.Copy` | include/fixed_vector_reference.hpp:28-32 | A copy holds the source's elements in the same order, in fresh storage. The source is not modified. |
| `FixedVectors.FixedVector.CopyAssign` | include/fixed_vector_reference.hpp:34-41 | Self-assignment, detected by identity, changes nothing. Otherwise the target's old elements are each destroyed once, the target then holds the source's elements, and the source stays as it was. |
| `FixedVectors.FixedVector.Move` | include/fixed_vector_reference.hpp:43-49 | The new vector holds the source's former elements in order. The source ends empty, with each of its old slots destroyed once. |
| `FixedVectors.FixedVector.MoveAssign` | include/fixed_vector_reference.hpp:51-60 | Self-move-assignment changes nothing. Otherwise the target holds the source's former elements in order and the source ends empty. Both vectors stay valid. |
| `FixedVectors.FixedVector.Destroy` | include/fixed_vector_reference.hpp:62-64 | The destructor is `clear()`. Afterwards every slot has seen exactly as many destructions as constructions, so each element was destroyed exactly once. |
| `Lifetime.ConstructionsMatched` | include/fixed_vector_reference.hpp:114-147 | In any disciplined history, each slot's constructions equal its destructions, plus one if the slot is still live. So no slot is ever destroyed more often than it was constructed. |
| `Lifetime.DestroyUpOnce` | include/fixed_vector_reference.hpp:114-119 | The destruction run of `clear()` destroys each slot below the old size exactly once and constructs nothing. |
| `Sequences.Inserted` | include/fixed_vector_reference.hpp:172-193 | Splicing `v` in at `i` gives a sequence one longer, with `v` at `i`, the elements below `i` in place and the rest one place higher. |
| `Sequences.Erased` | include/fixed_vector_reference.hpp:153-170 | Cutting out `[first, last)` shortens the sequence by `last-first`, keeps the elements below `first` in place and moves the survivors down by `last-first`. |
| `Sequences.EraseUndoesInsert` | include/fixed_vector_reference.hpp:149-201 | `erase(pos)` right after `insert(pos, v)` restores the contents. |
| `Sequences.InsertUndoesErase` | include/fixed_vector_reference.hpp:149-201 | Re-inserting an erased element at its old position restores the contents. |
| `Sequences.InsertAtEndAppends` | include/fixed_vector_reference.hpp:121-193 | `insert(end(), v)` has the same effect on the contents as `push_back(v)`. |
| `Sequences.EraseLastDrops` | include/fixed_vector_reference.hpp:141-170 | `erase(end() - 1)` has the same effect on the contents as `pop_back()`. |
| `Sequences.EraseEmptyRange` | include/fixed_vector_reference.hpp:153-170 | Erasing an empty range leaves the contents unchanged. |
| `Sequences.EraseComposes` | include/fixed_vector_reference.hpp:153-170 | Erasing `[i, j)` and then `k` more elements at `i` is one erase of `[i, j+k)`. |
| `Findings.AliasedArgumentAsWritten` | include/fixed_vector_reference.hpp:183-190 | As written, an argument that refers to element k is read after the shift. For `k < pos` it is element k. For `k == pos` it is a raw (destroyed) slot. For `k > pos` it is the old element `k-1`. |
| `Findings.AliasedInsertCounterexample` | include/fixed_vector_reference.hpp:172-197 | On `[1,2,3]`, `insert(begin(), v[1])` as written constructs 1 instead of 2, and `insert(begin(), v[0])` reads a destroyed slot. |
| `Findings.CompactAsWritten` | include/fixed_vector_reference.hpp:161-163 | The move loop as written. For a non-empty range it yields the erased prefix. For an empty range it self-move-assigns every element from `first` on. |
| `Findings.SelfMoveCounterexample` | include/fixed_vector_reference.hpp:153-163 | On `[1,2]`, take an element type whose self-move-assignment empties it. Then `erase(begin(), begin())` as written gives `[0,0]`, although erasing an empty range should leave `[1,2]`. |

## Left out

- include/fixed_vector.hpp and include/fixed_vector2.hpp are not part of this model. They are unfinished drafts of the same container, and they do not compile.
- Raw storage is modelled as an array of `Dead`/`Live` slots. The model has no bytes, alignment, `reinterpret_cast` or `std::launder`: the `ptr` helper (include/fixed_vector_reference.hpp:208-218) is array indexing.
- Exceptions thrown by the element type's own constructors and assignments are not modelled. The code does not roll them back. A throw in the middle of a copy leaks the elements already placed, and a throw from the final placement-new in `emplace` leaves a raw slot below live ones. No rollback guarantee is claimed.
- Moved-from values are not modelled. `MoveSlot` leaves its source slot's old value in place, and so do `emplace_back(std::move(...))` in the move operations and the relocation step. In the code these values are unspecified, but each such slot is destroyed or overwritten before anyone reads it, so only the live sequence matters.
- `data()`, `begin()`, `end()`, `cbegin()`, `cend()` and pointer arithmetic have no members of their own. A position is an integer offset: `begin()` is 0 and `end()` is `size`.
- The `const` and non-`const` overloads of `operator[]`, `at`, `front` and `back` are modelled once each. Elements are values, so the model returns the element rather than a reference to it.
- The variadic arguments of `emplace_back` and `emplace` are modelled as the finished value `v`, and the two overloads each of `push_back` and `insert` as one method.
- `noexcept` specifications, the type aliases and the template machinery are left out. `size_type` is modelled as an unbounded natural number, because every index stays at most N.
- `FixedVectors.FixedVector.CopyAssign` and `FixedVectors.FixedVector.MoveAssign` require two distinct vectors to have distinct buffers. In C++ this always holds, since the buffer is a member array stored inline.
- Thread safety: the container has no synchronisation, and the model is sequential.

## Findings

| source | as written | input that shows it | evidently intended | confidence | as-written member | corrected member |
|---|---|---|---|---|---|---|
| include/fixed_vector_reference.hpp:183-190 | `emplace` reads its argument only after shifting the tail. An argument that refers to an element at or after `pos` has by then been moved up a slot or destroyed. | A `FixedVector<int, 4>` holding `[1,2,3]`: `insert(begin(), v[1])` gives `[1,1,2,3]`, and `insert(begin(), v[0])` copies from a destroyed object (`Findings.AliasedInsertCounterexample`). | The argument's value at the time of the call is inserted, giving `[2,1,2,3]`, as `std::vector::insert` guarantees. | medium; not executed | `Findings.AliasedArgumentAsWritten` | `FixedVectors.FixedVector.InsertElement` |
| include/fixed_vector_reference.hpp:161-163 | When `first == last`, `count` is 0, and the loop move-assigns every element from `first` on onto itself. | A `FixedVector<std::vector<int>, 4>` holding `[{1},{2}]`: `erase(begin(), begin())` leaves `[{},{}]` under libstdc++, whose vector move-assignment empties a self-moved target (`Findings.SelfMoveCounterexample`). | Erasing an empty range leaves every element as it was (`Sequences.EraseEmptyRange`). | medium; not executed | `Findings.CompactAsWritten` | `FixedVectors.FixedVector.Erase` (runs the move loop only for a non-empty range; `MoveSlot` forbids a self-move) |
