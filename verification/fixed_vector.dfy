/** FixedVector<T, N>: a vector of at most N elements kept in an inline buffer of
    N raw slots. Slots [0, size) hold constructed elements, slots [size, N) are
    raw memory, and every mutator keeps that boundary exact by going through the
    two primitives ConstructSlot (placement-new) and DestroySlot (explicit
    destructor call). Iterators and pointers are indices, offsets from begin(). */
module FixedVectors {
  import opened Lifetime
  import opened Sequences

  class FixedVector<T> {
    /** The capacity N, fixed for the vector's lifetime. */
    const N: nat
    /** The inline storage: N slots owned by this vector alone, never reallocated. */
    const buffer: array<Slot<T>>
    /** The live count. */
    var size: nat
    /** Every placement-new and destructor call on buffer since the vector was built. */
    ghost var history: seq<Event>

    /** The buffer's slots agree with its history, and the history obeys the
        construct-only-raw, destroy-only-live discipline. */
    ghost predicate Tracked()
      reads this, buffer
    {
      Disciplined(history) &&
      forall i :: 0 <= i < buffer.Length ==> (LiveAfter(history, i) <==> buffer[i].Live?)
    }

    /** The class invariant: exactly the slots below size are live. */
    ghost predicate Valid()
      reads this, buffer
    {
      buffer.Length == N && size <= N &&
      (forall i :: 0 <= i < N ==> (buffer[i].Live? <==> i < size)) &&
      Tracked()
    }

    /** The elements, in order. */
    ghost function Contents(): seq<T>
      reads this, buffer
      requires Valid()
    {
      Values(buffer[..size])
    }

    /** The default constructor: no live element, every slot raw. */
    constructor (n: nat)
      ensures Valid() && N == n && fresh(buffer)
      ensures Contents() == [] && history == []
    {
      N := n;
      buffer := new Slot<T>[n](_ => Dead);
      size := 0;
      history := [];
    }

    // ===== Lifetime primitives =====

    /** Placement-new of v into the raw slot i. */
    method ConstructSlot(i: nat, v: T)
      requires i < buffer.Length && buffer[i] == Dead && Tracked()
      modifies buffer, this`history
      ensures Tracked()
      ensures buffer[i] == Live(v)
      ensures forall j :: 0 <= j < buffer.Length && j != i ==> buffer[j] == old(buffer[j])
      ensures history == old(history) + [Constructed(i)]
    {
      DisciplinedStep(history, Constructed(i));
      forall j | 0 <= j < buffer.Length
        ensures LiveAfter(history + [Constructed(i)], j) <==> (j == i || buffer[j].Live?)
      {
        LiveAfterStep(history, Constructed(i), j);
      }
      buffer[i] := Live(v);
      history := history + [Constructed(i)];
    }

    /** Explicit destructor call on the live slot i. */
    method DestroySlot(i: nat)
      requires i < buffer.Length && buffer[i].Live? && Tracked()
      modifies buffer, this`history
      ensures Tracked()
      ensures buffer[i] == Dead
      ensures forall j :: 0 <= j < buffer.Length && j != i ==> buffer[j] == old(buffer[j])
      ensures history == old(history) + [Destroyed(i)]
    {
      DisciplinedStep(history, Destroyed(i));
      forall j | 0 <= j < buffer.Length
        ensures LiveAfter(history + [Destroyed(i)], j) <==> (j != i && buffer[j].Live?)
      {
        LiveAfterStep(history, Destroyed(i), j);
      }
      buffer[i] := Dead;
      history := history + [Destroyed(i)];
    }

    /** Move-assignment of the live slot src onto the live slot dst. Both stay
        live; src keeps a moved-from value until it is destroyed. A self-move is
        excluded: an element type may leave its value unspecified then. */
    method MoveSlot(dst: nat, src: nat)
      requires Valid() && dst < size && src < size && dst != src
      modifies buffer
      ensures Valid()
      ensures buffer[dst] == old(buffer[src])
      ensures forall j :: 0 <= j < buffer.Length && j != dst ==> buffer[j] == old(buffer[j])
    {
      buffer[dst] := buffer[src];
    }

    // ===== Capacity =====

    /** capacity(): the number of slots. */
    function Capacity(): (c: nat)
      reads this, buffer
      requires Valid()
      ensures c == buffer.Length && |Contents()| <= c
    {
      N
    }

    /** size(): the number of live elements. */
    function Size(): (n: nat)
      reads this, buffer
      requires Valid()
      ensures n == |Contents()| && n <= N
    {
      size
    }

    /** empty(): whether no element is live. */
    function Empty(): (e: bool)
      reads this, buffer
      requires Valid()
      ensures e <==> Contents() == []
    {
      size == 0
    }

    /** full(): whether every slot is live. */
    function Full(): (f: bool)
      reads this, buffer
      requires Valid()
      ensures f <==> |Contents()| == N
    {
      size == N
    }

    // ===== Element access =====

    /** operator[]: unchecked access, defined only below size. */
    function Get(index: nat): (v: T)
      reads this, buffer
      requires Valid() && index < size
      ensures buffer[index] == Live(v) && v == Contents()[index]
    {
      buffer[index].value
    }

    /** at(): checked access; out_of_range exactly when index is not below size. */
    function At(index: nat): (r: Result<T>)
      reads this, buffer
      requires Valid()
      ensures r.Err? <==> index >= |Contents()|
      ensures r.Err? ==> r.error == OutOfRange
      ensures r.Ok? ==> r.value == Contents()[index]
    {
      if index >= size then Err(OutOfRange) else Ok(Get(index))
    }

    /** front(): the first element of a non-empty vector. */
    function Front(): (v: T)
      reads this, buffer
      requires Valid() && size > 0
      ensures v == Contents()[0]
    {
      Get(0)
    }

    /** back(): the last element of a non-empty vector. */
    function Back(): (v: T)
      reads this, buffer
      requires Valid() && size > 0
      ensures v == Contents()[|Contents()| - 1]
    {
      Get(size - 1)
    }

    // ===== Modifiers =====

    /** clear(): destroys every live slot once, lowest first, and empties the vector. */
    method Clear()
      requires Valid()
      modifies this, buffer
      ensures Valid() && Contents() == []
      ensures history == old(history) + DestroyUp(0, old(size))
    {
      for i := 0 to size
        invariant size == old(size) && Tracked()
        invariant forall j :: 0 <= j < N ==> (buffer[j].Live? <==> i <= j < size)
        invariant history == old(history) + DestroyUp(0, i)
      {
        DestroySlot(i);
      }
      size := 0;
    }

    /** emplace_back(): length_error when full, with nothing changed; otherwise
        v is constructed in slot size, which becomes live, and its position is returned. */
    method EmplaceBack(v: T) returns (r: Result<nat>)
      requires Valid()
      modifies this, buffer
      ensures Valid()
      ensures r.Err? <==> old(size) >= N
      ensures r.Err? ==> r.error == LengthError && unchanged(this, buffer)
      ensures r.Ok? ==> r.value == old(size) && Contents() == old(Contents()) + [v]
      ensures r.Ok? ==> history == old(history) + [Constructed(old(size))]
    {
      if size >= N {
        return Err(LengthError);
      }
      ghost var before := Contents();
      ConstructSlot(size, v);
      size := size + 1;
      assert Contents() == before + [v] by {
        assert forall j :: 0 <= j < size - 1 ==> buffer[j] == Live(before[j]);
      }
      r := Ok(size - 1);
    }

    /** push_back(), for both the copying and the moving overload: emplace_back
        without the position. */
    method PushBack(v: T) returns (r: Result<()>)
      requires Valid()
      modifies this, buffer
      ensures Valid()
      ensures r.Err? <==> old(size) >= N
      ensures r.Err? ==> r.error == LengthError && unchanged(this, buffer)
      ensures r.Ok? ==> Contents() == old(Contents()) + [v]
      ensures r.Ok? ==> history == old(history) + [Constructed(old(size))]
    {
      var e := EmplaceBack(v);
      r := if e.Ok? then Ok(()) else Err(e.error);
    }

    /** pop_back(): out_of_range on an empty vector, with nothing changed;
        otherwise exactly the last live slot is destroyed. */
    method PopBack() returns (r: Result<()>)
      requires Valid()
      modifies this, buffer
      ensures Valid()
      ensures r.Err? <==> old(size) == 0
      ensures r.Err? ==> r.error == OutOfRange && unchanged(this, buffer)
      ensures r.Ok? ==> Contents() == old(Contents())[..old(size) - 1]
      ensures r.Ok? ==> history == old(history) + [Destroyed(old(size) - 1)]
    {
      if Empty() {
        return Err(OutOfRange);
      }
      ghost var before := Contents();
      size := size - 1;
      DestroySlot(size);
      assert Contents() == before[..size] by {
        assert forall j :: 0 <= j < size ==> buffer[j] == Live(before[j]);
      }
      r := Ok(());
    }

    /** One step of emplace's shift: move-construct the raw slot i from the
        live slot i - 1, then destroy slot i - 1. */
    method RelocateUp(i: nat)
      requires 0 < i < buffer.Length && buffer[i] == Dead && buffer[i - 1].Live? && Tracked()
      modifies buffer, this`history
      ensures Tracked()
      ensures buffer[i] == old(buffer[i - 1]) && buffer[i - 1] == Dead
      ensures forall j :: 0 <= j < buffer.Length && j != i && j != i - 1 ==> buffer[j] == old(buffer[j])
      ensures history == old(history) + [Constructed(i), Destroyed(i - 1)]
    {
      ConstructSlot(i, buffer[i - 1].value);
      DestroySlot(i - 1);
    }

    /** emplace's shift loop: for i = size down to index + 1, construct slot i
        from slot i - 1 and destroy slot i - 1, leaving slot index raw. */
    method ShiftTail(index: nat)
      requires Valid() && index <= size < N
      modifies buffer, this`history
      ensures Tracked() && buffer[..] == ShiftedSlots(old(buffer[..]), index, size)
      ensures history == old(history) + ShiftUp(index, size)
    {
      ghost var slots := buffer[..];
      var i := size;
      while i > index
        invariant index <= i <= size
        invariant Tracked()
        invariant forall j :: 0 <= j < i ==> buffer[j] == slots[j]
        invariant buffer[i] == Dead
        invariant forall j :: i < j <= size ==> buffer[j] == slots[j - 1]
        invariant forall j :: size < j < N ==> buffer[j] == slots[j]
        invariant history == old(history) + ShiftUp(i, size)
      {
        RelocateUp(i);
        i := i - 1;
      }
      assert forall j :: 0 <= j < N ==> buffer[j] == ShiftedSlots(slots, index, size)[j];
    }

    /** emplace(pos, v): length_error when full (checked first), out_of_range
        when pos is outside [0, size]; otherwise the tail from pos is shifted one
        slot up, highest first, v is constructed at pos and pos is returned. */
    method Emplace(pos: int, v: T) returns (r: Result<nat>)
      requires Valid()
      modifies this, buffer
      ensures Valid()
      ensures r.Ok? <==> old(size) < N && 0 <= pos <= old(size)
      ensures old(size) >= N ==> r == Err(LengthError)
      ensures old(size) < N && !(0 <= pos <= old(size)) ==> r == Err(OutOfRange)
      ensures r.Err? ==> unchanged(this, buffer)
      ensures r.Ok? ==> r.value == pos && Contents() == Inserted(old(Contents()), pos, v)
      ensures r.Ok? ==> history == old(history) + ShiftUp(pos, old(size)) + [Constructed(pos)]
    {
      if size >= N {
        return Err(LengthError);
      }
      if pos < 0 || pos > size {
        return Err(OutOfRange);
      }
      var index: nat := pos;
      ghost var before := Contents();
      ShiftTail(index);
      ConstructSlot(index, v);
      size := size + 1;
      ghost var after := Contents();
      assert forall j :: 0 <= j < index ==> after[j] == before[j];
      assert forall j :: index < j < size ==> after[j] == before[j - 1];
      InsertedPointwise(before, after, index, v);
      r := Ok(index);
    }

    /** insert(pos, v), for both the copying and the moving overload: emplace. */
    method Insert(pos: int, v: T) returns (r: Result<nat>)
      requires Valid()
      modifies this, buffer
      ensures Valid()
      ensures r.Ok? <==> old(size) < N && 0 <= pos <= old(size)
      ensures old(size) >= N ==> r == Err(LengthError)
      ensures old(size) < N && !(0 <= pos <= old(size)) ==> r == Err(OutOfRange)
      ensures r.Err? ==> unchanged(this, buffer)
      ensures r.Ok? ==> r.value == pos && Contents() == Inserted(old(Contents()), pos, v)
      ensures r.Ok? ==> history == old(history) + ShiftUp(pos, old(size)) + [Constructed(pos)]
    {
      r := Emplace(pos, v);
    }

    /** insert(pos, (*this)[k]): the element k is read before anything is
        shifted, so a copy of it lands at pos even when k >= pos. */
    method InsertElement(pos: int, k: nat) returns (r: Result<nat>)
      requires Valid() && k < size
      modifies this, buffer
      ensures Valid()
      ensures r.Ok? <==> old(size) < N && 0 <= pos <= old(size)
      ensures old(size) >= N ==> r == Err(LengthError)
      ensures old(size) < N && !(0 <= pos <= old(size)) ==> r == Err(OutOfRange)
      ensures r.Err? ==> unchanged(this, buffer)
      ensures r.Ok? ==> r.value == pos && Contents() == Inserted(old(Contents()), pos, old(Contents())[k])
      ensures r.Ok? ==> history == old(history) + ShiftUp(pos, old(size)) + [Constructed(pos)]
    {
      var v := Get(k);
      r := Emplace(pos, v);
    }

    /** erase's compaction loop: for i = start while i + count < size, move slot
        i + count onto slot i. Only called with a non-empty range. */
    method Compact(start: nat, count: nat)
      requires Valid() && 0 < count && start + count <= size
      modifies buffer
      ensures Valid()
      ensures |Contents()| == size
      ensures Contents()[..size - count] == Erased(old(Contents()), start, start + count)
      ensures Contents()[size - count..] == old(Contents())[size - count..]
    {
      ghost var before := Contents();
      var i := start;
      while i + count < size
        invariant start <= i <= size - count
        invariant Valid()
        invariant forall j :: 0 <= j < start ==> buffer[j] == Live(before[j])
        invariant forall j :: start <= j < i ==> buffer[j] == Live(before[j + count])
        invariant forall j :: i <= j < size ==> buffer[j] == Live(before[j])
      {
        MoveSlot(i, i + count);
        i := i + 1;
      }
      CompactedIsErased(before, Contents(), start, count);
    }

    /** erase's closing loop: pop_back count times, destroying the top count
        slots, highest first. */
    method PopTail(count: nat)
      requires Valid() && count <= size
      modifies this, buffer
      ensures Valid() && size == old(size) - count
      ensures Contents() == old(Contents())[..old(size) - count]
      ensures history == old(history) + DestroyDown(old(size) - count, old(size))
    {
      for k := 0 to count
        invariant Valid() && size == old(size) - k
        invariant Contents() == old(Contents())[..size]
        invariant history == old(history) + DestroyDown(size, old(size))
      {
        var _ := PopBack();
      }
    }

    /** erase(first, last): out_of_range, with nothing changed, unless
        0 <= first <= last <= size; otherwise the survivors after the range are
        moved down over it, lowest first, the vacated tail is popped and first is
        returned. An empty range moves nothing. */
    method Erase(first: int, last: int) returns (r: Result<nat>)
      requires Valid()
      modifies this, buffer
      ensures Valid()
      ensures r.Ok? <==> 0 <= first <= last <= old(size)
      ensures r.Err? ==> r.error == OutOfRange && unchanged(this, buffer)
      ensures r.Ok? ==> r.value == first && Contents() == Erased(old(Contents()), first, last)
      ensures r.Ok? ==> history == old(history) + DestroyDown(old(size) - (last - first), old(size))
    {
      if first < 0 || last > size || first > last {
        return Err(OutOfRange);
      }
      var start: nat, count: nat := first, last - first;
      ghost var before := Contents();
      if count > 0 {
        Compact(start, count);
      } else {
        EraseEmptyRange(before, start);
      }
      ghost var compacted := Contents();
      assert compacted[..size - count] == Erased(before, start, last);
      PopTail(count);
      r := Ok(start);
    }

    /** erase(pos): erase(pos, pos + 1), so erasing at the end cursor throws. */
    method EraseAt(pos: int) returns (r: Result<nat>)
      requires Valid()
      modifies this, buffer
      ensures Valid()
      ensures r.Ok? <==> 0 <= pos < old(size)
      ensures r.Err? ==> r.error == OutOfRange && unchanged(this, buffer)
      ensures r.Ok? ==> r.value == pos && Contents() == Erased(old(Contents()), pos, pos + 1)
      ensures r.Ok? ==> history == old(history) + [Destroyed(old(size) - 1)]
    {
      r := Erase(pos, pos + 1);
    }

    // ===== Copy, move, destruction =====

    /** The loop shared by the copy and move constructors and assignments:
        emplace_back each of other's elements, in order, into this empty vector. */
    method AppendAll(other: FixedVector<T>)
      requires Valid() && other.Valid() && size == 0 && other.size <= N
      requires other != this && other.buffer != buffer
      modifies this, buffer
      ensures Valid() && Contents() == other.Contents()
      ensures history == old(history) + ConstructUp(0, other.size)
    {
      ghost var source := other.Contents();
      for i := 0 to other.size
        invariant Valid() && size == i
        invariant Contents() == source[..i]
        invariant history == old(history) + ConstructUp(0, i)
      {
        var _ := EmplaceBack(other.Get(i));
        assert source[..i + 1] == source[..i] + [source[i]];
      }
    }

    /** The copy constructor: the new vector's elements are the source's, in
        order, constructed one by one with emplace_back; the source is untouched. */
    constructor Copy(other: FixedVector<T>)
      requires other.Valid()
      ensures Valid() && N == other.N && fresh(buffer)
      ensures Contents() == other.Contents()
      ensures history == ConstructUp(0, other.size)
    {
      N := other.N;
      buffer := new Slot<T>[other.N](_ => Dead);
      size := 0;
      history := [];
      new;
      AppendAll(other);
    }

    /** Copy assignment: a no-op on self-assignment; otherwise clear, then
        emplace_back each of the source's elements. The source is untouched. */
    method CopyAssign(other: FixedVector<T>)
      requires Valid() && other.Valid() && other.N == N
      requires other != this ==> other.buffer != buffer
      modifies this, buffer
      ensures Valid() && other.Valid()
      ensures Contents() == old(other.Contents())
      ensures other.Contents() == old(other.Contents())
      ensures other == this ==> history == old(history)
      ensures other != this ==> history == old(history) + DestroyUp(0, old(size)) + ConstructUp(0, other.size)
    {
      if other == this {
        return;
      }
      Clear();
      AppendAll(other);
    }

    /** The move constructor: the new vector takes the source's elements in
        order, then the source is cleared. */
    constructor Move(other: FixedVector<T>)
      requires other.Valid()
      modifies other, other.buffer
      ensures Valid() && other.Valid() && N == other.N && fresh(buffer)
      ensures Contents() == old(other.Contents()) && other.Contents() == []
      ensures history == ConstructUp(0, old(other.size))
      ensures other.history == old(other.history) + DestroyUp(0, old(other.size))
    {
      N := other.N;
      buffer := new Slot<T>[other.N](_ => Dead);
      size := 0;
      history := [];
      new;
      AppendAll(other);
      other.Clear();
    }

    /** Move assignment: a no-op on self-assignment; otherwise clear, take the
        source's elements in order, then clear the source. */
    method MoveAssign(other: FixedVector<T>)
      requires Valid() && other.Valid() && other.N == N
      requires other != this ==> other.buffer != buffer
      modifies this, buffer, other, other.buffer
      ensures Valid() && other.Valid()
      ensures other == this ==> unchanged(this, buffer)
      ensures other != this ==> Contents() == old(other.Contents()) && other.Contents() == []
      ensures other != this ==> history == old(history) + DestroyUp(0, old(size)) + ConstructUp(0, old(other.size))
      ensures other != this ==> other.history == old(other.history) + DestroyUp(0, old(other.size))
    {
      if other == this {
        return;
      }
      Clear();
      AppendAll(other);
      other.Clear();
    }

    /** The destructor: clear. Afterwards every object ever constructed in the
        buffer has been destroyed exactly once. */
    method Destroy()
      requires Valid()
      modifies this, buffer
      ensures Valid() && Contents() == []
      ensures history == old(history) + DestroyUp(0, old(size))
      ensures forall i :: 0 <= i < N ==> multiset(history)[Constructed(i)] == multiset(history)[Destroyed(i)]
    {
      Clear();
      forall i | 0 <= i < N
        ensures multiset(history)[Constructed(i)] == multiset(history)[Destroyed(i)]
      {
        ConstructionsMatched(history, i);
      }
    }
  }
}
