/** Two places where the code as written departs from what it evidently means
    to do. Each is modelled here as written, with the input that shows it; the
    vector itself (module FixedVectors) follows the intended behaviour. */
module Findings {
  import opened Lifetime
  import opened Sequences

  /** insert(pos, x) as written, when x refers to element k of the same vector:
      emplace forwards its argument to placement-new only after the shift loop,
      so it reads whatever slot k holds by then. */
  function AliasedArgumentAsWritten<T>(slots: seq<Slot<T>>, index: nat, size: nat, k: nat): (read: Slot<T>)
    requires index <= size < |slots| && k < size
    ensures k < index ==> read == slots[k]
    ensures k == index ==> read == Dead
    ensures index < k ==> read == slots[k - 1]
  {
    ShiftedSlots(slots, index, size)[k]
  }

  /** On [1, 2, 3] with room for one more, insert(begin(), v[1]) constructs 1
      rather than 2 at the front, and insert(begin(), v[0]) reads a destroyed object. */
  lemma AliasedInsertCounterexample()
    ensures AliasedArgumentAsWritten([Live(1), Live(2), Live(3), Dead], 0, 3, 1) == Live(1)
    ensures Inserted([1, 2, 3], 0, 2) == [2, 1, 2, 3]
    ensures AliasedArgumentAsWritten([Live(1), Live(2), Live(3), Dead], 0, 3, 0) == Dead
  {
  }

  /** erase's compaction loop as written, from index i: while i + count < |s|,
      element i + count is move-assigned onto element i. With an empty range
      (count == 0) that is a self-move, whose outcome selfMove gives. */
  function CompactAsWritten<T>(s: seq<T>, i: nat, count: nat, selfMove: T -> T): (r: seq<T>)
    requires i <= |s|
    ensures |r| == |s|
    ensures forall j :: 0 <= j < i ==> r[j] == s[j]
    ensures count > 0 && i + count <= |s| ==> r[..|s| - count] == Erased(s, i, i + count)
    ensures count == 0 ==> forall j :: i <= j < |s| ==> r[j] == selfMove(s[j])
    decreases |s| - i
  {
    if i + count >= |s| then s
    else CompactAsWritten(s[i := if count == 0 then selfMove(s[i]) else s[i + count]], i + 1, count, selfMove)
  }

  /** erase(begin(), begin()) on [1, 2] whose element type empties itself on
      self-move-assignment (zero here) leaves [0, 0] instead of [1, 2]. */
  lemma SelfMoveCounterexample()
    ensures CompactAsWritten([1, 2], 0, 0, x => 0) == [0, 0]
    ensures Erased([1, 2], 0, 0) == [1, 2]
  {
    var r := CompactAsWritten([1, 2], 0, 0, x => 0);
    assert r[0] == 0 && r[1] == 0;
  }
}
