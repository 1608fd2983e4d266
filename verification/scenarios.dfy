/** Clients of FixedVector that check the container's documented behaviour
    using nothing but its contracts. */
module Scenarios {
  import opened Lifetime
  import opened Sequences
  import opened FixedVectors

  /** A fresh vector of capacity n filled with s by repeated push_back. */
  method Filled(n: nat, s: seq<int>) returns (v: FixedVector<int>)
    requires |s| <= n
    ensures fresh(v) && fresh(v.buffer) && v.Valid() && v.N == n && v.Contents() == s
  {
    v := new FixedVector<int>(n);
    for i := 0 to |s|
      invariant fresh(v) && fresh(v.buffer) && v.Valid() && v.N == n
      invariant v.Contents() == s[..i]
    {
      var _ := v.PushBack(s[i]);
      assert s[..i + 1] == s[..i] + [s[i]];
    }
  }

  /** A = [1, 2, 3], B = copy of A, B.push_back(4): A is unaffected. */
  method CopyIsIndependent() {
    var a := Filled(4, [1, 2, 3]);
    var b := new FixedVector.Copy(a);
    var r := b.PushBack(4);
    assert r.Ok?;
    assert a.Contents() == [1, 2, 3] && b.Contents() == [1, 2, 3, 4];
  }

  /** A = [1, 2, 3], B = move(A): A is empty and B holds [1, 2, 3]. */
  method MoveEmptiesSource() {
    var a := Filled(3, [1, 2, 3]);
    var b := new FixedVector.Move(a);
    assert a.Size() == 0 && b.Contents() == [1, 2, 3];
  }

  /** [1, 2, 3].insert(1, 9) is [1, 9, 2, 3], and the returned cursor is 1. */
  method InsertShiftsTail() {
    var v := Filled(4, [1, 2, 3]);
    var r := v.Insert(1, 9);
    assert r == Ok(1);
    assert v.Contents() == Inserted([1, 2, 3], 1, 9) == [1, 9, 2, 3];
  }

  /** A full vector throws length_error from insert even at a bad position. */
  method FullInsertChecksCapacityFirst() {
    var v := Filled(1, [1]);
    var r := v.Insert(5, 2);
    assert r == Err(LengthError) && v.Contents() == [1];
  }

  /** [1, 2, 3, 4].erase(1, 3) is [1, 4]; then erase(end()) throws. */
  method EraseClosesGap() {
    var v := Filled(4, [1, 2, 3, 4]);
    var r := v.Erase(1, 3);
    assert r == Ok(1);
    assert v.Contents() == Erased([1, 2, 3, 4], 1, 3) == [1, 4];
    r := v.EraseAt(2);
    assert r == Err(OutOfRange) && v.Contents() == [1, 4];
  }

  /** N pushes succeed, the next throws and leaves all N elements in place;
      after clear the storage can be filled again. */
  method CapacityIsEnforcedAndReusable() {
    var v := Filled(2, [1, 2]);
    var r := v.PushBack(3);
    assert r == Err(LengthError) && v.Contents() == [1, 2] && v.Full();
    v.Clear();
    assert v.Empty();
    r := v.PushBack(5);
    assert r.Ok? && v.Contents() == [5];
  }

  /** at(0) and pop_back() on an empty vector both throw out_of_range. */
  method EmptyAccessThrows() {
    var v := new FixedVector<int>(2);
    assert v.At(0) == Err(OutOfRange);
    var r := v.PopBack();
    assert r == Err(OutOfRange) && v.Size() == 0;
  }

  /** After any mix of operations and the destructor, every slot has seen as
      many destructions as constructions. */
  method DestructionBalances() {
    var v := Filled(3, [1]);
    var _ := v.Insert(0, 2);
    var _ := v.EraseAt(1);
    v.Destroy();
    assert multiset(v.history)[Constructed(0)] == multiset(v.history)[Destroyed(0)];
  }
}
