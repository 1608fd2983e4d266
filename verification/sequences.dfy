/** The sequence-level meaning of the vector's operations and the errors they raise. */
module Sequences {

  /** The exceptions the container throws: std::length_error when full,
      std::out_of_range for a bad index, an empty pop or a bad cursor. */
  datatype Error = LengthError | OutOfRange

  /** The outcome of an operation that may throw. */
  datatype Result<R> = Ok(value: R) | Err(error: Error)

  /** s with v spliced in so that it lands at index i. */
  function Inserted<T>(s: seq<T>, i: nat, v: T): (r: seq<T>)
    requires i <= |s|
    ensures |r| == |s| + 1 && r[i] == v
    ensures forall j :: 0 <= j < i ==> r[j] == s[j]
    ensures forall j :: i < j < |r| ==> r[j] == s[j - 1]
  {
    s[..i] + [v] + s[i..]
  }

  /** s with the elements at indices first .. last - 1 cut out and the gap closed. */
  function Erased<T>(s: seq<T>, first: nat, last: nat): (r: seq<T>)
    requires first <= last <= |s|
    ensures |r| == |s| - (last - first)
    ensures forall j :: 0 <= j < first ==> r[j] == s[j]
    ensures forall j :: first <= j < |r| ==> r[j] == s[j + (last - first)]
  {
    s[..first] + s[last..]
  }

  /** A sequence one longer than s, holding v at i, s's elements below i and
      s's elements from i on one place higher, is s with v inserted at i. */
  lemma InsertedPointwise<T>(s: seq<T>, t: seq<T>, i: nat, v: T)
    requires i <= |s| && |t| == |s| + 1 && t[i] == v
    requires forall j :: 0 <= j < i ==> t[j] == s[j]
    requires forall j :: i < j < |t| ==> t[j] == s[j - 1]
    ensures t == Inserted(s, i, v)
  {
  }

  /** A sequence that agrees with s below start, with s shifted down by count
      from start to |s| - count, and with s above that, is s with [start,
      start + count) erased, followed by the last count elements of s. */
  lemma CompactedIsErased<T>(s: seq<T>, t: seq<T>, start: nat, count: nat)
    requires start + count <= |s| == |t|
    requires forall j :: 0 <= j < start ==> t[j] == s[j]
    requires forall j :: start <= j < |s| - count ==> t[j] == s[j + count]
    requires forall j :: |s| - count <= j < |s| ==> t[j] == s[j]
    ensures t[..|s| - count] == Erased(s, start, start + count)
    ensures t[|s| - count..] == s[|s| - count..]
  {
  }

  /** Erasing the element just inserted gives back the original sequence. */
  lemma EraseUndoesInsert<T>(s: seq<T>, i: nat, v: T)
    requires i <= |s|
    ensures Erased(Inserted(s, i, v), i, i + 1) == s
  {
    var r := Erased(Inserted(s, i, v), i, i + 1);
    assert forall j :: 0 <= j < |s| ==> r[j] == s[j];
  }

  /** Re-inserting an erased element at its old index gives back the original sequence. */
  lemma InsertUndoesErase<T>(s: seq<T>, i: nat)
    requires i < |s|
    ensures Inserted(Erased(s, i, i + 1), i, s[i]) == s
  {
    var r := Inserted(Erased(s, i, i + 1), i, s[i]);
    assert forall j :: 0 <= j < |s| ==> r[j] == s[j];
  }

  /** Inserting at the end cursor is appending. */
  lemma InsertAtEndAppends<T>(s: seq<T>, v: T)
    ensures Inserted(s, |s|, v) == s + [v]
  {
  }

  /** Erasing the last element is dropping it. */
  lemma EraseLastDrops<T>(s: seq<T>)
    requires s != []
    ensures Erased(s, |s| - 1, |s|) == s[..|s| - 1]
  {
  }

  /** Erasing an empty range changes nothing. */
  lemma EraseEmptyRange<T>(s: seq<T>, i: nat)
    requires i <= |s|
    ensures Erased(s, i, i) == s
  {
  }

  /** Erasing [i, j) and then [i, i + k) from the result is erasing [i, j + k). */
  lemma EraseComposes<T>(s: seq<T>, i: nat, j: nat, k: nat)
    requires i <= j && j + k <= |s|
    ensures Erased(Erased(s, i, j), i, i + k) == Erased(s, i, j + k)
  {
    var r, t := Erased(Erased(s, i, j), i, i + k), Erased(s, i, j + k);
    assert forall m :: 0 <= m < |t| ==> r[m] == t[m];
  }
}
