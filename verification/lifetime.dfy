/** Storage slots and the lifetime discipline of the objects placed in them.

    The vector's buffer is raw memory carved into N slots. A slot is either raw
    (Dead) or holds a fully constructed element (Live). Every placement-new and
    every explicit destructor call is recorded as an Event, so that a whole
    history of constructions and destructions can be checked against the rule
    "construct only into raw memory, destroy only a live object". */
module Lifetime {

  /** One slot of the inline buffer. */
  datatype Slot<T> = Dead | Live(value: T)

  /** A placement-new into a slot, or an explicit destructor call on it. */
  datatype Event = Constructed(slot: nat) | Destroyed(slot: nat)

  /** Whether slot i holds a live object after history h, starting from raw memory. */
  function LiveAfter(h: seq<Event>, i: nat): bool
  {
    if h == [] then false
    else if h[|h| - 1].slot == i then h[|h| - 1].Constructed?
    else LiveAfter(h[..|h| - 1], i)
  }

  /** No slot is constructed while live, and none is destroyed unless live. */
  predicate Disciplined(h: seq<Event>)
  {
    h == [] ||
    (Disciplined(h[..|h| - 1]) &&
     (h[|h| - 1].Constructed? <==> !LiveAfter(h[..|h| - 1], h[|h| - 1].slot)))
  }

  /** The elements held by a run of live slots, in slot order. */
  function Values<T>(s: seq<Slot<T>>): (r: seq<T>)
    requires forall i :: 0 <= i < |s| ==> s[i].Live?
    ensures |r| == |s|
    ensures forall i :: 0 <= i < |s| ==> s[i] == Live(r[i])
  {
    seq(|s|, i requires 0 <= i < |s| => s[i].value)
  }

  /** Destructor calls on slots lo, lo + 1, ..., hi - 1, in increasing order. */
  function DestroyUp(lo: nat, hi: nat): seq<Event>
    decreases hi
  {
    if hi <= lo then [] else DestroyUp(lo, hi - 1) + [Destroyed(hi - 1)]
  }

  /** Placement-news into slots lo, lo + 1, ..., hi - 1, in increasing order. */
  function ConstructUp(lo: nat, hi: nat): seq<Event>
    decreases hi
  {
    if hi <= lo then [] else ConstructUp(lo, hi - 1) + [Constructed(hi - 1)]
  }

  /** Destructor calls on slots hi - 1, hi - 2, ..., lo, in decreasing order. */
  function DestroyDown(lo: nat, hi: nat): seq<Event>
    decreases hi - lo
  {
    if hi <= lo then [] else DestroyDown(lo + 1, hi) + [Destroyed(lo)]
  }

  /** The relocations of a shift toward the tail: for j = hi down to lo + 1,
      construct slot j from slot j - 1, then destroy slot j - 1. */
  function ShiftUp(lo: nat, hi: nat): seq<Event>
    decreases hi - lo
  {
    if hi <= lo then [] else ShiftUp(lo + 1, hi) + [Constructed(lo + 1), Destroyed(lo)]
  }

  /** The buffer after a shift toward the tail over the live run [i, n):
      slot i is vacated and slots i + 1 .. n hold what slots i .. n - 1 held. */
  function ShiftedSlots<T>(b: seq<Slot<T>>, i: nat, n: nat): (r: seq<Slot<T>>)
    requires i <= n < |b|
    ensures |r| == |b| && r[i] == Dead
    ensures forall j :: 0 <= j < i ==> r[j] == b[j]
    ensures forall j :: i < j <= n ==> r[j] == b[j - 1]
    ensures forall j :: n < j < |b| ==> r[j] == b[j]
  {
    b[..i] + [Dead] + b[i..n] + b[n + 1..]
  }

  /** In a disciplined history every construction in a slot is matched by
      exactly one destruction, except the one that is still live. In
      particular no slot is ever destroyed more often than it was constructed. */
  lemma {:induction false} ConstructionsMatched(h: seq<Event>, i: nat)
    requires Disciplined(h)
    ensures multiset(h)[Constructed(i)] == multiset(h)[Destroyed(i)] + (if LiveAfter(h, i) then 1 else 0)
  {
    if h != [] {
      var p := h[..|h| - 1];
      ConstructionsMatched(p, i);
      assert h == p + [h[|h| - 1]];
    }
  }

  /** Destroying the run lo .. hi - 1 destroys each of those slots exactly once
      and constructs nothing. */
  lemma {:induction false} DestroyUpOnce(lo: nat, hi: nat, i: nat)
    ensures multiset(DestroyUp(lo, hi))[Destroyed(i)] == (if lo <= i < hi then 1 else 0)
    ensures multiset(DestroyUp(lo, hi))[Constructed(i)] == 0
    decreases hi
  {
    if lo < hi {
      DestroyUpOnce(lo, hi - 1, i);
    }
  }

  /** Appending one event to a history changes only the liveness of its slot. */
  lemma LiveAfterStep(h: seq<Event>, e: Event, i: nat)
    ensures LiveAfter(h + [e], i) == if e.slot == i then e.Constructed? else LiveAfter(h, i)
  {
    assert (h + [e])[..|h|] == h;
  }

  /** A history stays disciplined when an event that respects the slot's state is appended. */
  lemma DisciplinedStep(h: seq<Event>, e: Event)
    requires Disciplined(h)
    requires e.Constructed? <==> !LiveAfter(h, e.slot)
    ensures Disciplined(h + [e])
  {
    assert (h + [e])[..|h|] == h;
  }
}
