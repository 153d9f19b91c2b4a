/**
  The explicit work stack of quicksorts/internal/quicksorts-common.h
  (STK_MAKE, STK_PUSH, STK_POP): pending ranges of the array to sort,
  standing in for recursion.  The 64 entries (CHAR_BIT * sizeof (size_t))
  are filled from the top of the array downward: with `depth` entries live,
  the most recent one is at index `Capacity - depth`.
*/
module CommonStack {

  /** CHAR_BIT * sizeof (size_t) on a 64-bit target. */
  const Capacity: nat := 64

  /** A pending range: where it starts in the array and how many elements. */
  datatype Entry = Entry(p: nat, n: nat)

  class RangeStack {
    var stk: array<Entry>
    var depth: nat

    ghost predicate Valid()
      reads this
    {
      stk.Length == Capacity && depth <= Capacity
    }

    /** The live entries, oldest first; the last one is the top. */
    ghost function Contents(): seq<Entry>
      reads this, stk
      requires Valid()
    {
      var entries, live := stk[..], depth;
      seq(live, i requires 0 <= i < live => entries[Capacity - 1 - i])
    }

    /** STK_MAKE: an empty stack whose entries are all zeroed. */
    constructor ()
      ensures Valid() && fresh(stk)
      ensures depth == 0 && Contents() == []
      ensures forall i :: 0 <= i < Capacity ==> stk[i] == Entry(0, 0)
    {
      stk := new Entry[Capacity](_ => Entry(0, 0));
      depth := 0;
    }

    /** STK_PUSH: the source asserts `depth < Capacity` before pushing. */
    method Push(p: nat, n: nat)
      requires Valid() && depth < Capacity
      modifies this, stk
      ensures Valid() && stk == old(stk)
      ensures depth == old(depth) + 1
      ensures Contents() == old(Contents()) + [Entry(p, n)]
    {
      depth := depth + 1;
      stk[Capacity - depth] := Entry(p, n);
      assert Contents() == old(Contents()) + [Entry(p, n)];
    }

    /** STK_POP: the source asserts `0 < depth`; returns the top entry. */
    method Pop() returns (p: nat, n: nat)
      requires Valid() && 0 < depth
      modifies this
      ensures Valid() && stk == old(stk) && unchanged(stk)
      ensures depth == old(depth) - 1
      ensures Entry(p, n) == old(Contents())[old(depth) - 1]
      ensures Contents() == old(Contents())[..old(depth) - 1]
    {
      var entry := stk[Capacity - depth];
      p, n := entry.p, entry.n;
      depth := depth - 1;
    }
  }

  /** Last in, first out: a pop right after a push returns what was pushed. */
  method PushThenPop(s: RangeStack, p: nat, n: nat) returns (p': nat, n': nat)
    requires s.Valid() && s.depth < Capacity
    modifies s, s.stk
    ensures s.Valid() && s.Contents() == old(s.Contents())
    ensures p' == p && n' == n
  {
    s.Push(p, n);
    p', n' := s.Pop();
  }
}
