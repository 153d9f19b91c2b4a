/**
  Specification shared by both copies of the binary-insertion sort.

  The comparator `LT(x, y)` ("x must sort strictly before y") is modelled
  through a key function: `Lt(key, x, y) == key(x) < key(y)`.  Any such
  relation is a strict weak order, which is what the sorting arguments need.
*/
module SortSpec {

  /** The order predicate handed to the sort. */
  predicate Lt<T>(key: T -> int, x: T, y: T) {
    key(x) < key(y)
  }

  /** No element sorts strictly before an earlier one. */
  ghost predicate Sorted<T>(key: T -> int, s: seq<T>) {
    forall m, n :: 0 <= m < n < |s| ==> !Lt(key, s[n], s[m])
  }

  /** No adjacent pair is out of order. */
  ghost predicate NonDecreasing<T>(key: T -> int, s: seq<T>) {
    forall m :: 0 < m < |s| ==> !Lt(key, s[m], s[m - 1])
  }

  /** No adjacent pair is in strictly increasing order. */
  ghost predicate NonIncreasing<T>(key: T -> int, s: seq<T>) {
    forall m :: 0 < m < |s| ==> !Lt(key, s[m - 1], s[m])
  }

  lemma {:induction false} NonDecreasingChain<T>(key: T -> int, s: seq<T>, m: nat, n: nat)
    requires NonDecreasing(key, s) && m <= n < |s|
    ensures key(s[m]) <= key(s[n])
    decreases n - m
  {
    if m < n {
      NonDecreasingChain(key, s, m + 1, n);
      assert !Lt(key, s[m + 1], s[m]);
    }
  }

  /** A run with no descent grows by one element that does not descend. */
  lemma NonDecreasingExtend<T>(key: T -> int, s: seq<T>, k: nat)
    requires 1 <= k < |s| && NonDecreasing(key, s[..k]) && !Lt(key, s[k], s[k - 1])
    ensures NonDecreasing(key, s[..k + 1])
  {
    assert forall m :: 0 <= m < k ==> s[..k + 1][m] == s[..k][m];
  }

  /** A run with no ascent grows by one element that does not ascend. */
  lemma NonIncreasingExtend<T>(key: T -> int, s: seq<T>, k: nat)
    requires 1 <= k < |s| && NonIncreasing(key, s[..k]) && !Lt(key, s[k - 1], s[k])
    ensures NonIncreasing(key, s[..k + 1])
  {
    assert forall m :: 0 <= m < k ==> s[..k + 1][m] == s[..k][m];
  }

  /** The adjacent form and the all-pairs form of sortedness agree. */
  lemma NonDecreasingIffSorted<T>(key: T -> int, s: seq<T>)
    ensures NonDecreasing(key, s) <==> Sorted(key, s)
  {
    if NonDecreasing(key, s) {
      forall m, n | 0 <= m < n < |s| ensures !Lt(key, s[n], s[m]) {
        NonDecreasingChain(key, s, m, n);
      }
    }
    if Sorted(key, s) {
      forall m | 0 < m < |s| ensures !Lt(key, s[m], s[m - 1]) {
        assert !Lt(key, s[m], s[m - 1]);
      }
    }
  }

  /** `s[..len]` has no descent and, unless it is all of `s`, `s[len]` descends. */
  ghost predicate LongestNonDecreasingPrefix<T>(key: T -> int, s: seq<T>, len: nat) {
    && 1 <= len <= |s|
    && NonDecreasing(key, s[..len])
    && (len < |s| ==> Lt(key, s[len], s[len - 1]))
  }

  /** `s[..len]` has no strict ascent and, unless it is all of `s`, `s[len]` ascends. */
  ghost predicate LongestNonIncreasingPrefix<T>(key: T -> int, s: seq<T>, len: nat) {
    && 1 <= len <= |s|
    && NonIncreasing(key, s[..len])
    && (len < |s| ==> Lt(key, s[len - 1], s[len]))
  }

  /** The longest run with no descent of a sorted sequence is all of it. */
  lemma SortedIsOneRun<T>(key: T -> int, s: seq<T>, len: nat)
    requires Sorted(key, s) && LongestNonDecreasingPrefix(key, s, len)
    ensures len == |s|
  {
    assert forall m :: 0 < m < |s| ==> !Lt(key, s[m], s[m - 1]);
  }

  /** `s` in reverse order. */
  ghost function Reversed<T>(s: seq<T>): seq<T> {
    seq(|s|, m requires 0 <= m < |s| => s[|s| - 1 - m])
  }

  lemma ReversedInvolution<T>(s: seq<T>)
    ensures Reversed(Reversed(s)) == s
  {
  }

  lemma {:induction false} ReversedMultiset<T>(s: seq<T>)
    ensures multiset(Reversed(s)) == multiset(s)
  {
    if s != [] {
      var last := |s| - 1;
      assert Reversed(s) == [s[last]] + Reversed(s[..last]);
      ReversedMultiset(s[..last]);
      assert s == s[..last] + [s[last]];
    }
  }

  /** Reversing a prefix permutes the whole sequence. */
  lemma ReversedPrefixMultiset<T>(s: seq<T>, k: nat)
    requires k <= |s|
    ensures multiset(Reversed(s[..k]) + s[k..]) == multiset(s)
  {
    ReversedMultiset(s[..k]);
    assert s == s[..k] + s[k..];
  }

  /** A run with no strict ascent becomes sorted once reversed. */
  lemma NonIncreasingReversedSorted<T>(key: T -> int, s: seq<T>)
    requires NonIncreasing(key, s)
    ensures Sorted(key, Reversed(s))
  {
    var r := Reversed(s);
    forall m | 0 < m < |r| ensures !Lt(key, r[m], r[m - 1]) {
      assert r[m] == s[|s| - 1 - m] && r[m - 1] == s[|s| - 1 - m + 1];
    }
    NonDecreasingIffSorted(key, r);
  }

  /**
    Single-slot right rotation of `s[left..right]`: the element at `right`
    moves to `left` and the elements in between move up by one.
  */
  ghost function RotateRight<T>(s: seq<T>, left: nat, right: nat): seq<T>
    requires left <= right < |s|
  {
    s[..left] + [s[right]] + s[left..right] + s[right + 1..]
  }

  lemma RotateRightAt<T>(s: seq<T>, left: nat, right: nat)
    requires left <= right < |s|
    ensures |RotateRight(s, left, right)| == |s|
    ensures RotateRight(s, left, right)[left] == s[right]
    ensures forall m :: left <= m < right ==> RotateRight(s, left, right)[m + 1] == s[m]
    ensures forall m :: 0 <= m < |s| && (m < left || right < m) ==> RotateRight(s, left, right)[m] == s[m]
  {
  }

  lemma RotateRightNoop<T>(s: seq<T>, k: nat)
    requires k < |s|
    ensures RotateRight(s, k, k) == s
  {
    assert s == s[..k] + [s[k]] + s[k + 1..];
  }

  lemma RotateRightMultiset<T>(s: seq<T>, left: nat, right: nat)
    requires left <= right < |s|
    ensures multiset(RotateRight(s, left, right)) == multiset(s)
  {
    assert s == s[..left] + s[left..right] + [s[right]] + s[right + 1..];
  }

  /** `r` is `s` rotated right over `[left, right]`, said element by element. */
  ghost predicate IsRightRotation<T>(r: seq<T>, s: seq<T>, left: nat, right: nat)
    requires left <= right < |s|
  {
    && |r| == |s|
    && r[left] == s[right]
    && (forall m :: left < m <= right ==> r[m] == s[m - 1])
    && (forall m :: 0 <= m < |s| && (m < left || right < m) ==> r[m] == s[m])
  }

  /** The element-wise description and the slicing definition agree. */
  lemma RightRotationIff<T>(r: seq<T>, s: seq<T>, left: nat, right: nat)
    requires left <= right < |s|
    ensures IsRightRotation(r, s, left, right) <==> r == RotateRight(s, left, right)
  {
    var t := RotateRight(s, left, right);
    RotateRightAt(s, left, right);
    if IsRightRotation(r, s, left, right) {
      forall m | 0 <= m < |s| ensures r[m] == t[m] {
        if left < m <= right {
          assert t[(m - 1) + 1] == s[m - 1];
        }
      }
    }
    if r == t {
      forall m | left < m <= right ensures r[m] == s[m - 1] {
        assert t[(m - 1) + 1] == s[m - 1];
      }
    }
  }

  /** A rotation inside the first `n` slots is a rotation of that prefix. */
  lemma RotateRightWithin<T>(s: seq<T>, left: nat, right: nat, n: nat)
    requires left <= right < n <= |s|
    ensures RotateRight(s, left, right)[..n] == RotateRight(s[..n], left, right)
    ensures RotateRight(s, left, right)[n..] == s[n..]
  {
    var r, t := RotateRight(s, left, right), RotateRight(s[..n], left, right);
    RightRotationIff(r, s, left, right);
    RightRotationIff(t, s[..n], left, right);
    assert IsRightRotation(r[..n], s[..n], left, right);
    RightRotationIff(r[..n], s[..n], left, right);
    assert r[n..] == s[n..];
  }

  /**
    `pos` is where `x` goes in `s`: after every element `x` does not sort
    before, and before every element it does.
  */
  ghost predicate IsInsertionPoint<T>(key: T -> int, s: seq<T>, x: T, pos: int) {
    && 0 <= pos <= |s|
    && (forall m :: 0 <= m < pos ==> !Lt(key, x, s[m]))
    && (forall m :: pos <= m < |s| ==> Lt(key, x, s[m]))
  }

  /** An element that sorts after all of `s` is inserted at the end. */
  lemma SortedInsertionPointIsEnd<T>(key: T -> int, s: seq<T>, x: T, pos: int)
    requires Sorted(key, s + [x]) && IsInsertionPoint(key, s, x, pos)
    ensures pos == |s|
  {
    // `x` sorts before no element of `s`, since each comes before it in the
    // sorted `s + [x]`, while it sorts before every element from `pos` on.
    forall m | 0 <= m < |s| ensures !Lt(key, x, s[m]) {
      assert (s + [x])[m] == s[m] && (s + [x])[|s|] == x;
    }
    assert !Lt(key, x, (s + [x])[pos]);
  }

  lemma SortedPrefix<T>(key: T -> int, s: seq<T>, n: nat)
    requires Sorted(key, s) && n <= |s|
    ensures Sorted(key, s[..n])
  {
    forall m, k | 0 <= m < k < n ensures !Lt(key, s[..n][k], s[..n][m]) {
      assert s[..n][k] == s[k] && s[..n][m] == s[m];
    }
  }

  /** Inserting at the insertion point keeps a sorted sequence sorted. */
  lemma InsertKeepsSorted<T>(key: T -> int, s: seq<T>, x: T, pos: int)
    requires Sorted(key, s) && IsInsertionPoint(key, s, x, pos)
    ensures Sorted(key, s[..pos] + [x] + s[pos..])
  {
    var t := s[..pos] + [x] + s[pos..];
    forall m, n | 0 <= m < n < |t| ensures !Lt(key, t[n], t[m]) {
      if n < pos {
        assert t[n] == s[n] && t[m] == s[m];
      } else if n == pos {
        assert t[m] == s[m];
      } else if m == pos {
        assert t[n] == s[n - 1];
      } else if m < pos {
        assert t[n] == s[n - 1] && t[m] == s[m];
      } else {
        assert t[n] == s[n - 1] && t[m] == s[m - 1];
      }
    }
  }

  /** The first element of a sorted sequence is a least element. */
  lemma SortedHeadIsLeast<T>(key: T -> int, s: seq<T>, x: T)
    requires Sorted(key, s) && x in multiset(s)
    ensures |s| > 0 && key(s[0]) <= key(x)
  {
    assert x in s;
    var j :| 0 <= j < |s| && s[j] == x;
    if j > 0 {
      assert !Lt(key, s[j], s[0]);
    }
  }

  /**
    When the key identifies elements (a total order such as `<` on
    integers), a sorted permutation is unique: every correct sort of the
    same input yields the same sequence.
  */
  lemma {:induction false} SortedPermutationUnique<T>(key: T -> int, s: seq<T>, t: seq<T>)
    requires forall x, y :: key(x) == key(y) ==> x == y
    requires Sorted(key, s) && Sorted(key, t) && multiset(s) == multiset(t)
    ensures s == t
    decreases |s|
  {
    if s == [] {
      assert |t| == |multiset(t)| == 0;
    } else {
      assert s[0] in multiset(s);
      SortedHeadIsLeast(key, t, s[0]);
      assert t[0] in multiset(t);
      SortedHeadIsLeast(key, s, t[0]);
      assert key(s[0]) == key(t[0]);
      assert s[0] == t[0];
      calc {
        multiset(s[1..]);
        { assert s == [s[0]] + s[1..]; }
        multiset(s) - multiset{s[0]};
        multiset(t) - multiset{t[0]};
        { assert t == [t[0]] + t[1..]; }
        multiset(t[1..]);
      }
      assert Sorted(key, s[1..]) && Sorted(key, t[1..]);
      SortedPermutationUnique(key, s[1..], t[1..]);
      assert s == [s[0]] + s[1..] && t == [t[0]] + t[1..];
    }
  }

  /** On an input that is already sorted, each insertion leaves it as it is. */
  lemma InsertIntoSortedIsNoop<T>(key: T -> int, prev: seq<T>, pos: nat, i: nat, nmemb: nat)
    requires i < nmemb <= |prev|
    requires Sorted(key, prev[..nmemb]) && IsInsertionPoint(key, prev[..i], prev[i], pos)
    ensures RotateRight(prev, pos, i) == prev
  {
    assert prev[..nmemb][..i + 1] == prev[..i] + [prev[i]];
    SortedPrefix(key, prev[..nmemb], i + 1);
    SortedInsertionPointIsEnd(key, prev[..i], prev[i], pos);
    RotateRightNoop(prev, i);
  }

  /** One step of the insertion loop keeps its invariant. */
  lemma InsertStep<T>(key: T -> int, prev: seq<T>, pos: nat, i: nat, nmemb: nat)
    requires i < nmemb <= |prev|
    requires Sorted(key, prev[..i]) && IsInsertionPoint(key, prev[..i], prev[i], pos)
    ensures Sorted(key, RotateRight(prev, pos, i)[..i + 1])
    ensures multiset(RotateRight(prev, pos, i)[..nmemb]) == multiset(prev[..nmemb])
    ensures RotateRight(prev, pos, i)[i + 1..] == prev[i + 1..]
  {
    var r := RotateRight(prev, pos, i);
    assert r[..i + 1] == prev[..i][..pos] + [prev[i]] + prev[..i][pos..];
    InsertKeepsSorted(key, prev[..i], prev[i], pos);
    RotateRightWithin(prev, pos, i, nmemb);
    RotateRightMultiset(prev[..nmemb], pos, i);
    RotateRightWithin(prev, pos, i, i + 1);
  }

  /**
    The same step stated against the sequence `e0` the loop started from:
    the sorted run grows by one, the elements past it are still those of
    `e0`, and the whole is still a permutation of `e0`.
  */
  lemma InsertLoopStep<T>(key: T -> int, e0: seq<T>, prev: seq<T>, pos: nat, i: nat)
    requires i < |prev| == |e0|
    requires Sorted(key, prev[..i]) && IsInsertionPoint(key, prev[..i], prev[i], pos)
    requires prev[i..] == e0[i..] && multiset(prev) == multiset(e0)
    ensures Sorted(key, RotateRight(prev, pos, i)[..i + 1])
    ensures RotateRight(prev, pos, i)[i + 1..] == e0[i + 1..]
    ensures multiset(RotateRight(prev, pos, i)) == multiset(e0)
  {
    var n := |prev|;
    InsertStep(key, prev, pos, i, n);
    assert prev[..n] == prev;
    assert RotateRight(prev, pos, i)[..n] == RotateRight(prev, pos, i);
    assert prev[i + 1..] == prev[i..][1..];
    assert e0[i + 1..] == e0[i..][1..];
  }
}
