/**
  Element moves and the binary-insertion sort of
  quicksorts/internal/quicksorts-common.h, at element level.

  The source moves whole elements with memcpy/memmove through a scratch
  buffer; here a slot of `array<T>` holds one element and a move is an
  assignment.  Pointers into the array become slot indices.
*/
module CommonMoves {
  import opened SortSpec

  /** SWAP: exchanges the elements in slots `p1` and `p2`. */
  method Swap<T>(arr: array<T>, p1: nat, p2: nat)
    requires p1 < arr.Length && p2 < arr.Length && p1 != p2
    modifies arr
    ensures arr[..] == old(arr[..])[p1 := old(arr[p2])][p2 := old(arr[p1])]
    ensures multiset(arr[..]) == multiset(old(arr[..]))
  {
    var elembuf := arr[p1];
    arr[p1] := arr[p2];
    arr[p2] := elembuf;
  }

  /** REVERSE_PREFIX: reverses the first `pfxLen` slots, leaving the rest. */
  method ReversePrefix<T>(arr: array<T>, pfxLen: nat)
    requires pfxLen <= arr.Length
    modifies arr
    ensures arr[..] == Reversed(old(arr[..pfxLen])) + old(arr[pfxLen..])
    ensures multiset(arr[..]) == multiset(old(arr[..]))
  {
    var pLeft: int := 0;
    var pRight: int := pfxLen - 1;
    while pLeft < pRight
      invariant 0 <= pLeft && pRight == pfxLen - 1 - pLeft && pLeft <= pRight + 1
      invariant forall m :: 0 <= m < pLeft ==> arr[m] == old(arr[pfxLen - 1 - m]) && arr[pfxLen - 1 - m] == old(arr[m])
      invariant forall m :: pLeft <= m <= pRight ==> arr[m] == old(arr[m])
      invariant arr[pfxLen..] == old(arr[pfxLen..])
      invariant multiset(arr[..]) == multiset(old(arr[..]))
    {
      Swap(arr, pLeft, pRight);
      pLeft := pLeft + 1;
      pRight := pRight - 1;
    }
    assert arr[..] == Reversed(old(arr[..pfxLen])) + old(arr[pfxLen..]);
  }

  /**
    INSERTION_POSITION: binary search, with a ceiling midpoint, for the slot
    where `arr[i]` belongs in the sorted run `arr[0..i)`: after every
    element it does not sort before.
  */
  method InsertionPosition<T>(arr: array<T>, key: T -> int, i: nat) returns (pos: nat)
    requires 1 <= i < arr.Length
    requires Sorted(key, arr[..i])
    ensures IsInsertionPoint(key, arr[..i], arr[i], pos)
  {
    var j: nat := 0;
    var k: nat := i - 1;
    while j != k
      invariant j <= k < i
      invariant j == 0 || !Lt(key, arr[i], arr[j])
      invariant forall m :: k < m < i ==> Lt(key, arr[i], arr[m])
      decreases k - j
    {
      // Ceiling of the midway point: j < h <= k, so h - 1 cannot underflow.
      var h := k - (k - j) / 2;
      if Lt(key, arr[i], arr[h]) {
        k := h - 1;
      } else {
        j := h;
      }
    }
    if j != 0 {
      pos := j + 1;
      forall m | 0 <= m < pos ensures !Lt(key, arr[i], arr[m]) {
        if m < j {
          assert !Lt(key, arr[..i][j], arr[..i][m]);
        }
      }
    } else if Lt(key, arr[i], arr[0]) {
      pos := 0;
    } else {
      pos := 1;
    }
  }

  /**
    SUBCIRCULATE_RIGHT: the element at `right` moves to `left` and those in
    `[left, right)` move up one slot.  The memmove of the block is the
    simultaneous assignment of the forall statement.
  */
  method SubcirculateRight<T>(arr: array<T>, left: nat, right: nat)
    requires left <= right < arr.Length
    modifies arr
    ensures arr[..] == RotateRight(old(arr[..]), left, right)
  {
    if left != right {
      var elembuf := arr[right];
      forall m | left < m <= right {
        arr[m] := arr[m - 1];
      }
      arr[left] := elembuf;
    }
    if left == right {
      RotateRightNoop(old(arr[..]), right);
    }
  }

  /**
    INSERTION_SORT, from the point where the prefix-maker has returned: the
    caller's prefix-maker leaves `arr[0..pfxLen)` sorted with
    `2 <= pfxLen <= nmemb`; each remaining element is then inserted at its
    binary-search position.  Nothing happens when `nmemb <= 1`.
  */
  method InsertionSort<T>(arr: array<T>, key: T -> int, nmemb: nat, pfxLen: nat)
    requires nmemb <= arr.Length
    requires nmemb > 1 ==> 2 <= pfxLen <= nmemb && Sorted(key, arr[..pfxLen])
    modifies arr
    ensures Sorted(key, arr[..nmemb])
    ensures multiset(arr[..nmemb]) == multiset(old(arr[..nmemb]))
    ensures arr[nmemb..] == old(arr[nmemb..])
    ensures Sorted(key, old(arr[..nmemb])) ==> arr[..] == old(arr[..])
  {
    if nmemb > 1 {
      var i := pfxLen;
      while i != nmemb
        invariant pfxLen <= i <= nmemb
        invariant Sorted(key, arr[..i])
        invariant multiset(arr[..nmemb]) == multiset(old(arr[..nmemb]))
        invariant arr[i..] == old(arr[i..])
        invariant Sorted(key, old(arr[..nmemb])) ==> arr[..] == old(arr[..])
        decreases nmemb - i
      {
        ghost var prev := arr[..];
        var pos := InsertionPosition(arr, key, i);
        var left, right := pos, i;
        SubcirculateRight(arr, left, right);
        InsertStep(key, prev, pos, i, nmemb);
        assert arr[..i + 1] == RotateRight(prev, pos, i)[..i + 1];
        assert arr[..nmemb] == RotateRight(prev, pos, i)[..nmemb];
        assert arr[i + 1..] == prev[i + 1..] == old(arr[i + 1..]) by {
          assert prev[i + 1..] == prev[i..][1..];
          assert old(arr[i + 1..]) == old(arr[i..])[1..];
        }
        if Sorted(key, old(arr[..nmemb])) {
          assert prev[..nmemb] == old(arr[..nmemb]);
          InsertIntoSortedIsNoop(key, prev, pos, i, nmemb);
        }
        i := i + 1;
      }
    }
    assert arr[..] == arr[..nmemb] + arr[nmemb..];
  }
}
