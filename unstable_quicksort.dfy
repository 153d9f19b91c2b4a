/**
  The byte-loop binary-insertion sort of quicksorts/unstable-quicksort.h.

  The array is a buffer of bytes holding `n` elements of `elemsz` bytes
  each; every method is specified through the element view
  `Elems(arr[..], elemsz, n)` and promises to leave the bytes past the view
  alone.  A pointer into the buffer is its byte offset from `arr`; where
  the proof needs to know which element a pointer addresses, a ghost slot
  index names it.
*/
module UnstableQuicksort {
  import opened SortSpec
  import opened ByteView

  /** The state of SWAP after its first `i` bytes have been exchanged. */
  ghost function SwapPartial(e0: seq<seq<bv8>>, q1: nat, q2: nat, i: nat): seq<seq<bv8>>
    requires q1 < |e0| && q2 < |e0| && i <= |e0[q1]| == |e0[q2]|
  {
    e0[q1 := Mix(e0[q2], e0[q1], i)][q2 := Mix(e0[q1], e0[q2], i)]
  }

  /**
    Exchanging byte `i` of both elements, at byte offsets `o1` and `o2`,
    advances SWAP by one byte.
  */
  lemma SwapByteStep(s: seq<bv8>, elemsz: nat, n: nat, q1: nat, q2: nat, e0: seq<seq<bv8>>, i: nat,
                     o1: nat, o2: nat)
    requires Offset(n, elemsz) <= |s| && q1 < n && q2 < n && i < elemsz
    requires o1 == Offset(q1, elemsz) + i && o2 == Offset(q2, elemsz) + i
    requires |e0| == n && |e0[q1]| == elemsz && |e0[q2]| == elemsz
    requires Elems(s, elemsz, n) == SwapPartial(e0, q1, q2, i)
    ensures o1 < Offset(n, elemsz) && o2 < Offset(n, elemsz)
    ensures Elems(s[o1 := s[o2]][o2 := s[o1]], elemsz, n) == SwapPartial(e0, q1, q2, i + 1)
    ensures s[o1 := s[o2]][o2 := s[o1]][Offset(n, elemsz)..] == s[Offset(n, elemsz)..]
  {
    var e := Elems(s, elemsz, n);
    if q1 == q2 {
      MixSame(e0[q1], i);
      MixSame(e0[q1], i + 1);
    }
    ElemByte(s, elemsz, n, q1, i, o1);
    ElemByte(s, elemsz, n, q2, i, o2);
    MixStep(e0[q2], e0[q1], i);
    MixStep(e0[q1], e0[q2], i);
    var x1, x2 := s[o1], s[o2];
    assert x1 == e0[q1][i] && x2 == e0[q2][i];
    var s1 := s[o1 := x2];
    ElemsUpdate(s, elemsz, n, q1, i, o1, x2);
    var e1 := Elems(s1, elemsz, n);
    assert e1 == e[q1 := e[q1][i := x2]];
    ElemsUpdate(s1, elemsz, n, q2, i, o2, x1);
    assert Elems(s1[o2 := x1], elemsz, n) == e1[q2 := e1[q2][i := x1]];
  }

  /**
    SWAP: exchanges, one byte at a time, the elements at byte offsets `p1`
    and `p2`, which are elements `q1` and `q2` of the view.  When both are
    the same element no byte changes.
  */
  method Swap(arr: array<bv8>, elemsz: nat, ghost n: nat, p1: nat, p2: nat, ghost q1: nat, ghost q2: nat)
    requires Offset(n, elemsz) <= arr.Length && q1 < n && q2 < n
    requires p1 == Offset(q1, elemsz) && p2 == Offset(q2, elemsz)
    modifies arr
    ensures Elems(arr[..], elemsz, n)
         == Elems(old(arr[..]), elemsz, n)[q1 := Elems(old(arr[..]), elemsz, n)[q2]]
                                          [q2 := Elems(old(arr[..]), elemsz, n)[q1]]
    ensures arr[Offset(n, elemsz)..] == old(arr[Offset(n, elemsz)..])
    ensures q1 == q2 ==> arr[..] == old(arr[..])
  {
    ghost var e0 := Elems(arr[..], elemsz, n);
    ElemsShape(arr[..], elemsz, n);
    assert |e0[q1]| == elemsz && |e0[q2]| == elemsz;
    MixEnds(e0[q2], e0[q1]);
    MixEnds(e0[q1], e0[q2]);
    assert SwapPartial(e0, q1, q2, 0) == e0;
    for i := 0 to elemsz
      invariant Elems(arr[..], elemsz, n) == SwapPartial(e0, q1, q2, i)
      invariant arr[Offset(n, elemsz)..] == old(arr[Offset(n, elemsz)..])
    {
      ghost var s := arr[..];
      SwapByteStep(s, elemsz, n, q1, q2, e0, i, p1 + i, p2 + i);
      var tmp := arr[p1 + i];
      arr[p1 + i] := arr[p2 + i];
      arr[p2 + i] := tmp;
      assert arr[..] == s[p1 + i := s[p2 + i]][p2 + i := s[p1 + i]];
    }
    assert SwapPartial(e0, q1, q2, elemsz) == e0[q1 := e0[q2]][q2 := e0[q1]];
    if q1 == q2 {
      SwapSelfKeepsBytes(arr[..], old(arr[..]), elemsz, n, q1);
    }
  }

  /** Exchanging an element with itself leaves every byte as it was. */
  lemma SwapSelfKeepsBytes(s: seq<bv8>, s0: seq<bv8>, elemsz: nat, n: nat, q: nat)
    requires Offset(n, elemsz) <= |s| == |s0| && q < n
    requires Elems(s, elemsz, n) == Elems(s0, elemsz, n)[q := Elems(s0, elemsz, n)[q]]
    requires s[Offset(n, elemsz)..] == s0[Offset(n, elemsz)..]
    ensures s == s0
  {
    var e0 := Elems(s0, elemsz, n);
    assert e0[q := e0[q]] == e0;
    ViewDeterminesBuffer(s, s0, elemsz, n);
  }

  /**
    The invariant of REVERSE_PREFIX: the outer `l` elements at each end of
    the prefix have been exchanged, those from `l` to `r` and those past the
    prefix are as they were.
  */
  ghost predicate ReversedOutside(e: seq<seq<bv8>>, e0: seq<seq<bv8>>, pfxLen: nat, l: nat, r: int)
    requires |e| == |e0| && pfxLen <= |e0| && l + r == pfxLen - 1 && l <= r + 1
  {
    && (forall m :: 0 <= m < l ==> e[m] == e0[pfxLen - 1 - m] && e[pfxLen - 1 - m] == e0[m])
    && (forall m :: l <= m <= r ==> e[m] == e0[m])
    && (forall m :: pfxLen <= m < |e| ==> e[m] == e0[m])
  }

  /** Swapping the two innermost untouched elements keeps the invariant. */
  lemma ReverseStep(e: seq<seq<bv8>>, e0: seq<seq<bv8>>, pfxLen: nat, l: nat, r: nat)
    requires |e| == |e0| && pfxLen <= |e0| && l + r == pfxLen - 1 && l < r
    requires ReversedOutside(e, e0, pfxLen, l, r)
    ensures ReversedOutside(e[l := e[r]][r := e[l]], e0, pfxLen, l + 1, r - 1)
  {
  }

  /**
    When the pointers of REVERSE_PREFIX have met, the prefix is reversed.
    They can also stop short when elements are zero bytes long, and then
    every element is the empty sequence.
  */
  lemma ReversalDone(e: seq<seq<bv8>>, e0: seq<seq<bv8>>, elemsz: nat, pfxLen: nat, l: nat, r: int)
    requires |e| == |e0| && pfxLen <= |e0| && l + r == pfxLen - 1 && l <= r + 1
    requires forall q :: 0 <= q < |e0| ==> |e0[q]| == elemsz
    requires ReversedOutside(e, e0, pfxLen, l, r)
    requires r <= l || elemsz == 0
    ensures e == Reversed(e0[..pfxLen]) + e0[pfxLen..]
  {
    var want := Reversed(e0[..pfxLen]) + e0[pfxLen..];
    forall m | 0 <= m < |e| ensures e[m] == want[m] {
      if m < pfxLen && l <= m <= r && elemsz == 0 {
        assert |e0[m]| == 0 && |e0[pfxLen - 1 - m]| == 0;
      }
    }
  }

  /**
    REVERSE_PREFIX: reverses the order of the first `pfxLen` elements by
    swapping from both ends until the pointers meet.  `pfxLen` is at least 1
    so that the ghost index `pfxLen - 1` of the right-hand element exists;
    every caller passes at least 2.
  */
  method ReversePrefix(arr: array<bv8>, elemsz: nat, ghost n: nat, pfxLen: nat)
    requires Offset(n, elemsz) <= arr.Length && 1 <= pfxLen <= n
    modifies arr
    ensures Elems(arr[..], elemsz, n)
         == Reversed(Elems(old(arr[..]), elemsz, n)[..pfxLen]) + Elems(old(arr[..]), elemsz, n)[pfxLen..]
    ensures arr[Offset(n, elemsz)..] == old(arr[Offset(n, elemsz)..])
  {
    ghost var e0 := Elems(arr[..], elemsz, n);
    ElemsShape(arr[..], elemsz, n);
    ghost var e := e0;
    var pLeft: int := 0;
    var pRight: int := (pfxLen - 1) * elemsz;
    ghost var l: nat, r: nat := 0, pfxLen - 1;
    while pLeft < pRight
      invariant l + r == pfxLen - 1 && l <= r + 1
      invariant pLeft == Offset(l, elemsz) && pRight == Offset(r, elemsz)
      invariant Elems(arr[..], elemsz, n) == e && |e| == n
      invariant ReversedOutside(e, e0, pfxLen, l, r)
      invariant arr[Offset(n, elemsz)..] == old(arr[Offset(n, elemsz)..])
      decreases pRight - pLeft
    {
      OffsetOrder(l, r, elemsz);
      OffsetSucc(l, elemsz);
      OffsetSucc(r - 1, elemsz);
      Swap(arr, elemsz, n, pLeft, pRight, l, r);
      ReverseStep(e, e0, pfxLen, l, r);
      e := e[l := e[r]][r := e[l]];
      pLeft := pLeft + elemsz;
      pRight := pRight - elemsz;
      l, r := l + 1, r - 1;
    }
    OffsetOrder(l, r, elemsz);
    ReversalDone(e, e0, elemsz, pfxLen, l, r);
  }

  /**
    While a run is being extended, the byte ranges `[p, p + elemsz)` and
    `[p - elemsz, p)` are the element after the run and its last element.
  */
  ghost predicate RunNext(s: seq<bv8>, elemsz: nat, n: nat, pfxLen: nat, p: nat)
    requires Offset(n, elemsz) <= |s| && 1 <= pfxLen < n
  {
    && p == Offset(pfxLen, elemsz)
    && elemsz <= p && p + elemsz <= |s|
    && s[p .. p + elemsz] == Elems(s, elemsz, n)[pfxLen]
    && s[p - elemsz .. p] == Elems(s, elemsz, n)[pfxLen - 1]
  }

  lemma RunNextHolds(s: seq<bv8>, elemsz: nat, n: nat, pfxLen: nat)
    requires Offset(n, elemsz) <= |s| && 1 <= pfxLen < n
    ensures RunNext(s, elemsz, n, pfxLen, Offset(pfxLen, elemsz))
  {
    var p := Offset(pfxLen, elemsz);
    assert p == Offset(pfxLen - 1, elemsz) + elemsz;
    ElemIsSlot(s, elemsz, n, pfxLen);
    ElemIsSlot(s, elemsz, n, pfxLen - 1);
  }

  /**
    The first loop of MAKE_AN_ORDERED_PREFIX: starting from the first two
    elements, extends a run in which no element sorts before the one ahead
    of it, and stops at the first strict descent or at the end.
  */
  method ScanNonDecreasing(arr: array<bv8>, elemsz: nat, nmemb: nat, key: seq<bv8> -> int)
      returns (pfxLen: nat)
    requires 2 <= nmemb && Offset(nmemb, elemsz) <= arr.Length
    requires !Lt(key, Elems(arr[..], elemsz, nmemb)[1], Elems(arr[..], elemsz, nmemb)[0])
    ensures 2 <= pfxLen <= nmemb
    ensures LongestNonDecreasingPrefix(key, Elems(arr[..], elemsz, nmemb), pfxLen)
  {
    ghost var e := Elems(arr[..], elemsz, nmemb);
    pfxLen := 2;
    var p := elemsz * 2;
    if pfxLen < nmemb {
      RunNextHolds(arr[..], elemsz, nmemb, pfxLen);
    }
    while pfxLen < nmemb && !Lt(key, arr[p .. p + elemsz], arr[p - elemsz .. p])
      invariant 2 <= pfxLen <= nmemb && p == Offset(pfxLen, elemsz)
      invariant NonDecreasing(key, e[..pfxLen])
      invariant pfxLen < nmemb ==> RunNext(arr[..], elemsz, nmemb, pfxLen, p)
      decreases nmemb - pfxLen
    {
      NonDecreasingExtend(key, e, pfxLen);
      pfxLen := pfxLen + 1;
      p := p + elemsz;
      if pfxLen < nmemb {
        RunNextHolds(arr[..], elemsz, nmemb, pfxLen);
      }
    }
  }

  /**
    The second loop of MAKE_AN_ORDERED_PREFIX: extends a run in which no
    element sorts after the one ahead of it, and stops at the first strict
    ascent or at the end.  Ties stay in the run.
  */
  method ScanNonIncreasing(arr: array<bv8>, elemsz: nat, nmemb: nat, key: seq<bv8> -> int)
      returns (pfxLen: nat)
    requires 2 <= nmemb && Offset(nmemb, elemsz) <= arr.Length
    requires !Lt(key, Elems(arr[..], elemsz, nmemb)[0], Elems(arr[..], elemsz, nmemb)[1])
    ensures 2 <= pfxLen <= nmemb
    ensures LongestNonIncreasingPrefix(key, Elems(arr[..], elemsz, nmemb), pfxLen)
  {
    ghost var e := Elems(arr[..], elemsz, nmemb);
    pfxLen := 2;
    var p := elemsz * 2;
    if pfxLen < nmemb {
      RunNextHolds(arr[..], elemsz, nmemb, pfxLen);
    }
    while pfxLen < nmemb && !Lt(key, arr[p - elemsz .. p], arr[p .. p + elemsz])
      invariant 2 <= pfxLen <= nmemb && p == Offset(pfxLen, elemsz)
      invariant NonIncreasing(key, e[..pfxLen])
      invariant pfxLen < nmemb ==> RunNext(arr[..], elemsz, nmemb, pfxLen, p)
      decreases nmemb - pfxLen
    {
      NonIncreasingExtend(key, e, pfxLen);
      pfxLen := pfxLen + 1;
      p := p + elemsz;
      if pfxLen < nmemb {
        RunNextHolds(arr[..], elemsz, nmemb, pfxLen);
      }
    }
  }

  /**
    The decreasing branch of MAKE_AN_ORDERED_PREFIX: the run without strict
    ascent is found and then reversed in place, which leaves it sorted.
    Equal elements in the run change their order here.
  */
  method ReverseDescendingRun(arr: array<bv8>, elemsz: nat, nmemb: nat, key: seq<bv8> -> int)
      returns (pfxLen: nat)
    requires 2 <= nmemb && Offset(nmemb, elemsz) <= arr.Length
    requires Lt(key, Elems(arr[..], elemsz, nmemb)[1], Elems(arr[..], elemsz, nmemb)[0])
    modifies arr
    ensures 2 <= pfxLen <= nmemb
    ensures var e0 := Elems(old(arr[..]), elemsz, nmemb);
      && LongestNonIncreasingPrefix(key, e0, pfxLen)
      && Elems(arr[..], elemsz, nmemb) == Reversed(e0[..pfxLen]) + e0[pfxLen..]
    ensures Sorted(key, Elems(arr[..], elemsz, nmemb)[..pfxLen])
    ensures multiset(Elems(arr[..], elemsz, nmemb)) == multiset(Elems(old(arr[..]), elemsz, nmemb))
    ensures arr[Offset(nmemb, elemsz)..] == old(arr[Offset(nmemb, elemsz)..])
  {
    ghost var e0 := Elems(arr[..], elemsz, nmemb);
    pfxLen := ScanNonIncreasing(arr, elemsz, nmemb, key);
    ReversePrefix(arr, elemsz, nmemb, pfxLen);
    NonIncreasingReversedSorted(key, e0[..pfxLen]);
    ReversedPrefixMultiset(e0, pfxLen);
    assert Elems(arr[..], elemsz, nmemb)[..pfxLen] == Reversed(e0[..pfxLen]);
  }

  /** The first two elements, at `arr` and `arr + elemsz`. */
  lemma FirstTwo(s: seq<bv8>, elemsz: nat, n: nat)
    requires 2 <= n && Offset(n, elemsz) <= |s|
    ensures 2 * elemsz <= |s|
    ensures Elems(s, elemsz, n)[0] == s[0 .. elemsz]
    ensures Elems(s, elemsz, n)[1] == s[elemsz .. elemsz + elemsz]
  {
    ElemIsSlot(s, elemsz, n, 0);
    ElemIsSlot(s, elemsz, n, 1);
  }

  /**
    MAKE_AN_ORDERED_PREFIX: takes the longest leading run that is either
    non-decreasing (when the second element does not sort before the first)
    or without strict ascent (otherwise), and reverses the latter, so that
    the first `pfxLen` elements come out sorted.
  */
  method MakeAnOrderedPrefix(arr: array<bv8>, elemsz: nat, nmemb: nat, key: seq<bv8> -> int)
      returns (pfxLen: nat)
    requires 2 <= nmemb && Offset(nmemb, elemsz) <= arr.Length
    modifies arr
    ensures 2 <= pfxLen <= nmemb
    ensures var e0 := Elems(old(arr[..]), elemsz, nmemb);
      !Lt(key, e0[1], e0[0]) ==>
        LongestNonDecreasingPrefix(key, e0, pfxLen) && arr[..] == old(arr[..])
    ensures var e0 := Elems(old(arr[..]), elemsz, nmemb);
      Lt(key, e0[1], e0[0]) ==>
        && LongestNonIncreasingPrefix(key, e0, pfxLen)
        && Elems(arr[..], elemsz, nmemb) == Reversed(e0[..pfxLen]) + e0[pfxLen..]
    ensures Sorted(key, Elems(arr[..], elemsz, nmemb)[..pfxLen])
    ensures multiset(Elems(arr[..], elemsz, nmemb)) == multiset(Elems(old(arr[..]), elemsz, nmemb))
    ensures arr[Offset(nmemb, elemsz)..] == old(arr[Offset(nmemb, elemsz)..])
  {
    ghost var e0 := Elems(arr[..], elemsz, nmemb);
    FirstTwo(arr[..], elemsz, nmemb);
    var descending := Lt(key, arr[elemsz .. elemsz + elemsz], arr[0 .. elemsz]);
    assert descending == Lt(key, e0[1], e0[0]);
    if !descending {
      // The run starts with no descent: keep the longest such run as it is.
      pfxLen := ScanNonDecreasing(arr, elemsz, nmemb, key);
      NonDecreasingIffSorted(key, e0[..pfxLen]);
      assert arr[..] == old(arr[..]);
    } else {
      // The run starts with a strict descent: reverse the longest run with no
      // strict ascent, which reorders equal elements.
      pfxLen := ReverseDescendingRun(arr, elemsz, nmemb, key);
    }
  }

  /** The element at address `arr + elemsz * q`, as the comparator is handed it. */
  function ElementAt(arr: array<bv8>, elemsz: nat, ghost n: nat, q: nat): (e: seq<bv8>)
    reads arr
    requires Offset(n, elemsz) <= arr.Length && q < n
    ensures e == Elems(arr[..], elemsz, n)[q]
  {
    ElemIsSlot(arr[..], elemsz, n, q);
    arr[elemsz * q .. elemsz * q + elemsz]
  }

  /**
    INSERTION_POSITION: binary search, with a ceiling midpoint, for the
    place of element `i` in the sorted run of elements `[0, i)`: after every
    element it does not sort before.
  */
  method InsertionPosition(arr: array<bv8>, elemsz: nat, ghost n: nat, key: seq<bv8> -> int, i: nat)
      returns (pos: nat)
    requires Offset(n, elemsz) <= arr.Length && 1 <= i < n
    requires Sorted(key, Elems(arr[..], elemsz, n)[..i])
    ensures IsInsertionPoint(key, Elems(arr[..], elemsz, n)[..i], Elems(arr[..], elemsz, n)[i], pos)
  {
    ghost var run, x := Elems(arr[..], elemsz, n)[..i], Elems(arr[..], elemsz, n)[i];
    var j: nat := 0;
    var k: nat := i - 1;
    while j != k
      invariant j <= k < i
      invariant j == 0 || !Lt(key, x, run[j])
      invariant forall m :: k < m < i ==> Lt(key, x, run[m])
      decreases k - j
    {
      // Ceiling of the midway point.
      var h := k - (k - j) / 2;
      if Lt(key, ElementAt(arr, elemsz, n, i), ElementAt(arr, elemsz, n, h)) {
        k := h - 1;
      } else {
        j := h;
      }
    }
    if j != 0 {
      pos := j + 1;
      forall m | 0 <= m < pos ensures !Lt(key, x, run[m]) {
        if m < j {
          assert !Lt(key, run[j], run[m]);
        }
      }
    } else if Lt(key, ElementAt(arr, elemsz, n, i), ElementAt(arr, elemsz, n, 0)) {
      pos := 0;
    } else {
      pos := 1;
    }
  }

  /**
    The state of SUBCIRCULATE_RIGHT between columns: bytes below `b` of
    every element are those of the rotated view `r`, the rest are those of
    the original view `e0`.
  */
  ghost function Columns(r: seq<seq<bv8>>, e0: seq<seq<bv8>>, elemsz: nat, b: nat): (c: seq<seq<bv8>>)
    requires |r| == |e0| && Uniform(r, elemsz) && Uniform(e0, elemsz) && b <= elemsz
    ensures |c| == |e0|
  {
    seq(|e0|, q requires 0 <= q < |e0| => Mix(r[q], e0[q], b))
  }

  /**
    The state of SUBCIRCULATE_RIGHT inside column `b`, once the byte has
    been moved up into every element in `(m, right]`.
  */
  ghost function Shifting(r: seq<seq<bv8>>, e0: seq<seq<bv8>>, elemsz: nat, b: nat, m: nat, right: nat)
      : (c: seq<seq<bv8>>)
    requires |r| == |e0| && Uniform(r, elemsz) && Uniform(e0, elemsz) && b < elemsz
    ensures |c| == |e0|
  {
    seq(|e0|, q requires 0 <= q < |e0| =>
      if m < q <= right then Mix(r[q], e0[q], b + 1) else Mix(r[q], e0[q], b))
  }

  lemma RotatedUniform(r: seq<seq<bv8>>, e0: seq<seq<bv8>>, elemsz: nat, left: nat, right: nat)
    requires left <= right < |e0| && Uniform(e0, elemsz) && IsRightRotation(r, e0, left, right)
    ensures Uniform(r, elemsz)
  {
    forall q | 0 <= q < |r| ensures |r[q]| == elemsz {
      if left < q <= right {
        assert r[q] == e0[q - 1];
      }
    }
  }

  /** No column done is the original view; all columns done is the rotation. */
  lemma ColumnsEnds(r: seq<seq<bv8>>, e0: seq<seq<bv8>>, elemsz: nat)
    requires |r| == |e0| && Uniform(r, elemsz) && Uniform(e0, elemsz)
    ensures Columns(r, e0, elemsz, 0) == e0
    ensures Columns(r, e0, elemsz, elemsz) == r
  {
    forall q | 0 <= q < |e0| ensures Mix(r[q], e0[q], 0) == e0[q] && Mix(r[q], e0[q], elemsz) == r[q] {
      MixEnds(r[q], e0[q]);
    }
  }

  /**
    Column `b` starts: the byte saved from element `right`, at byte offset
    `at`, is its original byte.
  */
  lemma ColumnStart(s: seq<bv8>, elemsz: nat, n: nat, r: seq<seq<bv8>>, e0: seq<seq<bv8>>, right: nat, b: nat,
                    at: nat)
    requires Offset(n, elemsz) <= |s| && right < n && b < elemsz && at == Offset(right, elemsz) + b
    requires |e0| == n && |r| == n && Uniform(e0, elemsz) && Uniform(r, elemsz)
    requires Elems(s, elemsz, n) == Columns(r, e0, elemsz, b)
    ensures at < Offset(n, elemsz) && s[at] == e0[right][b]
    ensures Elems(s, elemsz, n) == Shifting(r, e0, elemsz, b, right, right)
  {
    ElemByte(s, elemsz, n, right, b, at);
    MixStep(r[right], e0[right], b);
    assert Columns(r, e0, elemsz, b) == Shifting(r, e0, elemsz, b, right, right);
  }

  /**
    Byte `b` of element `m - 1`, the one below offset `p` in column `b`, is
    byte `b` of element `m` once rotated.
  */
  lemma ShiftedByte(s: seq<bv8>, elemsz: nat, n: nat, r: seq<seq<bv8>>, e0: seq<seq<bv8>>,
                    left: nat, right: nat, b: nat, m: nat, p: nat)
    requires Offset(n, elemsz) <= |s| && left < m <= right < n && b < elemsz
    requires |e0| == n && Uniform(e0, elemsz) && IsRightRotation(r, e0, left, right) && Uniform(r, elemsz)
    requires p == Offset(m, elemsz) + b
    requires Elems(s, elemsz, n) == Shifting(r, e0, elemsz, b, m, right)
    ensures elemsz <= p < Offset(n, elemsz) && p - elemsz == Offset(m - 1, elemsz) + b
    ensures s[p - elemsz] == r[m][b]
  {
    OffsetSucc(m - 1, elemsz);
    SlotFits(m, n, elemsz);
    ElemByte(s, elemsz, n, m - 1, b, p - elemsz);
    MixStep(r[m - 1], e0[m - 1], b);
    assert r[m] == e0[m - 1];
  }

  /**
    Moving byte `b` of element `m - 1` into element `m`, at byte offset `p`,
    advances the column.
  */
  lemma ShiftStep(s: seq<bv8>, elemsz: nat, n: nat, r: seq<seq<bv8>>, e0: seq<seq<bv8>>,
                  left: nat, right: nat, b: nat, m: nat, p: nat)
    requires Offset(n, elemsz) <= |s| && left < m <= right < n && b < elemsz
    requires |e0| == n && Uniform(e0, elemsz) && IsRightRotation(r, e0, left, right) && Uniform(r, elemsz)
    requires p == Offset(m, elemsz) + b
    requires Elems(s, elemsz, n) == Shifting(r, e0, elemsz, b, m, right)
    ensures elemsz <= p < Offset(n, elemsz) && p - elemsz == Offset(m - 1, elemsz) + b
    ensures Elems(s[p := s[p - elemsz]], elemsz, n) == Shifting(r, e0, elemsz, b, m - 1, right)
    ensures s[p := s[p - elemsz]][Offset(n, elemsz)..] == s[Offset(n, elemsz)..]
  {
    var e := Elems(s, elemsz, n);
    ShiftedByte(s, elemsz, n, r, e0, left, right, b, m, p);
    var v := s[p - elemsz];
    ElemsUpdate(s, elemsz, n, m, b, p, v);
    MixStep(r[m], e0[m], b);
    assert e[m := e[m][b := v]] == Shifting(r, e0, elemsz, b, m - 1, right);
  }

  /** Storing the saved byte into element `left`, at byte offset `at`, completes column `b`. */
  lemma ColumnFinish(s: seq<bv8>, elemsz: nat, n: nat, r: seq<seq<bv8>>, e0: seq<seq<bv8>>,
                     left: nat, right: nat, b: nat, at: nat)
    requires Offset(n, elemsz) <= |s| && left < right < n && b < elemsz && at == Offset(left, elemsz) + b
    requires |e0| == n && Uniform(e0, elemsz) && IsRightRotation(r, e0, left, right) && Uniform(r, elemsz)
    requires Elems(s, elemsz, n) == Shifting(r, e0, elemsz, b, left, right)
    ensures at < Offset(n, elemsz)
    ensures Elems(s[at := e0[right][b]], elemsz, n) == Columns(r, e0, elemsz, b + 1)
    ensures s[at := e0[right][b]][Offset(n, elemsz)..] == s[Offset(n, elemsz)..]
  {
    var e := Elems(s, elemsz, n);
    var v := e0[right][b];
    ElemsUpdate(s, elemsz, n, left, b, at, v);
    MixStep(r[left], e0[left], b);
    var c := Columns(r, e0, elemsz, b + 1);
    forall q | 0 <= q < n ensures e[left := e[left][b := v]][q] == c[q] {
      if q < left || right < q {
        MixSame(e0[q], b);
        MixSame(e0[q], b + 1);
      }
    }
  }

  /**
    The inner loop of SUBCIRCULATE_RIGHT for byte position `b`: walking
    down from element `right` to element `left`, each element takes byte
    `b` of the element below it.
  */
  method ShiftColumn(arr: array<bv8>, elemsz: nat, ghost n: nat, pl: nat, pr: nat, b: nat,
                     ghost r: seq<seq<bv8>>, ghost e0: seq<seq<bv8>>, ghost left: nat, ghost right: nat)
    requires Offset(n, elemsz) <= arr.Length && left < right < n && b < elemsz
    requires |e0| == n && Uniform(e0, elemsz) && IsRightRotation(r, e0, left, right) && Uniform(r, elemsz)
    requires pl == Offset(left, elemsz) + b && pr == Offset(right, elemsz) + b
    requires Elems(arr[..], elemsz, n) == Shifting(r, e0, elemsz, b, right, right)
    modifies arr
    ensures Elems(arr[..], elemsz, n) == Shifting(r, e0, elemsz, b, left, right)
    ensures arr[Offset(n, elemsz)..] == old(arr[Offset(n, elemsz)..])
  {
    var p := pr;
    ghost var m := right;
    while p != pl
      invariant left <= m <= right && p == Offset(m, elemsz) + b
      invariant Elems(arr[..], elemsz, n) == Shifting(r, e0, elemsz, b, m, right)
      invariant arr[Offset(n, elemsz)..] == old(arr[Offset(n, elemsz)..])
      decreases m
    {
      ghost var s := arr[..];
      ShiftStep(s, elemsz, n, r, e0, left, right, b, m, p);
      arr[p] := arr[p - elemsz];
      assert arr[..] == s[p := s[p - elemsz]];
      p := p - elemsz;
      m := m - 1;
    }
    OffsetOrder(left, m, elemsz);
  }

  /**
    One pass of the column loop of SUBCIRCULATE_RIGHT, for byte position
    `b`: the byte of element `right` is saved, the bytes below it are
    shifted up one element, and the saved byte is stored into element
    `left`.  Column `b` of every element then holds its rotated value.
  */
  method CirculateColumn(arr: array<bv8>, elemsz: nat, ghost n: nat, pLeft: nat, pRight: nat, b: nat,
                         ghost r: seq<seq<bv8>>, ghost e0: seq<seq<bv8>>, ghost left: nat, ghost right: nat)
    requires Offset(n, elemsz) <= arr.Length && left < right < n && b < elemsz
    requires |e0| == n && Uniform(e0, elemsz) && IsRightRotation(r, e0, left, right) && Uniform(r, elemsz)
    requires pLeft == Offset(left, elemsz) && pRight == Offset(right, elemsz)
    requires Elems(arr[..], elemsz, n) == Columns(r, e0, elemsz, b)
    modifies arr
    ensures Elems(arr[..], elemsz, n) == Columns(r, e0, elemsz, b + 1)
    ensures arr[Offset(n, elemsz)..] == old(arr[Offset(n, elemsz)..])
  {
    var pl := pLeft + b;
    var pr := pRight + b;
    ColumnStart(arr[..], elemsz, n, r, e0, right, b, pr);
    var tmp := arr[pr];
    ShiftColumn(arr, elemsz, n, pl, pr, b, r, e0, left, right);
    ghost var s := arr[..];
    ColumnFinish(s, elemsz, n, r, e0, left, right, b, pl);
    arr[pl] := tmp;
    assert arr[..] == s[pl := tmp];
  }

  /**
    The column loop of SUBCIRCULATE_RIGHT, for `left < right`, given the
    byte offsets `pLeft` and `pRight` of the two elements.  The result is
    the rotation `r` of the view.
  */
  method CirculateColumns(arr: array<bv8>, elemsz: nat, ghost n: nat, pLeft: nat, pRight: nat,
                          ghost left: nat, ghost right: nat, ghost r: seq<seq<bv8>>)
    requires Offset(n, elemsz) <= arr.Length && left < right < n
    requires pLeft == Offset(left, elemsz) && pRight == Offset(right, elemsz)
    requires |r| == n && IsRightRotation(r, Elems(arr[..], elemsz, n), left, right)
    modifies arr
    ensures Elems(arr[..], elemsz, n) == r
    ensures arr[Offset(n, elemsz)..] == old(arr[Offset(n, elemsz)..])
  {
    ghost var e0 := Elems(arr[..], elemsz, n);
    ElemsShape(arr[..], elemsz, n);
    RotatedUniform(r, e0, elemsz, left, right);
    ColumnsEnds(r, e0, elemsz);
    for bytenum := 0 to elemsz
      invariant Elems(arr[..], elemsz, n) == Columns(r, e0, elemsz, bytenum)
      invariant arr[Offset(n, elemsz)..] == old(arr[Offset(n, elemsz)..])
    {
      CirculateColumn(arr, elemsz, n, pLeft, pRight, bytenum, r, e0, left, right);
    }
  }

  /**
    SUBCIRCULATE_RIGHT: element `right` moves to `left` and those in
    `[left, right)` move up one place; nothing happens when they coincide.
  */
  method SubcirculateRight(arr: array<bv8>, elemsz: nat, ghost n: nat, left: nat, right: nat)
    requires Offset(n, elemsz) <= arr.Length && left <= right < n
    modifies arr
    ensures Elems(arr[..], elemsz, n) == RotateRight(Elems(old(arr[..]), elemsz, n), left, right)
    ensures arr[Offset(n, elemsz)..] == old(arr[Offset(n, elemsz)..])
  {
    if left != right {
      var pLeft := elemsz * left;
      var pRight := elemsz * right;
      ghost var e0 := Elems(arr[..], elemsz, n);
      ghost var r := RotateRight(e0, left, right);
      RotateRightAt(e0, left, right);
      RightRotationIff(r, e0, left, right);
      CirculateColumns(arr, elemsz, n, pLeft, pRight, left, right, r);
    } else {
      RotateRightNoop(Elems(arr[..], elemsz, n), right);
    }
  }

  /**
    The main loop of INSERTION_SORT: with the first `pfxLen` elements
    sorted, each remaining element is found its place by binary search and
    rotated into it.
  */
  method InsertRemaining(arr: array<bv8>, nmemb: nat, elemsz: nat, key: seq<bv8> -> int, pfxLen: nat)
    requires Offset(nmemb, elemsz) <= arr.Length && 1 <= pfxLen <= nmemb
    requires Sorted(key, Elems(arr[..], elemsz, nmemb)[..pfxLen])
    modifies arr
    ensures Sorted(key, Elems(arr[..], elemsz, nmemb))
    ensures multiset(Elems(arr[..], elemsz, nmemb)) == multiset(Elems(old(arr[..]), elemsz, nmemb))
    ensures arr[Offset(nmemb, elemsz)..] == old(arr[Offset(nmemb, elemsz)..])
    ensures pfxLen == nmemb ==> arr[..] == old(arr[..])
  {
    ghost var e0 := Elems(arr[..], elemsz, nmemb);
    var i := pfxLen;
    while i != nmemb
      invariant pfxLen <= i <= nmemb
      invariant Sorted(key, Elems(arr[..], elemsz, nmemb)[..i])
      invariant Elems(arr[..], elemsz, nmemb)[i..] == e0[i..]
      invariant multiset(Elems(arr[..], elemsz, nmemb)) == multiset(e0)
      invariant arr[Offset(nmemb, elemsz)..] == old(arr[Offset(nmemb, elemsz)..])
      invariant pfxLen == nmemb ==> arr[..] == old(arr[..])
      decreases nmemb - i
    {
      ghost var prev := Elems(arr[..], elemsz, nmemb);
      var pos := InsertionPosition(arr, elemsz, nmemb, key, i);
      SubcirculateRight(arr, elemsz, nmemb, pos, i);
      InsertLoopStep(key, e0, prev, pos, i);
      i := i + 1;
    }
    assert Elems(arr[..], elemsz, nmemb)[..nmemb] == Elems(arr[..], elemsz, nmemb);
  }

  /**
    INSERTION_SORT: sorts the first `nmemb` elements of `elemsz` bytes in
    place.  The longest leading run is made sorted first, and the remaining
    elements are inserted into it.  An input that is already sorted is one
    non-decreasing run and is left untouched.
  */
  method InsertionSort(arr: array<bv8>, nmemb: nat, elemsz: nat, key: seq<bv8> -> int)
    requires Offset(nmemb, elemsz) <= arr.Length
    modifies arr
    ensures Sorted(key, Elems(arr[..], elemsz, nmemb))
    ensures multiset(Elems(arr[..], elemsz, nmemb)) == multiset(Elems(old(arr[..]), elemsz, nmemb))
    ensures arr[Offset(nmemb, elemsz)..] == old(arr[Offset(nmemb, elemsz)..])
    ensures Sorted(key, Elems(old(arr[..]), elemsz, nmemb)) ==> arr[..] == old(arr[..])
  {
    if nmemb > 1 {
      ghost var e0 := Elems(arr[..], elemsz, nmemb);
      var pfxLen := MakeAnOrderedPrefix(arr, elemsz, nmemb, key);
      if Sorted(key, e0) {
        assert !Lt(key, e0[1], e0[0]);
        SortedIsOneRun(key, e0, pfxLen);
      }
      InsertRemaining(arr, nmemb, elemsz, key, pfxLen);
    }
  }
}
