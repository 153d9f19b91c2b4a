/**
  The element view of a byte buffer: elements of `elemsz` bytes each,
  element `q` occupying bytes `[Offset(q, elemsz), Offset(q, elemsz) + elemsz)`.
  The byte-loop macros are specified through this view.

  `Offset(q, elemsz)` is the address `arr + elemsz * q` that the source forms
  for element `q`, as an offset from `arr`.  The byte loops advance their
  pointers by `elemsz` at a time; `OffsetSucc` is the step they rely on.
*/
module ByteView {

  /** The byte offset of element `q`. */
  ghost function Offset(q: nat, elemsz: nat): nat {
    elemsz * q
  }

  /** One element further on is `elemsz` bytes further on. */
  lemma OffsetSucc(q: nat, elemsz: nat)
    ensures Offset(q + 1, elemsz) == Offset(q, elemsz) + elemsz
  {
  }

  /** Element `q` of `n` lies inside the first `Offset(n, elemsz)` bytes. */
  lemma {:induction false} SlotFits(q: nat, n: nat, elemsz: nat)
    requires q < n
    ensures Offset(q, elemsz) + elemsz <= Offset(n, elemsz)
    decreases n
  {
    OffsetSucc(n - 1, elemsz);
    if q < n - 1 {
      SlotFits(q, n - 1, elemsz);
    }
  }

  /** Offsets are ordered as the elements are. */
  lemma OffsetOrder(a: nat, b: nat, elemsz: nat)
    ensures Offset(a, elemsz) < Offset(b, elemsz) ==> a < b
    ensures a < b && 0 < elemsz ==> Offset(a, elemsz) < Offset(b, elemsz)
  {
    if b < a {
      SlotFits(b, a, elemsz);
    } else if a < b {
      SlotFits(a, b, elemsz);
    }
  }

  /** Element `q` of the buffer `s`. */
  ghost function Slot(s: seq<bv8>, elemsz: nat, q: nat): (e: seq<bv8>)
    requires Offset(q, elemsz) + elemsz <= |s|
    ensures |e| == elemsz
  {
    s[Offset(q, elemsz) .. Offset(q, elemsz) + elemsz]
  }

  /** The first `n` elements of the buffer `s`. */
  ghost function Elems(s: seq<bv8>, elemsz: nat, n: nat): (e: seq<seq<bv8>>)
    requires Offset(n, elemsz) <= |s|
    ensures |e| == n
  {
    seq(n, q requires 0 <= q < n => SlotFits(q, n, elemsz); Slot(s, elemsz, q))
  }

  /** Element `q` of the view is the `elemsz` bytes at `Offset(q, elemsz)`. */
  lemma ElemIsSlot(s: seq<bv8>, elemsz: nat, n: nat, q: nat)
    requires Offset(n, elemsz) <= |s| && q < n
    ensures Offset(q, elemsz) + elemsz <= Offset(n, elemsz)
    ensures Elems(s, elemsz, n)[q] == s[Offset(q, elemsz) .. Offset(q, elemsz) + elemsz]
  {
    SlotFits(q, n, elemsz);
  }

  /** Every element of `e` is `elemsz` bytes long. */
  ghost predicate Uniform(e: seq<seq<bv8>>, elemsz: nat) {
    forall q :: 0 <= q < |e| ==> |e[q]| == elemsz
  }

  /** Every element in the view is `elemsz` bytes long. */
  lemma ElemsShape(s: seq<bv8>, elemsz: nat, n: nat)
    requires Offset(n, elemsz) <= |s|
    ensures Uniform(Elems(s, elemsz, n), elemsz)
  {
    forall q | 0 <= q < n ensures |Elems(s, elemsz, n)[q]| == elemsz {
      ElemIsSlot(s, elemsz, n, q);
    }
  }

  /** Byte `t` of element `q` is byte `at == Offset(q, elemsz) + t` of the buffer. */
  lemma ElemByte(s: seq<bv8>, elemsz: nat, n: nat, q: nat, t: nat, at: nat)
    requires Offset(n, elemsz) <= |s| && q < n && t < elemsz && at == Offset(q, elemsz) + t
    ensures at < Offset(n, elemsz)
    ensures Elems(s, elemsz, n)[q][t] == s[at]
  {
    ElemIsSlot(s, elemsz, n, q);
  }

  /**
    Writing byte `t` of element `q`, at `at`, changes that element's view in one
    place and no other element, nor any byte past the view.
  */
  lemma ElemsUpdate(s: seq<bv8>, elemsz: nat, n: nat, q: nat, t: nat, at: nat, v: bv8)
    requires Offset(n, elemsz) <= |s| && q < n && t < elemsz && at == Offset(q, elemsz) + t
    ensures at < Offset(n, elemsz)
    ensures Elems(s[at := v], elemsz, n) == Elems(s, elemsz, n)[q := Elems(s, elemsz, n)[q][t := v]]
    ensures s[at := v][Offset(n, elemsz)..] == s[Offset(n, elemsz)..]
  {
    SlotFits(q, n, elemsz);
    var s' := s[at := v];
    var e, e' := Elems(s, elemsz, n), Elems(s', elemsz, n);
    var w := e[q := e[q][t := v]];
    forall r | 0 <= r < n ensures e'[r] == w[r] {
      ElemIsSlot(s, elemsz, n, r);
      ElemIsSlot(s', elemsz, n, r);
      var lo := Offset(r, elemsz);
      if r < q {
        SlotFits(r, q, elemsz);
        assert s'[lo .. lo + elemsz] == s[lo .. lo + elemsz];
      } else if q < r {
        SlotFits(q, r, elemsz);
        assert s'[lo .. lo + elemsz] == s[lo .. lo + elemsz];
      } else {
        assert s'[lo .. lo + elemsz] == s[lo .. lo + elemsz][t := v];
      }
    }
    assert e' == w;
  }

  /** The element view determines the bytes it covers. */
  lemma {:induction false} ElemsDetermine(s: seq<bv8>, s': seq<bv8>, elemsz: nat, n: nat)
    requires Offset(n, elemsz) <= |s| && Offset(n, elemsz) <= |s'|
    requires Elems(s, elemsz, n) == Elems(s', elemsz, n)
    ensures s[..Offset(n, elemsz)] == s'[..Offset(n, elemsz)]
  {
    if n > 0 {
      var k := n - 1;
      var lo, hi := Offset(k, elemsz), Offset(n, elemsz);
      assert Elems(s, elemsz, k) == Elems(s, elemsz, n)[..k];
      assert Elems(s', elemsz, k) == Elems(s', elemsz, n)[..k];
      ElemsDetermine(s, s', elemsz, k);
      ElemIsSlot(s, elemsz, n, k);
      ElemIsSlot(s', elemsz, n, k);
      assert s[lo .. hi] == s'[lo .. hi];
      assert s[..hi] == s[..lo] + s[lo .. hi];
      assert s'[..hi] == s'[..lo] + s'[lo .. hi];
    }
  }

  /**
    The element view and the bytes past it make up the whole buffer: a
    change that keeps both changes no byte.
  */
  lemma ViewDeterminesBuffer(s: seq<bv8>, s': seq<bv8>, elemsz: nat, n: nat)
    requires Offset(n, elemsz) <= |s| == |s'|
    requires Elems(s, elemsz, n) == Elems(s', elemsz, n)
    requires s[Offset(n, elemsz)..] == s'[Offset(n, elemsz)..]
    ensures s == s'
  {
    var k := Offset(n, elemsz);
    ElemsDetermine(s, s', elemsz, n);
    assert s == s[..k] + s[k..] && s' == s'[..k] + s'[k..];
  }

  /** The first `b` bytes of `x` followed by the rest of `y`. */
  ghost function Mix(x: seq<bv8>, y: seq<bv8>, b: nat): seq<bv8>
    requires b <= |x| == |y|
  {
    x[..b] + y[b..]
  }

  /** Copying byte `b` of `x` over byte `b` extends the mix by one byte. */
  lemma MixStep(x: seq<bv8>, y: seq<bv8>, b: nat)
    requires b < |x| == |y|
    ensures Mix(x, y, b)[b] == y[b]
    ensures Mix(x, y, b)[b := x[b]] == Mix(x, y, b + 1)
  {
    assert Mix(x, y, b)[b := x[b]] == Mix(x, y, b + 1);
  }

  lemma MixEnds(x: seq<bv8>, y: seq<bv8>)
    requires |x| == |y|
    ensures Mix(x, y, 0) == y && Mix(x, y, |x|) == x
  {
    assert Mix(x, y, 0) == y;
    assert Mix(x, y, |x|) == x;
  }

  lemma MixSame(x: seq<bv8>, b: nat)
    requires b <= |x|
    ensures Mix(x, x, b) == x
  {
    assert Mix(x, x, b) == x;
  }
}
