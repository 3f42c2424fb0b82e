/**
Slices of the DAP2 client: `[first:stride:last]` selections along one dimension
(libdap2/dceconstraints.h and .c, libdap2/constraints.c).

`Indices` is the meaning of a slice: the positions it selects.  The operations that build, shift
and compose slices are related to it.
*/
module Slices {
  import opened Arithmetic

  // DCEslice, a struct held by value inside a segment.
  datatype Slice = Slice(first: int, stride: int, length: int, last: int, count: int, declsize: int)

  // The relations that the header states between the fields.
  predicate Valid(s: Slice) {
    && 0 <= s.first <= s.last
    && s.stride >= 1
    && s.length == s.last - s.first + 1
    && s.count == (s.length + (s.stride - 1)) / s.stride
  }

  function Selected(s: Slice): (r: nat)
    requires Valid(s)
  {
    (s.last - s.first) / s.stride + 1
  }

  /** The positions first, first+stride, ... up to last. */
  function Indices(s: Slice): (r: seq<nat>)
    requires Valid(s)
    ensures |r| == Selected(s)
    ensures forall k :: 0 <= k < |r| ==> r[k] == At(s, k)
  {
    seq(Selected(s), k requires 0 <= k < Selected(s) => At(s, k))
  }

  function At(s: Slice, k: nat): (r: nat)
    requires Valid(s)
  {
    MulNonneg(k, s.stride);
    s.first + k * s.stride
  }

  /** The count field is the number of selected positions. */
  lemma CountIsSelected(s: Slice)
    requires Valid(s)
    ensures |Indices(s)| == s.count
  {
    var x := s.last - s.first;
    assert s.length + (s.stride - 1) == x + s.stride;
    DivPlusOne(x, s.stride);
  }

  /** The positions are first, first + stride and so on, all of them up to last. */
  lemma IndicesAre(s: Slice, x: nat)
    requires Valid(s)
    ensures forall k :: 0 <= k < |Indices(s)| ==> Indices(s)[k] == s.first + k * s.stride
    ensures x in Indices(s) <==> s.first <= x <= s.last && (x - s.first) % s.stride == 0
  {
    if x in Indices(s) {
      var k :| 0 <= k < |Indices(s)| && Indices(s)[k] == x;
      SelectedIsMultiple(s, k);
    }
    if s.first <= x <= s.last && (x - s.first) % s.stride == 0 {
      MultipleIsSelected(s, x);
    }
  }

  lemma SelectedIsMultiple(s: Slice, k: nat)
    requires Valid(s) && k < Selected(s)
    ensures s.first <= At(s, k) <= s.last && (At(s, k) - s.first) % s.stride == 0
  {
    AtInside(s, k);
    MulNonneg(k, s.stride);
    DivUnique(At(s, k) - s.first, s.stride, k, 0);
  }

  lemma MultipleIsSelected(s: Slice, x: nat)
    requires Valid(s) && s.first <= x <= s.last && (x - s.first) % s.stride == 0
    ensures x in Indices(s)
  {
    var k := (x - s.first) / s.stride;
    AtInside(s, k);
    assert Indices(s)[k] == x;
  }

  lemma AtInside(s: Slice, k: nat)
    requires Valid(s)
    ensures At(s, k) <= s.last <==> k < Selected(s)
  {
    DivBound(s.last - s.first, s.stride, k);
  }

  // ---------- Whole slices ----------

  // dcemakewholeslice
  function WholeSlice(declsize: int): (r: Slice) {
    Slice(0, 1, declsize, declsize - 1, declsize, declsize)
  }

  lemma WholeSelectsAll(declsize: int)
    requires declsize > 0
    ensures Valid(WholeSlice(declsize)) && WholeSlice(declsize) == Slice(0, 1, declsize, declsize - 1, declsize, declsize)
    ensures Indices(WholeSlice(declsize)) == seq(declsize, k => k)
  {
    var s := WholeSlice(declsize);
    assert Selected(s) == declsize;
    forall k: nat | k < declsize
      ensures At(s, k) == k
    {
    }
  }

  // dceiswholeslice
  predicate IsWholeSlice(s: Slice) {
    s.first == 0 && s.stride == 1 && s.length == s.declsize
  }

  /**
  A slice that passes the whole-slice test selects every position of its dimension; the converse
  holds but for a dimension of size 1, where any stride selects everything.
  */
  lemma WholeMeansAll(s: Slice)
    requires Valid(s) && s.last < s.declsize
    ensures IsWholeSlice(s) ==> Indices(s) == seq(s.declsize, k => k)
    ensures s.declsize > 1 || s.stride == 1 ==> (IsWholeSlice(s) <==> Indices(s) == seq(s.declsize, k => k))
  {
    AtZero(s);
    if IsWholeSlice(s) {
      forall k: nat | k < s.declsize
        ensures At(s, k) == k
      {
      }
      assert Selected(s) == s.declsize;
    }
    if Indices(s) == seq(s.declsize, k => k) {
      assert Indices(s)[0] == 0;
      AtInside(s, s.declsize - 1);
      assert Indices(s)[s.declsize - 1] == s.declsize - 1;
      if s.declsize > 1 {
        assert At(s, 1) == Indices(s)[1];
      }
    }
  }

  lemma AtZero(s: Slice)
    requires Valid(s)
    ensures At(s, 0) == s.first && Selected(s) > 0
  {
    DivBound(s.last - s.first, s.stride, 0);
  }

  // ---------- From start/count/stride ----------

  // The assignments of dapbuildvaraprojection to one slice.
  function BuildSlice(first: int, count: int, stride: int, declsize: int): (r: Slice) {
    var length := count * stride;
    var last := first + length - 1;
    if last >= declsize then Slice(first, stride, declsize - 1 - first + 1, declsize - 1, count, declsize)
    else Slice(first, stride, length, last, count, declsize)
  }

  // What nc3d_getvarx has checked about its arguments.
  predicate InBounds(first: int, count: int, stride: int, declsize: int) {
    0 <= first && 1 <= count && 1 <= stride && first + stride * (count - 1) < declsize
  }

  /** Clamped or not, the slice selects exactly start + k*stride for 0 <= k < count. */
  lemma BuildSelects(first: int, count: int, stride: int, declsize: int)
    requires InBounds(first, count, stride, declsize)
    ensures var s := BuildSlice(first, count, stride, declsize);
      && Valid(s) && s.last < declsize
      && |Indices(s)| == count
      && (forall k :: 0 <= k < count ==> Indices(s)[k] == first + k * stride)
      && s.first == first && s.stride == stride && s.count == count && s.declsize == declsize
      && s.last == (if first + count * stride <= declsize then first + count * stride - 1 else declsize - 1)
  {
    var s := BuildSlice(first, count, stride, declsize);
    var x := s.last - s.first;
    var r := x - (count - 1) * stride;
    assert count * stride == (count - 1) * stride + stride;
    assert stride * (count - 1) == (count - 1) * stride;
    assert 0 <= r < stride;
    MulNonneg(count - 1, stride);
    DivUnique(x, stride, count - 1, r);
    assert s.length + (stride - 1) == x + stride;
    DivPlusOne(x, stride);
    assert Valid(s);
    assert Selected(s) == count;
  }

  // ---------- After a fetch ----------

  // dapshiftslice
  function ShiftSlice(s: Slice): (r: Slice) {
    if s.first == 0 && s.stride == 1 then s
    else s.(first := 0, stride := 1, length := s.count, last := s.count - 1)
  }

  /** A shifted slice selects the first count positions, in order; shifting again changes nothing. */
  lemma ShiftSelects(s: Slice)
    requires Valid(s)
    ensures Valid(ShiftSlice(s)) && Indices(ShiftSlice(s)) == seq(s.count, k => k)
    ensures ShiftSlice(ShiftSlice(s)) == ShiftSlice(s)
    ensures ShiftSlice(s) == Slice(0, 1, s.count, s.count - 1, s.count, s.declsize)
  {
    CountIsSelected(s);
    AtZero(s);
    var t := ShiftSlice(s);
    assert t.length == s.count && t.count == s.count;
    assert Valid(t) && Selected(t) == s.count;
    forall k: nat | k < s.count
      ensures At(t, k) == k
    {
    }
  }

  // ---------- Composition ----------

  datatype ComposeResult = Composed(slice: Slice) | NC_EINVALCOORDS

  // dceslicecompose: s2 applied to what s1 selects.
  function Compose(s1: Slice, s2: Slice): (r: ComposeResult)
    requires s1.stride >= 1 && s2.stride >= 1
  {
    MulMono(1, s1.stride, s2.stride);
    var stride := s1.stride * s2.stride;
    var first := s1.first + s1.stride * s2.first;
    if first > s1.last then NC_EINVALCOORDS
    else
      var lastx := s1.first + s1.stride * s2.last;
      var last := if s1.last < lastx then s1.last else lastx;
      var length := (last + 1) - first;
      var declsize := if s1.declsize > s2.declsize then s1.declsize else s2.declsize;
      Composed(Slice(first, stride, length, last, (length + (stride - 1)) / stride, declsize))
  }

  // The elements of xs at those positions of ps that xs has.
  function Pick(xs: seq<nat>, ps: seq<nat>): (r: seq<nat>) {
    if ps == [] then []
    else (if ps[0] < |xs| then [xs[ps[0]]] else []) + Pick(xs, ps[1..])
  }

  /** Composition fails exactly when it would select nothing. */
  lemma ComposeFails(s1: Slice, s2: Slice)
    requires Valid(s1) && Valid(s2)
    ensures Compose(s1, s2).NC_EINVALCOORDS? <==> s2.first >= |Indices(s1)|
    ensures Compose(s1, s2).NC_EINVALCOORDS? <==> Pick(Indices(s1), Indices(s2)) == []
  {
    AtInside(s1, s2.first);
    assert At(s1, s2.first) == s1.first + s1.stride * s2.first;
    AtZero(s2);
    var ps := Indices(s2);
    assert ps[0] == s2.first;
    if s2.first >= |Indices(s1)| {
      forall k | 0 <= k < |ps|
        ensures ps[k] >= |Indices(s1)|
      {
        MulNonneg(k, s2.stride);
      }
      PickNone(Indices(s1), ps);
    }
  }

  lemma {:induction false} PickNone(xs: seq<nat>, ps: seq<nat>)
    requires forall k :: 0 <= k < |ps| ==> ps[k] >= |xs|
    ensures Pick(xs, ps) == []
  {
    if ps != [] {
      PickNone(xs, ps[1..]);
    }
  }

  // When the positions within xs are the first n of ps.
  lemma {:induction false} PickPrefix(xs: seq<nat>, ps: seq<nat>, n: nat)
    requires n <= |ps|
    requires forall k :: 0 <= k < |ps| ==> (ps[k] < |xs| <==> k < n)
    ensures |Pick(xs, ps)| == n
    ensures forall k :: 0 <= k < n ==> Pick(xs, ps)[k] == xs[ps[k]]
  {
    if ps != [] {
      if n == 0 {
        PickNone(xs, ps);
      } else {
        PickPrefix(xs, ps[1..], n - 1);
        forall k | 0 <= k < n
          ensures Pick(xs, ps)[k] == xs[ps[k]]
        {
          if k > 0 {
            assert Pick(xs, ps)[k] == Pick(xs, ps[1..])[k - 1];
          }
        }
      }
    }
  }

  lemma Affine(f1: int, t1: int, f2: int, t2: int, k: int)
    ensures (f1 + t1 * f2) + k * (t1 * t2) == f1 + (f2 + k * t2) * t1
  {
    assert k * (t1 * t2) == (k * t2) * t1;
    assert (f2 + k * t2) * t1 == f2 * t1 + (k * t2) * t1;
  }

  lemma ScaleLe(a: int, b: int, t: int)
    requires t >= 1
    ensures a <= b <==> t * a <= t * b
  {
    if a <= b {
      MulMono(a, b, t);
    } else {
      MulMono(b + 1, a, t);
      assert (b + 1) * t == b * t + t;
    }
    assert a * t == t * a && b * t == t * b;
  }

  // Position k of s2, seen through s1, is position k of the composition.
  lemma ComposeAt(s1: Slice, s2: Slice, k: nat)
    requires Valid(s1) && Valid(s2) && Compose(s1, s2).Composed?
    ensures var r := Compose(s1, s2).slice;
      && r.first + k * r.stride == At(s1, At(s2, k))
      && (At(s1, At(s2, k)) <= r.last <==> At(s1, At(s2, k)) <= s1.last && At(s2, k) <= s2.last)
  {
    var p := At(s2, k);
    Affine(s1.first, s1.stride, s2.first, s2.stride, k);
    ScaleLe(p, s2.last, s1.stride);
    assert p * s1.stride == s1.stride * p;
  }

  lemma ComposeValid(s1: Slice, s2: Slice)
    requires Valid(s1) && Valid(s2) && Compose(s1, s2).Composed?
    ensures Valid(Compose(s1, s2).slice)
  {
    MulMono(1, s1.stride, s2.stride);
    MulNonneg(s1.stride, s2.first);
    ScaleLe(s2.first, s2.last, s1.stride);
  }

  // Position k of the composition exists exactly when s2 has a position k and it lies within s1.
  lemma ComposeHas(s1: Slice, s2: Slice, k: nat)
    requires Valid(s1) && Valid(s2) && Compose(s1, s2).Composed?
    ensures Valid(Compose(s1, s2).slice)
    ensures k < Selected(Compose(s1, s2).slice) <==> k < Selected(s2) && At(s2, k) < Selected(s1)
    ensures At(Compose(s1, s2).slice, k) == At(s1, At(s2, k))
  {
    ComposeValid(s1, s2);
    ComposeAt(s1, s2, k);
    AtInside(Compose(s1, s2).slice, k);
    AtInside(s2, k);
    AtInside(s1, At(s2, k));
  }

  /** A successful composition is a valid slice that selects what s2 picks from the selection of s1. */
  lemma ComposeSelects(s1: Slice, s2: Slice)
    requires Valid(s1) && Valid(s2) && Compose(s1, s2).Composed?
    ensures Valid(Compose(s1, s2).slice)
    ensures Indices(Compose(s1, s2).slice) == Pick(Indices(s1), Indices(s2))
    ensures var r := Compose(s1, s2).slice;
      && r.first == s1.first + s1.stride * s2.first && r.stride == s1.stride * s2.stride
      && r.last == (if s1.last < s1.first + s1.stride * s2.last then s1.last else s1.first + s1.stride * s2.last)
      && r.declsize == (if s1.declsize > s2.declsize then s1.declsize else s2.declsize)
  {
    ComposeValid(s1, s2);
    var r := Compose(s1, s2).slice;
    var xs, ps, n := Indices(s1), Indices(s2), Selected(r);
    if n > |ps| {
      ComposeHas(s1, s2, |ps|);
    }
    forall k | 0 <= k < |ps|
      ensures ps[k] < |xs| <==> k < n
      ensures k < n ==> At(r, k) == xs[ps[k]]
    {
      ComposeHas(s1, s2, k);
    }
    PickPrefix(xs, ps, n);
  }
}
