/**
The positions that an odometer visits, and reading in two parts: the last dimensions of a selection
at each position of the first ones.
*/
module Selections {
  import opened Arithmetic
  import opened Slices
  import opened RowMajor
  import opened Projections
  import opened Odometer
  import opened Extract

  // ---------- Positions of an odometer ----------

  function Prefixed(k: nat, ps: seq<seq<nat>>): (r: seq<seq<nat>>)
    ensures |r| == |ps| && forall i :: 0 <= i < |ps| ==> r[i] == [k] + ps[i]
  {
    seq(|ps|, i requires 0 <= i < |ps| => [k] + ps[i])
  }

  function PrefixedAll(ks: seq<nat>, ps: seq<seq<nat>>): (r: seq<seq<nat>>) {
    if ks == [] then [] else Prefixed(ks[0], ps) + PrefixedAll(ks[1..], ps)
  }

  // All selected positions, in row-major order.
  function Positions(sel: seq<seq<nat>>): (r: seq<seq<nat>>) {
    if sel == [] then [[]] else PrefixedAll(sel[0], Positions(sel[1..]))
  }

  lemma {:induction false} PrefixedAt(ks: seq<nat>, ps: seq<seq<nat>>, k: nat, j: nat)
    requires k < |ks| && j < |ps|
    ensures |PrefixedAll(ks, ps)| == |ks| * |ps|
    ensures 0 <= k * |ps| + j < |ks| * |ps|
    ensures PrefixedAll(ks, ps)[k * |ps| + j] == [ks[k]] + ps[j]
  {
    PrefixedSize(ks, ps);
    BlockFits(k, |ks|, |ps|);
    if k > 0 {
      PrefixedAt(ks[1..], ps, k - 1, j);
      NextMultiple(k - 1, |ps|);
    }
  }

  lemma {:induction false} PrefixedSize(ks: seq<nat>, ps: seq<seq<nat>>)
    ensures |PrefixedAll(ks, ps)| == |ks| * |ps|
  {
    if ks != [] {
      PrefixedSize(ks[1..], ps);
      NextMultiple(|ks| - 1, |ps|);
    }
  }

  lemma {:induction false} PositionsSize(sel: seq<seq<nat>>)
    ensures |Positions(sel)| == Product(Counts(sel))
  {
    if sel != [] {
      PositionsSize(sel[1..]);
      PrefixedSize(sel[0], Positions(sel[1..]));
      assert Counts(sel)[1..] == Counts(sel[1..]);
    }
  }

  /** The odometer visits the positions in their order. */
  lemma {:induction false} PositionAt(sel: seq<seq<nat>>, digits: seq<nat>)
    requires |digits| == |sel| && forall d :: 0 <= d < |sel| ==> digits[d] < |sel[d]|
    ensures Offset(Counts(sel), digits) < |Positions(sel)|
    ensures Positions(sel)[Offset(Counts(sel), digits)] == Through(sel, digits)
  {
    if sel != [] {
      var tail := Positions(sel[1..]);
      var off := Offset(Counts(sel[1..]), digits[1..]);
      PositionAt(sel[1..], digits[1..]);
      PositionsSize(sel[1..]);
      assert Counts(sel)[1..] == Counts(sel[1..]);
      PrefixedAt(sel[0], tail, digits[0], off);
      assert Offset(Counts(sel), digits) == digits[0] * |tail| + off;
    }
  }

  // A position within the first dimensions of an array.
  predicate Inside(p: seq<nat>, shape: seq<nat>) {
    |p| <= |shape| && forall d :: 0 <= d < |p| ==> p[d] < shape[d]
  }

  predicate AllInside(ps: seq<seq<nat>>, shape: seq<nat>) {
    forall i :: 0 <= i < |ps| ==> Inside(ps[i], shape)
  }

  lemma {:induction false} PrefixedInside(ks: seq<nat>, ps: seq<seq<nat>>, shape: seq<nat>)
    requires shape != [] && ps != []
    ensures AllInside(PrefixedAll(ks, ps), shape) <==>
      ks == [] || ((forall k :: 0 <= k < |ks| ==> ks[k] < shape[0]) && AllInside(ps, shape[1..]))
  {
    if ks != [] {
      PrefixedInside(ks[1..], ps, shape);
      var first, rest := Prefixed(ks[0], ps), PrefixedAll(ks[1..], ps);
      InsideBoth(first, rest, shape);
      InsidePrefix(ks[0], ps, shape);
      assert ks == [ks[0]] + ks[1..];
    }
  }

  lemma InsideBoth(a: seq<seq<nat>>, b: seq<seq<nat>>, shape: seq<nat>)
    ensures AllInside(a + b, shape) <==> AllInside(a, shape) && AllInside(b, shape)
  {
    if AllInside(a + b, shape) {
      forall i | 0 <= i < |b|
        ensures Inside(b[i], shape)
      {
        assert (a + b)[|a| + i] == b[i];
      }
      assert forall i :: 0 <= i < |a| ==> (a + b)[i] == a[i];
    }
  }

  lemma InsidePrefix(k: nat, ps: seq<seq<nat>>, shape: seq<nat>)
    requires shape != [] && ps != []
    ensures AllInside(Prefixed(k, ps), shape) <==> k < shape[0] && AllInside(ps, shape[1..])
  {
    forall i | 0 <= i < |ps|
      ensures Inside(Prefixed(k, ps)[i], shape) <==> k < shape[0] && Inside(ps[i], shape[1..])
    {
      var p := [k] + ps[i];
      assert p[1..] == ps[i];
      if Inside(p, shape) {
        assert p[0] == k;
        assert forall d :: 0 <= d < |ps[i]| ==> ps[i][d] == p[d + 1];
      }
    }
    assert Inside(Prefixed(k, ps)[0], shape) <==> k < shape[0] && Inside(ps[0], shape[1..]);
  }

  /** All positions lie in the array exactly when the slices fit it. */
  lemma {:induction false} InsideIffSelects(shape: seq<nat>, sel: seq<seq<nat>>)
    requires |sel| == |shape| && forall d :: 0 <= d < |sel| ==> sel[d] != []
    ensures Positions(sel) != []
    ensures AllInside(Positions(sel), shape) <==> Selects(shape, sel)
  {
    if sel == [] {
      assert Inside([], shape);
    } else {
      InsideIffSelects(shape[1..], sel[1..]);
      PrefixedInside(sel[0], Positions(sel[1..]), shape);
      PrefixedAt(sel[0], Positions(sel[1..]), 0, 0);
    }
  }

  // ---------- Selections in two parts ----------

  lemma Parts<T>(s: seq<T>, r: nat, c: nat)
    requires r <= c <= |s|
    ensures s[..c][..r] == s[..r] && s[..c][r..] == s[r..][..c - r] && s[r..][c - r..] == s[c..]
  {
  }

  lemma ValidTail(slices: seq<Slice>, r: nat)
    requires AllValid(slices) && r <= |slices|
    ensures AllValid(slices[..r]) && AllValid(slices[r..])
  {
  }

  lemma FitsSplit(shape: seq<nat>, sl: seq<Slice>, n: nat)
    requires |shape| == |sl| && n <= |sl|
    ensures Projections.Fits(shape, sl) <==> Projections.Fits(shape[..n], sl[..n]) && Projections.Fits(shape[n..], sl[n..])
  {
    if Projections.Fits(shape[..n], sl[..n]) && Projections.Fits(shape[n..], sl[n..]) {
      forall d | 0 <= d < |sl|
        ensures Valid(sl[d]) && forall k :: 0 <= k < |Indices(sl[d])| ==> Indices(sl[d])[k] < shape[d]
      {
        if d < n {
          assert sl[d] == sl[..n][d] && shape[d] == shape[..n][d];
        } else {
          assert sl[d] == sl[n..][d - n] && shape[d] == shape[n..][d - n];
        }
      }
    }
  }

  // The positions of slices that fit lie in the array, and have one entry per dimension.
  lemma PositionsFit(first: seq<nat>, sl: seq<Slice>, shape: seq<nat>)
    requires AllValid(sl) && |sl| == |first| && first <= shape
    ensures Positions(Sel(sl)) != []
    ensures forall i :: 0 <= i < |Positions(Sel(sl))| ==> |Positions(Sel(sl))[i]| == |sl|
    ensures AllInside(Positions(Sel(sl)), shape) <==> Projections.Fits(first, sl)
  {
    NoneEmpty(sl);
    InsideIffSelects(first, Sel(sl));
    PositionLengths(Sel(sl));
    var ps := Positions(Sel(sl));
    forall i | 0 <= i < |ps|
      ensures Inside(ps[i], first) <==> Inside(ps[i], shape)
    {
      assert forall d :: 0 <= d < |first| ==> shape[d] == first[d];
    }
    if Projections.Fits(first, sl) {
      FitsSelects(first, sl);
    }
    if AllInside(ps, first) {
      SelectsFits(first, sl);
    }
  }

  lemma {:induction false} PositionLengths(sel: seq<seq<nat>>)
    ensures forall i :: 0 <= i < |Positions(sel)| ==> |Positions(sel)[i]| == |sel|
  {
    if sel != [] {
      PositionLengths(sel[1..]);
      PrefixedLengths(sel[0], Positions(sel[1..]), |sel| - 1);
    }
  }

  lemma {:induction false} PrefixedLengths(ks: seq<nat>, ps: seq<seq<nat>>, n: nat)
    requires forall i :: 0 <= i < |ps| ==> |ps[i]| == n
    ensures forall i :: 0 <= i < |PrefixedAll(ks, ps)| ==> |PrefixedAll(ks, ps)[i]| == n + 1
  {
    if ks != [] {
      PrefixedLengths(ks[1..], ps, n);
    }
  }

  lemma FirstInstances(sl: seq<Slice>)
    requires AllValid(sl)
    ensures |Positions(Sel(sl))| == Product(SliceCounts(sl))
  {
    PositionsSize(Sel(sl));
  }

  lemma {:induction false} CountsPositive(sl: seq<Slice>)
    requires AllValid(sl)
    ensures Product(SliceCounts(sl)) > 0
  {
    if sl != [] {
      CountsPositive(sl[1..]);
      assert SliceCounts(sl)[1..] == SliceCounts(sl[1..]);
      AtZero(sl[0]);
      CountIsSelected(sl[0]);
      MulMono(1, sl[0].count, Product(SliceCounts(sl[1..])));
    }
  }

  lemma CountsJoin(sl: seq<Slice>, n: nat)
    requires AllValid(sl) && n <= |sl|
    ensures SliceCounts(sl)[..n] == SliceCounts(sl[..n]) && SliceCounts(sl)[n..] == SliceCounts(sl[n..])
  {
    SelFrom(sl, n);
    CountsSplit(Sel(sl), n);
  }

  // What the rest of a selection reads at the positions, one after the other.
  function CatReads(data: seq<int>, shape: seq<nat>, ps: seq<seq<nat>>, rest: seq<seq<nat>>, r: nat): (out: seq<int>)
    requires |data| == Product(shape) && r <= |shape| && Selects(shape[r..], rest)
    requires AllInside(ps, shape) && forall i :: 0 <= i < |ps| ==> |ps[i]| == r
    decreases |ps|
  {
    if ps == [] then []
    else
      assert Inside(ps[0], shape);
      Read(Sub(data, shape, ps[0]), shape[r..], rest) + CatReads(data, shape, ps[1..], rest, r)
  }

  lemma {:induction false} CatReadsSplit(data: seq<int>, shape: seq<nat>, a: seq<seq<nat>>, b: seq<seq<nat>>, rest: seq<seq<nat>>, r: nat)
    requires |data| == Product(shape) && r <= |shape| && Selects(shape[r..], rest)
    requires AllInside(a, shape) && forall i :: 0 <= i < |a| ==> |a[i]| == r
    requires AllInside(b, shape) && forall i :: 0 <= i < |b| ==> |b[i]| == r
    ensures AllInside(a + b, shape)
    ensures CatReads(data, shape, a + b, rest, r) == CatReads(data, shape, a, rest, r) + CatReads(data, shape, b, rest, r)
    decreases |a|
  {
    InsideBoth(a, b, shape);
    if a == [] {
      assert a + b == b;
    } else {
      assert (a + b)[1..] == a[1..] + b;
      assert Inside(a[0], shape);
      CatReadsSplit(data, shape, a[1..], b, rest, r);
      var head := Read(Sub(data, shape, a[0]), shape[r..], rest);
      JoinThree(head, CatReads(data, shape, a[1..], rest, r), CatReads(data, shape, b, rest, r));
    }
  }

  lemma JoinThree<T>(a: seq<T>, b: seq<T>, c: seq<T>)
    ensures a + (b + c) == (a + b) + c
  {
  }

  lemma {:induction false} CatReadsPrefixed(data: seq<int>, shape: seq<nat>, k: nat, ps: seq<seq<nat>>, rest: seq<seq<nat>>, r: nat)
    requires shape != [] && |data| == Product(shape) && k < shape[0] && r < |shape| && Selects(shape[r + 1..], rest)
    requires AllInside(ps, shape[1..]) && forall i :: 0 <= i < |ps| ==> |ps[i]| == r
    ensures AllInside(Prefixed(k, ps), shape) && Selects(shape[1..][r..], rest)
    ensures CatReads(data, shape, Prefixed(k, ps), rest, r + 1) == CatReads(Block(data, shape, k), shape[1..], ps, rest, r)
    decreases |ps|
  {
    assert shape[1..][r..] == shape[r + 1..];
    if ps != [] {
      InsidePrefix(k, ps, shape);
      assert Prefixed(k, ps)[1..] == Prefixed(k, ps[1..]);
      CatReadsPrefixed(data, shape, k, ps[1..], rest, r);
      assert Inside(ps[0], shape[1..]);
      assert ([k] + ps[0])[1..] == ps[0];
    }
  }

  /** A read is what its last dimensions read at the positions of its first ones. */
  lemma {:induction false} ReadIsCatReads(data: seq<int>, shape: seq<nat>, a: seq<seq<nat>>, rest: seq<seq<nat>>)
    requires |data| == Product(shape) && Selects(shape, a + rest)
    requires forall d :: 0 <= d < |a| ==> a[d] != []
    ensures |a| <= |shape| && Selects(shape[|a|..], rest) && AllInside(Positions(a), shape)
    ensures forall i :: 0 <= i < |Positions(a)| ==> |Positions(a)[i]| == |a|
    ensures Read(data, shape, a + rest) == CatReads(data, shape, Positions(a), rest, |a|)
    decreases |a|, 1, 0
  {
    PositionLengths(a);
    if a == [] {
      assert a + rest == rest && shape[0..] == shape && |Positions(a)| == 1;
      assert Inside([], shape);
    } else {
      assert (a + rest)[0] == a[0] && (a + rest)[1..] == a[1..] + rest;
      if a[0] != [] {
        ReadIsCatReads(Block(data, shape, a[0][0]), shape[1..], a[1..], rest);
      }
      assert shape[1..][|a| - 1..] == shape[|a|..];
      RowsAreCatReads(data, shape, a, rest, a[0]);
    }
  }

  lemma {:induction false} RowsAreCatReads(data: seq<int>, shape: seq<nat>, a: seq<seq<nat>>, rest: seq<seq<nat>>, ks: seq<nat>)
    requires a != [] && |data| == Product(shape) && Selects(shape, a + rest)
    requires forall d :: 0 <= d < |a| ==> a[d] != []
    requires forall k :: 0 <= k < |ks| ==> ks[k] < shape[0]
    ensures |a| <= |shape| && Selects(shape[|a|..], rest)
    ensures var ps := PrefixedAll(ks, Positions(a[1..]));
      && AllInside(ps, shape) && (forall i :: 0 <= i < |ps| ==> |ps[i]| == |a|)
      && ReadRows(data, shape, a + rest, ks) == CatReads(data, shape, ps, rest, |a|)
    decreases |a|, 0, |ks|
  {
    assert (a + rest)[0] == a[0] && (a + rest)[1..] == a[1..] + rest;
    SelectsTail(shape, a, rest);
    if ks != [] {
      var tail := Positions(a[1..]);
      ReadIsCatReads(Block(data, shape, ks[0]), shape[1..], a[1..], rest);
      RowsAreCatReads(data, shape, a, rest, ks[1..]);
      CatReadsPrefixed(data, shape, ks[0], tail, rest, |a| - 1);
      CatReadsSplit(data, shape, Prefixed(ks[0], tail), PrefixedAll(ks[1..], tail), rest, |a|);
    }
  }

  lemma {:induction false} SelectsTail(shape: seq<nat>, a: seq<seq<nat>>, rest: seq<seq<nat>>)
    requires Selects(shape, a + rest)
    ensures |a| <= |shape| && Selects(shape[|a|..], rest)
  {
    if a == [] {
      assert a + rest == rest && shape[0..] == shape;
    } else {
      assert (a + rest)[1..] == a[1..] + rest;
      SelectsTail(shape[1..], a[1..], rest);
      assert shape[1..][|a| - 1..] == shape[|a|..];
    }
  }

  // What is read through all slices is read through the later ones at the positions of the first ones.
  lemma SegmentReads(data: seq<int>, shape: seq<nat>, slices: seq<Slice>, r: nat)
    requires |data| == Product(shape) && Projections.Fits(shape, slices) && r <= |slices|
    ensures Projections.Fits(shape[r..], slices[r..]) && Selects(shape[r..], Sel(slices[r..]))
    ensures var ps := Positions(Sel(slices[..r]));
      && AllInside(ps, shape) && (forall i :: 0 <= i < |ps| ==> |ps[i]| == r)
      && ReadSlices(data, shape, slices) == CatReads(data, shape, ps, Sel(slices[r..]), r)
  {
    var a, rest := Sel(slices[..r]), Sel(slices[r..]);
    FitsSplit(shape, slices, r);
    SelFrom(slices, r);
    FitsSelects(shape, slices);
    FitsSelects(shape[r..], slices[r..]);
    assert Sel(slices) == a + rest;
    NoneEmpty(slices[..r]);
    ReadIsCatReads(data, shape, a, rest);
  }

  lemma NoneEmpty(sl: seq<Slice>)
    requires AllValid(sl)
    ensures forall d :: 0 <= d < |sl| ==> Sel(sl)[d] != []
  {
    forall d | 0 <= d < |sl|
      ensures Sel(sl)[d] != []
    {
      SelAt(sl, d);
      AtZero(sl[d]);
    }
  }

  // The last selected position in each dimension.
  function LastOf(sel: seq<seq<nat>>): (r: seq<nat>)
    requires forall d :: 0 <= d < |sel| ==> sel[d] != []
    ensures |r| == |sel|
  {
    if sel == [] then [] else [sel[0][|sel[0]| - 1]] + LastOf(sel[1..])
  }

  lemma {:induction false} PrefixedLast(ks: seq<nat>, ps: seq<seq<nat>>)
    requires ks != [] && ps != []
    ensures PrefixedAll(ks, ps) != []
    ensures PrefixedAll(ks, ps)[|PrefixedAll(ks, ps)| - 1] == [ks[|ks| - 1]] + ps[|ps| - 1]
  {
    var first, rest := Prefixed(ks[0], ps), PrefixedAll(ks[1..], ps);
    if |ks| == 1 {
      assert first + rest == first;
    } else {
      PrefixedLast(ks[1..], ps);
      assert (first + rest)[|first| + |rest| - 1] == rest[|rest| - 1];
    }
  }

  lemma {:induction false} PositionsLast(sel: seq<seq<nat>>)
    requires forall d :: 0 <= d < |sel| ==> sel[d] != []
    ensures Positions(sel) != [] && Positions(sel)[|Positions(sel)| - 1] == LastOf(sel)
  {
    if sel != [] {
      PositionsLast(sel[1..]);
      PrefixedLast(sel[0], Positions(sel[1..]));
    }
  }

  lemma {:induction false} SubOfSub(data: seq<int>, shape: seq<nat>, p: seq<nat>, q: seq<nat>)
    requires |data| == Product(shape) && Inside(p, shape) && Inside(q, shape[|p|..])
    ensures Inside(p + q, shape) && Sub(Sub(data, shape, p), shape[|p|..], q) == Sub(data, shape, p + q)
    decreases |p|
  {
    if p == [] {
      assert p + q == q && shape[0..] == shape;
    } else {
      assert shape[1..][|p[1..]|..] == shape[|p|..];
      assert (p + q)[1..] == p[1..] + q;
      SubOfSub(Block(data, shape, p[0]), shape[1..], p[1..], q);
    }
  }

  // ---------- Positions in two groups ----------

  function Shifted(p: seq<nat>, qs: seq<seq<nat>>): (r: seq<seq<nat>>)
    ensures |r| == |qs| && forall i :: 0 <= i < |qs| ==> r[i] == p + qs[i]
  {
    seq(|qs|, i requires 0 <= i < |qs| => p + qs[i])
  }

  function Cross(ps: seq<seq<nat>>, qs: seq<seq<nat>>): (r: seq<seq<nat>>) {
    if ps == [] then [] else Shifted(ps[0], qs) + Cross(ps[1..], qs)
  }

  lemma {:induction false} CrossSplit(a: seq<seq<nat>>, b: seq<seq<nat>>, qs: seq<seq<nat>>)
    ensures Cross(a + b, qs) == Cross(a, qs) + Cross(b, qs)
  {
    if a == [] {
      assert a + b == b;
    } else {
      assert (a + b)[1..] == a[1..] + b;
      CrossSplit(a[1..], b, qs);
    }
  }

  lemma ShiftedPrefixed(k: nat, p: seq<nat>, qs: seq<seq<nat>>)
    ensures Prefixed(k, Shifted(p, qs)) == Shifted([k] + p, qs)
  {
    forall i | 0 <= i < |qs|
      ensures [k] + (p + qs[i]) == ([k] + p) + qs[i]
    {
      JoinThree([k], p, qs[i]);
    }
  }

  lemma ShiftedByNothing(qs: seq<seq<nat>>)
    ensures Shifted([], qs) == qs
  {
    forall i | 0 <= i < |qs|
      ensures [] + qs[i] == qs[i]
    {
    }
  }

  lemma {:induction false} CrossPrefixed(k: nat, ps: seq<seq<nat>>, qs: seq<seq<nat>>)
    ensures Prefixed(k, Cross(ps, qs)) == Cross(Prefixed(k, ps), qs)
  {
    if ps != [] {
      CrossPrefixed(k, ps[1..], qs);
      assert Prefixed(k, ps)[1..] == Prefixed(k, ps[1..]);
      ShiftedPrefixed(k, ps[0], qs);
      assert Prefixed(k, Cross(ps, qs)) == Prefixed(k, Shifted(ps[0], qs)) + Prefixed(k, Cross(ps[1..], qs));
    }
  }

  lemma {:induction false} CrossPrefixedAll(ks: seq<nat>, ps: seq<seq<nat>>, qs: seq<seq<nat>>)
    ensures PrefixedAll(ks, Cross(ps, qs)) == Cross(PrefixedAll(ks, ps), qs)
  {
    if ks != [] {
      CrossPrefixedAll(ks[1..], ps, qs);
      CrossPrefixed(ks[0], ps, qs);
      CrossSplit(Prefixed(ks[0], ps), PrefixedAll(ks[1..], ps), qs);
    }
  }

  /** The positions of two groups of dimensions: for each of the first, all of the second. */
  lemma {:induction false} PositionsCross(a: seq<seq<nat>>, b: seq<seq<nat>>)
    ensures Positions(a + b) == Cross(Positions(a), Positions(b))
  {
    if a == [] {
      assert a + b == b;
      var one := Positions(a);
      assert one[0] == [] && one[1..] == [];
      ShiftedByNothing(Positions(b));
    } else {
      assert (a + b)[1..] == a[1..] + b;
      PositionsCross(a[1..], b);
      CrossPrefixedAll(a[0], Positions(a[1..]), Positions(b));
    }
  }
}
