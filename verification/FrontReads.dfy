/**
When copying the front of an array is the same as reading it through slices.

extract copies the front of a response whose variable is not marked whole (libdap2/getvara.c).  In one
instance of the containers the copy is right when the server has sliced the field, as there is
nothing else; for an unsliced field it is right exactly when the slices select a leading run.
*/
module FrontReads {
  import opened Arithmetic
  import opened Slices
  import opened RowMajor
  import opened Projections
  import opened Extract
  import Odometer

  // Single first positions, then a leading range, then whole dimensions.
  predicate Leading(shape: seq<nat>, sl: seq<Slice>)
    requires |sl| == |shape| && AllValid(sl)
  {
    shape != [] ==>
      && sl[0].first == 0
      && ((sl[0].count == 1 && Leading(shape[1..], sl[1..]))
          || (sl[0].stride == 1 && SliceCounts(sl[1..]) == shape[1..]))
  }

  /** Copying the front is right, whatever the data, exactly for leading slices. */
  lemma FrontIsReadIff(shape: seq<nat>, sl: seq<Slice>)
    requires Fits(shape, sl)
    ensures (forall data: seq<int> :: |data| == Product(shape) ==> Front(data, shape, sl) == ReadSlices(data, shape, sl))
            <==> Leading(shape, sl)
  {
    if Leading(shape, sl) {
      forall data: seq<int> | |data| == Product(shape)
        ensures Front(data, shape, sl) == ReadSlices(data, shape, sl)
      {
        LeadingReads(data, shape, sl);
      }
    } else {
      var data: seq<int> := seq(Product(shape), k => k);
      if Front(data, shape, sl) == ReadSlices(data, shape, sl) {
        ReadInPlace(data, shape, sl);
        FitsRanges(shape, sl);
        InPlaceIsLeading(shape, sl, SliceCounts(sl));
      }
    }
  }

  // ---------- Leading slices read the front ----------

  lemma {:induction false} FullCountsSelectAll(shape: seq<nat>, sl: seq<Slice>)
    requires Fits(shape, sl) && SliceCounts(sl) == shape
    ensures Sel(sl) == AllOf(shape)
  {
    if shape != [] {
      FitsParts(shape, sl);
      assert SliceCounts(sl)[1..] == SliceCounts(sl[1..]);
      FullCountsSelectAll(shape[1..], sl[1..]);
      FullCount(sl[0], shape[0]);
      FitsHead(shape, sl);
    }
  }

  lemma FitsHead(shape: seq<nat>, sl: seq<Slice>)
    requires shape != [] && Fits(shape, sl)
    ensures Valid(sl[0]) && sl[0].count >= 1 && |Indices(sl[0])| == sl[0].count
    ensures forall k :: 0 <= k < |Indices(sl[0])| ==> Indices(sl[0])[k] < shape[0]
    ensures Sel(sl) == [Indices(sl[0])] + Sel(sl[1..])
  {
    FitsSelects(shape, sl);
    CountIsSelected(sl[0]);
    AtZero(sl[0]);
  }

  // A slice with as many positions as its dimension has takes them all, in order.
  lemma FullCount(s: Slice, size: nat)
    requires Valid(s) && s.count == size && forall k :: 0 <= k < |Indices(s)| ==> Indices(s)[k] < size
    ensures Indices(s) == seq(size, k => k)
  {
    CountIsSelected(s);
    AtZero(s);
    assert Indices(s)[size - 1] < size;
    MulMono(1, s.stride, size - 1);
    assert s.first == 0;
    forall k: nat | k < size
      ensures Indices(s)[k] == k
    {
      UnitOrOnly(s.stride, size - 1, k);
    }
  }

  lemma UnitOrOnly(stride: nat, last: nat, k: nat)
    requires stride >= 1 && stride * last <= last && k <= last
    ensures stride * k == k
  {
    if last > 0 && stride > 1 {
      MulMono(2, stride, last);
    }
  }

  // Rows from..upto of whole blocks are a run of the array.
  lemma {:induction false} ReadRun<T>(data: seq<T>, shape: seq<nat>, sel: seq<seq<nat>>, from: nat, upto: nat)
    requires shape != [] && |data| == Product(shape) && Selects(shape, sel) && from <= upto <= shape[0]
    requires sel[1..] == AllOf(shape[1..])
    ensures var size := Product(shape[1..]);
      && 0 <= from * size <= upto * size <= |data|
      && ReadRows(data, shape, sel, seq(upto, k => k)[from..]) == data[from * size..upto * size]
    decreases upto - from
  {
    var size := Product(shape[1..]);
    MulMono(from, upto, size);
    MulNonneg(from, size);
    MulMono(upto, shape[0], size);
    if from < upto {
      var rows := seq(upto, k => k)[from..];
      ReadRun(data, shape, sel, from + 1, upto);
      assert rows[1..] == seq(upto, k => k)[from + 1..];
      ReadAll(Block(data, shape, from), shape[1..]);
      BlockFits(from, shape[0], size);
      assert data[from * size..upto * size] == data[from * size..(from + 1) * size] + data[(from + 1) * size..upto * size];
    }
  }

  lemma {:induction false} LeadingReads<T>(data: seq<T>, shape: seq<nat>, sl: seq<Slice>)
    requires Fits(shape, sl) && |data| == Product(shape) && Leading(shape, sl)
    ensures Front(data, shape, sl) == ReadSlices(data, shape, sl)
    decreases |shape|
  {
    FitsSelects(shape, sl);
    SelectedFewer(shape, sl);
    if shape != [] {
      FitsHead(shape, sl);
      FitsParts(shape, sl);
      assert SliceCounts(sl)[1..] == SliceCounts(sl[1..]);
      assert Sel(sl)[1..] == Sel(sl[1..]);
      AtZero(sl[0]);
      if sl[0].count == 1 && Leading(shape[1..], sl[1..]) {
        LeadingReads(Block(data, shape, 0), shape[1..], sl[1..]);
        assert Indices(sl[0]) == [0];
        OneRow(data, shape, Sel(sl));
        SelectedFewer(shape[1..], sl[1..]);
      } else {
        FullCountsSelectAll(shape[1..], sl[1..]);
        SelectedWithin(sl[0], shape[0]);
        ReadRun(data, shape, Sel(sl), 0, sl[0].count);
        assert seq(sl[0].count, k => k)[0..] == Indices(sl[0]);
      }
    }
  }

  lemma OneRow<T>(data: seq<T>, shape: seq<nat>, sel: seq<seq<nat>>)
    requires shape != [] && shape[0] > 0 && |data| == Product(shape) && Selects(shape, sel) && sel[0] == [0]
    ensures Read(data, shape, sel) == Read(Block(data, shape, 0), shape[1..], sel[1..])
  {
    assert sel[0][1..] == [];
  }

  // ---------- Only leading slices do ----------

  // Where element `at` of the selection lies in the array.
  function Place(shape: seq<nat>, sl: seq<Slice>, at: seq<nat>): (r: int)
    requires |sl| == |shape| == |at|
  {
    if shape == [] then 0
    else (sl[0].first + sl[0].stride * at[0]) * Product(shape[1..]) + Place(shape[1..], sl[1..], at[1..])
  }

  lemma {:induction false} PlaceIsOffset(shape: seq<nat>, sl: seq<Slice>, at: seq<nat>)
    requires |shape| == |sl| == |at| && AllValid(sl)
    requires forall d :: 0 <= d < |sl| ==> at[d] < |Sel(sl)[d]|
    ensures Offset(shape, Through(Sel(sl), at)) == Place(shape, sl, at)
  {
    if shape != [] {
      assert Sel(sl)[1..] == Sel(sl[1..]);
      PlaceIsOffset(shape[1..], sl[1..], at[1..]);
      assert Through(Sel(sl), at)[1..] == Through(Sel(sl[1..]), at[1..]);
      assert Sel(sl)[0] == Indices(sl[0]);
    }
  }

  // The k-th selected element is the k-th element of the array, for every k.
  ghost predicate InPlace(shape: seq<nat>, sl: seq<Slice>, counts: seq<nat>)
    requires |sl| == |shape| == |counts|
  {
    forall at: seq<nat> :: Within(at, counts) ==> Offset(counts, at) == Place(shape, sl, at)
  }

  lemma ReadInPlace(data: seq<int>, shape: seq<nat>, sl: seq<Slice>)
    requires Fits(shape, sl) && |data| == Product(shape) && forall k :: 0 <= k < |data| ==> data[k] == k
    requires Front(data, shape, sl) == ReadSlices(data, shape, sl)
    ensures InPlace(shape, sl, SliceCounts(sl))
  {
    forall at: seq<nat> | Within(at, SliceCounts(sl))
      ensures Offset(SliceCounts(sl), at) == Place(shape, sl, at)
    {
      ReadOne(data, shape, sl, at);
    }
  }

  lemma ReadOne(data: seq<int>, shape: seq<nat>, sl: seq<Slice>, at: seq<nat>)
    requires Fits(shape, sl) && |data| == Product(shape) && forall k :: 0 <= k < |data| ==> data[k] == k
    requires Front(data, shape, sl) == ReadSlices(data, shape, sl)
    requires Within(at, SliceCounts(sl))
    ensures Offset(SliceCounts(sl), at) == Place(shape, sl, at)
  {
    FitsSelects(shape, sl);
    SelectedFewer(shape, sl);
    ReadAt(data, shape, Sel(sl), at);
    PlaceIsOffset(shape, sl, at);
    var n := Offset(SliceCounts(sl), at);
    assert Front(data, shape, sl)[n] == data[n];
  }

  // Smaller factors: a smaller product, and an equal one only for equal factors.
  lemma {:induction false} EqualProducts(small: seq<nat>, big: seq<nat>)
    requires |small| == |big| && forall d :: 0 <= d < |small| ==> 1 <= small[d] <= big[d]
    ensures 1 <= Product(small) <= Product(big)
    ensures Product(small) == Product(big) ==> small == big
  {
    if small != [] {
      EqualProducts(small[1..], big[1..]);
      EqualFactors(small[0], Product(small[1..]), big[0], Product(big[1..]));
      assert small == [small[0]] + small[1..] && big == [big[0]] + big[1..];
    }
  }

  lemma EqualFactors(m: nat, a: nat, n: nat, b: nat)
    requires 1 <= m <= n && 1 <= a <= b
    ensures 1 <= m * a <= n * b
    ensures m * a == n * b ==> m == n && a == b
  {
    MulMono(m, n, a);
    MulMono(a, b, n);
    MulMono(1, m, a);
    if m < n {
      MulMono(m + 1, n, a);
    } else if a < b {
      MulMono(a + 1, b, n);
    }
  }

  ghost predicate Ranges(shape: seq<nat>, sl: seq<Slice>, counts: seq<nat>) {
    |sl| == |shape| == |counts| &&
    forall d :: 0 <= d < |sl| ==> 1 <= counts[d] <= shape[d] && 0 <= sl[d].first && 1 <= sl[d].stride && counts[d] == sl[d].count
  }

  lemma {:induction false} InPlaceIsLeading(shape: seq<nat>, sl: seq<Slice>, counts: seq<nat>)
    requires Ranges(shape, sl, counts) && AllValid(sl) && SliceCounts(sl) == counts && InPlace(shape, sl, counts)
    ensures Leading(shape, sl)
    decreases |shape|
  {
    if shape != [] {
      assert SliceCounts(sl)[1..] == SliceCounts(sl[1..]);
      EqualProducts(counts[1..], shape[1..]);
      FirstIsZero(shape, sl, counts);
      if sl[0].count == 1 {
        TailInPlace(shape, sl, counts);
        InPlaceIsLeading(shape[1..], sl[1..], counts[1..]);
      } else {
        SecondRow(shape, sl, counts);
      }
    }
  }

  lemma {:induction false} PlaceNonneg(shape: seq<nat>, sl: seq<Slice>, at: seq<nat>)
    requires |sl| == |shape| == |at| && forall d :: 0 <= d < |sl| ==> 0 <= sl[d].first && 1 <= sl[d].stride
    ensures Place(shape, sl, at) >= 0
  {
    if shape != [] {
      PlaceNonneg(shape[1..], sl[1..], at[1..]);
      MulNonneg(sl[0].stride, at[0]);
      MulNonneg(sl[0].first + sl[0].stride * at[0], Product(shape[1..]));
    }
  }

  lemma InRow(shape: seq<nat>, sl: seq<Slice>, counts: seq<nat>, k: nat, at: seq<nat>)
    requires Ranges(shape, sl, counts) && shape != [] && InPlace(shape, sl, counts)
    requires k < counts[0] && Within(at, counts[1..])
    ensures k * Product(counts[1..]) + Offset(counts[1..], at) ==
            (sl[0].first + sl[0].stride * k) * Product(shape[1..]) + Place(shape[1..], sl[1..], at)
  {
    var full := [k] + at;
    assert full[1..] == at;
    assert Within(full, counts);
    assert Offset(counts, full) == Place(shape, sl, full);
  }

  lemma ZerosWithin(counts: seq<nat>)
    requires forall d :: 0 <= d < |counts| ==> 1 <= counts[d]
    ensures Within(Odometer.Zeros(|counts|), counts) && Offset(counts, Odometer.Zeros(|counts|)) == 0
  {
    Odometer.ZeroOffset(counts);
  }

  lemma FirstIsZero(shape: seq<nat>, sl: seq<Slice>, counts: seq<nat>)
    requires Ranges(shape, sl, counts) && shape != [] && InPlace(shape, sl, counts) && Product(shape[1..]) >= 1
    ensures sl[0].first == 0
    ensures Place(shape[1..], sl[1..], Odometer.Zeros(|shape| - 1)) == 0
  {
    var zeros := Odometer.Zeros(|shape| - 1);
    ZerosWithin(counts[1..]);
    InRow(shape, sl, counts, 0, zeros);
    PlaceNonneg(shape[1..], sl[1..], zeros);
    MulMono(1, Product(shape[1..]), sl[0].first);
    assert sl[0].first * Product(shape[1..]) == Product(shape[1..]) * sl[0].first;
  }

  lemma TailInPlace(shape: seq<nat>, sl: seq<Slice>, counts: seq<nat>)
    requires Ranges(shape, sl, counts) && shape != [] && InPlace(shape, sl, counts) && sl[0].first == 0
    ensures InPlace(shape[1..], sl[1..], counts[1..])
  {
    forall at: seq<nat> | Within(at, counts[1..])
      ensures Offset(counts[1..], at) == Place(shape[1..], sl[1..], at)
    {
      InRow(shape, sl, counts, 0, at);
    }
  }

  lemma SecondRow(shape: seq<nat>, sl: seq<Slice>, counts: seq<nat>)
    requires Ranges(shape, sl, counts) && shape != [] && InPlace(shape, sl, counts) && counts[0] > 1
    requires 1 <= Product(counts[1..]) <= Product(shape[1..])
    ensures sl[0].stride == 1 && Product(counts[1..]) == Product(shape[1..])
  {
    var zeros := Odometer.Zeros(|shape| - 1);
    FirstIsZero(shape, sl, counts);
    ZerosWithin(counts[1..]);
    InRow(shape, sl, counts, 1, zeros);
    if sl[0].stride > 1 {
      MulMono(2, sl[0].stride, Product(shape[1..]));
    }
  }

  lemma FitsRanges(shape: seq<nat>, sl: seq<Slice>)
    requires Fits(shape, sl)
    ensures Ranges(shape, sl, SliceCounts(sl))
  {
    forall d | 0 <= d < |sl|
      ensures 1 <= SliceCounts(sl)[d] <= shape[d]
    {
      SelectedWithin(sl[d], shape[d]);
      CountIsSelected(sl[d]);
      AtZero(sl[d]);
    }
  }
}
