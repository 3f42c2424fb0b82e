/**
The dap odometer, which walks the positions that a list of slices selects (libdap2/dapodom.c).

The ghost digits count the steps taken in each dimension.  Their row-major offset is the number of
positions visited so far, and every dapodom_next adds one to it.
*/
module Odometer {
  import opened Slices
  import opened RowMajor
  import opened Projections

  // ---------- Counting in mixed radix ----------

  function Zeros(n: nat): (r: seq<nat>)
    ensures |r| == n && forall k :: 0 <= k < n ==> r[k] == 0
  {
    seq(n, k => 0)
  }

  lemma {:induction false} ZeroOffset(counts: seq<nat>)
    ensures Offset(counts, Zeros(|counts|)) == 0
  {
    if counts != [] {
      ZeroOffset(counts[1..]);
      assert Zeros(|counts|)[1..] == Zeros(|counts[1..]|);
    }
  }

  predicate AllPositive(counts: seq<nat>) {
    forall d :: 0 <= d < |counts| ==> counts[d] > 0
  }

  lemma {:induction false} MaxOffset(counts: seq<nat>, digits: seq<nat>)
    requires |digits| == |counts| && AllPositive(counts)
    requires forall d :: 0 <= d < |counts| ==> digits[d] == counts[d] - 1
    ensures Offset(counts, digits) == Product(counts) - 1
  {
    if counts != [] {
      MaxOffset(counts[1..], digits[1..]);
      var p := Product(counts[1..]);
      assert counts[0] * p == (counts[0] - 1) * p + p;
    }
  }

  /** Carrying over the maximal digits behind i adds one to the offset. */
  lemma {:induction false} CarryAddsOne(counts: seq<nat>, digits: seq<nat>, i: nat)
    requires i < |counts| == |digits| && AllPositive(counts)
    requires forall d :: i < d < |counts| ==> digits[d] == counts[d] - 1
    ensures Offset(counts, digits[..i] + [digits[i] + 1] + Zeros(|counts| - i - 1)) == Offset(counts, digits) + 1
  {
    var next := digits[..i] + [digits[i] + 1] + Zeros(|counts| - i - 1);
    var p := Product(counts[1..]);
    if i == 0 {
      assert next[1..] == Zeros(|counts[1..]|);
      ZeroOffset(counts[1..]);
      MaxOffset(counts[1..], digits[1..]);
      assert (digits[0] + 1) * p == digits[0] * p + p;
    } else {
      CarryAddsOne(counts[1..], digits[1..], i - 1);
      assert next[1..] == digits[1..][..i - 1] + [digits[1..][i - 1] + 1] + Zeros(|counts[1..]| - (i - 1) - 1);
    }
  }

  // Steps taken; the first digit may have run off its end, with the others back at their start.
  predicate Good(counts: seq<nat>, digits: seq<nat>) {
    && 0 < |counts| == |digits|
    && AllPositive(counts)
    && (forall d :: 0 < d < |counts| ==> digits[d] < counts[d])
    && digits[0] <= counts[0]
    && (digits[0] == counts[0] ==> forall d :: 0 < d < |counts| ==> digits[d] == 0)
  }

  // The digits after carrying at dimension i.
  function Carried(digits: seq<nat>, i: nat): (r: seq<nat>)
    requires i < |digits|
    ensures |r| == |digits| && r[i] == digits[i] + 1
    ensures forall d :: 0 <= d < i ==> r[d] == digits[d]
    ensures forall d :: i < d < |digits| ==> r[d] == 0
  {
    digits[..i] + [digits[i] + 1] + Zeros(|digits| - i - 1)
  }

  lemma CarryIsNext(counts: seq<nat>, digits: seq<nat>, i: nat)
    requires Good(counts, digits) && i < |counts| && digits[0] < counts[0]
    requires forall d :: i < d < |counts| ==> digits[d] + 1 == counts[d]
    requires digits[i] + 1 < counts[i] || i == 0
    ensures Good(counts, Carried(digits, i))
    ensures Offset(counts, Carried(digits, i)) == Offset(counts, digits) + 1
  {
    CarryAddsOne(counts, digits, i);
  }

  /** Fewer than all positions have been visited exactly while the first digit has not run off. */
  lemma VisitedAll(counts: seq<nat>, digits: seq<nat>)
    requires Good(counts, digits)
    ensures Offset(counts, digits) < Product(counts) <==> digits[0] < counts[0]
  {
    if digits[0] < counts[0] {
      OffsetWithin(counts, digits);
    } else {
      assert digits[1..] == Zeros(|counts[1..]|);
      ZeroOffset(counts[1..]);
    }
  }

  // The position after k steps, by addition.
  function Step(s: Slice, k: nat): (r: int) {
    if k == 0 then s.first else Step(s, k - 1) + s.stride
  }

  lemma {:induction false} StepIsAt(s: Slice, k: nat)
    requires Valid(s)
    ensures Step(s, k) == At(s, k)
  {
    if k > 0 {
      StepIsAt(s, k - 1);
      assert k * s.stride == (k - 1) * s.stride + s.stride;
    }
  }

  lemma StepInside(s: Slice, k: nat)
    requires Valid(s)
    ensures Step(s, k) >= 0
    ensures Step(s, k) < s.last + 1 <==> k < s.count
    ensures s.count > 0
  {
    StepIsAt(s, k);
    AtInside(s, k);
    CountIsSelected(s);
    AtZero(s);
  }

  // The first |slices| entries of idx are the positions that the digits stand for.
  predicate Shows(idx: seq<int>, slices: seq<Slice>, digits: seq<nat>) {
    |slices| == |digits| <= |idx| &&
    forall d :: 0 <= d < |slices| ==> idx[d] == Step(slices[d], digits[d])
  }

  lemma CarriedShows(idx: seq<int>, now: seq<int>, slices: seq<Slice>, digits: seq<nat>, i: nat)
    requires Shows(idx, slices, digits) && |now| == |idx| && i < |slices|
    requires now[..i] == idx[..i] && now[i] == idx[i] + slices[i].stride
    requires forall d :: i < d < |slices| ==> now[d] == slices[d].first
    ensures Shows(now, slices, Carried(digits, i))
  {
    forall d | 0 <= d < |slices|
      ensures now[d] == Step(slices[d], Carried(digits, i)[d])
    {
      if d < i {
        assert now[d] == now[..i][d] == idx[..i][d];
      }
    }
  }

  // ---------- The odometer ----------

  class Dapodometer {
    const rank: nat
    const index: array<int>
    const start: seq<int>
    const stride: seq<int>
    const stop: seq<int>
    ghost const slices: seq<Slice>
    ghost var digits: seq<nat>

    // The limits are those of the slices, and there is room for the index.
    ghost predicate Limits() {
      && 0 < rank == |slices| == |start| == |stride| == |stop|
      && rank <= index.Length
      && forall d :: 0 <= d < rank ==>
           start[d] == slices[d].first && stride[d] == slices[d].stride && stop[d] == slices[d].last + 1
    }

    ghost predicate Valid()
      reads this`digits, index
    {
      && Limits()
      && AllValid(slices)
      && Good(SliceCounts(slices), digits)
      && Shows(index[..], slices, digits)
      && (forall d :: rank <= d < index.Length ==> index[d] == 0)
    }

    // How many positions have been left behind.
    ghost function Visited(): (r: nat)
      requires Valid()
      reads this`digits, index
    {
      Offset(SliceCounts(slices), digits)
    }

    /** dapodom_fromsegment: at the first position of the slices startindex up to stopindex. */
    constructor FromSegment(segment: seq<Slice>, startindex: nat, stopindex: nat)
      requires startindex < stopindex <= |segment| && stopindex - startindex <= NC_MAX_VAR_DIMS && AllValid(segment)
      ensures Valid() && fresh(index) && Visited() == 0
      ensures rank == stopindex - startindex && slices == segment[startindex..stopindex]
      ensures index.Length == NC_MAX_VAR_DIMS
    {
      var n := stopindex - startindex;
      ghost var part := segment[startindex..stopindex];
      var idx := new int[NC_MAX_VAR_DIMS](i => 0);
      var first, step, beyond := [], [], [];
      var i := 0;
      while i < n
        invariant 0 <= i == |first| == |step| == |beyond| <= n
        invariant forall d :: 0 <= d < i ==> first[d] == idx[d] == part[d].first
        invariant forall d :: 0 <= d < i ==> step[d] == part[d].stride && beyond[d] == part[d].last + 1
        invariant forall d :: i <= d < idx.Length ==> idx[d] == 0
      {
        var slice := segment[i + startindex];
        assert slice == part[i];
        first, step, beyond := first + [slice.first], step + [slice.stride], beyond + [slice.last + 1];
        idx[i] := slice.first;
        i := i + 1;
      }
      StartsGood(part);
      rank, index, start, stride, stop := n, idx, first, step, beyond;
      slices, digits := part, Zeros(n);
    }

    /** dapodom_more: positions are left exactly while fewer than all have been visited. */
    method More() returns (r: bool)
      requires Valid()
      ensures r <==> Visited() < Product(SliceCounts(slices))
    {
      StepInside(slices[0], digits[0]);
      r := index[0] < stop[0];
      VisitedAll(SliceCounts(slices), digits);
    }

    // The stop values tell exactly when a dimension has run off its end.
    ghost predicate StopsRight()
      requires Limits()
    {
      forall d, k: nat :: 0 <= d < rank ==> (Step(slices[d], k) < stop[d] <==> k < slices[d].count)
    }

    // The loop of dapodom_next; i is where it stops carrying.
    method Roll() returns (ok: bool, i: nat)
      requires Limits() && StopsRight() && Shows(index[..], slices, digits)
      modifies index
      ensures i < rank && (ok <==> digits[i] + 1 < slices[i].count) && (ok || i == 0)
      ensures forall d :: i < d < rank ==> digits[d] + 1 >= slices[d].count
      ensures Shows(index[..], slices, Carried(digits, i))
      ensures forall d :: rank <= d < index.Length ==> index[d] == old(index[d])
    {
      ghost var before := index[..];
      i := rank;
      while true
        invariant 1 <= i <= rank
        invariant forall d :: 0 <= d < i || rank <= d < index.Length ==> index[d] == before[d]
        invariant forall d :: i <= d < rank ==> index[d] == start[d]
        invariant forall d :: i <= d < rank ==> digits[d] + 1 >= slices[d].count
        decreases i
      {
        i := i - 1;
        assert index[i] == before[i] == Step(slices[i], digits[i]);
        assert Step(slices[i], digits[i] + 1) == before[i] + stride[i];
        index[i] := index[i] + stride[i];
        if index[i] < stop[i] || i == 0 {
          ok := index[i] < stop[i];
          break;
        }
        index[i] := start[i];
      }
      CarriedShows(before, index[..], slices, digits, i);
    }

    /** dapodom_next: one more position has been visited; false when it was the last one. */
    method Next() returns (ok: bool)
      requires Valid() && Visited() < Product(SliceCounts(slices))
      modifies this`digits, index
      ensures Valid() && Visited() == old(Visited()) + 1
      ensures ok <==> Visited() < Product(SliceCounts(slices))
    {
      ghost var counts := SliceCounts(slices);
      VisitedAll(counts, digits);
      forall d, k: nat | 0 <= d < rank
        ensures Step(slices[d], k) < stop[d] <==> k < slices[d].count
      {
        StepInside(slices[d], k);
      }
      var i;
      ok, i := Roll();
      CarryIsNext(counts, digits, i);
      digits := Carried(digits, i);
      VisitedAll(counts, digits);
    }
  }

  lemma StartsGood(part: seq<Slice>)
    requires AllValid(part) && part != []
    ensures Good(SliceCounts(part), Zeros(|part|)) && Offset(SliceCounts(part), Zeros(|part|)) == 0
    ensures forall d :: 0 <= d < |part| ==> Step(part[d], 0) == part[d].first
  {
    forall d | 0 <= d < |part|
      ensures part[d].count > 0
    {
      StepInside(part[d], 0);
    }
    ZeroOffset(SliceCounts(part));
  }
}
