/**
Projections: lists of segments, each with an array of slices (libdap2/constraints.c and
dceconstraints.c).  The in-place operations are proved against the functions of module Slices,
and their meaning for reading arrays is proved with module RowMajor.
*/
module Projections {
  import opened CdfTree
  import opened Arithmetic
  import opened Slices
  import opened RowMajor

  const NC_MAX_VAR_DIMS: nat := 1024

  class DCEsegment {
    const name: string
    const slices: array<Slice>
    var rank: nat
    var slicesdefined: bool
    var annotation: CDFnode?

    ghost predicate Ok()
      reads this`rank
    {
      rank <= slices.Length
    }

    function Sliced(): (r: seq<Slice>)
      requires Ok()
      reads this`rank, slices
    {
      slices[..rank]
    }

    // dcecreate(CES_SEGMENT), with the name of the node it annotates.
    constructor (n: string, node: CDFnode?, dims: nat)
      requires dims <= NC_MAX_VAR_DIMS
      ensures name == n && annotation == node && rank == dims && Ok() && !slicesdefined
      ensures fresh(slices) && slices.Length == NC_MAX_VAR_DIMS
    {
      name, annotation, rank, slicesdefined := n, node, dims, false;
      slices := new Slice[NC_MAX_VAR_DIMS];
    }
  }

  // Different segments with different slice arrays.
  ghost predicate Separate(segs: seq<DCEsegment>)
    reads segs`rank
  {
    && (forall i :: 0 <= i < |segs| ==> segs[i].Ok())
    && (forall i, j :: 0 <= i < j < |segs| ==> segs[i] != segs[j] && segs[i].slices != segs[j].slices)
  }

  // All slices of a projection, segment after segment.
  function Flat(parts: seq<seq<Slice>>): (r: seq<Slice>) {
    if parts == [] then [] else parts[0] + Flat(parts[1..])
  }

  // ---------- Slices and reads ----------

  predicate AllValid(sl: seq<Slice>) {
    forall d :: 0 <= d < |sl| ==> Valid(sl[d])
  }

  function Sel(sl: seq<Slice>): (r: seq<seq<nat>>)
    requires AllValid(sl)
    ensures |r| == |sl|
  {
    if sl == [] then [] else [Indices(sl[0])] + Sel(sl[1..])
  }

  // Every selected position lies inside the array.
  ghost predicate Fits(shape: seq<nat>, sl: seq<Slice>) {
    |sl| == |shape| && AllValid(sl) &&
    forall d, k :: 0 <= d < |sl| && 0 <= k < |Indices(sl[d])| ==> Indices(sl[d])[k] < shape[d]
  }

  function SliceCounts(sl: seq<Slice>): (r: seq<nat>)
    requires AllValid(sl)
    ensures r == Counts(Sel(sl)) && |r| == |sl|
    ensures forall d :: 0 <= d < |sl| ==> r[d] == sl[d].count
  {
    if sl == [] then []
    else
      CountIsSelected(sl[0]);
      [sl[0].count] + SliceCounts(sl[1..])
  }

  lemma FitsParts(shape: seq<nat>, sl: seq<Slice>)
    requires |sl| == |shape| && sl != []
    ensures Fits(shape, sl) <==>
      && Fits(shape[1..], sl[1..])
      && Valid(sl[0])
      && forall k :: 0 <= k < |Indices(sl[0])| ==> Indices(sl[0])[k] < shape[0]
  {
    assert forall d :: 1 <= d < |sl| ==> sl[d] == sl[1..][d - 1] && shape[d] == shape[1..][d - 1];
    assert forall d :: 0 <= d < |sl| - 1 ==> sl[1..][d] == sl[d + 1] && shape[1..][d] == shape[d + 1];
  }

  lemma {:induction false} FitsSelects(shape: seq<nat>, sl: seq<Slice>)
    requires Fits(shape, sl)
    ensures Selects(shape, Sel(sl))
  {
    if sl != [] {
      FitsParts(shape, sl);
      FitsSelects(shape[1..], sl[1..]);
      assert Sel(sl)[1..] == Sel(sl[1..]);
    }
  }

  // What a server, or a walk over fetched data, returns for the slices.
  function ReadSlices<T>(data: seq<T>, shape: seq<nat>, sl: seq<Slice>): (r: seq<T>)
    requires |data| == Product(shape) && Fits(shape, sl)
    ensures |r| == Product(SliceCounts(sl))
  {
    FitsSelects(shape, sl);
    Read(data, shape, Sel(sl))
  }

  // dapshiftprojection on one list of slices.
  function ShiftAll(sl: seq<Slice>): (r: seq<Slice>)
    ensures |r| == |sl| && forall d :: 0 <= d < |sl| ==> r[d] == ShiftSlice(sl[d])
  {
    seq(|sl|, d requires 0 <= d < |sl| => ShiftSlice(sl[d]))
  }

  lemma {:induction false} ShiftedSelectsAll(sl: seq<Slice>)
    requires AllValid(sl)
    ensures AllValid(ShiftAll(sl)) && Sel(ShiftAll(sl)) == AllOf(SliceCounts(sl))
  {
    forall d | 0 <= d < |sl|
      ensures Valid(ShiftAll(sl)[d])
    {
      ShiftSelects(sl[d]);
    }
    if sl != [] {
      ShiftedSelectsAll(sl[1..]);
      ShiftSelects(sl[0]);
      assert ShiftAll(sl)[1..] == ShiftAll(sl[1..]);
      assert SliceCounts(sl)[1..] == SliceCounts(sl[1..]);
    }
  }

  lemma ShiftedFits(sl: seq<Slice>)
    requires AllValid(sl)
    ensures Fits(SliceCounts(sl), ShiftAll(sl))
  {
    forall d | 0 <= d < |sl|
      ensures Valid(ShiftAll(sl)[d]) && Indices(ShiftAll(sl)[d]) == seq(sl[d].count, k => k)
    {
      ShiftSelects(sl[d]);
    }
  }

  /**
  Fetching with a projection and then reading the fetched data with its shifted form is the direct
  strided read of the original array.
  */
  lemma FetchThenShifted<T>(data: seq<T>, shape: seq<nat>, sl: seq<Slice>)
    requires |data| == Product(shape) && Fits(shape, sl)
    ensures Fits(SliceCounts(sl), ShiftAll(sl))
    ensures ReadSlices(ReadSlices(data, shape, sl), SliceCounts(sl), ShiftAll(sl)) == ReadSlices(data, shape, sl)
    ensures ShiftAll(ShiftAll(sl)) == ShiftAll(sl)
  {
    ShiftedFits(sl);
    ShiftedSelectsAll(sl);
    ReadAll(ReadSlices(data, shape, sl), SliceCounts(sl));
    forall d | 0 <= d < |sl|
      ensures ShiftSlice(ShiftSlice(sl[d])) == ShiftSlice(sl[d])
    {
      ShiftSelects(sl[d]);
    }
  }

  // ---------- Merging ----------

  // dcemergeprojections on one pair of slices; it drops the error of dceslicecompose.
  function MergeSlice(m: Slice, a: Slice): (r: Slice)
    requires m.stride >= 1 && a.stride >= 1
  {
    match Compose(m, a)
    case Composed(s) => s
    case NC_EINVALCOORDS => m
  }

  /** The merged slice selects the composition exactly when a starts within what m selects. */
  lemma MergeSelectsIff(m: Slice, a: Slice)
    requires Valid(m) && Valid(a)
    ensures Valid(MergeSlice(m, a))
    ensures Indices(MergeSlice(m, a)) == Pick(Indices(m), Indices(a)) <==> a.first < |Indices(m)|
  {
    ComposeFails(m, a);
    AtZero(m);
    if Compose(m, a).Composed? {
      ComposeSelects(m, a);
    } else {
      assert |Indices(m)| > 0;
    }
  }

  lemma {:induction false} PickIsPickAll(xs: seq<nat>, ps: seq<nat>)
    requires forall k :: 0 <= k < |ps| ==> ps[k] < |xs|
    ensures Pick(xs, ps) == PickAll(xs, ps)
  {
    if ps != [] {
      PickIsPickAll(xs, ps[1..]);
      assert PickAll(xs, ps) == [xs[ps[0]]] + PickAll(xs, ps[1..]);
    }
  }

  function MergeAll(m: seq<Slice>, a: seq<Slice>): (r: seq<Slice>)
    requires AllValid(m) && AllValid(a)
    ensures |r| == if |a| > |m| then |a| else |m|
  {
    seq(if |a| > |m| then |a| else |m|, d requires 0 <= d < (if |a| > |m| then |a| else |m|) =>
      if d < |m| && d < |a| then MergeSlice(m[d], a[d]) else if d < |m| then m[d] else a[d])
  }

  lemma MergeHead(u: Slice, v: Slice)
    requires Valid(u) && Valid(v) && forall k :: 0 <= k < |Indices(v)| ==> Indices(v)[k] < u.count
    ensures Valid(MergeSlice(u, v))
    ensures forall k :: 0 <= k < |Indices(v)| ==> Indices(v)[k] < |Indices(u)|
    ensures Indices(MergeSlice(u, v)) == PickAll(Indices(u), Indices(v))
  {
    MergeSelectsIff(u, v);
    AtZero(v);
    CountIsSelected(u);
    assert Indices(v)[0] == v.first;
    PickIsPickAll(Indices(u), Indices(v));
  }

  lemma {:induction false} MergeIsComposeAll(shape: seq<nat>, u: seq<Slice>, v: seq<Slice>)
    requires Fits(shape, u) && Fits(SliceCounts(u), v)
    ensures AllValid(MergeAll(u, v)) && Selects(Counts(Sel(u)), Sel(v))
    ensures Sel(MergeAll(u, v)) == ComposeAll(Sel(u), Sel(v))
    decreases |u|
  {
    FitsSelects(SliceCounts(u), v);
    if u != [] {
      FitsParts(shape, u);
      FitsParts(SliceCounts(u), v);
      assert SliceCounts(u)[1..] == SliceCounts(u[1..]);
      MergeIsComposeAll(shape[1..], u[1..], v[1..]);
      MergeHead(u[0], v[0]);
      var merged := MergeAll(u, v);
      assert merged == [MergeSlice(u[0], v[0])] + MergeAll(u[1..], v[1..]);
      assert Sel(u)[1..] == Sel(u[1..]) && Sel(v)[1..] == Sel(v[1..]);
      assert merged[1..] == MergeAll(u[1..], v[1..]);
    }
  }

  /** Reading with merged projections is reading v from the variable that u leaves. */
  lemma MergedRead<T>(data: seq<T>, shape: seq<nat>, u: seq<Slice>, v: seq<Slice>)
    requires |data| == Product(shape) && Fits(shape, u) && Fits(SliceCounts(u), v)
    ensures Fits(shape, MergeAll(u, v)) && SliceCounts(MergeAll(u, v)) == SliceCounts(v)
    ensures ReadSlices(data, shape, MergeAll(u, v)) == ReadSlices(ReadSlices(data, shape, u), SliceCounts(u), v)
  {
    MergeIsComposeAll(shape, u, v);
    FitsSelects(shape, u);
    ComposeAllSelects(shape, Sel(u), Sel(v));
    SelectsFits(shape, MergeAll(u, v));
    ReadOfRead(data, shape, Sel(u), Sel(v));
  }

  lemma {:induction false} SelectsFits(shape: seq<nat>, sl: seq<Slice>)
    requires AllValid(sl) && Selects(shape, Sel(sl))
    ensures Fits(shape, sl)
  {
    if sl != [] {
      assert Sel(sl)[1..] == Sel(sl[1..]);
      var head := Indices(sl[0]);
      assert head == Sel(sl)[0] && forall k :: 0 <= k < |head| ==> head[k] < shape[0];
      SelectsFits(shape[1..], sl[1..]);
      FitsParts(shape, sl);
    }
  }

  // ---------- In place ----------

  /** dapshiftprojection: every slice of every segment. */
  method ShiftProjection(segs: seq<DCEsegment>)
    requires Separate(segs)
    modifies set s | s in segs :: s.slices
    ensures Separate(segs)
    ensures forall i :: 0 <= i < |segs| ==> segs[i].Sliced() == ShiftAll(old(segs[i].Sliced()))
  {
    var i := 0;
    while i < |segs|
      invariant 0 <= i <= |segs|
      invariant forall k :: 0 <= k < i ==> segs[k].Sliced() == ShiftAll(old(segs[k].Sliced()))
      invariant forall k :: i <= k < |segs| ==> segs[k].Sliced() == old(segs[k].Sliced())
    {
      ShiftSegment(segs[i]);
      i := i + 1;
    }
  }

  method ShiftSegment(seg: DCEsegment)
    requires seg.Ok()
    modifies seg.slices
    ensures seg.Sliced() == ShiftAll(old(seg.Sliced()))
  {
    var j := 0;
    while j < seg.rank
      invariant 0 <= j <= seg.rank
      invariant forall k :: 0 <= k < j ==> seg.slices[k] == ShiftSlice(old(seg.slices[k]))
      invariant forall k :: j <= k < seg.slices.Length ==> seg.slices[k] == old(seg.slices[k])
    {
      seg.slices[j] := ShiftSlice(seg.slices[j]);
      j := j + 1;
    }
  }

  /** dcemergeprojections on one pair of segments. */
  method MergeSegment(mergedseg: DCEsegment, addedseg: DCEsegment)
    requires mergedseg.Ok() && addedseg.Ok() && mergedseg.slices != addedseg.slices && mergedseg != addedseg
    requires addedseg.rank <= mergedseg.slices.Length
    requires AllValid(mergedseg.Sliced()) && AllValid(addedseg.Sliced())
    modifies mergedseg`rank, mergedseg.slices
    ensures mergedseg.Ok() && mergedseg.Sliced() == MergeAll(old(mergedseg.Sliced()), addedseg.Sliced())
    ensures mergedseg.rank == if addedseg.rank > old(mergedseg.rank) then addedseg.rank else old(mergedseg.rank)
    ensures forall j :: 0 <= j < mergedseg.rank ==>
      mergedseg.slices[j] == if j >= addedseg.rank then old(mergedseg.slices[j])
                             else if j >= old(mergedseg.rank) then addedseg.slices[j]
                             else match Compose(old(mergedseg.slices[j]), addedseg.slices[j])
                                  case Composed(s) => s
                                  case NC_EINVALCOORDS => old(mergedseg.slices[j])
  {
    ghost var m, a := mergedseg.Sliced(), addedseg.Sliced();
    ghost var all := MergeAll(m, a);
    var j := 0;
    while j < addedseg.rank
      invariant 0 <= j <= addedseg.rank
      invariant mergedseg.rank == |m| && addedseg.Sliced() == a
      invariant forall k :: 0 <= k < j ==> mergedseg.slices[k] == all[k]
      invariant forall k :: j <= k < mergedseg.rank ==> mergedseg.slices[k] == m[k]
    {
      assert addedseg.slices[j] == a[j] && AllValid(a) && AllValid(m);
      if j < mergedseg.rank {
        assert all[j] == MergeSlice(m[j], a[j]);
        mergedseg.slices[j] := MergeSlice(mergedseg.slices[j], addedseg.slices[j]);
      } else {
        mergedseg.slices[j] := addedseg.slices[j];
      }
      j := j + 1;
    }
    if addedseg.rank > mergedseg.rank {
      mergedseg.rank := addedseg.rank;
    }
  }

  // The slices of one segment, filled from the arguments at base and after.
  function BuiltAll(sl: seq<Slice>, base: nat, start: seq<int>, count: seq<int>, stride: seq<int>): (r: seq<Slice>)
    requires base + |sl| <= |start| == |count| == |stride|
    ensures |r| == |sl|
  {
    seq(|sl|, j requires 0 <= j < |sl| => BuildSlice(start[base + j], count[base + j], stride[base + j], sl[j].declsize))
  }

  method BuildSegment(seg: DCEsegment, base: nat, start: seq<int>, count: seq<int>, stride: seq<int>)
    requires seg.Ok() && base + seg.rank <= |start| == |count| == |stride|
    modifies seg.slices
    ensures seg.Sliced() == BuiltAll(old(seg.Sliced()), base, start, count, stride)
  {
    ghost var before := seg.Sliced();
    var j := 0;
    while j < seg.rank
      invariant 0 <= j <= seg.rank
      invariant forall k :: 0 <= k < j ==> seg.slices[k] == BuiltAll(before, base, start, count, stride)[k]
      invariant forall k :: j <= k < seg.rank ==> seg.slices[k] == before[k]
    {
      seg.slices[j] := BuildSlice(start[base + j], count[base + j], stride[base + j], seg.slices[j].declsize);
      j := j + 1;
    }
  }

  // bases[i] is where the arguments of segment i start: after those of the segments before it.
  ghost predicate LinedUp(parts: seq<seq<Slice>>, bases: seq<nat>, n: nat) {
    && |bases| == |parts|
    && (forall i :: 0 <= i < |parts| ==> bases[i] + |parts[i]| <= n)
    && (parts != [] ==> bases[0] == 0)
    && (forall i :: 0 <= i < |parts| - 1 ==> bases[i + 1] == bases[i] + |parts[i]|)
  }

  /** The segments, laid end to end, line up with the flat argument arrays. */
  lemma {:induction false} SegmentsLineUp(parts: seq<seq<Slice>>, bases: seq<nat>, now: seq<seq<Slice>>,
                                          start: seq<int>, count: seq<int>, stride: seq<int>)
    requires LinedUp(parts, bases, |start|) && |start| == |count| == |stride| && |now| == |parts|
    requires forall i :: 0 <= i < |parts| ==> now[i] == BuiltAll(parts[i], bases[i], start, count, stride)
    ensures |Flat(parts)| <= |start| && Flat(now) == BuiltAll(Flat(parts), 0, start, count, stride)
  {
    if parts == [] {
    } else {
      var n := |parts| - 1;
      SegmentsLineUp(parts[..n], bases[..n], now[..n], start, count, stride);
      assert parts == parts[..n] + [parts[n]] && now == now[..n] + [now[n]];
      FlatLast(parts[..n], parts[n]);
      FlatLast(now[..n], now[n]);
      BaseIsFlat(parts, bases, n, |start|);
    }
  }

  lemma {:induction false} BaseIsFlat(parts: seq<seq<Slice>>, bases: seq<nat>, i: nat, n: nat)
    requires LinedUp(parts, bases, n) && i < |parts|
    ensures bases[i] == |Flat(parts[..i])|
  {
    if i > 0 {
      BaseIsFlat(parts, bases, i - 1, n);
      assert parts[..i] == parts[..i - 1] + [parts[i - 1]];
      FlatLast(parts[..i - 1], parts[i - 1]);
      assert bases[(i - 1) + 1] == bases[i - 1] + |parts[i - 1]|;
    }
  }

  lemma {:induction false} FlatLast(parts: seq<seq<Slice>>, last: seq<Slice>)
    ensures Flat(parts + [last]) == Flat(parts) + last
  {
    if parts == [] {
      assert [last][1..] == [];
    } else {
      FlatLast(parts[1..], last);
      assert (parts + [last])[1..] == parts[1..] + [last];
    }
  }

  // The segments hold these slices.
  ghost predicate Hold(segments: seq<DCEsegment>, parts: seq<seq<Slice>>)
    reads segments`rank, set s | s in segments :: s.slices
  {
    |segments| == |parts| &&
    forall i :: 0 <= i < |segments| ==> segments[i].Ok() && segments[i].Sliced() == parts[i]
  }

  /** The loop of dapbuildvaraprojection: put start/count/stride into the segments of the variable. */
  method BuildVaraProjection(segments: seq<DCEsegment>, start: seq<int>, count: seq<int>, stride: seq<int>,
                             ghost parts: seq<seq<Slice>>, ghost bases: seq<nat>)
    requires Separate(segments) && Hold(segments, parts)
    requires LinedUp(parts, bases, |start|) && |start| == |count| == |stride|
    modifies set s | s in segments :: s.slices
    ensures Separate(segments)
    ensures forall i :: 0 <= i < |segments| ==>
      segments[i].Sliced() == BuiltAll(parts[i], bases[i], start, count, stride)
  {
    var dimindex: nat := 0;
    var i := 0;
    while i < |segments|
      invariant 0 <= i <= |segments|
      invariant i < |segments| ==> dimindex == bases[i]
      invariant forall k :: 0 <= k < i ==> segments[k].Sliced() == BuiltAll(parts[k], bases[k], start, count, stride)
      invariant forall k :: i <= k < |segments| ==> segments[k].Sliced() == parts[k]
    {
      var segment := segments[i];
      assert segment.Ok() && forall k :: 0 <= k < |segments| && k != i ==> segments[k].slices != segment.slices;
      BuildSegment(segment, dimindex, start, count, stride);
      dimindex := dimindex + segment.rank;
      i := i + 1;
    }
  }

  // The whole slices of a node.
  function WholeSlices(dims: seq<CDFnode>): (r: seq<Slice>)
    ensures |r| == |dims|
  {
    seq(|dims|, j requires 0 <= j < |dims| => WholeSlice(dims[j].declsize0))
  }

  ghost predicate WholeSegment(segment: DCEsegment, n: CDFnode, sl: seq<Slice>)
    reads segment, segment.slices
  {
    && segment.Ok()
    && segment.annotation == n && segment.name == n.ocname && segment.slicesdefined
    && segment.Sliced() == sl
  }

  // The segments made so far: all new, each with an array of its own.
  ghost predicate Made(segments: seq<DCEsegment>, path: seq<CDFnode>, sl: seq<seq<Slice>>)
    requires |path| == |sl|
    reads segments, set s | s in segments :: s.slices
  {
    && |segments| <= |path|
    && Separate(segments)
    && forall k :: 0 <= k < |segments| ==> WholeSegment(segments[k], path[k], sl[k])
  }

  /** dapvar2projection: one segment for each node of the path, with whole slices. */
  method Var2Projection(path: seq<CDFnode>, ghost sl: seq<seq<Slice>>) returns (segments: seq<DCEsegment>)
    requires |sl| == |path| && forall i :: 0 <= i < |path| ==>
      |path[i].dimsetplus.Elems()| <= NC_MAX_VAR_DIMS && sl[i] == WholeSlices(path[i].dimsetplus.Elems())
    ensures |segments| == |path| && Made(segments, path, sl)
    ensures forall i :: 0 <= i < |path| ==>
      segments[i].name == path[i].ocname && segments[i].annotation == path[i] && segments[i].rank == |path[i].dimsetplus.Elems()|
    ensures forall i, j :: 0 <= i < |path| && 0 <= j < |path[i].dimsetplus.Elems()| ==>
      var n := path[i].dimsetplus.Elems()[j].declsize0;
      j < segments[i].slices.Length && segments[i].slices[j] == Slice(0, 1, n, n - 1, n, n)
    ensures forall s :: s in segments ==> fresh(s) && fresh(s.slices)
  {
    segments := [];
    var i := 0;
    while i < |path|
      invariant 0 <= i == |segments| <= |path| && Made(segments, path, sl)
      invariant forall s :: s in segments ==> fresh(s) && fresh(s.slices)
    {
      var segment := VarSegment(path[i]);
      MadeGrows(segments, segment, path, sl);
      segments := segments + [segment];
      i := i + 1;
    }
    MadeWhole(segments, path, sl);
  }

  lemma MadeWhole(segments: seq<DCEsegment>, path: seq<CDFnode>, sl: seq<seq<Slice>>)
    requires |sl| == |path| == |segments| && Made(segments, path, sl)
    requires forall i :: 0 <= i < |path| ==> sl[i] == WholeSlices(path[i].dimsetplus.Elems())
    ensures forall i :: 0 <= i < |path| ==>
      segments[i].name == path[i].ocname && segments[i].annotation == path[i] && segments[i].rank == |path[i].dimsetplus.Elems()|
    ensures forall i, j :: 0 <= i < |path| && 0 <= j < |path[i].dimsetplus.Elems()| ==>
      var n := path[i].dimsetplus.Elems()[j].declsize0;
      j < segments[i].slices.Length && segments[i].slices[j] == Slice(0, 1, n, n - 1, n, n)
  {
    forall i, j | 0 <= i < |path| && 0 <= j < |path[i].dimsetplus.Elems()|
      ensures j < segments[i].slices.Length && segments[i].slices[j] == WholeSlice(path[i].dimsetplus.Elems()[j].declsize0)
    {
      assert WholeSegment(segments[i], path[i], sl[i]) && sl[i][j] == segments[i].Sliced()[j];
    }
  }

  lemma MadeGrows(segments: seq<DCEsegment>, segment: DCEsegment, path: seq<CDFnode>, sl: seq<seq<Slice>>)
    requires |path| == |sl| && |segments| < |path| && Made(segments, path, sl)
    requires WholeSegment(segment, path[|segments|], sl[|segments|])
    requires forall s :: s in segments ==> s != segment && s.slices != segment.slices
    ensures Made(segments + [segment], path, sl)
  {
  }

  method VarSegment(n: CDFnode) returns (segment: DCEsegment)
    requires |n.dimsetplus.Elems()| <= NC_MAX_VAR_DIMS
    ensures fresh(segment) && fresh(segment.slices) && WholeSegment(segment, n, WholeSlices(n.dimsetplus.Elems()))
  {
    var dimset := n.dimsetplus.Elems();
    segment := new DCEsegment(n.ocname, n, |dimset|);
    var j := 0;
    while j < |dimset|
      invariant 0 <= j <= |dimset|
      invariant segment.rank == |dimset| && segment.annotation == n
      invariant forall k :: 0 <= k < j ==> segment.slices[k] == WholeSlice(dimset[k].declsize0)
    {
      segment.slices[j] := WholeSlice(dimset[j].declsize0);
      j := j + 1;
    }
    assert segment.Sliced() == WholeSlices(dimset);
    segment.slicesdefined := true;
  }

  // ---------- A request ----------

  // The whole slices of every node on a path.
  function PathSlices(path: seq<CDFnode>): (r: seq<seq<Slice>>)
    reads path`dimsetplus
    ensures |r| == |path| && forall i :: 0 <= i < |path| ==> r[i] == WholeSlices(path[i].dimsetplus.Elems())
  {
    if path == [] then [] else PathSlices(path[..|path| - 1]) + [WholeSlices(path[|path| - 1].dimsetplus.Elems())]
  }

  // Where the arguments of each segment start.
  function Bases(parts: seq<seq<Slice>>): (r: seq<nat>)
    ensures |r| == |parts| && forall i :: 0 <= i < |parts| ==> r[i] == |Flat(parts[..i])|
  {
    seq(|parts|, i requires 0 <= i < |parts| => |Flat(parts[..i])|)
  }

  lemma BasesLineUp(parts: seq<seq<Slice>>)
    ensures LinedUp(parts, Bases(parts), |Flat(parts)|)
  {
    forall i | 0 <= i < |parts|
      ensures Bases(parts)[i] + |parts[i]| == |Flat(parts[..i + 1])| <= |Flat(parts)|
    {
      assert parts[..i + 1] == parts[..i] + [parts[i]];
      FlatLast(parts[..i], parts[i]);
      FlatPrefix(parts, i + 1);
    }
  }

  lemma {:induction false} FlatPrefix(parts: seq<seq<Slice>>, i: nat)
    requires i <= |parts|
    ensures |Flat(parts[..i])| <= |Flat(parts)|
  {
    if i < |parts| {
      var n := |parts| - 1;
      FlatPrefix(parts[..n], i);
      assert parts[..n][..i] == parts[..i] && parts == parts[..n] + [parts[n]];
      FlatLast(parts[..n], parts[n]);
    } else {
      assert parts[..i] == parts;
    }
  }

  // The slices of all segments, in order.
  method Concatenate(segments: seq<DCEsegment>, ghost parts: seq<seq<Slice>>) returns (r: seq<Slice>)
    requires Hold(segments, parts)
    ensures r == Flat(parts)
  {
    r := [];
    var i := 0;
    while i < |segments|
      invariant 0 <= i <= |segments| && r == Flat(parts[..i])
    {
      assert segments[i].Ok() && parts[..i + 1] == parts[..i] + [parts[i]];
      FlatLast(parts[..i], parts[i]);
      r := r + segments[i].Sliced();
      i := i + 1;
    }
    assert parts[..i] == parts;
  }

  /** dapbuildvaraprojection: from the path of a variable and flat arguments to the slices of the request. */
  method BuildRequest(path: seq<CDFnode>, start: seq<int>, count: seq<int>, stride: seq<int>, ghost parts: seq<seq<Slice>>)
    returns (vara: seq<Slice>)
    requires parts == PathSlices(path) && |Flat(parts)| == |start| == |count| == |stride|
    requires forall n :: n in path ==> |n.dimsetplus.Elems()| <= NC_MAX_VAR_DIMS
    ensures vara == BuiltAll(Flat(parts), 0, start, count, stride)
  {
    var segments := Var2Projection(path, parts);
    MadeHolds(segments, path, parts);
    vara := FillSegments(segments, start, count, stride, parts);
  }

  lemma MadeHolds(segments: seq<DCEsegment>, path: seq<CDFnode>, sl: seq<seq<Slice>>)
    requires |path| == |sl| == |segments| && Made(segments, path, sl)
    ensures Separate(segments) && Hold(segments, sl)
  {
    assert forall k :: 0 <= k < |segments| ==> WholeSegment(segments[k], path[k], sl[k]);
  }

  method FillSegments(segments: seq<DCEsegment>, start: seq<int>, count: seq<int>, stride: seq<int>, ghost parts: seq<seq<Slice>>)
    returns (vara: seq<Slice>)
    requires Separate(segments) && Hold(segments, parts)
    requires |Flat(parts)| == |start| == |count| == |stride|
    modifies set s | s in segments :: s.slices
    ensures vara == BuiltAll(Flat(parts), 0, start, count, stride)
  {
    BasesLineUp(parts);
    ghost var bases := Bases(parts);
    ghost var now := seq(|parts|, i requires 0 <= i < |parts| => BuiltAll(parts[i], bases[i], start, count, stride));
    SegmentsLineUp(parts, bases, now, start, count, stride);
    BuildVaraProjection(segments, start, count, stride, parts, bases);
    vara := Concatenate(segments, now);
  }

  // ---------- What a variable access reads ----------

  // nc3d_getvarx has checked the arguments against the sizes of the variable.
  predicate AccessInBounds(shape: seq<nat>, start: seq<int>, count: seq<int>, stride: seq<int>) {
    |start| == |count| == |stride| == |shape| &&
    forall d :: 0 <= d < |shape| ==> InBounds(start[d], count[d], stride[d], shape[d])
  }

  /** That is, every position start + k*stride for k below count lies in the dimension. */
  lemma InBoundsMeans(shape: seq<nat>, start: seq<int>, count: seq<int>, stride: seq<int>)
    requires |start| == |count| == |stride| == |shape|
    ensures AccessInBounds(shape, start, count, stride) <==>
      forall d :: 0 <= d < |shape| ==>
        stride[d] >= 1 && count[d] >= 1 && forall k :: 0 <= k < count[d] ==> 0 <= start[d] + k * stride[d] < shape[d]
  {
    forall d | 0 <= d < |shape|
      ensures InBounds(start[d], count[d], stride[d], shape[d]) <==>
        stride[d] >= 1 && count[d] >= 1 && forall k :: 0 <= k < count[d] ==> 0 <= start[d] + k * stride[d] < shape[d]
    {
      PositionsInside(start[d], count[d], stride[d], shape[d]);
    }
  }

  lemma PositionsInside(start: int, count: int, stride: int, size: int)
    ensures InBounds(start, count, stride, size) <==>
      stride >= 1 && count >= 1 && forall k :: 0 <= k < count ==> 0 <= start + k * stride < size
  {
    if InBounds(start, count, stride, size) {
      forall k | 0 <= k < count
        ensures 0 <= start + k * stride < size
      {
        MulNonneg(k, stride);
        MulMono(k, count - 1, stride);
        assert stride * (count - 1) == (count - 1) * stride;
      }
    }
    if stride >= 1 && count >= 1 && forall k :: 0 <= k < count ==> 0 <= start + k * stride < size {
      assert 0 <= start + 0 * stride && start + (count - 1) * stride < size;
      assert stride * (count - 1) == (count - 1) * stride;
    }
  }

  // The segments were declared with sizes that are at least those of the variable.
  predicate Declared(shape: seq<nat>, sl: seq<Slice>) {
    |sl| == |shape| && forall d :: 0 <= d < |shape| ==> shape[d] <= sl[d].declsize
  }

  /** The slices built for an access fit the variable and select count positions per dimension. */
  lemma VaraFits(shape: seq<nat>, sl: seq<Slice>, start: seq<int>, count: seq<int>, stride: seq<int>)
    requires AccessInBounds(shape, start, count, stride) && Declared(shape, sl)
    ensures var built := BuiltAll(sl, 0, start, count, stride);
      Fits(shape, built) && SliceCounts(built) == count
  {
    var built := BuiltAll(sl, 0, start, count, stride);
    forall d | 0 <= d < |shape|
      ensures Valid(built[d]) && built[d].count == count[d]
      ensures forall k :: 0 <= k < |Indices(built[d])| ==> Indices(built[d])[k] < shape[d]
    {
      BuildSelects(start[d], count[d], stride[d], sl[d].declsize);
      forall k | 0 <= k < count[d]
        ensures start[d] + k * stride[d] < shape[d]
      {
        MulMono(k, count[d] - 1, stride[d]);
        assert stride[d] * (count[d] - 1) == (count[d] - 1) * stride[d];
      }
    }
    assert SliceCounts(built) == count;
  }

  // The element that an access names by its coordinates in the result.
  function Target(start: seq<int>, stride: seq<int>, at: seq<nat>): (r: seq<int>)
    requires |start| == |stride| == |at|
    ensures |r| == |at|
  {
    seq(|at|, d requires 0 <= d < |at| => start[d] + at[d] * stride[d])
  }

  lemma {:induction false} SelAt(sl: seq<Slice>, d: nat)
    requires AllValid(sl) && d < |sl|
    ensures Sel(sl)[d] == Indices(sl[d])
  {
    if d > 0 {
      SelAt(sl[1..], d - 1);
    }
  }

  lemma {:induction false} ThroughAt(sel: seq<seq<nat>>, at: seq<nat>, d: nat)
    requires |at| == |sel| && (forall i :: 0 <= i < |sel| ==> at[i] < |sel[i]|) && d < |sel|
    ensures Through(sel, at)[d] == sel[d][at[d]]
  {
    if d > 0 {
      ThroughAt(sel[1..], at[1..], d - 1);
    }
  }

  lemma ThroughBuilt(shape: seq<nat>, sl: seq<Slice>, start: seq<int>, count: seq<int>, stride: seq<int>, at: seq<nat>)
    requires AccessInBounds(shape, start, count, stride) && Declared(shape, sl)
    requires |at| == |shape| && forall d :: 0 <= d < |at| ==> at[d] < count[d]
    requires AllValid(BuiltAll(sl, 0, start, count, stride))
    requires forall d :: 0 <= d < |at| ==> at[d] < |Sel(BuiltAll(sl, 0, start, count, stride))[d]|
    ensures Through(Sel(BuiltAll(sl, 0, start, count, stride)), at) == Target(start, stride, at)
  {
    var built := BuiltAll(sl, 0, start, count, stride);
    forall d | 0 <= d < |at|
      ensures Through(Sel(built), at)[d] == Target(start, stride, at)[d]
    {
      DeclaredInBounds(shape, sl, start, count, stride, d);
      ThroughBuiltAt(sl, start, count, stride, at, d);
    }
  }

  lemma DeclaredInBounds(shape: seq<nat>, sl: seq<Slice>, start: seq<int>, count: seq<int>, stride: seq<int>, d: nat)
    requires AccessInBounds(shape, start, count, stride) && Declared(shape, sl) && d < |shape|
    ensures InBounds(start[d], count[d], stride[d], sl[d].declsize)
  {
  }

  lemma ThroughBuiltAt(sl: seq<Slice>, start: seq<int>, count: seq<int>, stride: seq<int>, at: seq<nat>, d: nat)
    requires |sl| == |start| == |count| == |stride| == |at| && d < |sl|
    requires InBounds(start[d], count[d], stride[d], sl[d].declsize) && at[d] < count[d]
    requires AllValid(BuiltAll(sl, 0, start, count, stride))
    requires forall d :: 0 <= d < |at| ==> at[d] < |Sel(BuiltAll(sl, 0, start, count, stride))[d]|
    ensures Through(Sel(BuiltAll(sl, 0, start, count, stride)), at)[d] == Target(start, stride, at)[d]
  {
    var built := BuiltAll(sl, 0, start, count, stride);
    BuiltAt(sl[d], start[d], count[d], stride[d], at[d]);
    SelAt(built, d);
    ThroughAt(Sel(built), at, d);
  }

  lemma BuiltAt(s: Slice, start: int, count: int, stride: int, k: nat)
    requires InBounds(start, count, stride, s.declsize) && k < count
    ensures var b := BuildSlice(start, count, stride, s.declsize);
      Valid(b) && k < |Indices(b)| && Indices(b)[k] == start + k * stride
  {
    BuildSelects(start, count, stride, s.declsize);
  }

  // The element that slices name by its coordinates in the result.
  function Pointed(sl: seq<Slice>, at: seq<nat>): (r: seq<int>)
    requires |sl| == |at|
    ensures |r| == |at| && forall d :: 0 <= d < |at| ==> r[d] == sl[d].first + at[d] * sl[d].stride
  {
    seq(|at|, d requires 0 <= d < |at| => sl[d].first + at[d] * sl[d].stride)
  }

  lemma PointedAt(shape: seq<nat>, sl: seq<Slice>, at: seq<nat>, d: nat)
    requires Fits(shape, sl) && |at| == |shape| && d < |at|
    requires forall i :: 0 <= i < |at| ==> at[i] < |Sel(sl)[i]|
    ensures Through(Sel(sl), at)[d] == Pointed(sl, at)[d] && 0 <= Pointed(sl, at)[d] < shape[d]
  {
    SelAt(sl, d);
    ThroughAt(Sel(sl), at, d);
    assert Indices(sl[d])[at[d]] == At(sl[d], at[d]);
  }

  lemma PointedThrough(shape: seq<nat>, sl: seq<Slice>, at: seq<nat>)
    requires Fits(shape, sl) && |at| == |shape|
    requires forall i :: 0 <= i < |at| ==> at[i] < |Sel(sl)[i]|
    ensures Through(Sel(sl), at) == Pointed(sl, at)
    ensures forall d :: 0 <= d < |at| ==> 0 <= Pointed(sl, at)[d] < shape[d]
  {
    forall d | 0 <= d < |at|
      ensures 0 <= Pointed(sl, at)[d] < shape[d] && Pointed(sl, at)[d] == Through(Sel(sl), at)[d]
    {
      PointedAt(shape, sl, at, d);
    }
  }

  /** Element `at` of what slices read is the element at first + at*stride. */
  lemma SlicesReadAt<T>(data: seq<T>, shape: seq<nat>, sl: seq<Slice>, at: seq<nat>)
    requires |data| == Product(shape) && Fits(shape, sl)
    requires |at| == |shape| && forall d :: 0 <= d < |at| ==> at[d] < sl[d].count
    ensures forall d :: 0 <= d < |at| ==> 0 <= Pointed(sl, at)[d] < shape[d]
    ensures Offset(SliceCounts(sl), at) < |ReadSlices(data, shape, sl)| && Offset(shape, Pointed(sl, at)) < |data|
    ensures ReadSlices(data, shape, sl)[Offset(SliceCounts(sl), at)] == data[Offset(shape, Pointed(sl, at))]
  {
    FitsSelects(shape, sl);
    assert Within(at, SliceCounts(sl));
    ReadAt(data, shape, Sel(sl), at);
    PointedThrough(shape, sl, at);
  }

  /** Element `at` of the answer to an access is the element at start + at*stride of the variable. */
  lemma VaraReads<T>(data: seq<T>, shape: seq<nat>, sl: seq<Slice>, start: seq<int>, count: seq<int>, stride: seq<int>, at: seq<nat>)
    requires |data| == Product(shape) && AccessInBounds(shape, start, count, stride) && Declared(shape, sl)
    requires |at| == |shape| && forall d :: 0 <= d < |at| ==> at[d] < count[d]
    ensures forall d :: 0 <= d < |at| ==> 0 <= Target(start, stride, at)[d] < shape[d]
    ensures var built, target := BuiltAll(sl, 0, start, count, stride), Target(start, stride, at);
      && Fits(shape, built) && SliceCounts(built) == count
      && Offset(count, at) < |ReadSlices(data, shape, built)| && Offset(shape, target) < |data|
      && ReadSlices(data, shape, built)[Offset(count, at)] == data[Offset(shape, target)]
  {
    var built := BuiltAll(sl, 0, start, count, stride);
    VaraFits(shape, sl, start, count, stride);
    FitsSelects(shape, built);
    assert Counts(Sel(built)) == count;
    CountsAt(Sel(built));
    ReadAt(data, shape, Sel(built), at);
    ThroughBuilt(shape, sl, start, count, stride, at);
    forall d | 0 <= d < |at|
      ensures 0 <= Target(start, stride, at)[d] < shape[d]
    {
      MulMono(at[d], count[d] - 1, stride[d]);
      MulNonneg(at[d], stride[d]);
      assert stride[d] * (count[d] - 1) == (count[d] - 1) * stride[d];
    }
  }
}
