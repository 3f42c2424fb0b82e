/**
What a request for part of a variable is answered (libdap2/getvara.c, nc3d_getvarx).

There are three ways: from a cached response, by fetching the whole field, and by fetching the
requested part.  For each way, `Answer` says what the caller's memory holds in the end, and
`SoundIff` says exactly when that is what was asked for, whatever the data.
*/
module Answers {
  import opened Wrappers
  import opened CdfTree
  import opened Arithmetic
  import opened Slices
  import opened RowMajor
  import opened Projections
  import opened Extract
  import opened FrontReads
  import opened Selections
  import opened MoveTo
  import opened Cache
  import Odometer

  // The server's data under the selections of the URL, and the projections of the URL.
  datatype Dataset = Dataset(full: map<CDFnode, Variable>, url: map<CDFnode, seq<Slice>>, selections: bool)

  ghost predicate Proper(x: Variable) {
    |x.elems| == Product(x.shape) && |x.shape| <= NC_MAX_VAR_DIMS
  }

  ghost predicate ValidDataset(ds: Dataset) {
    && (forall v :: v in ds.full ==> Proper(ds.full[v]))
    && (forall v :: v in ds.url ==> v in ds.full && Projections.Fits(ds.full[v].shape, ds.url[v]))
  }

  // What the server returns for a variable and slices.
  function Response(x: Variable, sl: seq<Slice>): (r: Variable)
    requires Proper(x) && Projections.Fits(x.shape, sl)
    ensures Proper(r)
  {
    Variable(SliceCounts(sl), ReadSlices(x.elems, x.shape, sl))
  }

  // The variable as the user of the URL sees it.
  ghost function Visible(ds: Dataset, v: CDFnode): (r: Variable)
    requires ValidDataset(ds) && v in ds.full
    ensures Proper(r)
  {
    if v in ds.url then Response(ds.full[v], ds.url[v]) else ds.full[v]
  }

  /** Element `at` of it is the element at first + at*stride of the URL's slices, or the same one without them. */
  lemma VisibleAt(ds: Dataset, v: CDFnode, at: seq<nat>)
    requires ValidDataset(ds) && v in ds.full && |at| == |ds.full[v].shape| == |Visible(ds, v).shape|
    requires forall d :: 0 <= d < |at| ==> at[d] < Visible(ds, v).shape[d]
    ensures v !in ds.url ==> Visible(ds, v) == ds.full[v]
    ensures v in ds.url ==> forall d :: 0 <= d < |at| ==> Visible(ds, v).shape[d] == ds.url[v][d].count
    ensures v in ds.url ==>
      var to := Pointed(ds.url[v], at);
        && (forall d :: 0 <= d < |at| ==> 0 <= to[d] < ds.full[v].shape[d])
        && Offset(Visible(ds, v).shape, at) < |Visible(ds, v).elems| && Offset(ds.full[v].shape, to) < |ds.full[v].elems|
        && Visible(ds, v).elems[Offset(Visible(ds, v).shape, at)] == ds.full[v].elems[Offset(ds.full[v].shape, to)]
  {
    if v in ds.url {
      SlicesReadAt(ds.full[v].elems, ds.full[v].shape, ds.url[v], at);
    }
  }

  // A request within the bounds of the visible variable, built over the declared sizes.
  ghost predicate ValidRequest(ds: Dataset, v: CDFnode, vara: seq<Slice>) {
    ValidDataset(ds) && v in ds.full &&
    Projections.Fits(Visible(ds, v).shape, vara) && Declared(ds.full[v].shape, vara)
  }

  // What the caller of nc_get_vara asks for.
  ghost function Wanted(ds: Dataset, v: CDFnode, vara: seq<Slice>): (r: seq<int>)
    requires ValidRequest(ds, v, vara)
  {
    ReadSlices(Visible(ds, v).elems, Visible(ds, v).shape, vara)
  }

  // daprestrictprojection: the request merged into the URL's projection, if there is one.
  function Restrict(ds: Dataset, v: CDFnode, vara: seq<Slice>): (r: seq<Slice>)
    requires AllValid(vara) && (v in ds.url ==> AllValid(ds.url[v]))
  {
    if v in ds.url then MergeAll(ds.url[v], vara) else vara
  }

  // ---------- Reading from the full variable ----------

  lemma RestrictReads(ds: Dataset, v: CDFnode, vara: seq<Slice>)
    requires ValidRequest(ds, v, vara)
    ensures AllValid(Restrict(ds, v, vara)) && Projections.Fits(ds.full[v].shape, Restrict(ds, v, vara))
    ensures SliceCounts(Restrict(ds, v, vara)) == SliceCounts(vara)
    ensures ReadSlices(ds.full[v].elems, ds.full[v].shape, Restrict(ds, v, vara)) == Wanted(ds, v, vara)
  {
    if v in ds.url {
      MergedRead(ds.full[v].elems, ds.full[v].shape, ds.url[v], vara);
    }
  }

  // Merging keeps the larger declared size.
  lemma MergeDeclared(u: Slice, a: Slice)
    requires Valid(u) && Valid(a) && a.first < |Indices(u)|
    ensures MergeSlice(u, a).declsize >= a.declsize
  {
    ComposeFails(u, a);
  }

  lemma RestrictDeclared(ds: Dataset, v: CDFnode, vara: seq<Slice>)
    requires ValidRequest(ds, v, vara)
    ensures Declared(ds.full[v].shape, Restrict(ds, v, vara))
  {
    if v in ds.url {
      forall d | 0 <= d < |vara|
        ensures MergeAll(ds.url[v], vara)[d].declsize >= vara[d].declsize
      {
        var u := ds.url[v][d];
        AtZero(vara[d]);
        CountIsSelected(u);
        assert Indices(vara[d])[0] == vara[d].first;
        MergeDeclared(u, vara[d]);
      }
    }
  }

  // ---------- What a cached response may hold ----------

  // A slice that takes the front of its dimension.
  predicate AtFront(s: Slice) {
    s.first == 0 && (s.stride == 1 || s.count == 1)
  }

  predicate FrontSlices(sl: seq<Slice>) {
    forall d :: 0 <= d < |sl| ==> AtFront(sl[d])
  }

  lemma FrontSelects(s: Slice)
    requires Valid(s)
    ensures AtFront(s) <==> Indices(s) == seq(s.count, k => k)
    ensures AtFront(s) <==> forall k :: 0 <= k < |Indices(s)| ==> Indices(s)[k] < s.count
  {
    CountIsSelected(s);
    AtZero(s);
    if AtFront(s) {
      forall k: nat | k < s.count
        ensures At(s, k) == k
      {
      }
    } else if s.first == 0 && s.count > 1 {
      assert Indices(s)[1] == At(s, 1);
      MulMono(2, s.stride, s.count - 1);
      assert Indices(s)[s.count - 1] == At(s, s.count - 1);
      assert (s.count - 1) * s.stride == s.stride * (s.count - 1);
    } else {
      MulNonneg(s.count - 1, s.stride);
      OneStepEach(s.count - 1, s.stride);
      assert Indices(s)[0] == s.first;
      assert Indices(s)[s.count - 1] == At(s, s.count - 1);
    }
  }

  lemma OneStepEach(n: nat, stride: nat)
    requires stride >= 1
    ensures n * stride >= n
  {
    MulMono(1, stride, n);
    assert stride * n == n * stride;
  }

  // Front slices of a fetch, each of which takes all of its dimension, or all that the URL leaves of it.
  ghost predicate Covering(ds: Dataset, v: CDFnode, fr: seq<Slice>)
    requires ValidDataset(ds) && v in ds.full
  {
    && Projections.Fits(ds.full[v].shape, fr) && FrontSlices(fr)
    && forall d :: 0 <= d < |fr| ==>
         fr[d].count == ds.full[v].shape[d] || (v in ds.url && AtFront(ds.url[v][d]) && fr[d].count == ds.url[v][d].count)
  }

  // The full variable, or what covering slices fetch of it.
  ghost predicate Usable(ds: Dataset, v: CDFnode, x: Variable) {
    ValidDataset(ds) && v in ds.full &&
    (x == ds.full[v] || exists fr :: Covering(ds, v, fr) && x == Response(ds.full[v], fr))
  }

  // Merging into front slices changes nothing about what is selected.
  lemma MergeIntoFront(shape: seq<nat>, u: seq<Slice>, a: seq<Slice>)
    requires Projections.Fits(shape, u) && FrontSlices(u) && Projections.Fits(SliceCounts(u), a)
    ensures AllValid(MergeAll(u, a)) && Sel(MergeAll(u, a)) == Sel(a)
  {
    var merged := MergeAll(u, a);
    forall d | 0 <= d < |u|
      ensures Valid(merged[d]) && Indices(merged[d]) == Indices(a[d])
    {
      assert merged[d] == MergeSlice(u[d], a[d]);
      MergeHead(u[d], a[d]);
      FrontSelects(u[d]);
      assert PickAll(Indices(u[d]), Indices(a[d])) == Indices(a[d]);
    }
    SameSel(merged, a);
  }

  lemma {:induction false} SameSel(s: seq<Slice>, t: seq<Slice>)
    requires AllValid(s) && AllValid(t) && |s| == |t| && forall d :: 0 <= d < |s| ==> Indices(s[d]) == Indices(t[d])
    ensures Sel(s) == Sel(t)
  {
    if s != [] {
      SameSel(s[1..], t[1..]);
    }
  }

  // Reading a front response is reading the variable, for slices that stay within what was fetched.
  lemma FrontResponseReads(x: Variable, fr: seq<Slice>, p: seq<Slice>)
    requires Proper(x) && Projections.Fits(x.shape, fr) && FrontSlices(fr) && Projections.Fits(SliceCounts(fr), p)
    ensures Projections.Fits(x.shape, p)
    ensures ReadSlices(Response(x, fr).elems, Response(x, fr).shape, p) == ReadSlices(x.elems, x.shape, p)
  {
    MergedRead(x.elems, x.shape, fr, p);
    MergeIntoFront(x.shape, fr, p);
    FitsSelects(x.shape, MergeAll(fr, p));
    SelectsFits(x.shape, p);
  }

  lemma CoveringFits(ds: Dataset, v: CDFnode, fr: seq<Slice>, vara: seq<Slice>)
    requires ValidRequest(ds, v, vara) && Covering(ds, v, fr)
    ensures AllValid(Restrict(ds, v, vara)) && Projections.Fits(SliceCounts(fr), Restrict(ds, v, vara))
  {
    RestrictReads(ds, v, vara);
    var p := Restrict(ds, v, vara);
    forall d | 0 <= d < |p|
      ensures forall k :: 0 <= k < |Indices(p[d])| ==> Indices(p[d])[k] < fr[d].count
    {
      if fr[d].count != ds.full[v].shape[d] {
        assert p[d] == MergeSlice(ds.url[v][d], vara[d]);
        MergeHead(ds.url[v][d], vara[d]);
        FrontSelects(ds.url[v][d]);
      }
    }
  }

  /** A walk over usable content reads what is wanted. */
  lemma UsableReads(ds: Dataset, v: CDFnode, x: Variable, vara: seq<Slice>)
    requires ValidRequest(ds, v, vara) && Usable(ds, v, x)
    ensures Proper(x) && AllValid(Restrict(ds, v, vara)) && Projections.Fits(x.shape, Restrict(ds, v, vara))
    ensures ReadSlices(x.elems, x.shape, Restrict(ds, v, vara)) == Wanted(ds, v, vara)
    ensures Declared(x.shape, Restrict(ds, v, vara))
  {
    RestrictDeclared(ds, v, vara);
    RestrictReads(ds, v, vara);
    if x != ds.full[v] {
      var fr :| Covering(ds, v, fr) && x == Response(ds.full[v], fr);
      CoveringFits(ds, v, fr, vara);
      FrontResponseReads(ds.full[v], fr, Restrict(ds, v, vara));
      CountsWithin(ds.full[v].shape, fr);
    }
  }

  lemma CountsWithin(shape: seq<nat>, sl: seq<Slice>)
    requires Projections.Fits(shape, sl)
    ensures forall d :: 0 <= d < |shape| ==> SliceCounts(sl)[d] <= shape[d]
  {
    forall d | 0 <= d < |shape|
      ensures sl[d].count <= shape[d]
    {
      SelectedWithin(sl[d], shape[d]);
    }
  }

  lemma VisibleSmaller(ds: Dataset, v: CDFnode)
    requires ValidDataset(ds) && v in ds.full
    ensures |Visible(ds, v).shape| == |ds.full[v].shape|
    ensures forall d :: 0 <= d < |ds.full[v].shape| ==> Visible(ds, v).shape[d] <= ds.full[v].shape[d]
  {
    if v in ds.url {
      CountsWithin(ds.full[v].shape, ds.url[v]);
    }
  }

  // ---------- Fetches ----------

  // The slices of a fetch: those of the projection in the first k dimensions, and everything in the others.
  function Fetched(p: seq<Slice>, shape: seq<nat>, k: nat): (r: seq<Slice>)
    requires k <= |p| == |shape|
    ensures |r| == |p| && forall d :: 0 <= d < |p| ==> r[d] == if d < k then p[d] else WholeSlice(shape[d])
  {
    p[..k] + seq(|p| - k, i requires 0 <= i < |p| - k => WholeSlice(shape[k + i]))
  }

  // dapiswholesegment on one slice.
  predicate WholeAt(s: Slice, size: nat) {
    s.first == 0 && s.stride == 1 && s.length == size
  }

  // dapiswholesegment, on the segments that keep slices, against the sizes in the constrained tree.
  predicate IsWholeProjection(p: seq<Slice>, shape: seq<nat>, k: nat)
    requires k <= |p| == |shape|
  {
    forall d :: 0 <= d < k ==> WholeAt(p[d], shape[d])
  }

  lemma FetchedFits(shape: seq<nat>, p: seq<Slice>, k: nat)
    requires Projections.Fits(shape, p) && k <= |p|
    ensures Projections.Fits(shape, Fetched(p, shape, k))
    ensures SliceCounts(Fetched(p, shape, k)) == SliceCounts(p)[..k] + shape[k..]
    ensures forall d :: k <= d < |p| ==> Indices(Fetched(p, shape, k)[d]) == seq(shape[d], i => i)
  {
    forall d | 0 <= d < |p|
      ensures FetchedSlice(Fetched(p, shape, k)[d], p[d], shape[d], d < k)
    {
      if d >= k {
        WholeInstead(p[d], shape[d]);
      }
    }
    AllFetched(shape, p, k, Fetched(p, shape, k));
  }

  // One slice of a fetch.
  predicate FetchedSlice(f: Slice, s: Slice, size: nat, kept: bool) {
    && Valid(f) && Valid(s)
    && f.count == (if kept then s.count else size)
    && (!kept ==> Indices(f) == seq(size, i => i))
    && forall i :: 0 <= i < |Indices(f)| ==> Indices(f)[i] < size
  }

  lemma AllFetched(shape: seq<nat>, p: seq<Slice>, k: nat, fr: seq<Slice>)
    requires |fr| == |p| == |shape| && k <= |p| && AllValid(p)
    requires forall d :: 0 <= d < |p| ==> FetchedSlice(fr[d], p[d], shape[d], d < k)
    ensures Projections.Fits(shape, fr)
    ensures SliceCounts(fr) == SliceCounts(p)[..k] + shape[k..]
    ensures forall d :: k <= d < |p| ==> Indices(fr[d]) == seq(shape[d], i => i)
  {
    FetchedCounts(SliceCounts(fr), SliceCounts(p), shape, k);
  }

  lemma FetchedCounts(f: seq<nat>, c: seq<nat>, shape: seq<nat>, k: nat)
    requires |f| == |c| == |shape| && k <= |f| && forall d :: 0 <= d < |f| ==> f[d] == if d < k then c[d] else shape[d]
    ensures f == c[..k] + shape[k..]
  {
  }

  lemma WholeInstead(s: Slice, size: nat)
    requires Valid(s) && forall k :: 0 <= k < |Indices(s)| ==> Indices(s)[k] < size
    ensures Valid(WholeSlice(size)) && WholeSlice(size).count == size && Indices(WholeSlice(size)) == seq(size, i => i)
  {
    AtZero(s);
    assert Indices(s)[0] < size;
    WholeSelectsAll(size);
  }

  lemma UnitProduct(a: int, b: int)
    requires a >= 1 && b >= 1 && a * b == 1
    ensures a == 1
  {
    MulMono(1, b, a);
    assert b * a == a * b;
  }

  lemma WholeMergeHead(u: Slice, a: Slice)
    requires Valid(u) && Valid(a) && a.first < |Indices(u)|
    requires var p := MergeSlice(u, a); p.first == 0 && p.stride == 1
    ensures u.first == 0 && u.stride == 1
  {
    ComposeFails(u, a);
    MulNonneg(u.stride, a.first);
    UnitProduct(u.stride, a.stride);
  }

  /** A fetch that passes the whole test holds usable content for every later request. */
  lemma WholeFetchIsUsable(ds: Dataset, v: CDFnode, vara: seq<Slice>, k: nat)
    requires ValidRequest(ds, v, vara) && k <= |vara|
    requires IsWholeProjection(Restrict(ds, v, vara), Visible(ds, v).shape, k)
    ensures Projections.Fits(ds.full[v].shape, Restrict(ds, v, vara))
    ensures Projections.Fits(ds.full[v].shape, Fetched(Restrict(ds, v, vara), ds.full[v].shape, k))
    ensures Usable(ds, v, Response(ds.full[v], Fetched(Restrict(ds, v, vara), ds.full[v].shape, k)))
  {
    RestrictReads(ds, v, vara);
    var shape, p := ds.full[v].shape, Restrict(ds, v, vara);
    var fr := Fetched(p, shape, k);
    FetchedFits(shape, p, k);
    forall d | 0 <= d < |fr|
      ensures AtFront(fr[d])
      ensures fr[d].count == shape[d] || (v in ds.url && AtFront(ds.url[v][d]) && fr[d].count == ds.url[v][d].count)
    {
      if d < k {
        assert p[d].count == p[d].length;
        if v in ds.url {
          UrlIsFront(ds, v, vara, d);
        }
      }
    }
    assert Covering(ds, v, fr);
  }

  lemma PartIsUsable(ds: Dataset, v: CDFnode, vara: seq<Slice>)
    requires ValidRequest(ds, v, vara) && IsWholeProjection(Restrict(ds, v, vara), Visible(ds, v).shape, |vara|)
    ensures Projections.Fits(ds.full[v].shape, Restrict(ds, v, vara))
    ensures Usable(ds, v, Response(ds.full[v], Restrict(ds, v, vara)))
  {
    WholeFetchIsUsable(ds, v, vara, |vara|);
    assert Fetched(Restrict(ds, v, vara), ds.full[v].shape, |vara|) == Restrict(ds, v, vara);
  }

  lemma UrlIsFront(ds: Dataset, v: CDFnode, vara: seq<Slice>, d: nat)
    requires ValidRequest(ds, v, vara) && v in ds.url && d < |vara|
    requires Restrict(ds, v, vara)[d].first == 0 && Restrict(ds, v, vara)[d].stride == 1
    ensures AtFront(ds.url[v][d])
  {
    var u := ds.url[v][d];
    AtZero(vara[d]);
    CountIsSelected(u);
    assert Indices(vara[d])[0] == vara[d].first;
    assert Restrict(ds, v, vara)[d] == MergeSlice(u, vara[d]);
    WholeMergeHead(u, vara[d]);
  }

  // ---------- Walks over what was fetched ----------

  // What a walk leaves in memory: all that is wanted, or the last piece over what was there.
  function Leaves(wanted: seq<int>, last: seq<int>, advances: bool, conv: Conversion, memory: seq<int>): (r: seq<int>)
    requires |last| <= |memory|
  {
    if advances then Apply(conv, wanted) else last + memory[|last|..]
  }

  // The number of elements in one instance.
  function Chunk(sl: seq<Slice>, c: nat): (r: nat)
    requires AllValid(sl) && c <= |sl|
  {
    Product(SliceCounts(sl)[c..])
  }

  lemma ChunkOfAll(sl: seq<Slice>, c: nat)
    requires AllValid(sl) && c <= |sl|
    ensures AllValid(sl[c..]) && Chunk(sl, c) == Product(SliceCounts(sl[c..])) > 0
    ensures Product(SliceCounts(sl)) == Instances(sl, c) * Chunk(sl, c)
    ensures 0 < Chunk(sl, c) <= Product(SliceCounts(sl)) && Instances(sl, c) > 0
    ensures Instances(sl, c) == 1 <==> Chunk(sl, c) == Product(SliceCounts(sl))
  {
    ValidTail(sl, c);
    CountsJoin(sl, c);
    ProductSplit(SliceCounts(sl), c);
    CountsPositive(sl[..c]);
    CountsPositive(sl[c..]);
    OnlyFactorOne(Instances(sl, c), Chunk(sl, c));
  }

  lemma ChunkFits(sl: seq<Slice>, c: nat)
    requires AllValid(sl) && c <= |sl|
    ensures Chunk(sl, c) <= Product(SliceCounts(sl))
  {
    ChunkOfAll(sl, c);
  }

  lemma OnlyFactorOne(n: nat, chunk: nat)
    requires n > 0 && chunk > 0
    ensures chunk <= n * chunk && (n == 1 <==> n * chunk == chunk)
  {
    if n > 1 {
      MulMono(2, n, chunk);
    }
  }

  lemma {:induction false} LastOfAt(sel: seq<seq<nat>>, d: nat)
    requires d < |sel| && forall i :: 0 <= i < |sel| ==> sel[i] != []
    ensures LastOf(sel)[d] == sel[d][|sel[d]| - 1]
  {
    if d > 0 {
      LastOfAt(sel[1..], d - 1);
    }
  }

  // In front slices, the last instance is the one with index count - 1 everywhere.
  lemma LastInFront(sl: seq<Slice>, c: nat)
    requires AllValid(sl) && c <= |sl| && FrontSlices(sl[..c])
    ensures |LastInstance(sl, c)| == c && forall d :: 0 <= d < c ==> LastInstance(sl, c)[d] == sl[d].count - 1
  {
    ValidTail(sl, c);
    NoneEmpty(sl[..c]);
    forall d | 0 <= d < c
      ensures LastInstance(sl, c)[d] == sl[d].count - 1
    {
      LastOfAt(Sel(sl[..c]), d);
      SelAt(sl[..c], d);
      assert AtFront(sl[..c][d]);
      FrontSelects(sl[d]);
    }
  }

  // The last instance of an array is its last chunk.
  lemma LastChunk(x: Variable, c: nat, at: seq<nat>)
    requires Proper(x) && |at| == c <= |x.shape| && forall d :: 0 <= d < c ==> at[d] + 1 == x.shape[d]
    ensures Product(x.shape[c..]) <= |x.elems|
    ensures Sub(x.elems, x.shape, at) == x.elems[|x.elems| - Product(x.shape[c..])..]
  {
    SubIsRun(x.elems, x.shape, at);
    LastRun(x.shape, c, at);
  }

  lemma LastRun(shape: seq<nat>, c: nat, at: seq<nat>)
    requires |at| == c <= |shape| && forall d :: 0 <= d < c ==> at[d] + 1 == shape[d]
    ensures Offset(shape, at + Odometer.Zeros(|shape| - c)) + Product(shape[c..]) == Product(shape)
  {
    var n, size := Product(shape[..c]), Product(shape[c..]);
    PaddedOffset(shape, at);
    Odometer.MaxOffset(shape[..c], at);
    ProductSplit(shape, c);
    LastMultiple(Offset(shape[..c], at), n, size);
  }

  lemma LastMultiple(k: nat, n: nat, size: nat)
    requires k + 1 == n
    ensures k * size + size == n * size
  {
  }

  // What a walk can be given, for a fetch that has what is wanted and for one that must be cut again.
  lemma FitsWalks(shape: seq<nat>, sl: seq<Slice>, c: nat)
    requires Projections.Fits(shape, sl) && c <= |sl|
    ensures Walkable(shape, sl, c) && ContainersFit(shape, sl, c)
  {
    FitsSplit(shape, sl, c);
  }

  // Walking a response with the shifted slices it was fetched for.
  lemma ShiftedRead(x: Variable, vara: seq<Slice>)
    requires Proper(x) && AllValid(vara) && x.shape == SliceCounts(vara)
    ensures Projections.Fits(x.shape, ShiftAll(vara)) && SliceCounts(ShiftAll(vara)) == SliceCounts(vara)
    ensures ReadSlices(x.elems, x.shape, ShiftAll(vara)) == x.elems
  {
    ShiftedFits(vara);
    ShiftedSelectsAll(vara);
    ReadAllOfIt(x.elems, x.shape, ShiftAll(vara));
  }

  // The last instance that such a walk visits is the last chunk of the response, and all of it is copied.
  lemma ShiftedLast(x: Variable, shifted: seq<Slice>, c: nat, at: seq<nat>)
    requires Proper(x) && Projections.Fits(x.shape, shifted) && SliceCounts(shifted) == x.shape && c <= |shifted|
    requires |at| == c && forall d :: 0 <= d < c ==> at[d] + 1 == x.shape[d]
    ensures Projections.Fits(x.shape[c..], shifted[c..]) && Product(x.shape[c..]) <= |x.elems|
    ensures Front(Sub(x.elems, x.shape, at), x.shape[c..], shifted[c..]) == x.elems[|x.elems| - Product(x.shape[c..])..]
  {
    FitsSplit(x.shape, shifted, c);
    CountsJoin(shifted, c);
    LastChunkFront(x, c, at, shifted[c..]);
  }

  lemma ShiftedAt(vara: seq<Slice>, c: nat)
    requires AllValid(vara) && AllValid(ShiftAll(vara)) && c <= |vara|
    ensures |LastInstance(ShiftAll(vara), c)| == c
    ensures forall d :: 0 <= d < c ==> LastInstance(ShiftAll(vara), c)[d] + 1 == SliceCounts(vara)[d]
  {
    assert FrontSlices(ShiftAll(vara)[..c]);
    LastInFront(ShiftAll(vara), c);
  }

  lemma LastChunkFront(x: Variable, c: nat, at: seq<nat>, fields: seq<Slice>)
    requires Proper(x) && |at| == c <= |x.shape| && forall d :: 0 <= d < c ==> at[d] + 1 == x.shape[d]
    requires Projections.Fits(x.shape[c..], fields) && Product(SliceCounts(fields)) == Product(x.shape[c..])
    ensures Product(x.shape[c..]) <= |x.elems|
    ensures Front(Sub(x.elems, x.shape, at), x.shape[c..], fields) == x.elems[|x.elems| - Product(x.shape[c..])..]
  {
    LastChunk(x, c, at);
  }

  lemma LeavesLast(wanted: seq<int>, last: seq<int>, chunk: nat, conv: Conversion, memory: seq<int>)
    requires |last| == chunk <= |memory|
    ensures Leaves(wanted, last, false, conv, memory) == last + memory[chunk..]
  {
  }

  lemma ShiftedStays(x: Variable, shifted: seq<Slice>, c: nat, whole: bool, conv: Conversion, memory: seq<int>, last: seq<int>)
    requires Proper(x) && Projections.Fits(x.shape, shifted) && SliceCounts(shifted) == x.shape && c <= |shifted|
    requires |memory| == |x.elems| && !Advances(|x.shape| - c, whole, conv)
    requires |LastInstance(shifted, c)| == c && forall d :: 0 <= d < c ==> LastInstance(shifted, c)[d] + 1 == x.shape[d]
    requires Product(x.shape[c..]) <= |x.elems| && last == x.elems[|x.elems| - Product(x.shape[c..])..]
    ensures Walkable(x.shape, shifted, c) && ContainersFit(x.shape, shifted, c)
    ensures Walked(x.elems, x.shape, shifted, c, whole, conv, memory) == Leaves(x.elems, last, false, conv, memory)
  {
    FitsWalks(x.shape, shifted, c);
    CountsJoin(shifted, c);
    WalkedLast(x.elems, x.shape, shifted, c, whole, conv, memory);
    ShiftedLast(x, shifted, c, LastInstance(shifted, c));
    LeavesLast(x.elems, last, Product(x.shape[c..]), conv, memory);
  }

  lemma ShiftedMoves(x: Variable, shifted: seq<Slice>, c: nat, whole: bool, conv: Conversion, memory: seq<int>)
    requires Proper(x) && Projections.Fits(x.shape, shifted) && SliceCounts(shifted) == x.shape && c <= |shifted|
    requires |memory| == |x.elems| && Advances(|x.shape| - c, whole, conv)
    requires ReadSlices(x.elems, x.shape, shifted) == x.elems
    ensures Walkable(x.shape, shifted, c) && ContainersFit(x.shape, shifted, c)
    ensures Walked(x.elems, x.shape, shifted, c, whole, conv, memory) == Apply(conv, x.elems)
  {
    FitsWalks(x.shape, shifted, c);
    WalkedSideBySide(x.elems, x.shape, shifted, c, whole, conv, memory);
  }

  /** The walk with the shifted request leaves all that was fetched, or its last instance. */
  lemma ShiftedWalk(x: Variable, vara: seq<Slice>, c: nat, whole: bool, conv: Conversion, memory: seq<int>, last: seq<int>, moves: bool)
    requires Proper(x) && AllValid(vara) && x.shape == SliceCounts(vara) && c <= |vara| && |memory| == |x.elems|
    requires Chunk(vara, c) <= |x.elems| && last == x.elems[|x.elems| - Chunk(vara, c)..]
    requires moves == Advances(|x.shape| - c, whole, conv)
    ensures Walkable(x.shape, ShiftAll(vara), c) && ContainersFit(x.shape, ShiftAll(vara), c)
    ensures |memory| == Product(SliceCounts(ShiftAll(vara)))
    ensures Walked(x.elems, x.shape, ShiftAll(vara), c, whole, conv, memory) == Leaves(x.elems, last, moves, conv, memory)
  {
    ShiftedRead(x, vara);
    if moves {
      ShiftedMoves(x, ShiftAll(vara), c, whole, conv, memory);
    } else {
      ShiftedAt(vara, c);
      ShiftedStays(x, ShiftAll(vara), c, whole, conv, memory, last);
    }
  }

  // The front of the field in the last instance of the full variable.
  ghost function LastFront(x: Variable, p: seq<Slice>, c: nat): (r: seq<int>)
    requires Proper(x) && Projections.Fits(x.shape, p) && c <= |p|
    ensures AllValid(p[c..]) && |r| == Product(SliceCounts(p[c..]))
  {
    FitsWalks(x.shape, p, c);
    LastIsInside(x.shape, p, c);
    SelectedFewer(x.shape[c..], p[c..]);
    Front(Sub(x.elems, x.shape, LastInstance(p, c)), x.shape[c..], p[c..])
  }

  // A fetch of the whole field can be walked with the request, but its containers have been cut already.
  lemma FieldWalkable(x: Variable, p: seq<Slice>, c: nat)
    requires Proper(x) && Projections.Fits(x.shape, p) && c <= |p|
    ensures Projections.Fits(x.shape, Fetched(p, x.shape, c))
    ensures var y := Response(x, Fetched(p, x.shape, c));
      && Proper(y) && |y.shape| == |p| && y.shape[c..] == x.shape[c..]
      && Walkable(y.shape, p, c)
      && (ContainersFit(y.shape, p, c) <==> FrontSlices(p[..c]))
  {
    FetchedFits(x.shape, p, c);
    FitsSplit(x.shape, p, c);
    var y := Response(x, Fetched(p, x.shape, c));
    assert y.shape[c..] == x.shape[c..];
    CutTwice(y.shape, p, c);
  }

  lemma CutTwice(shape: seq<nat>, p: seq<Slice>, c: nat)
    requires AllValid(p) && c <= |p| == |shape| && forall d :: 0 <= d < c ==> shape[d] == p[d].count
    ensures Projections.Fits(shape[..c], p[..c]) <==> FrontSlices(p[..c])
  {
    forall d | 0 <= d < c
      ensures AtFront(p[..c][d]) <==> forall k :: 0 <= k < |Indices(p[d])| ==> Indices(p[d])[k] < shape[..c][d]
    {
      FrontSelects(p[d]);
    }
    if Projections.Fits(shape[..c], p[..c]) {
      forall d | 0 <= d < c
        ensures AtFront(p[..c][d])
      {
        assert p[..c][d] == p[d];
      }
    }
  }

  lemma FetchedIsFront(shape: seq<nat>, p: seq<Slice>, c: nat)
    requires Projections.Fits(shape, p) && c <= |p| && FrontSlices(p[..c])
    ensures Projections.Fits(shape, Fetched(p, shape, c)) && FrontSlices(Fetched(p, shape, c))
    ensures WholeFrom(shape, Sel(Fetched(p, shape, c)), c)
  {
    FetchedFits(shape, p, c);
    var fr := Fetched(p, shape, c);
    forall d | 0 <= d < |p|
      ensures AtFront(fr[d])
    {
      if d < c {
        assert p[..c][d] == p[d];
      }
    }
    SelFrom(fr, c);
    SelectsAll(shape[c..], fr[c..]);
  }

  // An instance of the response is that instance of the variable.
  lemma SameInstance(x: Variable, fr: seq<Slice>, c: nat, at: seq<nat>)
    requires Proper(x) && Projections.Fits(x.shape, fr) && FrontSlices(fr)
    requires |at| == c <= |fr| && WholeFrom(x.shape, Sel(fr), c) && forall d :: 0 <= d < c ==> at[d] < fr[d].count
    ensures Inside(at, x.shape) && Inside(at, Response(x, fr).shape)
    ensures Sub(Response(x, fr).elems, Response(x, fr).shape, at) == Sub(x.elems, x.shape, at)
  {
    FitsSelects(x.shape, fr);
    forall d | 0 <= d < c
      ensures at[d] < |Sel(fr)[d]| && Sel(fr)[d][at[d]] == at[d]
    {
      SelAt(fr, d);
      FrontSelects(fr[d]);
    }
    SubIsSub(x.elems, x.shape, Sel(fr), c, at);
    ThroughFront(Sel(fr)[..c], at);
  }

  lemma ThroughFront(sel: seq<seq<nat>>, at: seq<nat>)
    requires |sel| == |at| && forall d :: 0 <= d < |sel| ==> at[d] < |sel[d]| && sel[d][at[d]] == at[d]
    ensures Through(sel, at) == at
  {
    forall d | 0 <= d < |sel|
      ensures Through(sel, at)[d] == at[d]
    {
      ThroughAt(sel, at, d);
    }
  }

  lemma FieldLast(x: Variable, p: seq<Slice>, c: nat)
    requires Proper(x) && Projections.Fits(x.shape, p) && c <= |p| && FrontSlices(p[..c])
    ensures Projections.Fits(x.shape, Fetched(p, x.shape, c))
    ensures var y, at := Response(x, Fetched(p, x.shape, c)), LastInstance(p, c);
      && Proper(y) && Inside(at, y.shape) && Inside(at, x.shape) && |at| == c
      && Sub(y.elems, y.shape, at) == Sub(x.elems, x.shape, at)
  {
    FetchedIsFront(x.shape, p, c);
    LastInFront(p, c);
    SameInstance(x, Fetched(p, x.shape, c), c, LastInstance(p, c));
  }

  lemma FieldReads(x: Variable, p: seq<Slice>, c: nat)
    requires Proper(x) && Projections.Fits(x.shape, p) && c <= |p| && FrontSlices(p[..c])
    ensures Projections.Fits(x.shape, Fetched(p, x.shape, c))
    ensures var y := Response(x, Fetched(p, x.shape, c));
      Proper(y) && Projections.Fits(y.shape, p) && ReadSlices(y.elems, y.shape, p) == ReadSlices(x.elems, x.shape, p)
  {
    FieldWalkable(x, p, c);
    FitsSplit(Response(x, Fetched(p, x.shape, c)).shape, p, c);
    FetchedIsFront(x.shape, p, c);
    FrontResponseReads(x, Fetched(p, x.shape, c), p);
  }

  /** The walk over the whole field leaves all that is wanted, or the front of the last instance. */
  lemma FieldWalk(x: Variable, p: seq<Slice>, c: nat, whole: bool, conv: Conversion, memory: seq<int>)
    requires Proper(x) && Projections.Fits(x.shape, p) && c <= |p| && FrontSlices(p[..c])
    requires |memory| == Product(SliceCounts(p))
    ensures Projections.Fits(x.shape, Fetched(p, x.shape, c)) && AllValid(p[c..]) && Product(SliceCounts(p[c..])) <= |memory|
    ensures var y := Response(x, Fetched(p, x.shape, c));
      && Proper(y) && Walkable(y.shape, p, c) && ContainersFit(y.shape, p, c)
      && Walked(y.elems, y.shape, p, c, whole, conv, memory) ==
         Leaves(ReadSlices(x.elems, x.shape, p), LastFront(x, p, c), Advances(|p| - c, whole, conv), conv, memory)
  {
    ChunkOfAll(p, c);
    FieldWalkable(x, p, c);
    var y := Response(x, Fetched(p, x.shape, c));
    if Advances(|p| - c, whole, conv) {
      FieldReads(x, p, c);
      WalkedSideBySide(y.elems, y.shape, p, c, whole, conv, memory);
    } else {
      WalkedLast(y.elems, y.shape, p, c, whole, conv, memory);
      FieldLast(x, p, c);
    }
  }

  // ---------- Answers ----------

  // The states of nc3d_getvarx.
  datatype Way = CACHED | FETCHVAR | FETCHPART

  // Whether a response to a fetch that slices the first k dimensions is marked as a whole variable.
  ghost predicate Marks(ds: Dataset, v: CDFnode, vara: seq<Slice>, k: nat)
    requires ValidRequest(ds, v, vara) && k <= |vara|
  {
    RestrictReads(ds, v, vara);
    !ds.selections && IsWholeProjection(Restrict(ds, v, vara), Visible(ds, v).shape, k)
  }

  // Whether the walk over a fetch moves the memory pointer; c dimensions belong to containers.
  ghost predicate Moves(ds: Dataset, v: CDFnode, c: nat, vara: seq<Slice>, conv: Conversion, way: Way)
    requires ValidRequest(ds, v, vara) && c <= |vara|
  {
    match way
    case CACHED => true
    case FETCHVAR => Advances(|vara| - c, Marks(ds, v, vara, c), conv)
    case FETCHPART => Advances(|vara| - c, Marks(ds, v, vara, |vara|), conv)
  }

  // What a pointer that stays leaves at the start of memory.
  ghost function LastPieceOf(x: Variable, p: seq<Slice>, c: nat, way: Way): (r: seq<int>)
    requires Proper(x) && Projections.Fits(x.shape, p) && c <= |p|
    ensures |r| == Chunk(p, c) <= Product(SliceCounts(p))
  {
    ChunkOfAll(p, c);
    if way.FETCHVAR? then LastFront(x, p, c)
    else
      var wanted := ReadSlices(x.elems, x.shape, p);
      wanted[|wanted| - Chunk(p, c)..]
  }

  /**
  What the caller's memory holds in the end, or nothing when the request is refused.  With a pointer
  that stays, the last instance of the containers lies at the start, over what memory held before.
  */
  ghost function Answer(ds: Dataset, v: CDFnode, c: nat, vara: seq<Slice>, conv: Conversion, memory: seq<int>, way: Way)
    : (r: Option<seq<int>>)
    requires ValidRequest(ds, v, vara) && c <= |vara| && |memory| == Product(SliceCounts(vara))
  {
    RestrictReads(ds, v, vara);
    var p := Restrict(ds, v, vara);
    if way.FETCHVAR? && !FrontSlices(p[..c]) then None
    else Some(Leaves(Wanted(ds, v, vara), LastPieceOf(ds.full[v], p, c, way), Moves(ds, v, c, vara, conv, way), conv, memory))
  }

  /** When the answer is what was asked for; a caller can check this before the call. */
  ghost predicate Sound(ds: Dataset, v: CDFnode, c: nat, vara: seq<Slice>, conv: Conversion, way: Way)
    requires ValidRequest(ds, v, vara) && c <= |vara|
  {
    RestrictReads(ds, v, vara);
    ChunkOfAll(Restrict(ds, v, vara), c);
    var p := Restrict(ds, v, vara);
    match way
    case CACHED => true
    case FETCHVAR =>
      && FrontSlices(p[..c])
      && (Moves(ds, v, c, vara, conv, way) || (Instances(vara, c) == 1 && Leading(ds.full[v].shape[c..], p[c..])))
    case FETCHPART => Moves(ds, v, c, vara, conv, way) || Instances(vara, c) == 1
  }

  // The same dataset with other data for v.
  function With(ds: Dataset, v: CDFnode, elems: seq<int>): (r: Dataset)
    requires v in ds.full
  {
    ds.(full := ds.full[v := Variable(ds.full[v].shape, elems)])
  }

  lemma WithSame(ds: Dataset, v: CDFnode, vara: seq<Slice>, elems: seq<int>)
    requires ValidRequest(ds, v, vara) && |elems| == Product(ds.full[v].shape)
    ensures ValidRequest(With(ds, v, elems), v, vara) && Restrict(With(ds, v, elems), v, vara) == Restrict(ds, v, vara)
    ensures Visible(With(ds, v, elems), v).shape == Visible(ds, v).shape
    ensures AllValid(Restrict(ds, v, vara)) && Projections.Fits(ds.full[v].shape, Restrict(ds, v, vara))
    ensures SliceCounts(Restrict(ds, v, vara)) == SliceCounts(vara)
    ensures Wanted(With(ds, v, elems), v, vara) == ReadSlices(elems, ds.full[v].shape, Restrict(ds, v, vara))
  {
    var other := With(ds, v, elems);
    forall u | u in other.full
      ensures Proper(other.full[u])
    {
    }
    assert ValidDataset(other);
    RestrictReads(ds, v, vara);
    RestrictReads(other, v, vara);
  }

  // The answer is what is asked for when the variable has these data and memory holds this.
  ghost predicate RightFor(ds: Dataset, v: CDFnode, c: nat, vara: seq<Slice>, conv: Conversion, way: Way, elems: seq<int>, memory: seq<int>)
    requires ValidRequest(ds, v, vara) && c <= |vara|
    requires |elems| == Product(ds.full[v].shape) && |memory| == Product(SliceCounts(vara))
  {
    WithSame(ds, v, vara, elems);
    Answer(With(ds, v, elems), v, c, vara, conv, memory, way) == Some(Apply(conv, Wanted(With(ds, v, elems), v, vara)))
  }

  // The same, in terms of what the slices read in the data.
  ghost predicate LeavesWanted(x: Variable, p: seq<Slice>, c: nat, way: Way, moves: bool, conv: Conversion, memory: seq<int>)
    requires Proper(x) && Projections.Fits(x.shape, p) && c <= |p| && |memory| == Product(SliceCounts(p))
  {
    var wanted := ReadSlices(x.elems, x.shape, p);
    && (way.FETCHVAR? ==> FrontSlices(p[..c]))
    && Leaves(wanted, LastPieceOf(x, p, c, way), moves, conv, memory) == Apply(conv, wanted)
  }

  lemma MovesSame(ds: Dataset, v: CDFnode, c: nat, vara: seq<Slice>, conv: Conversion, way: Way, elems: seq<int>)
    requires ValidRequest(ds, v, vara) && c <= |vara| && |elems| == Product(ds.full[v].shape)
    requires ValidRequest(With(ds, v, elems), v, vara)
    ensures Moves(With(ds, v, elems), v, c, vara, conv, way) == Moves(ds, v, c, vara, conv, way)
  {
    WithSame(ds, v, vara, elems);
  }

  lemma RightForMeans(ds: Dataset, v: CDFnode, c: nat, vara: seq<Slice>, conv: Conversion, way: Way, elems: seq<int>, memory: seq<int>)
    requires ValidRequest(ds, v, vara) && c <= |vara|
    requires |elems| == Product(ds.full[v].shape) && |memory| == Product(SliceCounts(vara))
    ensures AllValid(Restrict(ds, v, vara)) && Projections.Fits(ds.full[v].shape, Restrict(ds, v, vara))
    ensures SliceCounts(Restrict(ds, v, vara)) == SliceCounts(vara)
    ensures RightFor(ds, v, c, vara, conv, way, elems, memory) <==>
      LeavesWanted(Variable(ds.full[v].shape, elems), Restrict(ds, v, vara), c, way, Moves(ds, v, c, vara, conv, way), conv, memory)
  {
    WithSame(ds, v, vara, elems);
    MovesSame(ds, v, c, vara, conv, way, elems);
  }

  lemma ShowsThroughLeaves(wanted: seq<int>, last: seq<int>, conv: Conversion) returns (memory: seq<int>)
    requires |last| < |wanted|
    ensures |memory| == |wanted| && Leaves(wanted, last, false, conv, memory) != wanted
  {
    memory := seq(|wanted|, i requires 0 <= i < |wanted| => wanted[i] + 1);
    assert Leaves(wanted, last, false, conv, memory)[|last|] == wanted[|last|] + 1;
  }

  // One instance: the front of the field in it is what is wanted, if the slices lead.
  lemma OneFront(x: Variable, p: seq<Slice>, c: nat)
    requires Proper(x) && Projections.Fits(x.shape, p) && c <= |p| && Instances(p, c) == 1
    ensures AllValid(p[c..]) && Leading(x.shape[c..], p[c..]) ==> LastFront(x, p, c) == ReadSlices(x.elems, x.shape, p)
  {
    FitsWalks(x.shape, p, c);
    LastIsInside(x.shape, p, c);
    OneInstance(x.elems, x.shape, p, c);
    if Leading(x.shape[c..], p[c..]) {
      LeadingReads(Sub(x.elems, x.shape, LastInstance(p, c)), x.shape[c..], p[c..]);
    }
  }

  // And otherwise there are data for which it is not.
  lemma OneFrontFails(shape: seq<nat>, p: seq<Slice>, c: nat) returns (x: Variable)
    requires |shape| <= NC_MAX_VAR_DIMS && Projections.Fits(shape, p) && c <= |p| && Instances(p, c) == 1
    requires AllValid(p[c..]) && !Leading(shape[c..], p[c..])
    ensures Proper(x) && x.shape == shape && LastFront(x, p, c) != ReadSlices(x.elems, x.shape, p)
  {
    FitsWalks(shape, p, c);
    FrontIsReadIff(shape[c..], p[c..]);
    var block: seq<int> :| |block| == Product(shape[c..]) && Front(block, shape[c..], p[c..]) != ReadSlices(block, shape[c..], p[c..]);
    LastIsInside(shape, p, c);
    var at := LastInstance(p, c);
    HoldingHolds(shape, at, block);
    x := Variable(shape, Holding(shape, at, block));
    OneInstance(x.elems, shape, p, c);
  }

  lemma SameInstances(ds: Dataset, v: CDFnode, vara: seq<Slice>, c: nat)
    requires ValidRequest(ds, v, vara) && c <= |vara|
    ensures AllValid(Restrict(ds, v, vara)) && |Restrict(ds, v, vara)| == |vara|
    ensures Instances(Restrict(ds, v, vara), c) == Instances(vara, c)
    ensures Chunk(Restrict(ds, v, vara), c) == Chunk(vara, c)
  {
    RestrictReads(ds, v, vara);
    CountsJoin(vara, c);
    CountsJoin(Restrict(ds, v, vara), c);
  }

  // What the only instance leaves is all that is wanted.
  lemma OnlyPiece(x: Variable, p: seq<Slice>, c: nat, way: Way)
    requires Proper(x) && Projections.Fits(x.shape, p) && c <= |p| && Instances(p, c) == 1
    requires AllValid(p[c..]) && (way.FETCHVAR? ==> Leading(x.shape[c..], p[c..]))
    ensures LastPieceOf(x, p, c, way) == ReadSlices(x.elems, x.shape, p)
  {
    ChunkOfAll(p, c);
    if way.FETCHVAR? {
      OneFront(x, p, c);
    }
  }

  lemma LeavesWhole(wanted: seq<int>, moves: bool, conv: Conversion, memory: seq<int>)
    requires |memory| == |wanted| && (!moves ==> conv.Same?)
    ensures Leaves(wanted, wanted, moves, conv, memory) == Apply(conv, wanted)
  {
    assert wanted + memory[|wanted|..] == wanted;
  }

  lemma MovesOrStays(x: Variable, p: seq<Slice>, c: nat, way: Way, moves: bool, conv: Conversion, memory: seq<int>)
    requires Proper(x) && Projections.Fits(x.shape, p) && c <= |p| && |memory| == Product(SliceCounts(p))
    requires (way.FETCHVAR? ==> FrontSlices(p[..c])) && (!moves ==> conv.Same?)
    requires moves || (Instances(p, c) == 1 && AllValid(p[c..]) && (way.FETCHVAR? ==> Leading(x.shape[c..], p[c..])))
    ensures LeavesWanted(x, p, c, way, moves, conv, memory)
  {
    if !moves {
      OnlyPiece(x, p, c, way);
      LeavesWhole(ReadSlices(x.elems, x.shape, p), moves, conv, memory);
    }
  }

  lemma SoundMeans(ds: Dataset, v: CDFnode, c: nat, vara: seq<Slice>, conv: Conversion, way: Way, p: seq<Slice>, moves: bool)
    requires ValidRequest(ds, v, vara) && c <= |vara| && Sound(ds, v, c, vara, conv, way)
    requires p == Restrict(ds, v, vara) && moves == Moves(ds, v, c, vara, conv, way)
    ensures AllValid(p) && |p| == |vara| && AllValid(p[c..])
    ensures (way.FETCHVAR? ==> FrontSlices(p[..c])) && (!moves ==> conv.Same?)
    ensures moves || (Instances(p, c) == 1 && (way.FETCHVAR? ==> Leading(ds.full[v].shape[c..], p[c..])))
  {
    SameInstances(ds, v, vara, c);
    ValidTail(p, c);
  }

  lemma SoundIsRight(ds: Dataset, v: CDFnode, c: nat, vara: seq<Slice>, conv: Conversion, way: Way, elems: seq<int>, memory: seq<int>)
    requires ValidRequest(ds, v, vara) && c <= |vara| && Sound(ds, v, c, vara, conv, way)
    requires |elems| == Product(ds.full[v].shape) && |memory| == Product(SliceCounts(vara))
    ensures RightFor(ds, v, c, vara, conv, way, elems, memory)
  {
    var p, moves := Restrict(ds, v, vara), Moves(ds, v, c, vara, conv, way);
    RightForMeans(ds, v, c, vara, conv, way, elems, memory);
    assert LeavesWanted(Variable(ds.full[v].shape, elems), p, c, way, moves, conv, memory) by {
      SoundMeans(ds, v, c, vara, conv, way, p, moves);
      MovesOrStays(Variable(ds.full[v].shape, elems), p, c, way, moves, conv, memory);
    }
  }

  // Data and memory for which a walk with a pointer that stays leaves something else.
  lemma StaysWrong(shape: seq<nat>, p: seq<Slice>, c: nat, way: Way, conv: Conversion) returns (elems: seq<int>, memory: seq<int>)
    requires |shape| <= NC_MAX_VAR_DIMS && Projections.Fits(shape, p) && c <= |p| && AllValid(p[c..]) && conv.Same?
    requires Instances(p, c) == 1 ==> way.FETCHVAR? && !Leading(shape[c..], p[c..])
    ensures |elems| == Product(shape) && |memory| == Product(SliceCounts(p))
    ensures !LeavesWanted(Variable(shape, elems), p, c, way, false, conv, memory)
  {
    ChunkOfAll(p, c);
    if Instances(p, c) == 1 {
      var x := OneFrontFails(shape, p, c);
      elems, memory := x.elems, Odometer.Zeros(Product(SliceCounts(p)));
      assert memory[|memory|..] == [];
    } else {
      elems := Odometer.Zeros(Product(shape));
      var x := Variable(shape, elems);
      memory := ShowsThroughLeaves(ReadSlices(elems, shape, p), LastPieceOf(x, p, c, way), conv);
    }
  }

  /** In particular, the answer to a sound request is what it wants of the data as they are. */
  lemma SoundAnswer(ds: Dataset, v: CDFnode, c: nat, vara: seq<Slice>, conv: Conversion, memory: seq<int>, way: Way)
    requires ValidRequest(ds, v, vara) && c <= |vara| && |memory| == Product(SliceCounts(vara)) && Sound(ds, v, c, vara, conv, way)
    ensures Answer(ds, v, c, vara, conv, memory, way) == Some(Apply(conv, Wanted(ds, v, vara)))
  {
    WithItself(ds, v, vara);
    SoundIsRight(ds, v, c, vara, conv, way, ds.full[v].elems, memory);
    AsTheyAre(ds, v, c, vara, conv, way, ds.full[v].elems, memory);
  }

  lemma WithItself(ds: Dataset, v: CDFnode, vara: seq<Slice>)
    requires ValidRequest(ds, v, vara)
    ensures Proper(ds.full[v]) && With(ds, v, ds.full[v].elems) == ds
  {
    assert ds.full[v := ds.full[v]] == ds.full;
  }

  lemma AsTheyAre(ds: Dataset, v: CDFnode, c: nat, vara: seq<Slice>, conv: Conversion, way: Way, elems: seq<int>, memory: seq<int>)
    requires ValidRequest(ds, v, vara) && c <= |vara|
    requires |elems| == Product(ds.full[v].shape) && |memory| == Product(SliceCounts(vara))
    requires With(ds, v, elems) == ds && RightFor(ds, v, c, vara, conv, way, elems, memory)
    ensures Answer(ds, v, c, vara, conv, memory, way) == Some(Apply(conv, Wanted(ds, v, vara)))
  {
  }

  lemma UnsoundIsWrong(ds: Dataset, v: CDFnode, c: nat, vara: seq<Slice>, conv: Conversion, way: Way)
    returns (elems: seq<int>, memory: seq<int>)
    requires ValidRequest(ds, v, vara) && c <= |vara| && !Sound(ds, v, c, vara, conv, way)
    ensures |elems| == Product(ds.full[v].shape) && |memory| == Product(SliceCounts(vara))
    ensures !RightFor(ds, v, c, vara, conv, way, elems, memory)
  {
    var shape, p := ds.full[v].shape, Restrict(ds, v, vara);
    RestrictReads(ds, v, vara);
    SameInstances(ds, v, vara, c);
    if way.FETCHVAR? && !FrontSlices(p[..c]) {
      elems, memory := Odometer.Zeros(Product(shape)), Odometer.Zeros(Product(SliceCounts(vara)));
    } else {
      ValidTail(p, c);
      elems, memory := StaysWrong(shape, p, c, way, conv);
    }
    RightForMeans(ds, v, c, vara, conv, way, elems, memory);
  }

  /**
  Over all data of the variable, and all that memory may hold before, a request is answered with what
  it asks for exactly when it is sound.
  */
  lemma SoundIff(ds: Dataset, v: CDFnode, c: nat, vara: seq<Slice>, conv: Conversion, way: Way)
    requires ValidRequest(ds, v, vara) && c <= |vara|
    ensures (forall elems: seq<int>, memory: seq<int> ::
              |elems| == Product(ds.full[v].shape) && |memory| == Product(SliceCounts(vara)) ==>
              RightFor(ds, v, c, vara, conv, way, elems, memory))
            <==> Sound(ds, v, c, vara, conv, way)
  {
    if Sound(ds, v, c, vara, conv, way) {
      forall elems: seq<int>, memory: seq<int> | |elems| == Product(ds.full[v].shape) && |memory| == Product(SliceCounts(vara))
        ensures RightFor(ds, v, c, vara, conv, way, elems, memory)
      {
        SoundIsRight(ds, v, c, vara, conv, way, elems, memory);
      }
    } else {
      var elems, memory := UnsoundIsWrong(ds, v, c, vara, conv, way);
    }
  }

  /** The walk over usable content gives the answer CACHED. */
  lemma CachedAnswer(ds: Dataset, v: CDFnode, c: nat, vara: seq<Slice>, conv: Conversion, memory: seq<int>, walk: seq<Slice>, x: Variable)
    requires ValidRequest(ds, v, vara) && c <= |vara| && |memory| == Product(SliceCounts(vara))
    requires Usable(ds, v, x) && walk == Restrict(ds, v, vara)
    ensures Proper(x) && |x.shape| == |vara| == |walk| && Ready(x.shape, walk, c, true) && ContainersFit(x.shape, walk, c)
    ensures |memory| == Product(SliceCounts(walk))
    ensures Answer(ds, v, c, vara, conv, memory, CACHED) == Some(Walked(x.elems, x.shape, walk, c, true, conv, memory))
  {
    UsableReads(ds, v, x, vara);
    RestrictReads(ds, v, vara);
    FitsWalks(x.shape, walk, c);
    DeclaredTail(x.shape, walk, c);
    WalkedSideBySide(x.elems, x.shape, walk, c, true, conv, memory);
  }

  lemma MovesIfMarked(ds: Dataset, v: CDFnode, c: nat, vara: seq<Slice>, conv: Conversion, way: Way, whole: bool)
    requires ValidRequest(ds, v, vara) && c <= |vara|
    requires way.FETCHVAR? ==> whole == Marks(ds, v, vara, c)
    requires way.FETCHPART? ==> whole == Marks(ds, v, vara, |vara|)
    ensures !way.CACHED? ==> Moves(ds, v, c, vara, conv, way) == Advances(|vara| - c, whole, conv)
  {
  }

  lemma FieldReady(ds: Dataset, v: CDFnode, c: nat, vara: seq<Slice>, x: Variable, whole: bool)
    requires ValidRequest(ds, v, vara) && c <= |vara| && |Restrict(ds, v, vara)| == |ds.full[v].shape| == |vara|
    requires Projections.Fits(ds.full[v].shape, Fetched(Restrict(ds, v, vara), ds.full[v].shape, c))
    requires x == Response(ds.full[v], Fetched(Restrict(ds, v, vara), ds.full[v].shape, c))
    ensures |x.shape| == |vara| && Ready(x.shape, Restrict(ds, v, vara), c, whole)
    ensures ContainersFit(x.shape, Restrict(ds, v, vara), c) <==> FrontSlices(Restrict(ds, v, vara)[..c])
  {
    RestrictReads(ds, v, vara);
    RestrictDeclared(ds, v, vara);
    FieldWalkable(ds.full[v], Restrict(ds, v, vara), c);
    DeclaredTail(ds.full[v].shape, Restrict(ds, v, vara), c);
  }

  /** The walk over the whole field gives the answer FETCHVAR, when it finds all its instances. */
  lemma FieldAnswer(ds: Dataset, v: CDFnode, c: nat, vara: seq<Slice>, conv: Conversion, memory: seq<int>,
                    p: seq<Slice>, x: Variable, whole: bool, moves: bool)
    requires ValidRequest(ds, v, vara) && c <= |vara| && |memory| == Product(SliceCounts(vara))
    requires moves == Moves(ds, v, c, vara, conv, FETCHVAR) && moves == Advances(|vara| - c, whole, conv)
    requires p == Restrict(ds, v, vara) && |p| == |ds.full[v].shape| && AllValid(p) && |memory| == Product(SliceCounts(p))
    requires Projections.Fits(ds.full[v].shape, Fetched(p, ds.full[v].shape, c)) && x == Response(ds.full[v], Fetched(p, ds.full[v].shape, c))
    requires Walkable(x.shape, p, c) && (ContainersFit(x.shape, p, c) <==> FrontSlices(p[..c]))
    ensures Answer(ds, v, c, vara, conv, memory, FETCHVAR) ==
      if ContainersFit(x.shape, p, c) then Some(Walked(x.elems, x.shape, p, c, whole, conv, memory)) else None
  {
    RestrictReads(ds, v, vara);
    if FrontSlices(p[..c]) {
      FieldWalk(ds.full[v], p, c, whole, conv, memory);
      FieldAnswered(ds, v, c, vara, conv, memory, p, LastFront(ds.full[v], p, c), moves);
    }
  }

  lemma FieldAnswered(ds: Dataset, v: CDFnode, c: nat, vara: seq<Slice>, conv: Conversion, memory: seq<int>,
                      p: seq<Slice>, last: seq<int>, moves: bool)
    requires ValidRequest(ds, v, vara) && c <= |vara| && |memory| == Product(SliceCounts(vara))
    requires p == Restrict(ds, v, vara) && |p| == |vara| && FrontSlices(p[..c]) && Projections.Fits(ds.full[v].shape, p)
    requires last == LastFront(ds.full[v], p, c) && moves == Moves(ds, v, c, vara, conv, FETCHVAR) && |last| <= |memory|
    ensures Answer(ds, v, c, vara, conv, memory, FETCHVAR) == Some(Leaves(Wanted(ds, v, vara), last, moves, conv, memory))
  {
  }

  lemma DeclaredTail(shape: seq<nat>, sl: seq<Slice>, c: nat)
    requires Declared(shape, sl) && c <= |sl|
    ensures Declared(shape[c..], sl[c..])
  {
  }

  // The last piece that is left of a part is the last chunk of what was fetched.
  lemma PartLast(ds: Dataset, v: CDFnode, c: nat, vara: seq<Slice>, wanted: seq<int>)
    requires ValidRequest(ds, v, vara) && c <= |vara| && wanted == Wanted(ds, v, vara)
    ensures AllValid(Restrict(ds, v, vara)) && Projections.Fits(ds.full[v].shape, Restrict(ds, v, vara))
    ensures |Restrict(ds, v, vara)| == |vara| && Chunk(vara, c) <= |wanted|
    ensures LastPieceOf(ds.full[v], Restrict(ds, v, vara), c, FETCHPART) == wanted[|wanted| - Chunk(vara, c)..]
  {
    RestrictReads(ds, v, vara);
    SameInstances(ds, v, vara, c);
    ChunkOfAll(vara, c);
  }

  /** A part is answered with all of it, or with its last chunk over what memory held. */
  lemma PartAnswer(ds: Dataset, v: CDFnode, c: nat, vara: seq<Slice>, conv: Conversion, memory: seq<int>,
                   wanted: seq<int>, last: seq<int>, moves: bool)
    requires ValidRequest(ds, v, vara) && c <= |vara| && |memory| == Product(SliceCounts(vara)) == |wanted|
    requires wanted == Wanted(ds, v, vara) && moves == Moves(ds, v, c, vara, conv, FETCHPART)
    requires Chunk(vara, c) <= |wanted| && last == wanted[|wanted| - Chunk(vara, c)..]
    ensures Answer(ds, v, c, vara, conv, memory, FETCHPART) == Some(Leaves(wanted, last, moves, conv, memory))
  {
    PartLast(ds, v, c, vara, wanted);
  }

  // What a walk over a fetched part leaves, and what it was fetched for.
  lemma PartLeaves(ds: Dataset, v: CDFnode, c: nat, vara: seq<Slice>, conv: Conversion, memory: seq<int>,
                   x: Variable, whole: bool, moves: bool)
    returns (left: seq<int>)
    requires ValidRequest(ds, v, vara) && c <= |vara| == |x.shape| && |memory| == Product(SliceCounts(vara)) == |x.elems|
    requires moves == Moves(ds, v, c, vara, conv, FETCHPART) && moves == Advances(|x.shape| - c, whole, conv)
    requires Proper(x) && x.shape == SliceCounts(vara) && x.elems == Wanted(ds, v, vara)
    ensures Answer(ds, v, c, vara, conv, memory, FETCHPART) == Some(left)
    ensures Walkable(x.shape, ShiftAll(vara), c) && ContainersFit(x.shape, ShiftAll(vara), c)
    ensures |memory| == Product(SliceCounts(ShiftAll(vara)))
    ensures Walked(x.elems, x.shape, ShiftAll(vara), c, whole, conv, memory) == left
  {
    ChunkFits(vara, c);
    var last := x.elems[|x.elems| - Chunk(vara, c)..];
    left := Leaves(x.elems, last, moves, conv, memory);
    PartAnswer(ds, v, c, vara, conv, memory, x.elems, last, moves);
    ShiftedWalk(x, vara, c, whole, conv, memory, last, moves);
  }

  lemma PartReady(ds: Dataset, v: CDFnode, c: nat, vara: seq<Slice>, shape: seq<nat>, whole: bool)
    requires ValidRequest(ds, v, vara) && c <= |vara| && shape == SliceCounts(vara)
    ensures Ready(shape, ShiftAll(vara), c, whole) && ContainersFit(shape, ShiftAll(vara), c)
    ensures SliceCounts(ShiftAll(vara)) == SliceCounts(vara)
  {
    ShiftedFits(vara);
    FitsWalks(shape, ShiftAll(vara), c);
    ShiftedDeclared(ds, v, vara);
    DeclaredTail(shape, ShiftAll(vara), c);
  }

  lemma ShiftedDeclared(ds: Dataset, v: CDFnode, vara: seq<Slice>)
    requires ValidRequest(ds, v, vara)
    ensures Declared(SliceCounts(vara), ShiftAll(vara))
  {
    VisibleSmaller(ds, v);
    CountsWithin(Visible(ds, v).shape, vara);
  }

  // ---------- Requests by start, count and stride ----------

  // Element `at` of the answer is the element at start + at*stride of the variable, converted.
  ghost predicate ElementRight(out: seq<int>, x: Variable, start: seq<int>, count: seq<int>, stride: seq<int>, conv: Conversion, at: seq<nat>)
    requires AccessInBounds(x.shape, start, count, stride) && Within(at, count)
  {
    && (forall d :: 0 <= d < |at| ==> 0 <= Target(start, stride, at)[d] < x.shape[d])
    && Offset(count, at) < |out| && Offset(x.shape, Target(start, stride, at)) < |x.elems|
    && var element := x.elems[Offset(x.shape, Target(start, stride, at))];
      out[Offset(count, at)] == if conv.Convert? then conv.f(element) else element
  }

  /** What nc_get_vars promises: the elements at start + at*stride, for every at below count, in order. */
  ghost predicate IsStridedRead(out: seq<int>, x: Variable, start: seq<int>, count: seq<int>, stride: seq<int>, conv: Conversion)
    requires AccessInBounds(x.shape, start, count, stride)
  {
    |out| == Product(count) &&
    forall at: seq<nat> :: Within(at, count) ==> ElementRight(out, x, start, count, stride, conv, at)
  }

  /** Arguments in bounds make a valid request, and what it asks for is the strided read they name. */
  lemma RequestIsStridedRead(ds: Dataset, v: CDFnode, sl: seq<Slice>, start: seq<int>, count: seq<int>, stride: seq<int>, conv: Conversion)
    requires ValidDataset(ds) && v in ds.full && Declared(ds.full[v].shape, sl)
    requires AccessInBounds(Visible(ds, v).shape, start, count, stride)
    ensures ValidRequest(ds, v, BuiltAll(sl, 0, start, count, stride))
    ensures SliceCounts(BuiltAll(sl, 0, start, count, stride)) == count
    ensures IsStridedRead(Apply(conv, Wanted(ds, v, BuiltAll(sl, 0, start, count, stride))), Visible(ds, v), start, count, stride, conv)
  {
    var x, built := Visible(ds, v), BuiltAll(sl, 0, start, count, stride);
    VisibleSmaller(ds, v);
    VaraFits(x.shape, sl, start, count, stride);
    assert ValidRequest(ds, v, built);
    StridedRead(x, sl, start, count, stride, conv);
  }

  lemma StridedRead(x: Variable, sl: seq<Slice>, start: seq<int>, count: seq<int>, stride: seq<int>, conv: Conversion)
    requires Proper(x) && AccessInBounds(x.shape, start, count, stride) && Declared(x.shape, sl)
    ensures Projections.Fits(x.shape, BuiltAll(sl, 0, start, count, stride))
    ensures IsStridedRead(Apply(conv, ReadSlices(x.elems, x.shape, BuiltAll(sl, 0, start, count, stride))), x, start, count, stride, conv)
  {
    VaraFits(x.shape, sl, start, count, stride);
    var out := Apply(conv, ReadSlices(x.elems, x.shape, BuiltAll(sl, 0, start, count, stride)));
    forall at: seq<nat> | Within(at, count)
      ensures ElementRight(out, x, start, count, stride, conv, at)
    {
      VaraReads(x.elems, x.shape, sl, start, count, stride, at);
    }
  }

  // ---------- In terms of start, count and stride ----------

  // One slice of a request, without and with a slice of the URL: it starts at 0 or moves in ones.
  lemma BuiltSlice(start: int, count: int, stride: int, size: int, declsize: int)
    requires InBounds(start, count, stride, size) && size <= declsize
    ensures var a := BuildSlice(start, count, stride, declsize);
      && Valid(a) && a.first == start && a.stride == stride && a.count == count
      && (stride == 1 ==> a.last == start + count - 1 && a.length == count)
  {
    BuildSelects(start, count, stride, declsize);
    CountIsSelected(BuildSlice(start, count, stride, declsize));
  }

  lemma OneTimesOne(a: int, b: int)
    requires a >= 1 && b >= 1
    ensures a * b == 1 <==> a == 1 && b == 1
  {
    if a * b == 1 {
      UnitProduct(a, b);
    }
  }

  lemma NothingPlusNothing(a: nat, t: nat, b: nat)
    requires t >= 1
    ensures a + t * b == 0 <==> a == 0 && b == 0
  {
    MulMono(1, t, b);
  }

  lemma MergedSlice(u: Slice, start: int, count: int, stride: int, declsize: int)
    requires Valid(u) && InBounds(start, count, stride, u.count) && u.count <= declsize
    ensures var p := MergeSlice(u, BuildSlice(start, count, stride, declsize));
      && p.first == u.first + u.stride * start && p.stride == u.stride * stride
      && (p.first == 0 && p.stride == 1 <==> u.first == 0 && u.stride == 1 && start == 0 && stride == 1)
      && (p.first == 0 && p.stride == 1 ==> p.length == count)
  {
    var a := BuildSlice(start, count, stride, declsize);
    BuiltSlice(start, count, stride, u.count, declsize);
    MulNonneg(stride, count - 1);
    CountIsSelected(u);
    ComposeFails(u, a);
    OneTimesOne(u.stride, stride);
    NothingPlusNothing(u.first, u.stride, start);
  }

  // In dimension d, the slice of a request takes the front of the variable.
  ghost predicate FrontAt(ds: Dataset, v: CDFnode, start: int, count: int, stride: int, d: nat)
    requires ValidDataset(ds) && v in ds.full && d < |ds.full[v].shape|
  {
    if v in ds.url then ds.url[v][d].first + ds.url[v][d].stride * start == 0 && (ds.url[v][d].stride * stride == 1 || count == 1)
    else start == 0 && (stride == 1 || count == 1)
  }

  // So do the slices of the containers.
  ghost predicate TakesFront(ds: Dataset, v: CDFnode, c: nat, start: seq<int>, count: seq<int>, stride: seq<int>)
    requires ValidDataset(ds) && v in ds.full && c <= |start| == |count| == |stride| == |ds.full[v].shape|
  {
    forall d :: 0 <= d < c ==> FrontAt(ds, v, start[d], count[d], stride[d], d)
  }

  lemma TakesFrontMeans(ds: Dataset, v: CDFnode, c: nat, start: seq<int>, count: seq<int>, stride: seq<int>)
    requires ValidDataset(ds) && v in ds.full && c <= |start| == |count| == |stride| == |ds.full[v].shape|
    ensures v !in ds.url ==>
      (TakesFront(ds, v, c, start, count, stride) <==>
       forall d :: 0 <= d < c ==> start[d] == 0 && (stride[d] == 1 || count[d] == 1))
    ensures v in ds.url ==>
      (TakesFront(ds, v, c, start, count, stride) <==>
       forall d :: 0 <= d < c ==>
         ds.url[v][d].first + ds.url[v][d].stride * start[d] == 0 && (ds.url[v][d].stride * stride[d] == 1 || count[d] == 1))
  {
    if v in ds.url {
      assert forall d :: 0 <= d < c ==> (FrontAt(ds, v, start[d], count[d], stride[d], d) <==>
        ds.url[v][d].first + ds.url[v][d].stride * start[d] == 0 && (ds.url[v][d].stride * stride[d] == 1 || count[d] == 1));
    }
  }

  lemma RestrictedSlice(ds: Dataset, v: CDFnode, sl: seq<Slice>, start: seq<int>, count: seq<int>, stride: seq<int>, d: nat)
    requires ValidDataset(ds) && v in ds.full && Declared(ds.full[v].shape, sl) && d < |sl|
    requires AccessInBounds(Visible(ds, v).shape, start, count, stride)
    ensures |start| == |count| == |stride| == |sl| == |ds.full[v].shape|
    ensures AllValid(BuiltAll(sl, 0, start, count, stride))
    ensures var p := Restrict(ds, v, BuiltAll(sl, 0, start, count, stride));
      |p| == |sl| && p[d] == if v in ds.url then MergeSlice(ds.url[v][d], BuildSlice(start[d], count[d], stride[d], sl[d].declsize))
                             else BuildSlice(start[d], count[d], stride[d], sl[d].declsize)
    ensures InBounds(start[d], count[d], stride[d], Visible(ds, v).shape[d]) && Visible(ds, v).shape[d] <= sl[d].declsize
  {
    VisibleSmaller(ds, v);
    VaraFits(Visible(ds, v).shape, sl, start, count, stride);
  }

  /** FETCHVAR refuses a request exactly when the slices of the containers do not take the front. */
  lemma RefusedIff(ds: Dataset, v: CDFnode, c: nat, sl: seq<Slice>, start: seq<int>, count: seq<int>, stride: seq<int>,
                   conv: Conversion, memory: seq<int>)
    requires ValidDataset(ds) && v in ds.full && Declared(ds.full[v].shape, sl) && c <= |ds.full[v].shape|
    requires AccessInBounds(Visible(ds, v).shape, start, count, stride) && |memory| == Product(count)
    ensures |start| == |count| == |stride| == |sl| == |ds.full[v].shape|
    ensures ValidRequest(ds, v, BuiltAll(sl, 0, start, count, stride))
    ensures SliceCounts(BuiltAll(sl, 0, start, count, stride)) == count
    ensures Answer(ds, v, c, BuiltAll(sl, 0, start, count, stride), conv, memory, FETCHVAR).Some? <==>
            TakesFront(ds, v, c, start, count, stride)
  {
    var vara := BuiltAll(sl, 0, start, count, stride);
    VisibleSmaller(ds, v);
    RequestIsStridedRead(ds, v, sl, start, count, stride, conv);
    RestrictReads(ds, v, vara);
    var p := Restrict(ds, v, vara);
    forall d | 0 <= d < c
      ensures AtFront(p[d]) <==> FrontAt(ds, v, start[d], count[d], stride[d], d)
    {
      RestrictedAt(ds, v, sl, start, count, stride, d);
      assert p[d].count == SliceCounts(p)[d];
    }
    FrontsAgree(ds, v, c, start, count, stride, p);
  }

  lemma FrontsAgree(ds: Dataset, v: CDFnode, c: nat, start: seq<int>, count: seq<int>, stride: seq<int>, p: seq<Slice>)
    requires ValidDataset(ds) && v in ds.full && c <= |start| == |count| == |stride| == |ds.full[v].shape| == |p|
    requires forall d :: 0 <= d < c ==> (AtFront(p[d]) <==> FrontAt(ds, v, start[d], count[d], stride[d], d))
    ensures FrontSlices(p[..c]) <==> TakesFront(ds, v, c, start, count, stride)
  {
    assert forall d :: 0 <= d < c ==> p[..c][d] == p[d];
    if FrontSlices(p[..c]) {
      forall d | 0 <= d < c
        ensures FrontAt(ds, v, start[d], count[d], stride[d], d)
      {
        assert AtFront(p[..c][d]);
      }
    }
  }

  // In dimension d, a request that takes all of the visible variable, which is at its front.
  ghost predicate AllAt(ds: Dataset, v: CDFnode, start: int, count: int, stride: int, d: nat)
    requires ValidDataset(ds) && v in ds.full && d < |Visible(ds, v).shape| == |ds.full[v].shape|
  {
    start == 0 && stride == 1 && count == Visible(ds, v).shape[d] &&
    (v in ds.url ==> ds.url[v][d].first == 0 && ds.url[v][d].stride == 1)
  }

  lemma RestrictedAt(ds: Dataset, v: CDFnode, sl: seq<Slice>, start: seq<int>, count: seq<int>, stride: seq<int>, d: nat)
    requires ValidDataset(ds) && v in ds.full && Declared(ds.full[v].shape, sl) && d < |sl|
    requires AccessInBounds(Visible(ds, v).shape, start, count, stride)
    ensures |start| == |count| == |stride| == |sl| == |ds.full[v].shape| == |Visible(ds, v).shape|
    ensures AllValid(BuiltAll(sl, 0, start, count, stride))
    ensures var p := Restrict(ds, v, BuiltAll(sl, 0, start, count, stride));
      |p| == |sl|
      && (p[d].count == count[d] ==> (AtFront(p[d]) <==> FrontAt(ds, v, start[d], count[d], stride[d], d)))
      && (WholeAt(p[d], Visible(ds, v).shape[d]) <==> AllAt(ds, v, start[d], count[d], stride[d], d))
  {
    VisibleSmaller(ds, v);
    RestrictedSlice(ds, v, sl, start, count, stride, d);
    FrontOfRestricted(ds, v, Restrict(ds, v, BuiltAll(sl, 0, start, count, stride))[d],
                      start[d], count[d], stride[d], d, Visible(ds, v).shape[d], sl[d].declsize);
  }

  lemma FrontOfRestricted(ds: Dataset, v: CDFnode, p: Slice, start: int, count: int, stride: int, d: nat, size: nat, declsize: int)
    requires ValidDataset(ds) && v in ds.full && d < |ds.full[v].shape| && size == Visible(ds, v).shape[d]
    requires InBounds(start, count, stride, size) && size <= declsize
    requires p == if v in ds.url then MergeSlice(ds.url[v][d], BuildSlice(start, count, stride, declsize))
                  else BuildSlice(start, count, stride, declsize)
    ensures p.first == if v in ds.url then ds.url[v][d].first + ds.url[v][d].stride * start else start
    ensures p.stride == if v in ds.url then ds.url[v][d].stride * stride else stride
    ensures WholeAt(p, size) <==>
      start == 0 && stride == 1 && count == size && (v in ds.url ==> ds.url[v][d].first == 0 && ds.url[v][d].stride == 1)
  {
    if v in ds.url {
      MergedSlice(ds.url[v][d], start, count, stride, declsize);
    } else {
      BuiltSlice(start, count, stride, size, declsize);
    }
  }

  /**
  A response is marked as a whole variable exactly when the request takes all of the visible variable
  in the dimensions that the fetch slices, and the URL takes these from the front, without selections.
  */
  lemma MarksIff(ds: Dataset, v: CDFnode, k: nat, sl: seq<Slice>, start: seq<int>, count: seq<int>, stride: seq<int>)
    requires ValidDataset(ds) && v in ds.full && Declared(ds.full[v].shape, sl) && k <= |ds.full[v].shape|
    requires AccessInBounds(Visible(ds, v).shape, start, count, stride)
    ensures |start| == |count| == |stride| == |sl| == |ds.full[v].shape| == |Visible(ds, v).shape|
    ensures ValidRequest(ds, v, BuiltAll(sl, 0, start, count, stride))
    ensures Marks(ds, v, BuiltAll(sl, 0, start, count, stride), k) <==>
      !ds.selections && forall d :: 0 <= d < k ==>
        start[d] == 0 && stride[d] == 1 && count[d] == Visible(ds, v).shape[d]
        && (v in ds.url ==> ds.url[v][d].first == 0 && ds.url[v][d].stride == 1)
  {
    var vara := BuiltAll(sl, 0, start, count, stride);
    VisibleSmaller(ds, v);
    RequestIsStridedRead(ds, v, sl, start, count, stride, Same);
    RestrictReads(ds, v, vara);
    var p := Restrict(ds, v, vara);
    forall d | 0 <= d < k
      ensures WholeAt(p[d], Visible(ds, v).shape[d]) <==> AllAt(ds, v, start[d], count[d], stride[d], d)
    {
      RestrictedAt(ds, v, sl, start, count, stride, d);
    }
    assert Marks(ds, v, vara, k) <==> !ds.selections && forall d :: 0 <= d < k ==> AllAt(ds, v, start[d], count[d], stride[d], d);
  }

  // ---------- Requests that go wrong ----------

  // Structure { Int32 v1[3]; } S1[2], nothing projected; sl are the declared slices of S1 and v1.
  ghost predicate Synth3(ds: Dataset, v: CDFnode, sl: seq<Slice>) {
    ValidDataset(ds) && v in ds.full && v !in ds.url && ds.full[v].shape == [2, 3] && Declared(ds.full[v].shape, sl)
  }

  lemma OffsetInTable(rows: nat, columns: nat, i: nat, j: nat)
    ensures Offset([rows, columns], [i, j]) == i * columns + j && Product([rows, columns]) == rows * columns
  {
    assert [rows, columns][1..] == [columns] && [columns][1..] == [] && [i, j][1..] == [j] && [j][1..] == [];
    assert Product([columns]) == columns * Product([]) && Offset([columns], [j]) == j * Product([]) + Offset([], []);
  }

  lemma ElementOfSynth3(x: Variable, sl: seq<Slice>, vara: seq<Slice>, i: nat, j: nat)
    requires Proper(x) && x.shape == [2, 3] && Declared(x.shape, sl) && AccessInBounds(x.shape, [0, 0], [2, 2], [1, 1])
    requires vara == BuiltAll(sl, 0, [0, 0], [2, 2], [1, 1]) && Projections.Fits(x.shape, vara)
    requires i < 2 && j < 2
    ensures 0 <= i * 2 + j < |ReadSlices(x.elems, x.shape, vara)| && 0 <= i * 3 + j < |x.elems|
    ensures ReadSlices(x.elems, x.shape, vara)[i * 2 + j] == x.elems[i * 3 + j]
  {
    OffsetInTable(2, 3, i, j);
    OffsetInTable(2, 2, i, j);
    assert Target([0, 0], [1, 1], [i, j]) == [i, j];
    VaraReads(x.elems, x.shape, sl, [0, 0], [2, 2], [1, 1], [i, j]);
  }

  predicate Agree(wanted: seq<int>, elems: seq<int>, i: nat, j: nat)
    requires i < 2 && j < 2 && |wanted| == 4 && |elems| == 6
  {
    wanted[i * 2 + j] == elems[i * 3 + j]
  }

  lemma WantedOfSynth3(ds: Dataset, v: CDFnode, sl: seq<Slice>, vara: seq<Slice>)
    requires Synth3(ds, v, sl) && vara == BuiltAll(sl, 0, [0, 0], [2, 2], [1, 1])
    ensures ValidRequest(ds, v, vara) && SliceCounts(vara) == [2, 2] && |ds.full[v].elems| == 6
    ensures |Wanted(ds, v, vara)| == 4
    ensures forall i: nat, j: nat :: i < 2 && j < 2 ==> Agree(Wanted(ds, v, vara), ds.full[v].elems, i, j)
  {
    assert AccessInBounds(ds.full[v].shape, [0, 0], [2, 2], [1, 1]);
    VaraFits(ds.full[v].shape, sl, [0, 0], [2, 2], [1, 1]);
    OffsetInTable(2, 3, 0, 0);
    OffsetInTable(2, 2, 0, 0);
    forall i: nat, j: nat | i < 2 && j < 2
      ensures Agree(Wanted(ds, v, vara), ds.full[v].elems, i, j)
    {
      ElementOfSynth3(ds.full[v], sl, vara, i, j);
    }
  }

  lemma FourElements(wanted: seq<int>, e: seq<int>)
    requires |wanted| == 4 && |e| == 6 && forall i: nat, j: nat :: i < 2 && j < 2 ==> Agree(wanted, e, i, j)
    ensures wanted == [e[0], e[1], e[3], e[4]]
  {
    assert Agree(wanted, e, 0, 0) && Agree(wanted, e, 0, 1) && Agree(wanted, e, 1, 0) && Agree(wanted, e, 1, 1);
  }

  lemma PartIsNotWhole(ds: Dataset, v: CDFnode, sl: seq<Slice>, vara: seq<Slice>)
    requires Synth3(ds, v, sl) && vara == BuiltAll(sl, 0, [0, 0], [2, 2], [1, 1]) && ValidRequest(ds, v, vara)
    ensures !Moves(ds, v, 1, vara, Same, FETCHPART)
  {
    assert vara[1] == BuildSlice(0, 2, 1, sl[1].declsize);
    assert Restrict(ds, v, vara)[1].length == 2;
  }

  lemma LastOfTwo(wanted: seq<int>, memory: seq<int>, counts: seq<nat>)
    requires |wanted| == |memory| == 4 && counts == [2, 2]
    ensures Product(counts[1..]) == 2
    ensures Leaves(wanted, wanted[4 - Product(counts[1..])..], false, Same, memory) == [wanted[2], wanted[3], memory[2], memory[3]]
  {
    assert counts[1..] == [2] && Product([2]) == 2 * Product([]);
  }

  /** Asking for S1[0:1].v1[0:1]: the second structure's elements lie where the first one's belong. */
  lemma InstancesOverwrite(ds: Dataset, v: CDFnode, sl: seq<Slice>, memory: seq<int>)
    requires Synth3(ds, v, sl) && |memory| == 4
    ensures var vara := BuiltAll(sl, 0, [0, 0], [2, 2], [1, 1]);
      && ValidRequest(ds, v, vara) && SliceCounts(vara) == [2, 2] && |ds.full[v].elems| == 6
      && var e := ds.full[v].elems;
        && Wanted(ds, v, vara) == [e[0], e[1], e[3], e[4]]
        && Product(SliceCounts(vara)) == 4
        && Answer(ds, v, 1, vara, Same, memory, FETCHPART) == Some([e[3], e[4], memory[2], memory[3]])
  {
    var vara := BuiltAll(sl, 0, [0, 0], [2, 2], [1, 1]);
    WantedOfSynth3(ds, v, sl, vara);
    RestrictReads(ds, v, vara);
    PartIsNotWhole(ds, v, sl, vara);
    var wanted := Wanted(ds, v, vara);
    FourElements(wanted, ds.full[v].elems);
    LastOfTwo(wanted, memory, SliceCounts(vara));
    OffsetInTable(2, 2, 0, 0);
  }

  /** With NCF_WHOLEVAR, asking for S1[1].v1 is refused: the one instance fetched is sought at index 1. */
  lemma SecondInstanceIsRefused(ds: Dataset, v: CDFnode, sl: seq<Slice>, conv: Conversion, memory: seq<int>)
    requires Synth3(ds, v, sl)
    ensures var vara := BuiltAll(sl, 0, [1, 0], [1, 3], [1, 1]);
      && ValidRequest(ds, v, vara) && SliceCounts(vara) == [1, 3]
      && (|memory| == Product(SliceCounts(vara)) ==> Answer(ds, v, 1, vara, conv, memory, FETCHVAR) == None)
  {
    var vara := BuiltAll(sl, 0, [1, 0], [1, 3], [1, 1]);
    assert AccessInBounds(ds.full[v].shape, [1, 0], [1, 3], [1, 1]);
    VaraFits(ds.full[v].shape, sl, [1, 0], [1, 3], [1, 1]);
    assert vara[0] == BuildSlice(1, 1, 1, sl[0].declsize);
    assert !AtFront(Restrict(ds, v, vara)[..1][0]);
  }

  // The last element of every dimension.
  function LastOnly(shape: seq<nat>): (r: seq<Slice>)
    ensures |r| == |shape|
  {
    seq(|shape|, d requires 0 <= d < |shape| => var n: int := shape[d]; BuildSlice(n - 1, 1, 1, n))
  }

  lemma {:induction false} LastOffset(shape: seq<nat>)
    requires forall d :: 0 <= d < |shape| ==> shape[d] > 0
    ensures Product(shape) > 0
    ensures Offset(shape, seq(|shape|, d requires 0 <= d < |shape| => shape[d] - 1)) == Product(shape) - 1
  {
    var last := seq(|shape|, d requires 0 <= d < |shape| => shape[d] - 1);
    Odometer.MaxOffset(shape, last);
    if shape != [] {
      LastOffset(shape[1..]);
      MulMono(1, shape[0], Product(shape[1..]));
    }
  }

  // Reading the last element only.
  lemma LastIsWanted(x: Variable)
    requires Proper(x) && forall d :: 0 <= d < |x.shape| ==> x.shape[d] > 0
    ensures Declared(x.shape, LastOnly(x.shape)) && Projections.Fits(x.shape, LastOnly(x.shape))
    ensures Product(SliceCounts(LastOnly(x.shape))) == 1 && |x.elems| > 0
    ensures ReadSlices(x.elems, x.shape, LastOnly(x.shape)) == [x.elems[|x.elems| - 1]]
  {
    var n := |x.shape|;
    var start: seq<int> := seq(n, d requires 0 <= d < n => x.shape[d] - 1);
    var ones: seq<int> := seq(n, d => 1);
    var whole := seq(n, d requires 0 <= d < n => WholeSlice(x.shape[d]));
    assert LastOnly(x.shape) == BuiltAll(whole, 0, start, ones, ones);
    var at := Odometer.Zeros(n);
    VaraReads(x.elems, x.shape, whole, start, ones, ones, at);
    assert Target(start, ones, at) == start;
    LastOffset(x.shape);
    Odometer.ZeroOffset(ones);
    OnesProduct(ones);
  }

  lemma {:induction false} OnesProduct(ones: seq<nat>)
    requires forall d :: 0 <= d < |ones| ==> ones[d] == 1
    ensures Product(ones) == 1
  {
    if ones != [] {
      OnesProduct(ones[1..]);
    }
  }

  /**
  With NCF_WHOLEVAR and a URL with selections, the response is not marked whole, and the walk copies
  the front of the variable.  For every variable of rank one or more whose first and last elements
  differ, asking for the last element gives the first one.
  */
  lemma WholeVarUnderSelectionsFails(ds: Dataset, v: CDFnode, vara: seq<Slice>, memory: seq<int>)
    requires ValidDataset(ds) && v in ds.full && v !in ds.url && ds.selections && vara == LastOnly(ds.full[v].shape)
    requires ds.full[v].shape != [] && forall d :: 0 <= d < |ds.full[v].shape| ==> ds.full[v].shape[d] > 0
    requires ds.full[v].elems != [] && ds.full[v].elems[0] != ds.full[v].elems[|ds.full[v].elems| - 1]
    requires |memory| == 1
    ensures ValidRequest(ds, v, vara) && Product(SliceCounts(vara)) == 1
    ensures Wanted(ds, v, vara) == [ds.full[v].elems[|ds.full[v].elems| - 1]]
    ensures Answer(ds, v, 0, vara, Same, memory, FETCHVAR) == Some([ds.full[v].elems[0]])
  {
    LastRequest(ds, v, vara);
    FrontIsAnswered(ds, v, vara, memory);
    assert ds.full[v].elems[..1] == [ds.full[v].elems[0]];
  }

  lemma LastRequest(ds: Dataset, v: CDFnode, vara: seq<Slice>)
    requires ValidDataset(ds) && v in ds.full && v !in ds.url && vara == LastOnly(ds.full[v].shape)
    requires forall d :: 0 <= d < |ds.full[v].shape| ==> ds.full[v].shape[d] > 0
    ensures ValidRequest(ds, v, vara) && Product(SliceCounts(vara)) == 1
    ensures ds.full[v].elems != [] && Wanted(ds, v, vara) == [ds.full[v].elems[|ds.full[v].elems| - 1]]
  {
    LastIsWanted(ds.full[v]);
  }

  // Under selections a variable without containers is answered from its front.
  lemma FrontIsAnswered(ds: Dataset, v: CDFnode, vara: seq<Slice>, memory: seq<int>)
    requires ValidRequest(ds, v, vara) && ds.selections && vara != [] && |memory| == Product(SliceCounts(vara))
    ensures |memory| <= |ds.full[v].elems|
    ensures Answer(ds, v, 0, vara, Same, memory, FETCHVAR) == Some(ds.full[v].elems[..|memory|])
  {
    RestrictReads(ds, v, vara);
    var x, p := ds.full[v], Restrict(ds, v, vara);
    SelectedFewer(x.shape, p);
    WholeFieldFront(x, p);
    assert p[..0] == [];
    assert x.elems[..|memory|] + memory[|memory|..] == x.elems[..|memory|];
  }

  // Without containers, the front of the last instance is the front of the variable.
  lemma WholeFieldFront(x: Variable, p: seq<Slice>)
    requires Proper(x) && Projections.Fits(x.shape, p) && Product(SliceCounts(p)) <= |x.elems|
    ensures LastFront(x, p, 0) == x.elems[..Product(SliceCounts(p))]
  {
    assert p[..0] == [] && p[0..] == p && x.shape[0..] == x.shape;
    assert LastInstance(p, 0) == [];
  }
}
