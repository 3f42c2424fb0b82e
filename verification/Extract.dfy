/**
Moving the selected elements of a variable from fetched data into the caller's memory
(libdap2/getvara.c, extract; libdap2/dceconstraints.c, dcesafeindex and dcesegmentsize).

The code reads in one piece, in chunks, or element by element, depending on how many trailing
dimensions are selected whole.  All three ways give `ReadSlices`.
*/
module Extract {
  import opened Arithmetic
  import opened Slices
  import opened RowMajor
  import opened Projections
  import opened Odometer

  // oc_data_readn: n consecutive elements, the first at the given index.
  function ReadN<T>(data: seq<T>, offset: nat, n: nat): (r: seq<T>)
    requires offset + n <= |data|
  {
    data[offset..offset + n]
  }

  // ---------- Whole trailing dimensions ----------

  lemma {:induction false} ProductSplit(shape: seq<nat>, n: nat)
    requires n <= |shape|
    ensures Product(shape) == Product(shape[..n]) * Product(shape[n..])
  {
    if n == 0 {
      assert shape[0..] == shape;
    } else {
      ProductSplit(shape[1..], n - 1);
      assert shape[..n][1..] == shape[1..][..n - 1];
      assert shape[1..][n - 1..] == shape[n..];
      Associate(shape[0], Product(shape[..n][1..]), Product(shape[n..]));
    }
  }

  // An index with zeros behind its first n entries is the start of a block of the trailing shape.
  lemma {:induction false} PaddedOffset(shape: seq<nat>, at: seq<nat>)
    requires |at| <= |shape|
    ensures Offset(shape, at + Zeros(|shape| - |at|)) == Offset(shape[..|at|], at) * Product(shape[|at|..])
  {
    var n := |at|;
    var padded := at + Zeros(|shape| - n);
    if n == 0 {
      ZeroOffset(shape);
      assert padded == Zeros(|shape|);
    } else {
      PaddedOffset(shape[1..], at[1..]);
      assert padded[1..] == at[1..] + Zeros(|shape[1..]| - |at[1..]|);
      assert shape[..n][1..] == shape[1..][..n - 1] && shape[1..][n - 1..] == shape[n..];
      ProductSplit(shape[1..], n - 1);
      Regroup(at[0], Product(shape[1..][..n - 1]), Product(shape[n..]), Offset(shape[1..][..n - 1], at[1..]));
    }
  }

  lemma Regroup(a: nat, p: nat, q: nat, off: nat)
    ensures a * (p * q) + off * q == (a * p + off) * q
  {
    Associate(a, p, q);
  }

  // The selection takes everything from dimension n on.
  predicate WholeFrom(shape: seq<nat>, sel: seq<seq<nat>>, n: nat)
    requires n <= |shape| == |sel|
  {
    sel[n..] == AllOf(shape[n..])
  }

  // The same `size` elements stand in r from `to` on and in data from `from` on.
  predicate SameRun<T(==)>(r: seq<T>, to: int, data: seq<T>, from: int, size: nat) {
    0 <= to <= to + size <= |r| && 0 <= from <= from + size <= |data| && r[to..to + size] == data[from..from + size]
  }

  lemma SubSlice<T>(s: seq<T>, a: int, b: int, c: int, d: int)
    requires 0 <= a <= b <= |s| && 0 <= c <= d <= b - a
    ensures s[a..b][c..d] == s[a + c..a + d]
  {
    var l, r := s[a..b][c..d], s[a + c..a + d];
    assert |l| == |r| == d - c;
    forall k | 0 <= k < d - c
      ensures l[k] == r[k]
    {
      assert l[k] == s[a..b][c + k] == s[a + (c + k)];
      assert r[k] == s[(a + c) + k];
    }
  }

  lemma {:induction false} CountsSplit(sel: seq<seq<nat>>, n: nat)
    requires n <= |sel|
    ensures Counts(sel) == Counts(sel[..n]) + Counts(sel[n..])
  {
    if n > 0 {
      CountsSplit(sel[1..], n - 1);
      assert sel[..n][1..] == sel[1..][..n - 1] && sel[1..][n - 1..] == sel[n..];
    } else {
      assert sel[0..] == sel;
    }
  }

  // The sizes of rows and blocks, in chunks.
  lemma ChunkSizes(shape: seq<nat>, sel: seq<seq<nat>>, n: nat)
    requires n <= |shape| == |sel| && WholeFrom(shape, sel, n)
    ensures Product(Counts(sel)) == Product(Counts(sel[..n])) * Product(shape[n..])
    ensures Product(shape) == Product(shape[..n]) * Product(shape[n..])
  {
    ProductSplit(shape, n);
    CountsSplit(sel, n);
    AllOfSelects(shape[n..]);
    ProductSplit(Counts(sel), n);
    assert Counts(sel)[..n] == Counts(sel[..n]) && Counts(sel)[n..] == shape[n..];
  }

  // The part of an array that an index for its first dimensions leaves.
  function Sub<T>(data: seq<T>, shape: seq<nat>, at: seq<nat>): (r: seq<T>)
    requires |data| == Product(shape) && |at| <= |shape| && forall d :: 0 <= d < |at| ==> at[d] < shape[d]
    ensures |r| == Product(shape[|at|..])
    decreases |at|
  {
    if at == [] then
      assert shape[0..] == shape;
      data
    else
      assert shape[1..][|at[1..]|..] == shape[|at|..];
      Sub(Block(data, shape, at[0]), shape[1..], at[1..])
  }

  // It is one run of consecutive elements.
  lemma {:induction false} SubIsRun<T>(data: seq<T>, shape: seq<nat>, at: seq<nat>)
    requires |data| == Product(shape) && |at| <= |shape| && forall d :: 0 <= d < |at| ==> at[d] < shape[d]
    ensures var from, size := Offset(shape, at + Zeros(|shape| - |at|)), Product(shape[|at|..]);
      from + size <= |data| && Sub(data, shape, at) == data[from..from + size]
    decreases |at|
  {
    if at == [] {
      assert at + Zeros(|shape|) == Zeros(|shape|);
      ZeroOffset(shape);
      assert shape[0..] == shape;
    } else {
      var i, tail, p := at[0], shape[1..], Product(shape[1..]);
      SubIsRun(Block(data, shape, i), tail, at[1..]);
      assert (at + Zeros(|shape| - |at|))[1..] == at[1..] + Zeros(|tail| - |at[1..]|);
      assert tail[|at[1..]|..] == shape[|at|..];
      BlockFits(i, shape[0], p);
      var from, size := Offset(tail, at[1..] + Zeros(|tail| - |at[1..]|)), Product(shape[|at|..]);
      SubSlice(data, i * p, (i + 1) * p, from, from + size);
    }
  }

  // Selected positions lie within the array, and what is left of the selection selects in what is left of it.
  lemma {:induction false} ThroughWithin(shape: seq<nat>, sel: seq<seq<nat>>, at: seq<nat>)
    requires Selects(shape, sel) && |at| <= |shape| && forall d :: 0 <= d < |at| ==> at[d] < |sel[d]|
    ensures forall d :: 0 <= d < |at| ==> at[d] < Counts(sel)[d]
    ensures forall d :: 0 <= d < |at| ==> Through(sel[..|at|], at)[d] < shape[d]
    ensures Selects(shape[|at|..], sel[|at|..])
    decreases |at|
  {
    CountsAt(sel);
    if at == [] {
      assert shape[0..] == shape && sel[0..] == sel;
    } else {
      var n := |at|;
      assert sel[..n][1..] == sel[1..][..n - 1] && shape[1..][n - 1..] == shape[n..] && sel[1..][n - 1..] == sel[n..];
      ThroughWithin(shape[1..], sel[1..], at[1..]);
      var through := Through(sel[..n], at);
      assert through[1..] == Through(sel[1..][..n - 1], at[1..]);
      forall d | 0 <= d < n
        ensures through[d] < shape[d]
      {
        if d > 0 {
          assert through[d] == through[1..][d - 1];
        }
      }
    }
  }

  // The part of the result at the digits `at` is what the other dimensions select in the part of
  // the data at the selected positions.
  lemma {:induction false} SubOfRead<T>(data: seq<T>, shape: seq<nat>, sel: seq<seq<nat>>, at: seq<nat>)
    requires |data| == Product(shape) && Selects(shape, sel) && |at| <= |shape|
    requires forall d :: 0 <= d < |at| ==> at[d] < |sel[d]|
    requires forall d :: 0 <= d < |at| ==> at[d] < Counts(sel)[d]
    requires forall d :: 0 <= d < |at| ==> Through(sel[..|at|], at)[d] < shape[d]
    requires Selects(shape[|at|..], sel[|at|..])
    ensures Sub(Read(data, shape, sel), Counts(sel), at) ==
            Read(Sub(data, shape, Through(sel[..|at|], at)), shape[|at|..], sel[|at|..])
    decreases |at|
  {
    if at == [] {
      assert shape[0..] == shape && sel[0..] == sel;
    } else {
      var i, n := sel[0][at[0]], |at|;
      var through := Through(sel[..n], at);
      assert sel[..n][1..] == sel[1..][..n - 1] && shape[1..][n - 1..] == shape[n..] && sel[1..][n - 1..] == sel[n..];
      assert through[0] == i && through[1..] == Through(sel[1..][..n - 1], at[1..]);
      ThroughWithin(shape[1..], sel[1..], at[1..]);
      SubOfRead(Block(data, shape, i), shape[1..], sel[1..], at[1..]);
      BlockOfRead(data, shape, sel, at[0]);
    }
  }

  // Part of the result and part of the data are the same, if the selection takes all the rest.
  lemma SubIsSub<T>(data: seq<T>, shape: seq<nat>, sel: seq<seq<nat>>, n: nat, at: seq<nat>)
    requires |data| == Product(shape) && Selects(shape, sel) && n <= |shape| && WholeFrom(shape, sel, n)
    requires |at| == n && forall d :: 0 <= d < n ==> at[d] < |sel[d]|
    ensures forall d :: 0 <= d < n ==> at[d] < Counts(sel)[d]
    ensures forall d :: 0 <= d < n ==> Through(sel[..n], at)[d] < shape[d]
    ensures Sub(Read(data, shape, sel), Counts(sel), at) == Sub(data, shape, Through(sel[..n], at))
  {
    ThroughWithin(shape, sel, at);
    SubOfRead(data, shape, sel, at);
    ReadAll(Sub(data, shape, Through(sel[..n], at)), shape[n..]);
  }

  /** A chunk of the result is one run of consecutive elements of the data. */
  lemma ChunkAt<T>(data: seq<T>, shape: seq<nat>, sel: seq<seq<nat>>, n: nat, at: seq<nat>)
    requires |data| == Product(shape) && Selects(shape, sel) && n <= |shape| && WholeFrom(shape, sel, n)
    requires |at| == n && forall d :: 0 <= d < n ==> at[d] < |sel[d]|
    ensures SameRun(Read(data, shape, sel), Offset(Counts(sel), at + Zeros(|shape| - n)),
                    data, Offset(shape, Through(sel[..n], at) + Zeros(|shape| - n)), Product(shape[n..]))
  {
    SubIsSub(data, shape, sel, n, at);
    var through := Through(sel[..n], at);
    var sub := Sub(data, shape, through);
    SubStarts(Read(data, shape, sel), Counts(sel), at, sub);
    SubStarts(data, shape, through, sub);
    RunsAgree(sub, Read(data, shape, sel), Offset(Counts(sel), at + Zeros(|shape| - n)),
              data, Offset(shape, through + Zeros(|shape| - n)));
  }

  lemma RunsAgree<T>(sub: seq<T>, r: seq<T>, to: int, data: seq<T>, from: int)
    requires SameRun(sub, 0, r, to, |sub|) && SameRun(sub, 0, data, from, |sub|)
    ensures SameRun(r, to, data, from, |sub|)
  {
  }

  lemma SubStarts<T>(data: seq<T>, shape: seq<nat>, at: seq<nat>, sub: seq<T>)
    requires |data| == Product(shape) && |at| <= |shape| && forall d :: 0 <= d < |at| ==> at[d] < shape[d]
    requires Sub(data, shape, at) == sub
    ensures |sub| == Product(shape[|at|..])
    ensures SameRun(sub, 0, data, Offset(shape, at + Zeros(|shape| - |at|)), |sub|)
  {
    SubIsRun(data, shape, at);
    assert sub[0..|sub|] == sub;
  }

  // ---------- dcesafeindex and dcesegmentsize ----------

  /** dcesafeindex: the leftmost slice from which on all slices up to stop are whole. */
  method SafeIndex(slices: seq<Slice>, slicesdefined: bool, start: nat, stop: nat) returns (safe: nat)
    requires start < stop <= |slices|
    ensures start <= safe <= stop
    ensures !slicesdefined ==> safe == stop
    ensures slicesdefined ==> forall d :: safe <= d < stop ==> IsWholeSlice(slices[d])
    ensures slicesdefined && safe > start ==> !IsWholeSlice(slices[safe - 1])
  {
    if !slicesdefined {
      return stop;
    }
    safe := stop - 1;
    while safe > start
      invariant start <= safe < stop
      invariant forall d :: safe < d < stop ==> IsWholeSlice(slices[d])
    {
      if !IsWholeSlice(slices[safe]) {
        return safe + 1;
      }
      safe := safe - 1;
    }
    safe := if IsWholeSlice(slices[start]) then start else start + 1;
  }

  /** dcesegmentsize: the number of elements selected in the dimensions start to stop. */
  method SegmentSize(slices: seq<Slice>, start: nat, stop: nat) returns (size: int)
    requires start <= stop <= |slices| && AllValid(slices)
    ensures size == Product(SliceCounts(slices[start..stop]))
  {
    size := 1;
    var i := start;
    ghost var counts := SliceCounts(slices[start..stop]);
    while i < stop
      invariant start <= i <= stop
      invariant size == Product(counts[..i - start])
    {
      ProductLast(counts[..i - start], counts[i - start]);
      assert counts[..i + 1 - start] == counts[..i - start] + [counts[i - start]];
      size := size * slices[i].count;
      i := i + 1;
    }
    assert counts[..i - start] == counts;
  }

  // ---------- extract ----------

  // Conversion of every element (dapconvert with a count).
  function Converted<T>(s: seq<T>, convert: T -> T): (r: seq<T>)
    ensures |r| == |s| && forall k :: 0 <= k < |s| ==> r[k] == convert(s[k])
  {
    seq(|s|, k requires 0 <= k < |s| => convert(s[k]))
  }

  // The trailing whole slices take the array whole from dimension n on.
  lemma WholeSlicesFrom(shape: seq<nat>, slices: seq<Slice>, n: nat)
    requires Fits(shape, slices) && Declared(shape, slices) && n <= |shape|
    requires forall d :: n <= d < |shape| ==> IsWholeSlice(slices[d])
    ensures WholeFrom(shape, Sel(slices), n)
    ensures SliceCounts(slices[n..]) == shape[n..]
  {
    forall d | n <= d < |shape|
      ensures slices[d].count == shape[d] && Indices(slices[d]) == seq(shape[d], k => k)
    {
      WholeIsShape(slices[d], shape[d]);
    }
    SelFrom(slices, n);
    SelectsAll(shape[n..], slices[n..]);
  }

  lemma {:induction false} SelectsAll(shape: seq<nat>, slices: seq<Slice>)
    requires |slices| == |shape| && AllValid(slices)
    requires forall d :: 0 <= d < |shape| ==> slices[d].count == shape[d] && Indices(slices[d]) == seq(shape[d], k => k)
    ensures Sel(slices) == AllOf(shape) && SliceCounts(slices) == shape
  {
    if shape != [] {
      SelectsAll(shape[1..], slices[1..]);
    }
  }

  lemma WholeIsShape(s: Slice, size: nat)
    requires Valid(s) && IsWholeSlice(s) && size <= s.declsize
    requires forall k :: 0 <= k < |Indices(s)| ==> Indices(s)[k] < size
    ensures s.count == size && Indices(s) == seq(size, k => k)
  {
    WholeMeansAllLength(s);
    assert Indices(s)[s.length - 1] == s.length - 1;
  }

  lemma WholeMeansAllLength(s: Slice)
    requires Valid(s) && IsWholeSlice(s)
    ensures s.count == s.length && Indices(s) == seq(s.length, k => k)
  {
    assert Selected(s) == s.length;
    forall k: nat | k < s.length
      ensures At(s, k) == k
    {
    }
  }

  lemma {:induction false} SelFrom(slices: seq<Slice>, n: nat)
    requires AllValid(slices) && n <= |slices|
    ensures Sel(slices)[n..] == Sel(slices[n..])
    ensures Sel(slices)[..n] == Sel(slices[..n])
  {
    if n > 0 {
      SelFrom(slices[1..], n - 1);
      assert slices[1..][n - 1..] == slices[n..] && slices[1..][..n - 1] == slices[..n][1..];
      assert Sel(slices)[n..] == Sel(slices)[1..][n - 1..];
      assert Sel(slices)[..n] == [Sel(slices)[0]] + Sel(slices)[1..][..n - 1];
    } else {
      assert slices[0..] == slices;
    }
  }

  // While positions are left, the index is the selected position.
  lemma IndexIsPosition(idx: seq<int>, slices: seq<Slice>, digits: seq<nat>)
    requires AllValid(slices) && Shows(idx, slices, digits)
    requires Good(SliceCounts(slices), digits) && digits[0] < SliceCounts(slices)[0]
    ensures forall d :: 0 <= d < |slices| ==> digits[d] < |Sel(slices)[d]|
    ensures idx[..|slices|] == Through(Sel(slices), digits)
  {
    forall d | 0 <= d < |slices|
      ensures digits[d] < |Sel(slices)[d]|
    {
      SelAt(slices, d);
      CountIsSelected(slices[d]);
    }
    forall d | 0 <= d < |slices|
      ensures idx[d] == Through(Sel(slices), digits)[d]
    {
      SelAt(slices, d);
      ThroughAt(Sel(slices), digits, d);
      StepIsAt(slices[d], digits[d]);
    }
  }

  // What ReadByOdometer is called with.
  ghost predicate Readable<T>(data: seq<T>, shape: seq<nat>, slices: seq<Slice>, n: nat, chunk: nat) {
    && |data| == Product(shape) && Fits(shape, slices) && |shape| <= NC_MAX_VAR_DIMS
    && 0 < n <= |shape| && WholeFrom(shape, Sel(slices), n) && chunk == Product(shape[n..])
  }

  // Where the chunk for the digits starts in the result.
  lemma ChunkStart(shape: seq<nat>, slices: seq<Slice>, n: nat, digits: seq<nat>)
    requires AllValid(slices) && n <= |shape| == |slices| && WholeFrom(shape, Sel(slices), n) && |digits| == n
    ensures Offset(Counts(Sel(slices)), digits + Zeros(|shape| - n)) ==
            Offset(SliceCounts(slices[..n]), digits) * Product(shape[n..])
  {
    var counts := Counts(Sel(slices));
    PaddedOffset(counts, digits);
    SelFrom(slices, n);
    CountsSplit(Sel(slices), n);
    AllOfSelects(shape[n..]);
    assert counts[..n] == SliceCounts(slices[..n]) && counts[n..] == shape[n..];
  }

  // The run of elements at the odometer's position is the next chunk of the result.
  lemma PieceIsChunk<T>(data: seq<T>, shape: seq<nat>, slices: seq<Slice>, n: nat, chunk: nat, idx: seq<int>, digits: seq<nat>)
    requires Readable(data, shape, slices, n, chunk) && |idx| == |shape|
    requires Good(SliceCounts(slices[..n]), digits) && digits[0] < SliceCounts(slices[..n])[0]
    requires Shows(idx, slices[..n], digits) && forall d :: n <= d < |idx| ==> idx[d] == 0
    ensures forall d :: 0 <= d < |idx| ==> idx[d] >= 0
    ensures SameRun(ReadSlices(data, shape, slices), Offset(SliceCounts(slices[..n]), digits) * chunk,
                    data, Offset(shape, idx), chunk)
  {
    FitsSelects(shape, slices);
    SelFrom(slices, n);
    IndexIsPosition(idx, slices[..n], digits);
    var at := Through(Sel(slices[..n]), digits);
    assert idx == at + Zeros(|shape| - n);
    ChunkAt(data, shape, Sel(slices), n, digits);
    ChunkStart(shape, slices, n, digits);
  }

  method ReadPiece<T>(odom: Dapodometer, data: seq<T>, shape: seq<nat>, ghost slices: seq<Slice>, n: nat, chunk: nat)
    returns (piece: seq<T>)
    requires Readable(data, shape, slices, n, chunk)
    requires odom.Valid() && odom.slices == slices[..n] && |shape| <= odom.index.Length
    requires odom.Visited() < Product(SliceCounts(slices[..n]))
    ensures var from := odom.Visited() * chunk;
      0 <= from <= from + chunk <= |ReadSlices(data, shape, slices)| && piece == ReadSlices(data, shape, slices)[from..from + chunk]
  {
    var idx := odom.index[..|shape|];
    VisitedAll(SliceCounts(slices[..n]), odom.digits);
    assert Shows(idx, slices[..n], odom.digits);
    PieceIsChunk(data, shape, slices, n, chunk, idx, odom.digits);
    piece := ReadN(data, Offset(shape, idx), chunk);
  }

  // One turn of a read loop: take the piece at the position, move on, ask for more.
  method ReadAndMove<T>(odom: Dapodometer, data: seq<T>, shape: seq<nat>, ghost slices: seq<Slice>, n: nat, chunk: nat, ghost done: nat)
    returns (piece: seq<T>, more: bool)
    requires Readable(data, shape, slices, n, chunk)
    requires odom.Valid() && odom.slices == slices[..n] && |shape| <= odom.index.Length
    requires odom.Visited() < Product(SliceCounts(slices[..n])) && done == odom.Visited() * chunk
    modifies odom`digits, odom.index
    ensures odom.Valid() && odom.Visited() == old(odom.Visited()) + 1 && done + chunk == odom.Visited() * chunk
    ensures more <==> odom.Visited() < Product(SliceCounts(slices[..n]))
    ensures done + chunk <= |ReadSlices(data, shape, slices)| && piece == ReadSlices(data, shape, slices)[done..done + chunk]
  {
    piece := ReadPiece(odom, data, shape, slices, n, chunk);
    NextMultiple(odom.Visited(), chunk);
    var _ := odom.Next();
    more := odom.More();
  }

  lemma ConvertedGrows<T>(s: seq<T>, a: int, b: int, convert: T -> T)
    requires 0 <= a <= b <= |s|
    ensures Converted(s[..a], convert) + Converted(s[a..b], convert) == Converted(s[..b], convert)
  {
  }

  lemma NextMultiple(k: nat, c: nat)
    ensures (k + 1) * c == k * c + c
  {
  }

  lemma ResultSize(shape: seq<nat>, slices: seq<Slice>, n: nat)
    requires Fits(shape, slices) && n <= |shape| && WholeFrom(shape, Sel(slices), n)
    ensures Product(SliceCounts(slices)) == Product(SliceCounts(slices[..n])) * Product(shape[n..])
  {
    SelFrom(slices, n);
    ChunkSizes(shape, Sel(slices), n);
  }

  /**
  Walking the first n dimensions with an odometer, and reading the rest, which is selected whole,
  in one piece at each position: together that is the whole result.
  */
  method ReadByOdometer<T>(data: seq<T>, shape: seq<nat>, slices: seq<Slice>, n: nat, chunk: nat, convert: T -> T)
    returns (out: seq<T>)
    requires Readable(data, shape, slices, n, chunk)
    ensures out == Converted(ReadSlices(data, shape, slices), convert)
  {
    ResultSize(shape, slices, n);
    ghost var total := Product(SliceCounts(slices[..n]));
    ghost var result := ReadSlices(data, shape, slices);
    ghost var done: nat := 0;
    var odom := new Dapodometer.FromSegment(slices, 0, n);
    assert slices[0..n] == slices[..n];
    out := [];
    var more := odom.More();
    while more
      invariant fresh(odom) && fresh(odom.index) && odom.Valid()
      invariant odom.slices == slices[..n] && odom.index.Length == NC_MAX_VAR_DIMS
      invariant odom.Visited() <= total && (more <==> odom.Visited() < total)
      invariant done == odom.Visited() * chunk && done <= |result|
      invariant out == Converted(result[..done], convert)
      decreases total - odom.Visited()
    {
      var piece;
      piece, more := ReadAndMove(odom, data, shape, slices, n, chunk, done);
      ConvertedGrows(result, done, done + chunk, convert);
      out := out + Converted(piece, convert);
      done := done + chunk;
    }
    assert result[..|result|] == result;
  }

  lemma ConvertedIdentity<T(!new)>(s: seq<T>, convert: T -> T)
    requires forall x :: convert(x) == x
    ensures Converted(s, convert) == s
  {
  }

  lemma WholeEverything(shape: seq<nat>, slices: seq<Slice>, n: nat)
    requires Fits(shape, slices) && Declared(shape, slices) && n <= |shape|
    requires forall d :: n <= d < |shape| ==> IsWholeSlice(slices[d])
    ensures WholeFrom(shape, Sel(slices), n) && Product(SliceCounts(slices[n..|shape|])) == Product(shape[n..])
  {
    WholeSlicesFrom(shape, slices, n);
    assert slices[n..|shape|] == slices[n..];
  }

  lemma NothingFrom(shape: seq<nat>, slices: seq<Slice>)
    requires Fits(shape, slices)
    ensures WholeFrom(shape, Sel(slices), |shape|) && Product(shape[|shape|..]) == 1
  {
    assert Sel(slices)[|shape|..] == [] && shape[|shape|..] == [];
  }

  /** Reading as many elements as are selected from the front is right when everything is selected. */
  lemma ReadAllOfIt<T>(data: seq<T>, shape: seq<nat>, slices: seq<Slice>)
    requires |data| == Product(shape) && Fits(shape, slices) && Sel(slices) == AllOf(shape)
    ensures Product(SliceCounts(slices)) == |data| && ReadSlices(data, shape, slices) == data
    ensures ReadSlices(data, shape, slices) == Front(data, shape, slices)
  {
    AllOfSelects(shape);
    ReadAll(data, shape);
    SelectedFewer(shape, slices);
  }

  lemma {:induction false} SelectedFewer(shape: seq<nat>, slices: seq<Slice>)
    requires Fits(shape, slices)
    ensures Product(SliceCounts(slices)) <= Product(shape)
  {
    if shape != [] {
      FitsParts(shape, slices);
      SelectedFewer(shape[1..], slices[1..]);
      assert SliceCounts(slices)[1..] == SliceCounts(slices[1..]);
      SelectedWithin(slices[0], shape[0]);
      MulMono(slices[0].count, shape[0], Product(SliceCounts(slices[1..])));
      MulMono(Product(SliceCounts(slices[1..])), Product(shape[1..]), shape[0]);
    }
  }

  lemma SelectedWithin(s: Slice, size: nat)
    requires Valid(s) && forall k :: 0 <= k < |Indices(s)| ==> Indices(s)[k] < size
    ensures s.count <= size
  {
    CountIsSelected(s);
    AtZero(s);
    var k := Selected(s) - 1;
    assert Indices(s)[k] == s.first + k * s.stride;
    MulMono(1, s.stride, k);
    assert s.stride * k == k * s.stride;
  }

  // The first elements of the data, as many as the slices select.
  ghost function Front<T>(data: seq<T>, shape: seq<nat>, slices: seq<Slice>): (r: seq<T>)
    requires |data| == Product(shape) && Fits(shape, slices)
  {
    SelectedFewer(shape, slices);
    data[..Product(SliceCounts(slices))]
  }

  /**
  extract: what is stored at the memory pointer (`out`), and how far the pointer moves (`advance`).

  Data of a whole variable, and data that need converting, are read through the slices.  Data that
  the server has sliced are copied from the front as they are, and on that path the pointer stays.
  */
  method ExtractData<T(!new)>(data: seq<T>, shape: seq<nat>, slices: seq<Slice>, wholevariable: bool,
                              requireconversion: bool, convert: T -> T)
    returns (out: seq<T>, advance: nat)
    requires |data| == Product(shape) && Fits(shape, slices) && |shape| <= NC_MAX_VAR_DIMS
    requires !requireconversion ==> forall x :: convert(x) == x
    requires wholevariable ==> Declared(shape, slices)
    ensures out == if shape == [] || wholevariable || requireconversion
                   then Converted(ReadSlices(data, shape, slices), convert)
                   else Front(data, shape, slices)
    ensures advance == if shape == [] || wholevariable || requireconversion then |out| else 0
  {
    var rank0 := |shape|;
    if !requireconversion {
      ConvertedIdentity(ReadSlices(data, shape, slices), convert);
    }
    NothingFrom(shape, slices);
    assert slices[0..rank0] == slices;
    if rank0 == 0 {
      assert Sel(slices) == AllOf(shape);
      ReadAllOfIt(data, shape, slices);
      out := Converted(ReadN(data, 0, 1), convert);
    } else if wholevariable {
      var safeindex := SafeIndex(slices, true, 0, rank0);
      WholeEverything(shape, slices, safeindex);
      if !requireconversion && safeindex == 0 {
        assert shape[0..] == shape && Sel(slices)[0..] == Sel(slices);
        ReadAllOfIt(data, shape, slices);
        var count := SegmentSize(slices, 0, rank0);
        out := ReadN(data, 0, count);
      } else if !requireconversion && safeindex < rank0 {
        var count := SegmentSize(slices, safeindex, rank0);
        out := ReadByOdometer(data, shape, slices, safeindex, count, convert);
      } else {
        out := ReadByOdometer(data, shape, slices, rank0, 1, convert);
      }
    } else if requireconversion {
      out := ReadByOdometer(data, shape, slices, rank0, 1, convert);
    } else {
      SelectedFewer(shape, slices);
      var count := SegmentSize(slices, 0, rank0);
      out := ReadN(data, 0, count);
      return out, 0;
    }
    advance := |out|;
  }
}
