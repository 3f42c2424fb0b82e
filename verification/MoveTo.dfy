/**
Walking from a response to the elements of one variable (libdap2/getvara.c, moveto, movetor and
movetofield, for variables inside structures and grids).

A dimensioned structure is walked with an odometer over its part of the request, and extract is run
once for each instance.  Whether the instances end up side by side depends on extract moving the
memory pointer.
*/
module MoveTo {
  import opened Arithmetic
  import opened Slices
  import opened RowMajor
  import opened Projections
  import opened Odometer
  import opened Extract
  import opened FrontReads
  import opened Selections

  // ---------- The caller's memory ----------

  // struct NCMEMORY: the cells, and where the next element goes.
  datatype Memory = Memory(cells: seq<int>, next: nat)

  // What extract does to it with one piece of output.
  function Put(m: Memory, out: seq<int>, advance: bool): (r: Memory)
    requires m.next + |out| <= |m.cells|
    ensures |r.cells| == |m.cells|
  {
    Memory(m.cells[..m.next] + out + m.cells[m.next + |out|..], if advance then m.next + |out| else m.next)
  }

  function Cat(outs: seq<seq<int>>): (r: seq<int>) {
    if outs == [] then [] else outs[0] + Cat(outs[1..])
  }

  // The pieces one after the other.
  function PutAll(m: Memory, outs: seq<seq<int>>, advance: bool): (r: Memory)
    requires m.next + |Cat(outs)| <= |m.cells|
    ensures |r.cells| == |m.cells|
    decreases |outs|
  {
    if outs == [] then m else PutAll(Put(m, outs[0], advance), outs[1..], advance)
  }

  lemma {:induction false} CatSplit(a: seq<seq<int>>, b: seq<seq<int>>)
    ensures Cat(a + b) == Cat(a) + Cat(b)
  {
    if a == [] {
      assert a + b == b;
    } else {
      CatSplit(a[1..], b);
      assert (a + b)[1..] == a[1..] + b;
      JoinThree(a[0], Cat(a[1..]), Cat(b));
    }
  }

  lemma {:induction false} PutAllSplit(m: Memory, a: seq<seq<int>>, b: seq<seq<int>>, advance: bool)
    requires m.next + |Cat(a + b)| <= |m.cells|
    ensures |Cat(a + b)| == |Cat(a)| + |Cat(b)|
    ensures PutAll(m, a, advance).next == if advance then m.next + |Cat(a)| else m.next
    ensures PutAll(m, a + b, advance) == PutAll(PutAll(m, a, advance), b, advance)
    decreases |a|
  {
    CatSplit(a, b);
    if a == [] {
      assert a + b == b;
    } else {
      var n := Put(m, a[0], advance);
      CatSplit(a[1..], b);
      assert (a + b)[1..] == a[1..] + b;
      PutAllSplit(n, a[1..], b, advance);
    }
  }

  // There is room for all the pieces, and r is what putting them leaves.
  predicate IsAll(m: Memory, outs: seq<seq<int>>, advance: bool, r: Memory) {
    m.next + |Cat(outs)| <= |m.cells| && r == PutAll(m, outs, advance)
  }

  lemma IsAllSplit(m: Memory, r: Memory, r': Memory, a: seq<seq<int>>, b: seq<seq<int>>, advance: bool)
    requires IsAll(m, a, advance, r) && m.next + |Cat(a + b)| <= |m.cells|
    ensures IsAll(r, b, advance, r') ==> IsAll(m, a + b, advance, r')
  {
    PutAllSplit(m, a, b, advance);
  }

  /** With a pointer that moves, the pieces come to lie side by side. */
  lemma {:induction false} MovingPointer(m: Memory, outs: seq<seq<int>>)
    requires m.next + |Cat(outs)| <= |m.cells|
    ensures PutAll(m, outs, true) == Put(m, Cat(outs), true)
    decreases |outs|
  {
    if outs == [] {
      assert m.cells[..m.next] + [] + m.cells[m.next..] == m.cells;
    } else {
      MovingPointer(Put(m, outs[0], true), outs[1..]);
      PutTwice(m, outs[0], Cat(outs[1..]));
    }
  }

  lemma PutTwice(m: Memory, a: seq<int>, b: seq<int>)
    requires m.next + |a| + |b| <= |m.cells|
    ensures Put(Put(m, a, true), b, true) == Put(m, a + b, true)
  {
    var n := Put(m, a, true);
    assert n.cells[..n.next] == m.cells[..m.next] + a;
    assert n.cells[n.next + |b|..] == m.cells[m.next + |a + b|..];
  }

  predicate AllOfSize(outs: seq<seq<int>>, size: nat) {
    forall i :: 0 <= i < |outs| ==> |outs[i]| == size
  }

  lemma {:induction false} CatSize(outs: seq<seq<int>>, size: nat)
    requires AllOfSize(outs, size)
    ensures |Cat(outs)| == |outs| * size
  {
    if outs != [] {
      CatSize(outs[1..], size);
      NextMultiple(|outs| - 1, size);
    }
  }

  /** With a pointer that stays, only the last piece is left. */
  lemma {:induction false} StayingPointer(m: Memory, outs: seq<seq<int>>, size: nat)
    requires outs != [] && AllOfSize(outs, size) && m.next + |Cat(outs)| <= |m.cells|
    ensures size <= |Cat(outs)|
    ensures PutAll(m, outs, false) == Put(m, outs[|outs| - 1], false)
    decreases |outs|
  {
    assert |outs[0]| == size;
    if |outs| > 1 {
      StayingPointer(Put(m, outs[0], false), outs[1..], size);
      assert outs[1..][|outs| - 2] == outs[|outs| - 1];
      PutOver(m, outs[0], outs[|outs| - 1]);
    }
  }

  lemma PutOver(m: Memory, a: seq<int>, b: seq<int>)
    requires |a| == |b| && m.next + |a| <= |m.cells|
    ensures Put(Put(m, a, false), b, false) == Put(m, b, false)
  {
    var n := Put(m, a, false);
    assert n.cells[..m.next] == m.cells[..m.next] && n.cells[m.next + |a|..] == m.cells[m.next + |a|..];
  }

  // ---------- What extract puts out for one instance ----------

  datatype Conversion = Same | Convert(f: int -> int)

  function ApplyOne(conv: Conversion, e: int): (r: int) {
    if conv.Same? then e else conv.f(e)
  }

  function Apply(conv: Conversion, s: seq<int>): (r: seq<int>)
    ensures |r| == |s| && forall k :: 0 <= k < |s| ==> r[k] == ApplyOne(conv, s[k])
  {
    if conv.Same? then s else Converted(s, conv.f)
  }

  lemma ApplySplit(conv: Conversion, a: seq<int>, b: seq<int>)
    ensures Apply(conv, a + b) == Apply(conv, a) + Apply(conv, b)
  {
  }

  // Whether extract moves the memory pointer.
  predicate Advances(rank: nat, whole: bool, conv: Conversion) {
    rank == 0 || whole || conv.Convert?
  }

  ghost function ExtractOut(block: seq<int>, shape: seq<nat>, slices: seq<Slice>, whole: bool, conv: Conversion): (r: seq<int>)
    requires |block| == Product(shape) && Projections.Fits(shape, slices)
    ensures |r| == Product(SliceCounts(slices))
  {
    SelectedFewer(shape, slices);
    if Advances(|shape|, whole, conv) then Apply(conv, ReadSlices(block, shape, slices)) else Front(block, shape, slices)
  }

  // ---------- The pieces of a walk ----------

  // A walk over an array: containers that may reach beyond it, and a field that may not.
  ghost predicate Walkable(shape: seq<nat>, slices: seq<Slice>, c: nat) {
    c <= |shape| == |slices| && AllValid(slices) && Projections.Fits(shape[c..], slices[c..])
  }

  ghost predicate ContainersFit(shape: seq<nat>, slices: seq<Slice>, c: nat)
    requires Walkable(shape, slices, c)
  {
    Projections.Fits(shape[..c], slices[..c])
  }

  // Positions of instances.
  ghost predicate Placed(ps: seq<seq<nat>>, shape: seq<nat>, c: nat) {
    AllInside(ps, shape) && forall i :: 0 <= i < |ps| ==> |ps[i]| == c
  }

  // What extract puts out for the instances at some positions, one piece for each.
  ghost function Pieces(data: seq<int>, shape: seq<nat>, fields: seq<Slice>, c: nat, ps: seq<seq<nat>>, whole: bool, conv: Conversion)
    : (r: seq<seq<int>>)
    requires |data| == Product(shape) && c <= |shape| && Projections.Fits(shape[c..], fields) && Placed(ps, shape, c)
    ensures |r| == |ps|
    ensures forall i :: 0 <= i < |ps| ==> Inside(ps[i], shape) && r[i] == ExtractOut(Sub(data, shape, ps[i]), shape[c..], fields, whole, conv)
  {
    seq(|ps|, i requires 0 <= i < |ps| => assert Inside(ps[i], shape); ExtractOut(Sub(data, shape, ps[i]), shape[c..], fields, whole, conv))
  }

  /** One piece of output for each instance, in the order of the walk. */
  ghost function Outs(data: seq<int>, shape: seq<nat>, slices: seq<Slice>, c: nat, whole: bool, conv: Conversion): (r: seq<seq<int>>)
    requires |data| == Product(shape) && Walkable(shape, slices, c) && ContainersFit(shape, slices, c)
  {
    PositionsFit(shape[..c], slices[..c], shape);
    Pieces(data, shape, slices[c..], c, Positions(Sel(slices[..c])), whole, conv)
  }

  /** There is one piece for each combination of positions in the containers, and all have the same size. */
  lemma OutsSizes(data: seq<int>, shape: seq<nat>, slices: seq<Slice>, c: nat, whole: bool, conv: Conversion)
    requires |data| == Product(shape) && Walkable(shape, slices, c) && ContainersFit(shape, slices, c)
    ensures var outs, n, size := Outs(data, shape, slices, c, whole, conv), Product(SliceCounts(slices[..c])), Product(SliceCounts(slices[c..]));
      && |outs| == n > 0 && size > 0
      && AllOfSize(outs, size)
      && |Cat(outs)| == n * size == Product(SliceCounts(slices))
  {
    var outs, size := Outs(data, shape, slices, c, whole, conv), Product(SliceCounts(slices[c..]));
    FirstInstances(slices[..c]);
    CountsPositive(slices[..c]);
    CountsPositive(slices[c..]);
    PositionsFit(shape[..c], slices[..c], shape);
    CatSize(outs, size);
    CountsJoin(slices, c);
    ProductSplit(SliceCounts(slices), c);
  }

  // Each piece is what its field's slices read: extract reads through them, or the front is the same.
  predicate PiecesRead(shape: seq<nat>, slices: seq<Slice>, whole: bool, conv: Conversion)
    requires |shape| == |slices| && AllValid(slices)
  {
    Advances(|shape|, whole, conv) || Leading(shape, slices)
  }

  lemma PieceIsRead(block: seq<int>, shape: seq<nat>, slices: seq<Slice>, whole: bool, conv: Conversion)
    requires |block| == Product(shape) && Projections.Fits(shape, slices) && PiecesRead(shape, slices, whole, conv)
    ensures ExtractOut(block, shape, slices, whole, conv) == Apply(conv, ReadSlices(block, shape, slices))
  {
    if !Advances(|shape|, whole, conv) {
      LeadingReads(block, shape, slices);
    }
  }

  lemma {:induction false} CatOfPieces(data: seq<int>, shape: seq<nat>, fields: seq<Slice>, c: nat, ps: seq<seq<nat>>, whole: bool, conv: Conversion)
    requires |data| == Product(shape) && c <= |shape| && Projections.Fits(shape[c..], fields) && Placed(ps, shape, c)
    requires PiecesRead(shape[c..], fields, whole, conv) && Selects(shape[c..], Sel(fields))
    ensures Cat(Pieces(data, shape, fields, c, ps, whole, conv)) == Apply(conv, CatReads(data, shape, ps, Sel(fields), c))
    decreases |ps|
  {
    if ps != [] {
      assert Inside(ps[0], shape);
      var all, rest := Pieces(data, shape, fields, c, ps, whole, conv), Pieces(data, shape, fields, c, ps[1..], whole, conv);
      assert all[1..] == rest;
      PieceIsRead(Sub(data, shape, ps[0]), shape[c..], fields, whole, conv);
      CatOfPieces(data, shape, fields, c, ps[1..], whole, conv);
      ApplySplit(conv, ReadSlices(Sub(data, shape, ps[0]), shape[c..], fields), CatReads(data, shape, ps[1..], Sel(fields), c));
    }
  }

  /** Side by side, the pieces are what the slices select. */
  lemma CatOfOuts(data: seq<int>, shape: seq<nat>, slices: seq<Slice>, c: nat, whole: bool, conv: Conversion)
    requires |data| == Product(shape) && Walkable(shape, slices, c) && ContainersFit(shape, slices, c)
    requires PiecesRead(shape[c..], slices[c..], whole, conv)
    ensures Projections.Fits(shape, slices)
    ensures Cat(Outs(data, shape, slices, c, whole, conv)) == Apply(conv, ReadSlices(data, shape, slices))
  {
    FitsSplit(shape, slices, c);
    PositionsFit(shape[..c], slices[..c], shape);
    SegmentReads(data, shape, slices, c);
    CatOfPieces(data, shape, slices[c..], c, Positions(Sel(slices[..c])), whole, conv);
  }

  // The index of the last instance.
  ghost function LastInstance(slices: seq<Slice>, c: nat): (at: seq<nat>)
    requires AllValid(slices) && c <= |slices|
  {
    ValidTail(slices, c);
    NoneEmpty(slices[..c]);
    LastOf(Sel(slices[..c]))
  }

  lemma LastIsInside(shape: seq<nat>, slices: seq<Slice>, c: nat)
    requires Walkable(shape, slices, c) && ContainersFit(shape, slices, c)
    ensures AllValid(slices[..c]) && Placed(Positions(Sel(slices[..c])), shape, c) && Positions(Sel(slices[..c])) != []
    ensures var ps := Positions(Sel(slices[..c])); ps[|ps| - 1] == LastInstance(slices, c)
    ensures |LastInstance(slices, c)| == c && Inside(LastInstance(slices, c), shape)
  {
    NoneEmpty(slices[..c]);
    PositionsLast(Sel(slices[..c]));
    PositionsFit(shape[..c], slices[..c], shape);
  }

  /** The last piece comes from the last instance. */
  lemma LastPiece(data: seq<int>, shape: seq<nat>, slices: seq<Slice>, c: nat, whole: bool, conv: Conversion, at: seq<nat>, outs: seq<seq<int>>)
    requires |data| == Product(shape) && Walkable(shape, slices, c) && ContainersFit(shape, slices, c) && at == LastInstance(slices, c)
    requires outs == Outs(data, shape, slices, c, whole, conv)
    ensures outs != [] && |at| == c && Inside(at, shape)
    ensures outs[|outs| - 1] == ExtractOut(Sub(data, shape, at), shape[c..], slices[c..], whole, conv)
  {
    LastIsInside(shape, slices, c);
    var ps := Positions(Sel(slices[..c]));
    OutsAre(data, shape, slices, c, whole, conv, ps);
    LastOfPieces(data, shape, slices[c..], c, ps, whole, conv, at, outs);
  }

  lemma OutsAre(data: seq<int>, shape: seq<nat>, slices: seq<Slice>, c: nat, whole: bool, conv: Conversion, ps: seq<seq<nat>>)
    requires |data| == Product(shape) && Walkable(shape, slices, c) && ContainersFit(shape, slices, c)
    requires AllValid(slices[..c]) && ps == Positions(Sel(slices[..c])) && Placed(ps, shape, c)
    ensures Outs(data, shape, slices, c, whole, conv) == Pieces(data, shape, slices[c..], c, ps, whole, conv)
  {
  }

  lemma LastOfPieces(data: seq<int>, shape: seq<nat>, fields: seq<Slice>, c: nat, ps: seq<seq<nat>>, whole: bool, conv: Conversion,
                     at: seq<nat>, outs: seq<seq<int>>)
    requires |data| == Product(shape) && c <= |shape| && Projections.Fits(shape[c..], fields) && Placed(ps, shape, c) && ps != []
    requires at == ps[|ps| - 1] && outs == Pieces(data, shape, fields, c, ps, whole, conv)
    ensures outs != [] && |at| == c && Inside(at, shape)
    ensures outs[|outs| - 1] == ExtractOut(Sub(data, shape, at), shape[c..], fields, whole, conv)
  {
  }

  // ---------- Instances within instances ----------

  lemma PiecesSplit(data: seq<int>, shape: seq<nat>, fields: seq<Slice>, c: nat, a: seq<seq<nat>>, b: seq<seq<nat>>, whole: bool, conv: Conversion)
    requires |data| == Product(shape) && c <= |shape| && Projections.Fits(shape[c..], fields) && Placed(a, shape, c) && Placed(b, shape, c)
    ensures Placed(a + b, shape, c)
    ensures Pieces(data, shape, fields, c, a + b, whole, conv) ==
            Pieces(data, shape, fields, c, a, whole, conv) + Pieces(data, shape, fields, c, b, whole, conv)
  {
    InsideBoth(a, b, shape);
  }

  // The instances inside one instance are instances of the whole.
  lemma PiecesInside(data: seq<int>, shape: seq<nat>, fields: seq<Slice>, c: nat, p: seq<nat>, qs: seq<seq<nat>>, whole: bool, conv: Conversion)
    requires |data| == Product(shape) && |p| <= c <= |shape| && Inside(p, shape) && Placed(qs, shape[|p|..], c - |p|)
    requires Projections.Fits(shape[c..], fields)
    ensures Placed(Shifted(p, qs), shape, c) && shape[|p|..][c - |p|..] == shape[c..]
    ensures Pieces(Sub(data, shape, p), shape[|p|..], fields, c - |p|, qs, whole, conv) ==
            Pieces(data, shape, fields, c, Shifted(p, qs), whole, conv)
  {
    Parts(shape, |p|, c);
    forall i | 0 <= i < |qs|
      ensures Inside(p + qs[i], shape)
      ensures Inside(qs[i], shape[|p|..]) && Sub(Sub(data, shape, p), shape[|p|..], qs[i]) == Sub(data, shape, p + qs[i])
    {
      assert Inside(qs[i], shape[|p|..]);
      SubOfSub(data, shape, p, qs[i]);
    }
  }

  // The containers after the first segment, at any instance of it.
  ghost function Inner(slices: seq<Slice>, r: nat, c: nat): (qs: seq<seq<nat>>)
    requires AllValid(slices) && r <= c <= |slices|
  {
    ValidTail(slices, r);
    Positions(Sel(slices[r..][..c - r]))
  }

  lemma InnerFits(shape: seq<nat>, slices: seq<Slice>, r: nat, c: nat)
    requires Walkable(shape, slices, c) && r <= c
    ensures Walkable(shape[r..], slices[r..], c - r)
    ensures ContainersFit(shape, slices, c) <==>
      Projections.Fits(shape[..r], slices[..r]) && ContainersFit(shape[r..], slices[r..], c - r)
    ensures ContainersFit(shape[r..], slices[r..], c - r) ==> Placed(Inner(slices, r, c), shape[r..], c - r)
  {
    Parts(shape, r, c);
    Parts(slices, r, c);
    FitsSplit(shape[..c], slices[..c], r);
    ValidTail(slices, r);
    PositionsFit(shape[r..][..c - r], slices[r..][..c - r], shape[r..]);
  }

  lemma {:induction false} CrossPlaced(ps: seq<seq<nat>>, qs: seq<seq<nat>>, shape: seq<nat>, r: nat, c: nat)
    requires r <= c <= |shape| && Placed(ps, shape, r) && Placed(qs, shape[r..], c - r)
    ensures Placed(Cross(ps, qs), shape, c) && |Cross(ps, qs)| == |ps| * |qs|
  {
    if ps != [] {
      CrossPlaced(ps[1..], qs, shape, r, c);
      ShiftedPlaced(ps[0], qs, shape, c);
      InsideBoth(Shifted(ps[0], qs), Cross(ps[1..], qs), shape);
      OneMore(|ps| - 1, |qs|);
    }
  }

  lemma OneMore(k: nat, n: nat)
    ensures n + k * n == (k + 1) * n
  {
  }

  lemma ShiftedPlaced(p: seq<nat>, qs: seq<seq<nat>>, shape: seq<nat>, c: nat)
    requires |p| <= c <= |shape| && Inside(p, shape) && Placed(qs, shape[|p|..], c - |p|)
    ensures Placed(Shifted(p, qs), shape, c)
  {
    forall i | 0 <= i < |qs|
      ensures Inside(p + qs[i], shape)
    {
      assert Inside(qs[i], shape[|p|..]);
    }
  }

  // The instances of the first segment at positions ps, each with all that is inside it.
  ghost predicate Placeable(shape: seq<nat>, slices: seq<Slice>, r: nat, c: nat, ps: seq<seq<nat>>) {
    && Walkable(shape, slices, c) && r <= c && Placed(ps, shape, r)
    && Placed(Inner(slices, r, c), shape[r..], c - r)
  }

  ghost function PiecesOf(data: seq<int>, shape: seq<nat>, slices: seq<Slice>, r: nat, c: nat, ps: seq<seq<nat>>,
                          whole: bool, conv: Conversion): (outs: seq<seq<int>>)
    requires |data| == Product(shape) && Placeable(shape, slices, r, c, ps)
  {
    CrossPlaced(ps, Inner(slices, r, c), shape, r, c);
    Pieces(data, shape, slices[c..], c, Cross(ps, Inner(slices, r, c)), whole, conv)
  }

  // How much they put out.
  lemma PiecesOfSize(data: seq<int>, shape: seq<nat>, slices: seq<Slice>, r: nat, c: nat, ps: seq<seq<nat>>, whole: bool, conv: Conversion)
    requires |data| == Product(shape) && Placeable(shape, slices, r, c, ps)
    ensures AllValid(slices[r..])
    ensures |Cat(PiecesOf(data, shape, slices, r, c, ps, whole, conv))| == |ps| * Product(SliceCounts(slices[r..]))
  {
    var qs, size := Inner(slices, r, c), Product(SliceCounts(slices[c..]));
    var outs := PiecesOf(data, shape, slices, r, c, ps, whole, conv);
    CrossPlaced(ps, qs, shape, r, c);
    assert |outs| == |ps| * |qs| && AllOfSize(outs, size);
    CatSize(outs, size);
    InstanceSize(slices, r, c, |qs|, size);
    Associate(|ps|, |qs|, size);
  }

  // What one instance of the first segment puts out.
  lemma InstanceSize(slices: seq<Slice>, r: nat, c: nat, inner: nat, size: nat)
    requires AllValid(slices) && r <= c <= |slices| && inner == |Inner(slices, r, c)|
    requires AllValid(slices[c..]) && size == Product(SliceCounts(slices[c..]))
    ensures AllValid(slices[r..]) && inner * size == Product(SliceCounts(slices[r..]))
  {
    ValidTail(slices, r);
    InnerSize(slices[r..], c - r);
    Parts(slices, r, c);
  }

  lemma InnerSize(slices: seq<Slice>, c: nat)
    requires AllValid(slices) && c <= |slices|
    ensures |Positions(Sel(slices[..c]))| * Product(SliceCounts(slices[c..])) == Product(SliceCounts(slices))
  {
    FirstInstances(slices[..c]);
    CountsJoin(slices, c);
    ProductSplit(SliceCounts(slices), c);
  }

  lemma PiecesOfNext(data: seq<int>, shape: seq<nat>, slices: seq<Slice>, r: nat, c: nat, ps: seq<seq<nat>>, p: seq<nat>,
                     whole: bool, conv: Conversion)
    requires |data| == Product(shape) && Placeable(shape, slices, r, c, ps + [p]) && Inside(p, shape) && |p| == r
    requires Placeable(shape, slices, r, c, ps)
    ensures Walkable(shape[r..], slices[r..], c - r) && ContainersFit(shape[r..], slices[r..], c - r)
    ensures PiecesOf(data, shape, slices, r, c, ps + [p], whole, conv) ==
            PiecesOf(data, shape, slices, r, c, ps, whole, conv) + Outs(Sub(data, shape, p), shape[r..], slices[r..], c - r, whole, conv)
  {
    var qs := Inner(slices, r, c);
    InnerFits(shape, slices, r, c);
    ValidTail(slices, r);
    PositionsFit(shape[r..][..c - r], slices[r..][..c - r], shape[r..]);
    CrossPlaced(ps, qs, shape, r, c);
    CrossSplit(ps, [p], qs);
    assert [p][1..] == [] && Cross([p], qs) == Shifted(p, qs) + [];
    assert Shifted(p, qs) + [] == Shifted(p, qs);
    ShiftedPlaced(p, qs, shape, c);
    Parts(slices, r, c);
    PiecesInside(data, shape, slices[c..], c, p, qs, whole, conv);
    PiecesSplit(data, shape, slices[c..], c, Cross(ps, qs), Shifted(p, qs), whole, conv);
  }

  lemma SelJoin(slices: seq<Slice>, r: nat, c: nat)
    requires AllValid(slices) && r <= c <= |slices|
    ensures AllValid(slices[..c]) && AllValid(slices[..r]) && AllValid(slices[r..]) && AllValid(slices[r..][..c - r])
    ensures Sel(slices[..c]) == Sel(slices[..r]) + Sel(slices[r..][..c - r])
  {
    ValidTail(slices, r);
    ValidTail(slices, c);
    ValidTail(slices[r..], c - r);
    Parts(slices, r, c);
    SelFrom(slices[..c], r);
  }

  // The first segment's positions, each with all that is inside it, are the positions of the walk.
  lemma AllPlaceable(shape: seq<nat>, slices: seq<Slice>, r: nat, c: nat)
    requires Walkable(shape, slices, c) && ContainersFit(shape, slices, c) && r <= c
    ensures AllValid(slices[..r]) && AllValid(slices[..c])
    ensures Placeable(shape, slices, r, c, Positions(Sel(slices[..r])))
    ensures Cross(Positions(Sel(slices[..r])), Inner(slices, r, c)) == Positions(Sel(slices[..c]))
  {
    SelJoin(slices, r, c);
    InnerFits(shape, slices, r, c);
    PositionsFit(shape[..r], slices[..r], shape);
    PositionsCross(Sel(slices[..r]), Sel(slices[r..][..c - r]));
  }

  // All of them are the pieces of the walk.
  lemma PiecesOfAll(data: seq<int>, shape: seq<nat>, slices: seq<Slice>, r: nat, c: nat, whole: bool, conv: Conversion)
    requires |data| == Product(shape) && Walkable(shape, slices, c) && ContainersFit(shape, slices, c) && r <= c
    ensures AllValid(slices[..r]) && Placeable(shape, slices, r, c, Positions(Sel(slices[..r])))
    ensures PiecesOf(data, shape, slices, r, c, Positions(Sel(slices[..r])), whole, conv) == Outs(data, shape, slices, c, whole, conv)
  {
    AllPlaceable(shape, slices, r, c);
  }

  // ---------- movetor ----------

  function Sum(ranks: seq<nat>): (r: nat) {
    if ranks == [] then 0 else ranks[0] + Sum(ranks[1..])
  }

  // The dimensions of the containers: those of all segments but the last.
  function ContainerRank(ranks: seq<nat>): (r: nat)
    requires ranks != []
    ensures r == Sum(ranks) - ranks[|ranks| - 1]
  {
    if |ranks| == 1 then 0 else ranks[0] + ContainerRank(ranks[1..])
  }

  // Whole variables are walked with slices that declare at least the sizes of the field.
  ghost predicate Ready(shape: seq<nat>, slices: seq<Slice>, c: nat, whole: bool) {
    Walkable(shape, slices, c) && (whole ==> Declared(shape[c..], slices[c..]))
  }

  // What movetor is called with: the content, and the segments that are left.
  ghost predicate Walks(data: seq<int>, shape: seq<nat>, slices: seq<Slice>, ranks: seq<nat>, whole: bool, m: Memory) {
    && ranks != [] && Sum(ranks) == |shape| <= NC_MAX_VAR_DIMS && |data| == Product(shape)
    && Ready(shape, slices, ContainerRank(ranks), whole)
    && m.next + Product(SliceCounts(slices)) <= |m.cells|
  }

  // What it leaves: all pieces put into memory, unless an instance is missing.
  ghost predicate Moved(data: seq<int>, shape: seq<nat>, slices: seq<Slice>, c: nat, whole: bool, conv: Conversion,
                        m: Memory, ok: bool, r: Memory)
  {
    && |data| == Product(shape) && Walkable(shape, slices, c)
    && |r.cells| == |m.cells| && m.next <= r.next <= m.next + Product(SliceCounts(slices))
    && (ok <==> ContainersFit(shape, slices, c))
    && (ok ==>
      IsAll(m, Outs(data, shape, slices, c, whole, conv), Advances(|shape| - c, whole, conv), r))
  }

  // extract, with the identity in place of a conversion that is not required.
  method ExtractPiece(data: seq<int>, shape: seq<nat>, slices: seq<Slice>, whole: bool, conv: Conversion)
    returns (out: seq<int>, advance: nat)
    requires |data| == Product(shape) && Projections.Fits(shape, slices) && |shape| <= NC_MAX_VAR_DIMS
    requires whole ==> Declared(shape, slices)
    ensures out == ExtractOut(data, shape, slices, whole, conv)
    ensures advance == if Advances(|shape|, whole, conv) then |out| else 0
  {
    out, advance := ExtractData(data, shape, slices, whole, conv.Convert?, Converter(conv));
    ConverterApplies(conv, ReadSlices(data, shape, slices));
  }

  // An atomic variable, or a field of one instance.
  method MoveLeaf(data: seq<int>, shape: seq<nat>, slices: seq<Slice>, ranks: seq<nat>, whole: bool, conv: Conversion, m: Memory)
    returns (r: Memory)
    requires Walks(data, shape, slices, ranks, whole, m) && |ranks| == 1
    ensures Moved(data, shape, slices, ContainerRank(ranks), whole, conv, m, true, r)
  {
    LeafFits(shape, slices, whole);
    var out, advance := ExtractPiece(data, shape, slices, whole, conv);
    r := Memory(m.cells[..m.next] + out + m.cells[m.next + |out|..], m.next + advance);
    LeafMoved(data, shape, slices, whole, conv, m, out, r);
  }

  lemma LeafMoved(data: seq<int>, shape: seq<nat>, slices: seq<Slice>, whole: bool, conv: Conversion, m: Memory, out: seq<int>, r: Memory)
    requires |data| == Product(shape) && Walkable(shape, slices, 0) && Projections.Fits(shape, slices)
    requires out == ExtractOut(data, shape, slices, whole, conv) && m.next + |out| <= |m.cells|
    requires r == Put(m, out, Advances(|shape|, whole, conv))
    ensures Moved(data, shape, slices, 0, whole, conv, m, true, r)
  {
    LeafOuts(data, shape, slices, whole, conv, out);
    OnePiece(m, out, Advances(|shape|, whole, conv));
  }

  lemma OnePiece(m: Memory, out: seq<int>, advance: bool)
    requires m.next + |out| <= |m.cells|
    ensures Cat([out]) == out && IsAll(m, [out], advance, Put(m, out, advance))
  {
    assert out + [] == out;
  }

  lemma LeafFits(shape: seq<nat>, slices: seq<Slice>, whole: bool)
    requires Ready(shape, slices, 0, whole)
    ensures Projections.Fits(shape, slices) && (whole ==> Declared(shape, slices))
  {
    assert shape[0..] == shape && slices[0..] == slices;
  }

  // extract is given the identity when no conversion is required.
  function Converter(conv: Conversion): (f: int -> int)
    ensures conv.Same? ==> forall x :: f(x) == x
  {
    if conv.Convert? then conv.f else x => x
  }

  lemma ConverterApplies(conv: Conversion, s: seq<int>)
    ensures Converted(s, Converter(conv)) == Apply(conv, s)
  {
  }

  lemma LeafOuts(data: seq<int>, shape: seq<nat>, slices: seq<Slice>, whole: bool, conv: Conversion, out: seq<int>)
    requires |data| == Product(shape) && Walkable(shape, slices, 0) && Projections.Fits(shape, slices)
    requires out == ExtractOut(data, shape, slices, whole, conv)
    ensures ContainersFit(shape, slices, 0) && Outs(data, shape, slices, 0, whole, conv) == [out]
    ensures |out| == Product(SliceCounts(slices))
  {
    assert shape[0..] == shape && slices[0..] == slices && slices[..0] == [];
    assert Positions(Sel(slices[..0])) == [[]];
    assert Outs(data, shape, slices, 0, whole, conv)[0] == out;
  }

  /** oc_data_ithelement: the instance at an index, unless the index is beyond the array. */
  method InstanceAt(data: seq<int>, shape: seq<nat>, index: seq<nat>) returns (inside: bool, instance: seq<int>)
    requires |data| == Product(shape) && |index| <= |shape|
    ensures inside <==> Inside(index, shape)
    ensures inside ==> instance == Sub(data, shape, index)
  {
    var d := 0;
    while d < |index|
      invariant 0 <= d <= |index| && Inside(index[..d], shape)
    {
      if index[d] >= shape[d] {
        return false, [];
      }
      d := d + 1;
    }
    assert index[..d] == index;
    return true, Sub(data, shape, index);
  }

  // The index of the odometer is the next position of its slices.
  method PositionOf(odom: Dapodometer) returns (index: seq<nat>)
    requires odom.Valid() && odom.Visited() < Product(SliceCounts(odom.slices))
    ensures odom.Visited() < |Positions(Sel(odom.slices))|
    ensures |index| == odom.rank && index == Positions(Sel(odom.slices))[odom.Visited()]
  {
    VisitedAll(SliceCounts(odom.slices), odom.digits);
    var idx := odom.index[..];
    assert Shows(idx, odom.slices, odom.digits);
    IndexIsPosition(idx, odom.slices, odom.digits);
    PositionAt(Sel(odom.slices), odom.digits);
    index := idx[..odom.rank];
  }

  // The instances at the positions ps have been put into memory, if nothing inside them is missing.
  ghost predicate PutAt(data: seq<int>, shape: seq<nat>, slices: seq<Slice>, r0: nat, inner: nat, c: nat, whole: bool, conv: Conversion,
                      m: Memory, ps: seq<seq<nat>>, r: Memory)
    requires |data| == Product(shape) && Walkable(shape, slices, c) && c == r0 + inner && Placed(ps, shape, r0)
    requires Walkable(shape[r0..], slices[r0..], inner)
  {
    ContainersFit(shape[r0..], slices[r0..], inner) ==>
      && Placeable(shape, slices, r0, c, ps)
      && IsAll(m, PiecesOf(data, shape, slices, r0, c, ps, whole, conv), Advances(|shape| - c, whole, conv), r)
  }

  // How far the walk over a dimensioned structure has come after k of its instances.
  ghost predicate Underway(data: seq<int>, shape: seq<nat>, slices: seq<Slice>, r0: nat, inner: nat, c: nat, whole: bool, conv: Conversion,
                           m: Memory, k: nat, ok: bool, r: Memory)
  {
    && |data| == Product(shape) && Walkable(shape, slices, c) && c == r0 + inner
    && Walkable(shape[r0..], slices[r0..], inner)
    && |r.cells| == |m.cells| && m.next <= r.next <= m.next + k * Product(SliceCounts(slices[r0..]))
    && (ok <==> k == 0 || ContainersFit(shape[r0..], slices[r0..], inner))
    && AllValid(slices[..r0]) && k <= |Positions(Sel(slices[..r0]))|
    && var ps := Positions(Sel(slices[..r0]))[..k];
      Placed(ps, shape, r0) && PutAt(data, shape, slices, r0, inner, c, whole, conv, m, ps, r)
  }

  lemma NotStarted(data: seq<int>, shape: seq<nat>, slices: seq<Slice>, r0: nat, inner: nat, c: nat, whole: bool, conv: Conversion, m: Memory)
    requires |data| == Product(shape) && Walkable(shape, slices, c) && c == r0 + inner && m.next <= |m.cells|
    ensures Underway(data, shape, slices, r0, inner, c, whole, conv, m, 0, true, m)
  {
    assert inner == c - r0;
    InnerFits(shape, slices, r0, c);
    ValidTail(slices, r0);
    var ps := Positions(Sel(slices[..r0]))[..0];
    assert ps == [];
    if ContainersFit(shape[r0..], slices[r0..], inner) {
      assert Cross(ps, Inner(slices, r0, c)) == [];
    }
  }

  lemma OneMorePlaceable(shape: seq<nat>, slices: seq<Slice>, r0: nat, c: nat, ps: seq<seq<nat>>, p: seq<nat>)
    requires Placeable(shape, slices, r0, c, ps) && Inside(p, shape) && |p| == r0
    ensures Placeable(shape, slices, r0, c, ps + [p])
  {
    InsideBoth(ps, [p], shape);
  }

  lemma OneMorePut(data: seq<int>, shape: seq<nat>, slices: seq<Slice>, r0: nat, inner: nat, c: nat, whole: bool, conv: Conversion,
                   ps: seq<seq<nat>>, p: seq<nat>, a: seq<seq<int>>, b: seq<seq<int>>)
    requires |data| == Product(shape) && Placeable(shape, slices, r0, c, ps) && Inside(p, shape) && |p| == r0 && c == r0 + inner
    requires Walkable(shape[r0..], slices[r0..], inner) && ContainersFit(shape[r0..], slices[r0..], inner)
    requires a == PiecesOf(data, shape, slices, r0, c, ps, whole, conv)
    requires b == Outs(Sub(data, shape, p), shape[r0..], slices[r0..], inner, whole, conv)
    ensures Placeable(shape, slices, r0, c, ps + [p])
    ensures a + b == PiecesOf(data, shape, slices, r0, c, ps + [p], whole, conv)
    ensures |Cat(a + b)| == (|ps| + 1) * Product(SliceCounts(slices[r0..]))
  {
    assert inner == c - r0;
    OneMorePlaceable(shape, slices, r0, c, ps, p);
    PiecesOfNext(data, shape, slices, r0, c, ps, p, whole, conv);
    PiecesOfSize(data, shape, slices, r0, c, ps + [p], whole, conv);
  }

  lemma PutOneMore(data: seq<int>, shape: seq<nat>, slices: seq<Slice>, r0: nat, inner: nat, c: nat, whole: bool, conv: Conversion,
                   m: Memory, ps: seq<seq<nat>>, r: Memory, p: seq<nat>, ok: bool, r': Memory)
    requires |data| == Product(shape) && Walkable(shape, slices, c) && c == r0 + inner && Placed(ps, shape, r0) && Placed(ps + [p], shape, r0)
    requires Walkable(shape[r0..], slices[r0..], inner) && |p| == r0 && Inside(p, shape)
    requires PutAt(data, shape, slices, r0, inner, c, whole, conv, m, ps, r)
    requires Moved(Sub(data, shape, p), shape[r0..], slices[r0..], inner, whole, conv, r, ok, r')
    requires m.next + (|ps| + 1) * Product(SliceCounts(slices[r0..])) <= |m.cells|
    ensures PutAt(data, shape, slices, r0, inner, c, whole, conv, m, ps + [p], r')
  {
    if ContainersFit(shape[r0..], slices[r0..], inner) {
      var a, b := PiecesOf(data, shape, slices, r0, c, ps, whole, conv),
                  Outs(Sub(data, shape, p), shape[r0..], slices[r0..], inner, whole, conv);
      OneMorePut(data, shape, slices, r0, inner, c, whole, conv, ps, p, a, b);
      IsAllSplit(m, r, r', a, b, Advances(|shape| - c, whole, conv));
    }
  }

  lemma PlacedNext(all: seq<seq<nat>>, shape: seq<nat>, r0: nat, k: nat)
    requires k < |all| && Placed(all[..k], shape, r0) && |all[k]| == r0 && Inside(all[k], shape)
    ensures all[..k + 1] == all[..k] + [all[k]] && Placed(all[..k + 1], shape, r0)
  {
    InsideBoth(all[..k], [all[k]], shape);
  }

  lemma OneFurther(data: seq<int>, shape: seq<nat>, slices: seq<Slice>, r0: nat, inner: nat, c: nat, whole: bool, conv: Conversion,
                   m: Memory, k: nat, ok: bool, r: Memory, ok': bool, r': Memory, p: seq<nat>)
    requires Underway(data, shape, slices, r0, inner, c, whole, conv, m, k, ok, r)
    requires k < |Positions(Sel(slices[..r0]))| && p == Positions(Sel(slices[..r0]))[k] && |p| == r0 && Inside(p, shape)
    requires Moved(Sub(data, shape, p), shape[r0..], slices[r0..], inner, whole, conv, r, ok', r')
    requires m.next + (k + 1) * Product(SliceCounts(slices[r0..])) <= |m.cells|
    ensures Underway(data, shape, slices, r0, inner, c, whole, conv, m, k + 1, ok', r')
  {
    var all := Positions(Sel(slices[..r0]));
    PlacedNext(all, shape, r0, k);
    NextMultiple(k, Product(SliceCounts(slices[r0..])));
    PutOneMore(data, shape, slices, r0, inner, c, whole, conv, m, all[..k], r, p, ok', r');
  }

  lemma AllInstances(shape: seq<nat>, slices: seq<Slice>, r0: nat, inner: nat, c: nat)
    requires Walkable(shape, slices, c) && c == r0 + inner
    requires AllValid(slices[..r0]) && Placed(Positions(Sel(slices[..r0])), shape, r0)
    ensures Walkable(shape[r0..], slices[r0..], inner) && Positions(Sel(slices[..r0])) != []
    ensures ContainersFit(shape, slices, c) <==> ContainersFit(shape[r0..], slices[r0..], inner)
  {
    assert inner == c - r0;
    InnerFits(shape, slices, r0, c);
    PositionsFit(shape[..r0], slices[..r0], shape);
  }

  lemma AllMoved(data: seq<int>, shape: seq<nat>, slices: seq<Slice>, r0: nat, inner: nat, c: nat, whole: bool, conv: Conversion,
                 m: Memory, k: nat, ok: bool, r: Memory)
    requires Underway(data, shape, slices, r0, inner, c, whole, conv, m, k, ok, r)
    requires k == |Positions(Sel(slices[..r0]))|
    ensures Moved(data, shape, slices, c, whole, conv, m, ok, r)
  {
    var all := Positions(Sel(slices[..r0]));
    assert all[..k] == all;
    AllInstances(shape, slices, r0, inner, c);
    InnerSize(slices, r0);
    if ok {
      PiecesOfAll(data, shape, slices, r0, c, whole, conv);
    }
  }

  // What has been moved when an instance is missing.
  lemma StoppedShort(data: seq<int>, shape: seq<nat>, slices: seq<Slice>, r0: nat, inner: nat, c: nat, whole: bool, conv: Conversion,
                     m: Memory, k: nat, ok: bool, r: Memory)
    requires Underway(data, shape, slices, r0, inner, c, whole, conv, m, k, ok, r) && !ContainersFit(shape, slices, c)
    ensures Moved(data, shape, slices, c, whole, conv, m, false, r)
  {
    InnerSize(slices, r0);
    RoomFor(k, |Positions(Sel(slices[..r0]))|, Product(SliceCounts(slices[r0..])));
  }

  lemma InstanceMissing(shape: seq<nat>, slices: seq<Slice>, r0: nat, c: nat, p: seq<nat>)
    requires Walkable(shape, slices, c) && r0 <= c && AllValid(slices[..r0])
    requires p in Positions(Sel(slices[..r0])) && !Inside(p, shape)
    ensures !ContainersFit(shape, slices, c)
  {
    InnerFits(shape, slices, r0, c);
    PositionsFit(shape[..r0], slices[..r0], shape);
  }

  lemma InnerReady(shape: seq<nat>, slices: seq<Slice>, r: nat, c: nat, inner: nat, whole: bool)
    requires Ready(shape, slices, c, whole) && c == r + inner
    ensures Ready(shape[r..], slices[r..], inner, whole)
  {
    InnerFits(shape, slices, r, c);
    Parts(shape, r, c);
    Parts(slices, r, c);
  }

  // k of n instances, each with room for the given size, fit where n do.
  lemma RoomFor(k: nat, n: nat, size: nat)
    requires k <= n
    ensures k * size <= n * size
  {
    MulMono(k, n, size);
  }

  // There is room for one more instance.
  lemma NextRoom(slices: seq<Slice>, r0: nat, room: nat, k: nat)
    requires AllValid(slices) && r0 <= |slices| && AllValid(slices[..r0]) && AllValid(slices[r0..])
    requires Product(SliceCounts(slices)) <= room && k < |Positions(Sel(slices[..r0]))|
    ensures (k + 1) * Product(SliceCounts(slices[r0..])) <= room
    ensures k * Product(SliceCounts(slices[r0..])) + Product(SliceCounts(slices[r0..])) <= room
  {
    var size := Product(SliceCounts(slices[r0..]));
    InnerSize(slices, r0);
    RoomFor(k + 1, |Positions(Sel(slices[..r0]))|, size);
    NextMultiple(k, size);
  }

  // What is in an instance can be walked.
  lemma InnerWalks(data: seq<int>, shape: seq<nat>, slices: seq<Slice>, ranks: seq<nat>, whole: bool, p: seq<nat>, r: Memory)
    requires |ranks| > 1 && Sum(ranks) == |shape| <= NC_MAX_VAR_DIMS && |data| == Product(shape)
    requires Ready(shape, slices, ContainerRank(ranks), whole) && Inside(p, shape) && |p| == ranks[0]
    requires AllValid(slices[ranks[0]..]) && r.next + Product(SliceCounts(slices[ranks[0]..])) <= |r.cells|
    ensures Walks(Sub(data, shape, p), shape[ranks[0]..], slices[ranks[0]..], ranks[1..], whole, r)
    ensures ContainerRank(ranks) - ranks[0] == ContainerRank(ranks[1..])
  {
    InnerReady(shape, slices, ranks[0], ContainerRank(ranks), ContainerRank(ranks[1..]), whole);
  }

  // Find the instance at the odometer's index, and move what is in it.
  method MoveInstance(data: seq<int>, shape: seq<nat>, slices: seq<Slice>, ranks: seq<nat>, whole: bool, conv: Conversion,
                      index: seq<nat>, ghost m: Memory, ghost k: nat, ghost ok: bool, r: Memory)
    returns (inside: bool, ok': bool, r': Memory)
    requires Walks(data, shape, slices, ranks, whole, m) && |ranks| > 1 && |index| == ranks[0]
    requires Underway(data, shape, slices, ranks[0], ContainerRank(ranks[1..]), ContainerRank(ranks), whole, conv, m, k, ok, r)
    requires k < |Positions(Sel(slices[..ranks[0]]))| && index == Positions(Sel(slices[..ranks[0]]))[k]
    ensures inside ==> Underway(data, shape, slices, ranks[0], ContainerRank(ranks[1..]), ContainerRank(ranks), whole, conv, m, k + 1, ok', r')
    ensures !inside ==> Moved(data, shape, slices, ContainerRank(ranks), whole, conv, m, ok', r')
    decreases |ranks|, 0
  {
    ghost var c := ContainerRank(ranks);
    var instance;
    inside, instance := InstanceAt(data, shape, index);
    if !inside {
      InstanceMissing(shape, slices, ranks[0], c, index);
      StoppedShort(data, shape, slices, ranks[0], ContainerRank(ranks[1..]), c, whole, conv, m, k, ok, r);
      return false, false, r;
    }
    NextRoom(slices, ranks[0], |m.cells| - m.next, k);
    InnerWalks(data, shape, slices, ranks, whole, index, r);
    ok', r' := Movetor(instance, shape[ranks[0]..], slices[ranks[0]..], ranks[1..], whole, conv, r);
    OneFurther(data, shape, slices, ranks[0], ContainerRank(ranks[1..]), c, whole, conv, m, k, ok, r, ok', r', index);
  }

  // dapodom_next and dapodom_more.
  method Onward(odom: Dapodometer) returns (more: bool)
    requires odom.Valid() && odom.Visited() < Product(SliceCounts(odom.slices))
    modifies odom`digits, odom.index
    ensures odom.Valid() && odom.Visited() == old(odom.Visited()) + 1
    ensures more <==> odom.Visited() < Product(SliceCounts(odom.slices))
    ensures !more ==> odom.Visited() == |Positions(Sel(odom.slices))|
  {
    var _ := odom.Next();
    more := odom.More();
    FirstInstances(odom.slices);
  }

  // The k-th turn of the loop over instances.
  method TurnAt(data: seq<int>, shape: seq<nat>, slices: seq<Slice>, ranks: seq<nat>, whole: bool, conv: Conversion,
                odom: Dapodometer, ghost m: Memory, ghost k: nat, ghost ok: bool, r: Memory)
    returns (more: bool, ok': bool, r': Memory)
    requires Walks(data, shape, slices, ranks, whole, m) && |ranks| > 1
    requires odom.Valid() && odom.slices == slices[..ranks[0]] && k == odom.Visited() < Product(SliceCounts(odom.slices))
    requires Underway(data, shape, slices, ranks[0], ContainerRank(ranks[1..]), ContainerRank(ranks), whole, conv, m, k, ok, r)
    modifies odom`digits, odom.index
    ensures more ==> odom.Valid() && odom.Visited() == k + 1 < Product(SliceCounts(odom.slices))
    ensures more ==> Underway(data, shape, slices, ranks[0], ContainerRank(ranks[1..]), ContainerRank(ranks), whole, conv, m, k + 1, ok', r')
    ensures !more ==> Moved(data, shape, slices, ContainerRank(ranks), whole, conv, m, ok', r')
    decreases |ranks|, 1
  {
    var index := PositionOf(odom);
    more, ok', r' := MoveInstance(data, shape, slices, ranks, whole, conv, index, m, k, ok, r);
    if more {
      more := Onward(odom);
      if !more {
        AllMoved(data, shape, slices, ranks[0], ContainerRank(ranks[1..]), ContainerRank(ranks), whole, conv, m, k + 1, ok', r');
      }
    }
  }

  // Instances are left, and those before the odometer's position have been moved.
  ghost predicate OnTheWay(odom: Dapodometer, data: seq<int>, shape: seq<nat>, slices: seq<Slice>, ranks: seq<nat>, whole: bool,
                           conv: Conversion, m: Memory, ok: bool, r: Memory)
    requires |ranks| > 1
    reads odom`digits, odom.index
  {
    && odom.Valid() && ranks[0] <= |slices| && odom.slices == slices[..ranks[0]]
    && odom.Visited() < Product(SliceCounts(odom.slices))
    && Underway(data, shape, slices, ranks[0], ContainerRank(ranks[1..]), ContainerRank(ranks), whole, conv, m, odom.Visited(), ok, r)
  }

  // One turn of the loop over instances.
  method Turn(data: seq<int>, shape: seq<nat>, slices: seq<Slice>, ranks: seq<nat>, whole: bool, conv: Conversion,
              odom: Dapodometer, ghost m: Memory, ghost ok: bool, r: Memory)
    returns (more: bool, ok': bool, r': Memory)
    requires Walks(data, shape, slices, ranks, whole, m) && |ranks| > 1
    requires OnTheWay(odom, data, shape, slices, ranks, whole, conv, m, ok, r)
    modifies odom`digits, odom.index
    ensures more ==> OnTheWay(odom, data, shape, slices, ranks, whole, conv, m, ok', r') && odom.Visited() == old(odom.Visited()) + 1
    ensures !more ==> Moved(data, shape, slices, ContainerRank(ranks), whole, conv, m, ok', r')
    decreases |ranks|, 2
  {
    more, ok', r' := TurnAt(data, shape, slices, ranks, whole, conv, odom, m, odom.Visited(), ok, r);
  }

  // An odometer at the first instance.
  method FirstInstance(data: seq<int>, shape: seq<nat>, slices: seq<Slice>, ranks: seq<nat>, whole: bool, ghost conv: Conversion, ghost m: Memory)
    returns (odom: Dapodometer)
    requires Walks(data, shape, slices, ranks, whole, m) && |ranks| > 1 && ranks[0] > 0
    ensures fresh(odom) && fresh(odom.index) && OnTheWay(odom, data, shape, slices, ranks, whole, conv, m, true, m)
  {
    odom := new Dapodometer.FromSegment(slices, 0, ranks[0]);
    assert slices[0..ranks[0]] == slices[..ranks[0]];
    NotStarted(data, shape, slices, ranks[0], ContainerRank(ranks[1..]), ContainerRank(ranks), whole, conv, m);
    CountsPositive(slices[..ranks[0]]);
  }

  // The loop over the instances of a dimensioned structure.
  method MoveInstances(data: seq<int>, shape: seq<nat>, slices: seq<Slice>, ranks: seq<nat>, whole: bool, conv: Conversion, m: Memory)
    returns (ok: bool, r: Memory)
    requires Walks(data, shape, slices, ranks, whole, m) && |ranks| > 1 && ranks[0] > 0
    ensures Moved(data, shape, slices, ContainerRank(ranks), whole, conv, m, ok, r)
    decreases |ranks|, 3
  {
    var odom := FirstInstance(data, shape, slices, ranks, whole, conv, m);
    ok, r := true, m;
    var more := odom.More();
    while more
      invariant fresh(odom) && fresh(odom.index)
      invariant more ==> OnTheWay(odom, data, shape, slices, ranks, whole, conv, m, ok, r)
      invariant !more ==> Moved(data, shape, slices, ContainerRank(ranks), whole, conv, m, ok, r)
      decreases more, if more then Product(SliceCounts(odom.slices)) - odom.Visited() else 0
    {
      more, ok, r := Turn(data, shape, slices, ranks, whole, conv, odom, m, ok, r);
    }
  }

  /**
  movetor: from the content at one segment of the path down to the variable.  A dimensioned structure
  is walked instance by instance; a scalar one is passed through by movetofield.
  */
  method Movetor(data: seq<int>, shape: seq<nat>, slices: seq<Slice>, ranks: seq<nat>, whole: bool, conv: Conversion, m: Memory)
    returns (ok: bool, r: Memory)
    requires Walks(data, shape, slices, ranks, whole, m)
    ensures Moved(data, shape, slices, ContainerRank(ranks), whole, conv, m, ok, r)
    decreases |ranks|, 4
  {
    if |ranks| == 1 {
      ok := true;
      r := MoveLeaf(data, shape, slices, ranks, whole, conv, m);
    } else if ranks[0] == 0 {
      assert ContainerRank(ranks) == ContainerRank(ranks[1..]);
      ok, r := Movetor(data, shape, slices, ranks[1..], whole, conv, m);
    } else {
      ok, r := MoveInstances(data, shape, slices, ranks, whole, conv, m);
    }
  }

  // ---------- When the walk is right ----------

  /** What the walk leaves in memory that held `before`. */
  ghost function Walked(data: seq<int>, shape: seq<nat>, slices: seq<Slice>, c: nat, whole: bool, conv: Conversion, before: seq<int>)
    : (r: seq<int>)
    requires |data| == Product(shape) && Walkable(shape, slices, c) && ContainersFit(shape, slices, c)
    requires |before| == Product(SliceCounts(slices))
    ensures |r| == |before|
  {
    OutsSizes(data, shape, slices, c, whole, conv);
    PutAll(Memory(before, 0), Outs(data, shape, slices, c, whole, conv), Advances(|shape| - c, whole, conv)).cells
  }

  // The number of instances that the walk visits.
  ghost function Instances(slices: seq<Slice>, c: nat): (r: nat)
    requires AllValid(slices) && c <= |slices|
  {
    ValidTail(slices, c);
    Product(SliceCounts(slices[..c]))
  }

  // The pointer moves, or there is one instance and it is copied from the front.
  ghost predicate WalksRight(shape: seq<nat>, slices: seq<Slice>, c: nat, whole: bool, conv: Conversion)
    requires Walkable(shape, slices, c)
  {
    Advances(|shape| - c, whole, conv) || (Instances(slices, c) == 1 && Leading(shape[c..], slices[c..]))
  }

  lemma LastStays(before: seq<int>, outs: seq<seq<int>>, size: nat, last: seq<int>)
    requires outs != [] && AllOfSize(outs, size) && |Cat(outs)| <= |before| && last == outs[|outs| - 1]
    ensures |last| == size <= |before| && PutAll(Memory(before, 0), outs, false).cells == last + before[size..]
  {
    assert |last| == size;
    StayingPointer(Memory(before, 0), outs, size);
    PutFirst(before, last);
  }

  lemma PutFirst(before: seq<int>, out: seq<int>)
    requires |out| <= |before|
    ensures Put(Memory(before, 0), out, false).cells == out + before[|out|..]
  {
  }

  lemma FrontOut(block: seq<int>, shape: seq<nat>, slices: seq<Slice>, whole: bool, conv: Conversion)
    requires |block| == Product(shape) && Projections.Fits(shape, slices) && !Advances(|shape|, whole, conv)
    ensures ExtractOut(block, shape, slices, whole, conv) == Front(block, shape, slices)
  {
  }

  /** Without a moving pointer the last instance lies at the start, and the rest of memory is as it was. */
  lemma WalkedLast(data: seq<int>, shape: seq<nat>, slices: seq<Slice>, c: nat, whole: bool, conv: Conversion, before: seq<int>)
    requires |data| == Product(shape) && Walkable(shape, slices, c) && ContainersFit(shape, slices, c)
    requires |before| == Product(SliceCounts(slices)) && !Advances(|shape| - c, whole, conv)
    ensures var at, chunk := LastInstance(slices, c), Product(SliceCounts(slices[c..]));
      && |at| == c && Inside(at, shape) && |before| == Instances(slices, c) * chunk && 0 < chunk <= |before|
      && Walked(data, shape, slices, c, whole, conv, before) == Front(Sub(data, shape, at), shape[c..], slices[c..]) + before[chunk..]
  {
    var outs, at := Outs(data, shape, slices, c, whole, conv), LastInstance(slices, c);
    assert |shape[c..]| == |shape| - c;
    OutsSizes(data, shape, slices, c, whole, conv);
    LastPiece(data, shape, slices, c, whole, conv, at, outs);
    FrontOut(Sub(data, shape, at), shape[c..], slices[c..], whole, conv);
    LastStays(before, outs, Product(SliceCounts(slices[c..])), Front(Sub(data, shape, at), shape[c..], slices[c..]));
  }

  lemma WalkedSideBySide(data: seq<int>, shape: seq<nat>, slices: seq<Slice>, c: nat, whole: bool, conv: Conversion, before: seq<int>)
    requires |data| == Product(shape) && Walkable(shape, slices, c) && ContainersFit(shape, slices, c)
    requires |before| == Product(SliceCounts(slices)) && Advances(|shape| - c, whole, conv)
    ensures Projections.Fits(shape, slices)
    ensures Walked(data, shape, slices, c, whole, conv, before) == Apply(conv, ReadSlices(data, shape, slices))
  {
    var outs := Outs(data, shape, slices, c, whole, conv);
    OutsSizes(data, shape, slices, c, whole, conv);
    CatOfOuts(data, shape, slices, c, whole, conv);
    MovingPointer(Memory(before, 0), outs);
    PutAllOver(before, Cat(outs));
  }

  lemma PutAllOver(before: seq<int>, out: seq<int>)
    requires |out| == |before|
    ensures Put(Memory(before, 0), out, true).cells == out
  {
  }

  // With one instance, what is read is read from it.
  lemma OneInstance(data: seq<int>, shape: seq<nat>, slices: seq<Slice>, c: nat)
    requires |data| == Product(shape) && Walkable(shape, slices, c) && ContainersFit(shape, slices, c) && Instances(slices, c) == 1
    ensures Projections.Fits(shape, slices)
    ensures |LastInstance(slices, c)| == c && Inside(LastInstance(slices, c), shape)
    ensures ReadSlices(data, shape, slices) == ReadSlices(Sub(data, shape, LastInstance(slices, c)), shape[c..], slices[c..])
  {
    FitsSplit(shape, slices, c);
    SegmentReads(data, shape, slices, c);
    var ps := Positions(Sel(slices[..c]));
    FirstInstances(slices[..c]);
    NoneEmpty(slices[..c]);
    PositionsLast(Sel(slices[..c]));
    assert ps[0] == LastInstance(slices, c) && ps[1..] == [] && Inside(ps[0], shape);
    var read := ReadSlices(Sub(data, shape, ps[0]), shape[c..], slices[c..]);
    assert read + [] == read;
  }

  /** The cases in which the walk leaves what is wanted. */
  lemma WalkedRight(data: seq<int>, shape: seq<nat>, slices: seq<Slice>, c: nat, whole: bool, conv: Conversion, before: seq<int>)
    requires |data| == Product(shape) && Walkable(shape, slices, c) && ContainersFit(shape, slices, c)
    requires |before| == Product(SliceCounts(slices)) && WalksRight(shape, slices, c, whole, conv)
    ensures Projections.Fits(shape, slices)
    ensures Walked(data, shape, slices, c, whole, conv, before) == Apply(conv, ReadSlices(data, shape, slices))
  {
    if Advances(|shape| - c, whole, conv) {
      WalkedSideBySide(data, shape, slices, c, whole, conv, before);
    } else {
      WalkedLast(data, shape, slices, c, whole, conv, before);
      OneInstance(data, shape, slices, c);
      LeadingReads(Sub(data, shape, LastInstance(slices, c)), shape[c..], slices[c..]);
      assert before[|before|..] == [];
    }
  }

  // Data with a given block at an index.
  function Holding(shape: seq<nat>, at: seq<nat>, block: seq<int>): (data: seq<int>)
    requires Inside(at, shape) && |block| == Product(shape[|at|..])
    ensures |data| == Product(shape)
    decreases |at|
  {
    if at == [] then
      assert shape[0..] == shape;
      block
    else
      assert shape[1..][|at[1..]|..] == shape[|at|..];
      var size := Product(shape[1..]);
      BlockFits(at[0], shape[0], size);
      Zeros(at[0] * size) + Holding(shape[1..], at[1..], block) + Zeros(shape[0] * size - (at[0] + 1) * size)
  }

  lemma {:induction false} HoldingHolds(shape: seq<nat>, at: seq<nat>, block: seq<int>)
    requires Inside(at, shape) && |block| == Product(shape[|at|..])
    ensures Sub(Holding(shape, at, block), shape, at) == block
    decreases |at|
  {
    if at != [] {
      assert shape[1..][|at[1..]|..] == shape[|at|..];
      HoldingHolds(shape[1..], at[1..], block);
      var size := Product(shape[1..]);
      BlockFits(at[0], shape[0], size);
      NextMultiple(at[0], size);
      assert Block(Holding(shape, at, block), shape, at[0]) == Holding(shape[1..], at[1..], block);
    }
  }

  // Several instances and a pointer that stays: whatever the data, what memory held shows through.
  lemma ShowsThrough(data: seq<int>, shape: seq<nat>, slices: seq<Slice>, c: nat, whole: bool, conv: Conversion) returns (before: seq<int>)
    requires |data| == Product(shape) && Walkable(shape, slices, c) && ContainersFit(shape, slices, c)
    requires !Advances(|shape| - c, whole, conv) && Instances(slices, c) != 1
    ensures Projections.Fits(shape, slices) && |before| == Product(SliceCounts(slices))
    ensures Walked(data, shape, slices, c, whole, conv, before) != ReadSlices(data, shape, slices)
  {
    FitsSplit(shape, slices, c);
    var wanted, total := ReadSlices(data, shape, slices), Product(SliceCounts(slices));
    var chunk := Product(SliceCounts(slices[c..]));
    before := seq(total, i requires 0 <= i < total => wanted[i] + 1);
    WalkedLast(data, shape, slices, c, whole, conv, before);
    CountsPositive(slices[..c]);
    MulMono(2, Instances(slices, c), chunk);
    var left := Walked(data, shape, slices, c, whole, conv, before);
    assert left[chunk] == before[chunk] == wanted[chunk] + 1;
  }

  // One instance of which the front is not what is wanted.
  lemma FrontIsWrong(shape: seq<nat>, slices: seq<Slice>, c: nat, whole: bool, conv: Conversion) returns (data: seq<int>, before: seq<int>)
    requires Walkable(shape, slices, c) && ContainersFit(shape, slices, c)
    requires !Advances(|shape| - c, whole, conv) && Instances(slices, c) == 1 && !Leading(shape[c..], slices[c..])
    ensures Projections.Fits(shape, slices) && |data| == Product(shape) && |before| == Product(SliceCounts(slices))
    ensures Walked(data, shape, slices, c, whole, conv, before) != ReadSlices(data, shape, slices)
  {
    FrontIsReadIff(shape[c..], slices[c..]);
    var block: seq<int> :|
      |block| == Product(shape[c..]) && Front(block, shape[c..], slices[c..]) != ReadSlices(block, shape[c..], slices[c..]);
    var at := LastInstance(slices, c);
    LastIsInside(shape, slices, c);
    data, before := Holding(shape, at, block), Zeros(Product(SliceCounts(slices)));
    HoldingHolds(shape, at, block);
    OneInstance(data, shape, slices, c);
    WalkedLast(data, shape, slices, c, whole, conv, before);
    assert before[|before|..] == [];
  }

  /**
  Over all data, and all that memory may hold before, the walk leaves what the slices select exactly
  when the pointer moves, or one instance is visited and its front is what is selected in it.
  */
  lemma WalkIff(shape: seq<nat>, slices: seq<Slice>, c: nat, whole: bool, conv: Conversion)
    requires Walkable(shape, slices, c) && ContainersFit(shape, slices, c)
    ensures Projections.Fits(shape, slices)
    ensures (forall data: seq<int>, before: seq<int> :: |data| == Product(shape) && |before| == Product(SliceCounts(slices)) ==>
              Walked(data, shape, slices, c, whole, conv, before) == Apply(conv, ReadSlices(data, shape, slices)))
            <==> WalksRight(shape, slices, c, whole, conv)
  {
    FitsSplit(shape, slices, c);
    if WalksRight(shape, slices, c, whole, conv) {
      forall data: seq<int>, before: seq<int> | |data| == Product(shape) && |before| == Product(SliceCounts(slices))
        ensures Walked(data, shape, slices, c, whole, conv, before) == Apply(conv, ReadSlices(data, shape, slices))
      {
        WalkedRight(data, shape, slices, c, whole, conv, before);
      }
    } else if Instances(slices, c) == 1 {
      var data, before := FrontIsWrong(shape, slices, c, whole, conv);
    } else {
      var data := Zeros(Product(shape));
      var before := ShowsThrough(data, shape, slices, c, whole, conv);
    }
  }

  /** moveto: from the root of a response into the caller's memory. */
  method Moveto(data: seq<int>, shape: seq<nat>, slices: seq<Slice>, ranks: seq<nat>, whole: bool, conv: Conversion, memory: seq<int>)
    returns (ok: bool, r: seq<int>)
    requires Walks(data, shape, slices, ranks, whole, Memory(memory, 0)) && |memory| == Product(SliceCounts(slices))
    ensures ok <==> ContainersFit(shape, slices, ContainerRank(ranks))
    ensures ok ==> r == Walked(data, shape, slices, ContainerRank(ranks), whole, conv, memory)
  {
    var m;
    ok, m := Movetor(data, shape, slices, ranks, whole, conv, Memory(memory, 0));
    r := m.cells;
  }
}
