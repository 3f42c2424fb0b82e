/**
Reading sub-arrays of row-major arrays of any rank.

`Read` selects, in each dimension, a list of positions.  `ReadAt` ties it to element offsets, so
that it is the ordinary strided read; the other lemmas say how reads combine.
*/
module RowMajor {
  import opened Arithmetic
  import opened Slices

  function Product(shape: seq<nat>): (r: nat) {
    if shape == [] then 1 else shape[0] * Product(shape[1..])
  }

  lemma {:induction false} ProductLast(shape: seq<nat>, n: nat)
    ensures Product(shape + [n]) == Product(shape) * n
  {
    if shape == [] {
      assert ([n])[1..] == [];
    } else {
      ProductLast(shape[1..], n);
      assert (shape + [n])[1..] == shape[1..] + [n];
      Associate(shape[0], Product(shape[1..]), n);
    }
  }

  // The row-major offset of an element.
  function Offset(shape: seq<nat>, at: seq<nat>): (r: nat)
    requires |at| == |shape|
  {
    if shape == [] then 0 else at[0] * Product(shape[1..]) + Offset(shape[1..], at[1..])
  }

  /** The last dimension moves fastest. */
  lemma {:induction false} LastMovesFastest(shape: seq<nat>, at: seq<nat>, n: nat, j: nat)
    requires |at| == |shape|
    ensures Offset(shape + [n], at + [j]) == Offset(shape, at) * n + j && Product(shape + [n]) == Product(shape) * n
    ensures Offset([], []) == 0 && Product([]) == 1
  {
    ProductLast(shape, n);
    if shape == [] {
      assert [n][1..] == [] && [j][1..] == [] && shape + [n] == [n] && at + [j] == [j];
    } else {
      LastMovesFastest(shape[1..], at[1..], n, j);
      assert (shape + [n])[1..] == shape[1..] + [n] && (at + [j])[1..] == at[1..] + [j];
      ProductLast(shape[1..], n);
      Distribute(at[0], Product(shape[1..]), Offset(shape[1..], at[1..]), n);
    }
  }

  lemma Distribute(a: int, p: int, b: int, n: int)
    ensures a * (p * n) + b * n == (a * p + b) * n
  {
    Associate(a, p, n);
  }

  // One list of positions per dimension, each within the dimension.
  predicate Selects(shape: seq<nat>, sel: seq<seq<nat>>) {
    |sel| == |shape| &&
    (shape != [] ==> (forall k :: 0 <= k < |sel[0]| ==> sel[0][k] < shape[0]) && Selects(shape[1..], sel[1..]))
  }

  function Counts(sel: seq<seq<nat>>): (r: seq<nat>)
    ensures |r| == |sel|
  {
    if sel == [] then [] else [|sel[0]|] + Counts(sel[1..])
  }

  // The i-th of the equal parts along the first dimension.
  function Block<T>(data: seq<T>, shape: seq<nat>, i: nat): (r: seq<T>)
    requires shape != [] && i < shape[0] && |data| == Product(shape)
    ensures |r| == Product(shape[1..])
  {
    var size := Product(shape[1..]);
    BlockFits(i, shape[0], size);
    data[i * size..(i + 1) * size]
  }

  lemma BlockFits(i: nat, n: nat, size: nat)
    requires i < n
    ensures 0 <= i * size <= (i + 1) * size <= n * size
    ensures (i + 1) * size - i * size == size
  {
    MulNonneg(i, size);
    MulMono(i + 1, n, size);
    MulMono(i, i + 1, size);
  }

  /** The selected elements, in row-major order of the selection. */
  function Read<T>(data: seq<T>, shape: seq<nat>, sel: seq<seq<nat>>): (r: seq<T>)
    requires |data| == Product(shape) && Selects(shape, sel)
    ensures |r| == Product(Counts(sel))
    decreases |shape|, 1, 0
  {
    if shape == [] then data else ReadRows(data, shape, sel, sel[0])
  }

  function ReadRows<T>(data: seq<T>, shape: seq<nat>, sel: seq<seq<nat>>, rows: seq<nat>): (r: seq<T>)
    requires shape != [] && |data| == Product(shape) && Selects(shape, sel)
    requires forall k :: 0 <= k < |rows| ==> rows[k] < shape[0]
    ensures |r| == |rows| * Product(Counts(sel[1..]))
    decreases |shape|, 0, |rows|
  {
    if rows == [] then []
    else
      assert |rows| * Product(Counts(sel[1..])) == Product(Counts(sel[1..])) + (|rows| - 1) * Product(Counts(sel[1..]));
      Read(Block(data, shape, rows[0]), shape[1..], sel[1..]) + ReadRows(data, shape, sel, rows[1..])
  }

  // ---------- Read is the strided element-by-element read ----------

  // Position at[d] of the selection, in each dimension.
  function Through(sel: seq<seq<nat>>, at: seq<nat>): (r: seq<nat>)
    requires |at| == |sel| && forall d :: 0 <= d < |sel| ==> at[d] < |sel[d]|
    ensures |r| == |sel|
  {
    if sel == [] then [] else [sel[0][at[0]]] + Through(sel[1..], at[1..])
  }

  predicate Within(at: seq<nat>, shape: seq<nat>) {
    |at| == |shape| && forall d :: 0 <= d < |shape| ==> at[d] < shape[d]
  }

  lemma {:induction false} OffsetWithin(shape: seq<nat>, at: seq<nat>)
    requires Within(at, shape)
    ensures Offset(shape, at) < Product(shape)
  {
    if shape != [] {
      assert Within(at[1..], shape[1..]);
      OffsetWithin(shape[1..], at[1..]);
      BlockFits(at[0], shape[0], Product(shape[1..]));
    }
  }

  lemma {:induction false} CountsAt(sel: seq<seq<nat>>)
    ensures forall d :: 0 <= d < |sel| ==> Counts(sel)[d] == |sel[d]|
  {
    if sel != [] {
      CountsAt(sel[1..]);
      assert forall d :: 1 <= d < |sel| ==> Counts(sel)[d] == Counts(sel[1..])[d - 1];
    }
  }

  // The k-th row of the result is the read of the k-th selected block.
  lemma {:induction false} RowAt<T>(data: seq<T>, shape: seq<nat>, sel: seq<seq<nat>>, rows: seq<nat>, k: nat)
    requires shape != [] && |data| == Product(shape) && Selects(shape, sel)
    requires forall i :: 0 <= i < |rows| ==> rows[i] < shape[0]
    requires k < |rows|
    ensures var size := Product(Counts(sel[1..]));
      && 0 <= k * size <= (k + 1) * size <= |ReadRows(data, shape, sel, rows)|
      && ReadRows(data, shape, sel, rows)[k * size..(k + 1) * size] == Read(Block(data, shape, rows[k]), shape[1..], sel[1..])
  {
    var size := Product(Counts(sel[1..]));
    BlockFits(k, |rows|, size);
    if k > 0 {
      RowAt(data, shape, sel, rows[1..], k - 1);
      var all := ReadRows(data, shape, sel, rows);
      var rest := ReadRows(data, shape, sel, rows[1..]);
      assert all[size..] == rest;
      assert k * size == size + (k - 1) * size && (k + 1) * size == size + k * size;
      assert all[k * size..(k + 1) * size] == rest[(k - 1) * size..k * size];
    }
  }

  lemma RowElement<T>(data: seq<T>, shape: seq<nat>, sel: seq<seq<nat>>, k: nat, off: nat)
    requires shape != [] && |data| == Product(shape) && Selects(shape, sel)
    requires k < |sel[0]| && off < Product(Counts(sel[1..]))
    ensures var at := k * Product(Counts(sel[1..])) + off;
      0 <= at < |Read(data, shape, sel)| &&
      Read(data, shape, sel)[at] == Read(Block(data, shape, sel[0][k]), shape[1..], sel[1..])[off]
  {
    var size := Product(Counts(sel[1..]));
    RowAt(data, shape, sel, sel[0], k);
    BlockFits(k, |sel[0]|, size);
    assert Read(data, shape, sel)[k * size..(k + 1) * size][off] == Read(data, shape, sel)[k * size + off];
  }

  lemma BlockElement<T>(data: seq<T>, shape: seq<nat>, i: nat, off: nat)
    requires shape != [] && |data| == Product(shape) && i < shape[0] && off < Product(shape[1..])
    ensures 0 <= i * Product(shape[1..]) + off < |data|
    ensures Block(data, shape, i)[off] == data[i * Product(shape[1..]) + off]
  {
    BlockFits(i, shape[0], Product(shape[1..]));
  }

  // The positions named by `at` lie within the array.
  lemma {:induction false} ThroughInside(shape: seq<nat>, sel: seq<seq<nat>>, at: seq<nat>)
    requires Selects(shape, sel) && Within(at, Counts(sel))
    ensures forall d :: 0 <= d < |sel| ==> at[d] < |sel[d]|
    ensures Offset(shape, Through(sel, at)) < Product(shape)
  {
    CountsAt(sel);
    if shape != [] {
      assert Counts(sel)[1..] == Counts(sel[1..]);
      ThroughInside(shape[1..], sel[1..], at[1..]);
      assert Through(sel, at)[1..] == Through(sel[1..], at[1..]);
      BlockFits(sel[0][at[0]], shape[0], Product(shape[1..]));
    }
  }

  /** Element `at` of the result is the element of data that the selections name. */
  lemma {:induction false} ReadAt<T>(data: seq<T>, shape: seq<nat>, sel: seq<seq<nat>>, at: seq<nat>)
    requires |data| == Product(shape) && Selects(shape, sel) && Within(at, Counts(sel))
    ensures Offset(Counts(sel), at) < |Read(data, shape, sel)|
    ensures forall d :: 0 <= d < |sel| ==> at[d] < |sel[d]|
    ensures Offset(shape, Through(sel, at)) < |data|
    ensures Read(data, shape, sel)[Offset(Counts(sel), at)] == data[Offset(shape, Through(sel, at))]
    decreases |shape|
  {
    ThroughInside(shape, sel, at);
    OffsetWithin(Counts(sel), at);
    if shape != [] {
      var i, rest := sel[0][at[0]], sel[1..];
      assert Counts(sel)[1..] == Counts(rest);
      ReadAt(Block(data, shape, i), shape[1..], rest, at[1..]);
      OffsetWithin(Counts(rest), at[1..]);
      RowElement(data, shape, sel, at[0], Offset(Counts(rest), at[1..]));
      BlockElement(data, shape, i, Offset(shape[1..], Through(rest, at[1..])));
      assert Through(sel, at)[1..] == Through(rest, at[1..]);
    }
  }

  // ---------- Reads combine ----------

  // Positions ps of the list xs.
  function PickAll(xs: seq<nat>, ps: seq<nat>): (r: seq<nat>)
    requires forall k :: 0 <= k < |ps| ==> ps[k] < |xs|
    ensures |r| == |ps| && forall k :: 0 <= k < |ps| ==> r[k] == xs[ps[k]]
  {
    seq(|ps|, k requires 0 <= k < |ps| => xs[ps[k]])
  }

  function ComposeAll(a: seq<seq<nat>>, b: seq<seq<nat>>): (r: seq<seq<nat>>)
    requires Selects(Counts(a), b)
    ensures |r| == |a|
    decreases a
  {
    if a == [] then []
    else
      assert Counts(a)[1..] == Counts(a[1..]);
      [PickAll(a[0], b[0])] + ComposeAll(a[1..], b[1..])
  }

  lemma {:induction false} ComposeAllSelects(shape: seq<nat>, a: seq<seq<nat>>, b: seq<seq<nat>>)
    requires Selects(shape, a) && Selects(Counts(a), b)
    ensures Selects(shape, ComposeAll(a, b)) && Counts(ComposeAll(a, b)) == Counts(b)
    decreases |shape|
  {
    if shape != [] {
      assert Counts(a)[1..] == Counts(a[1..]);
      ComposeAllSelects(shape[1..], a[1..], b[1..]);
      assert ComposeAll(a, b)[1..] == ComposeAll(a[1..], b[1..]);
      assert forall k :: 0 <= k < |b[0]| ==> b[0][k] < |a[0]|;
    }
  }

  // A block of what a selects is what the rest of a selects in a block of the data.
  lemma BlockOfRead<T>(data: seq<T>, shape: seq<nat>, a: seq<seq<nat>>, k: nat)
    requires shape != [] && |data| == Product(shape) && Selects(shape, a) && k < |a[0]|
    ensures Counts(a)[1..] == Counts(a[1..])
    ensures Block(Read(data, shape, a), Counts(a), k) == Read(Block(data, shape, a[0][k]), shape[1..], a[1..])
  {
    assert Counts(a)[1..] == Counts(a[1..]);
    RowAt(data, shape, a, a[0], k);
  }

  /** Reading b from what a selects is reading their composition from the original array. */
  lemma {:induction false} ReadOfRead<T>(data: seq<T>, shape: seq<nat>, a: seq<seq<nat>>, b: seq<seq<nat>>)
    requires |data| == Product(shape) && Selects(shape, a) && Selects(Counts(a), b)
    ensures Selects(shape, ComposeAll(a, b))
    ensures Read(Read(data, shape, a), Counts(a), b) == Read(data, shape, ComposeAll(a, b))
    decreases |shape|, 1, 0
  {
    ComposeAllSelects(shape, a, b);
    if shape != [] {
      RowsOfRead(data, shape, a, b, b[0]);
      assert ComposeAll(a, b)[0] == PickAll(a[0], b[0]);
    }
  }

  lemma {:induction false} RowsOfRead<T>(data: seq<T>, shape: seq<nat>, a: seq<seq<nat>>, b: seq<seq<nat>>, rows: seq<nat>)
    requires shape != [] && |data| == Product(shape) && Selects(shape, a) && Selects(Counts(a), b)
    requires forall k :: 0 <= k < |rows| ==> rows[k] < |a[0]|
    ensures Selects(shape, ComposeAll(a, b))
    ensures forall k :: 0 <= k < |rows| ==> PickAll(a[0], rows)[k] < shape[0]
    ensures ReadRows(Read(data, shape, a), Counts(a), b, rows) ==
            ReadRows(data, shape, ComposeAll(a, b), PickAll(a[0], rows))
    decreases |shape|, 0, |rows|
  {
    ComposeAllSelects(shape, a, b);
    if rows != [] {
      BlockOfRead(data, shape, a, rows[0]);
      ReadOfRead(Block(data, shape, a[0][rows[0]]), shape[1..], a[1..], b[1..]);
      RowsOfRead(data, shape, a, b, rows[1..]);
      assert ComposeAll(a, b)[1..] == ComposeAll(a[1..], b[1..]);
      assert PickAll(a[0], rows)[1..] == PickAll(a[0], rows[1..]);
    }
  }

  // All positions of every dimension.
  function AllOf(shape: seq<nat>): (r: seq<seq<nat>>)
    ensures |r| == |shape|
  {
    if shape == [] then [] else [seq(shape[0], k => k)] + AllOf(shape[1..])
  }

  lemma {:induction false} AllOfSelects(shape: seq<nat>)
    ensures Selects(shape, AllOf(shape)) && Counts(AllOf(shape)) == shape
  {
    if shape != [] {
      AllOfSelects(shape[1..]);
      assert AllOf(shape)[1..] == AllOf(shape[1..]);
    }
  }

  /** Reading everything gives the array itself. */
  lemma {:induction false} ReadAll<T>(data: seq<T>, shape: seq<nat>)
    requires |data| == Product(shape)
    ensures Selects(shape, AllOf(shape)) && Read(data, shape, AllOf(shape)) == data
    decreases |shape|, 1, 0
  {
    AllOfSelects(shape);
    if shape != [] {
      ReadLastRows(data, shape, 0);
      assert seq(shape[0], k => k)[0..] == seq(shape[0], k => k);
    }
  }

  lemma {:induction false} ReadLastRows<T>(data: seq<T>, shape: seq<nat>, from: nat)
    requires shape != [] && |data| == Product(shape) && from <= shape[0]
    ensures Selects(shape, AllOf(shape))
    ensures 0 <= from * Product(shape[1..]) <= |data|
    ensures ReadRows(data, shape, AllOf(shape), seq(shape[0], k => k)[from..]) == data[from * Product(shape[1..])..]
    decreases |shape|, 0, shape[0] - from
  {
    AllOfSelects(shape);
    var size := Product(shape[1..]);
    MulMono(from, shape[0], size);
    MulNonneg(from, size);
    if from < shape[0] {
      var rows := seq(shape[0], k => k)[from..];
      ReadLastRows(data, shape, from + 1);
      assert rows[1..] == seq(shape[0], k => k)[from + 1..];
      assert AllOf(shape)[1..] == AllOf(shape[1..]);
      ReadAll(Block(data, shape, from), shape[1..]);
      BlockFits(from, shape[0], size);
      assert data[from * size..] == data[from * size..(from + 1) * size] + data[(from + 1) * size..];
    }
  }
}
