/**
Which stray grid fields restruct can find.

restructr looks for a stray node among the fields of each grid of the pattern, but stops at the
number of siblings of the grid instead of the number of its fields (libdap2/cdf.c:529).
`Walk(d, p, true)` is the code; `Walk(d, p, false)` looks at every field, as the comment in front
of restruct asks.  Every tree that fits is accepted exactly when each field of each grid is reached:
it has a matching namesake beside the grid, or matches a field that some grid there has within the
bound.  No grid having more fields than siblings is enough for that.
*/
module RestructReach {
  import opened CdfTree
  import opened Wrappers
  import opened Restruct

  // No grid in p has more fields than there are nodes at its level.
  predicate Wide(p: Forest, siblings: nat) {
    p.Cons? ==>
      && (p.node.nctype == Grid ==> |Tops(p.kids)| <= siblings)
      && Wide(p.kids, |Tops(p.kids)|)
      && Wide(p.rest, siblings)
  }

  lemma {:induction false} LargerBound(n: CDFnode, fields: Forest, b: nat, c: nat)
    requires b <= c
    ensures FieldIn(n, fields, b).Some? ==> FieldIn(n, fields, b) == FieldIn(n, fields, c)
    ensures |Tops(fields)| <= b ==> FieldIn(n, fields, b) == FieldIn(n, fields, c)
  {
    if fields.Cons? && b > 0 {
      LargerBound(n, fields.rest, b - 1, c - 1);
    }
  }

  lemma {:induction false} WideParts(n: CDFnode, p: Forest, siblings: nat)
    requires Wide(p, siblings)
    ensures var m := FindByName(p, n.ocname); m.Cons? ==> Wide(m.kids, |Tops(m.kids)|)
    ensures FindGrid(n, p, siblings, true) == FindGrid(n, p, siblings, false)
    ensures var g := FindGrid(n, p, siblings, true);
      g.Cons? ==> FieldIn(n, g.kids, siblings) == FieldIn(n, g.kids, |Tops(g.kids)|)
  {
    if p.Cons? {
      WideParts(n, p.rest, siblings);
      if p.node.nctype == Grid {
        LargerBound(n, p.kids, |Tops(p.kids)|, siblings);
      }
    }
  }

  /** On a wide pattern the bound makes no difference. */
  lemma {:induction false} WideIsEnough(d: Forest, p: Forest)
    requires Wide(p, |Tops(p)|)
    ensures Walk(d, p, true) == Walk(d, p, false)
    decreases d
  {
    if d.Cons? {
      WideIsEnough(d.rest, p);
      WideParts(d.node, p, |Tops(p)|);
      if DirectMatch(d.node, p) {
        WideIsEnough(d.kids, FindByName(p, d.node.ocname).kids);
      }
    }
  }

  lemma {:induction false} CodedGridIsFound(n: CDFnode, p: Forest, siblings: nat)
    ensures FindGrid(n, p, siblings, true).Cons? ==> FindGrid(n, p, siblings, false).Cons?
  {
    if p.Cons? {
      CodedGridIsFound(n, p.rest, siblings);
      if p.node.nctype == Grid && FieldIn(n, p.kids, siblings).Some? {
        if siblings <= |Tops(p.kids)| {
          LargerBound(n, p.kids, siblings, |Tops(p.kids)|);
        } else {
          LargerBound(n, p.kids, |Tops(p.kids)|, siblings);
        }
      }
    }
  }

  /** The bound never makes restruct accept more. */
  lemma {:induction false} CodedAcceptsLess(d: Forest, p: Forest)
    requires Walk(d, p, true).Some?
    ensures Walk(d, p, false).Some?
    decreases d
  {
    if d.Cons? {
      CodedAcceptsLess(d.rest, p);
      CodedGridIsFound(d.node, p, |Tops(p)|);
      if DirectMatch(d.node, p) {
        CodedAcceptsLess(d.kids, FindByName(p, d.node.ocname).kids);
      }
    }
  }

  // ---------- What is reached ----------

  // A node like n is accepted beside the nodes of `level`.
  predicate Reached(n: CDFnode, level: Forest) {
    DirectMatch(n, level) || FindGrid(n, level, |Tops(level)|, true).Cons?
  }

  // Every field of every grid is reached from the level of the grid, on every level the walk can
  // come to.  `level` holds all siblings, p the ones still to look at.
  ghost predicate AllReached(p: Forest, level: Forest) {
    p.Cons? ==>
      && (p.node.nctype == Grid ==> forall f :: f in Tops(p.kids) ==> Reached(f, level))
      && (FindByName(level, p.node.ocname) == p ==> AllReached(p.kids, p.kids))
      && AllReached(p.rest, level)
  }

  // The search does not tell matching nodes apart.
  lemma {:induction false} SameField(a: CDFnode, b: CDFnode, fields: Forest, bound: nat)
    requires Match(a, b)
    ensures FieldIn(a, fields, bound) == FieldIn(b, fields, bound)
  {
    if fields.Cons? && bound > 0 {
      SameField(a, b, fields.rest, bound - 1);
    }
  }

  lemma {:induction false} SameGrid(a: CDFnode, b: CDFnode, p: Forest, siblings: nat, asCoded: bool)
    requires Match(a, b)
    ensures FindGrid(a, p, siblings, asCoded) == FindGrid(b, p, siblings, asCoded)
  {
    if p.Cons? {
      SameField(a, b, p.kids, SearchBound(asCoded, siblings, p));
      SameGrid(a, b, p.rest, siblings, asCoded);
    }
  }

  lemma {:induction false} FieldIsTop(n: CDFnode, fields: Forest, bound: nat)
    requires FieldIn(n, fields, bound).Some?
    ensures FieldIn(n, fields, bound).value in Tops(fields) && Match(n, FieldIn(n, fields, bound).value)
  {
    if !Match(n, fields.node) {
      FieldIsTop(n, fields.rest, bound - 1);
    }
  }

  lemma {:induction false} TopIsField(f: CDFnode, fields: Forest)
    requires f in Tops(fields)
    ensures FieldIn(f, fields, |Tops(fields)|).Some?
  {
    if f != fields.node {
      TopIsField(f, fields.rest);
    }
  }

  lemma {:induction false} GridFieldReached(n: CDFnode, p: Forest, level: Forest, siblings: nat)
    requires AllReached(p, level) && FindGrid(n, p, siblings, false).Cons?
    ensures Reached(n, level)
  {
    if FindGrid(n, p, siblings, false) == p {
      FieldIsTop(n, p.kids, |Tops(p.kids)|);
      var f := FieldIn(n, p.kids, |Tops(p.kids)|).value;
      SameGrid(n, f, level, |Tops(level)|, true);
    } else {
      GridFieldReached(n, p.rest, level, siblings);
    }
  }

  lemma {:induction false} NamesakeReached(name: string, p: Forest, level: Forest)
    requires AllReached(p, level) && FindByName(p, name) == FindByName(level, name) && FindByName(p, name).Cons?
    ensures var m := FindByName(p, name); AllReached(m.kids, m.kids)
  {
    if p.node.ocname != name {
      NamesakeReached(name, p.rest, level);
    }
  }

  lemma {:induction false} ReachedIsEnough(d: Forest, p: Forest)
    requires AllReached(p, p) && Walk(d, p, false).Some?
    ensures Walk(d, p, true).Some?
    decreases d
  {
    if d.Cons? {
      ReachedIsEnough(d.rest, p);
      if DirectMatch(d.node, p) {
        NamesakeReached(d.node.ocname, p, p);
        ReachedIsEnough(d.kids, FindByName(p, d.node.ocname).kids);
      } else {
        GridFieldReached(d.node, p, p, |Tops(p)|);
      }
    }
  }

  // ---------- What is not reached is refused ----------

  // The same shape, with a matching node in each place.
  predicate Alike(d: Forest, e: Forest) {
    && d.Cons? == e.Cons?
    && (d.Cons? ==> Match(d.node, e.node) && Alike(d.kids, e.kids) && Alike(d.rest, e.rest))
  }

  lemma {:induction false} AlikeTreesFare(d: Forest, e: Forest, p: Forest, asCoded: bool)
    requires Alike(d, e)
    ensures Walk(d, p, asCoded).Some? == Walk(e, p, asCoded).Some?
    decreases d
  {
    if d.Cons? {
      AlikeTreesFare(d.rest, e.rest, p, asCoded);
      SameGrid(d.node, e.node, p, |Tops(p)|, asCoded);
      if DirectMatch(d.node, p) {
        AlikeTreesFare(d.kids, e.kids, FindByName(p, d.node.ocname).kids, asCoded);
      }
    }
  }

  predicate IsPart(q: Forest, p: Forest) {
    q == p || (p.Cons? && IsPart(q, p.rest))
  }

  lemma {:induction false} RestIsPart(q: Forest, p: Forest)
    requires IsPart(q, p) && q.Cons?
    ensures IsPart(q.rest, p)
  {
    if q != p {
      RestIsPart(q, p.rest);
    } else {
      assert IsPart(q.rest, p.rest);
    }
  }

  lemma {:induction false} SomeGridWithout(n: CDFnode, p: Forest, q: Forest, siblings: nat)
    requires IsPart(q, p) && q.Cons? && q.node.nctype == Grid && FieldIn(n, q.kids, |Tops(q.kids)|).Some?
    ensures FindGrid(n, p, siblings, false).Cons?
  {
    if q != p {
      SomeGridWithout(n, p.rest, q, siblings);
    }
  }

  /**
  If some field is not reached, there is a tree that fits and is refused: the field alone, below the
  nodes on the way to it.  Any tree of matching nodes fares alike, so none of them need be a node of
  the pattern.
  */
  lemma {:induction false} UnreachedIsRefused(p: Forest, level: Forest) returns (d: Forest)
    requires IsPart(p, level) && !AllReached(p, level)
    ensures forall e: Forest :: Alike(e, d) ==> Walk(e, level, false).Some? && Walk(e, level, true).None?
    ensures Alike(d, d)
    decreases p
  {
    if p.node.nctype == Grid && exists f :: f in Tops(p.kids) && !Reached(f, level) {
      var f :| f in Tops(p.kids) && !Reached(f, level);
      d := Cons(f, Nil, Nil);
      TopIsField(f, p.kids);
      SomeGridWithout(f, level, p, |Tops(level)|);
      assert Walk(d.rest, level, false).Some?;
    } else if FindByName(level, p.node.ocname) == p && !AllReached(p.kids, p.kids) {
      var below := UnreachedIsRefused(p.kids, p.kids);
      d := Cons(p.node, below, Nil);
      assert Walk(d.rest, level, false).Some?;
      assert Walk(d.kids, p.kids, false).Some? && Walk(d.kids, p.kids, true).None?;
    } else {
      RestIsPart(p, level);
      d := UnreachedIsRefused(p.rest, level);
      return;
    }
    forall e: Forest | Alike(e, d)
      ensures Walk(e, level, false).Some? && Walk(e, level, true).None?
    {
      AlikeTreesFare(e, d, level, false);
      AlikeTreesFare(e, d, level, true);
    }
  }

  /** restruct accepts every tree that fits exactly when every field of every grid is reached. */
  lemma AcceptsAllThatFitIff(p: Forest)
    ensures (forall d: Forest :: Walk(d, p, false).Some? ==> Walk(d, p, true).Some?) <==> AllReached(p, p)
  {
    if AllReached(p, p) {
      forall d: Forest | Walk(d, p, false).Some?
        ensures Walk(d, p, true).Some?
      {
        ReachedIsEnough(d, p);
      }
    } else {
      var d := UnreachedIsRefused(p, p);
      assert Alike(d, d) && !(Walk(d, p, false).Some? ==> Walk(d, p, true).Some?);
    }
  }

  /** A wide pattern reaches every field. */
  lemma WideReachesAll(p: Forest)
    requires Wide(p, |Tops(p)|)
    ensures AllReached(p, p)
  {
    forall d: Forest
      ensures Walk(d, p, true) == Walk(d, p, false)
    {
      WideIsEnough(d, p);
    }
    AcceptsAllThatFitIff(p);
  }

  /** A dataset whose only member is a grid: the grid's first map, returned alone, is not found. */
  lemma LoneMapIsRefused(grid: CDFnode, arr: CDFnode, axis: CDFnode, n: CDFnode)
    requires grid.nctype == Grid && arr.nctype == Atomic && axis.nctype == Atomic
    requires arr.ocname != axis.ocname && grid.ocname != axis.ocname && Match(n, axis)
    ensures var p := Cons(grid, Cons(arr, Nil, Cons(axis, Nil, Nil)), Nil);
      var d := Cons(n, Nil, Nil);
      Walk(d, p, true) == None && Walk(d, p, false) == Some([Repair(n, axis)])
  {
    var last := Cons(axis, Nil, Nil);
    var fields := Cons(arr, Nil, last);
    var p := Cons(grid, fields, Nil);
    assert Tops(last) == [axis] && Tops(fields) == [arr] + Tops(last);
    assert FieldIn(n, last, 1) == Some(axis) && FieldIn(n, fields, 2) == FieldIn(n, last, 1);
    assert FieldIn(n, last, 0) == None && FieldIn(n, fields, 1) == FieldIn(n, last, 0);
    assert FindByName(p, n.ocname) == FindByName(p.rest, n.ocname) == Nil;
    assert FindGrid(n, p, 1, false) == p && FindGrid(n, p, 1, true) == Nil;
    assert SearchBound(false, 1, p) == 2 && Tops(p) == [grid] + Tops(Nil);
    assert Walk(Nil, p, false) == Some([]) && [Repair(n, axis)] + [] == [Repair(n, axis)];
  }
}
