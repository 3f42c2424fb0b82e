/**
Where restruct puts the nodes of a tree (libdap2/cdf.c, restructr and repairgrids), by the places of
nodes among their siblings.

A node goes to the first sibling of its name in the pattern; one that does not match there belongs
into the first grid with a matching field.  These are definitions of their own, and `PlacedIff` and
`WrappedAtFirst` say that the search of module Restruct, and the wrappers it makes, agree with them.
*/
module Placement {
  import opened CdfTree
  import opened Wrappers
  import opened Restruct

  // The children of sibling i.
  function Kids(p: Forest, i: nat): (r: Forest)
    requires i < |Tops(p)|
  {
    if i == 0 then p.kids else Kids(p.rest, i - 1)
  }

  // k is the place of the first sibling of that name.
  predicate FirstNamed(p: Forest, name: string, k: nat) {
    k < |Tops(p)| && Tops(p)[k].ocname == name && forall h :: 0 <= h < k ==> Tops(p)[h].ocname != name
  }

  // The field at place j of sibling i matches n; as many fields are looked at as there are siblings.
  predicate FieldAt(n: CDFnode, p: Forest, i: nat, j: nat, siblings: nat) {
    && i < |Tops(p)| && Tops(p)[i].nctype == Grid
    && j < siblings && j < |Tops(Kids(p, i))| && Match(n, Tops(Kids(p, i))[j])
  }

  // Sibling i is the first grid with a matching field, and j is the place of the first one in it.
  ghost predicate FirstField(n: CDFnode, p: Forest, i: nat, j: nat, siblings: nat) {
    && FieldAt(n, p, i, j, siblings)
    && (forall h: nat, k: nat :: h < i ==> !FieldAt(n, p, h, k, siblings))
    && (forall k: nat :: k < j ==> !FieldAt(n, p, i, k, siblings))
  }

  // n matches the first sibling of its name.
  ghost predicate Belongs(n: CDFnode, p: Forest) {
    exists k: nat :: FirstNamed(p, n.ocname, k) && Match(n, Tops(p)[k])
  }

  // Every node of d has a place: at its namesake, with all that is below it, or in some grid.
  ghost predicate Placed(d: Forest, p: Forest)
    decreases d
  {
    d.Cons? ==>
      && Placed(d.rest, p)
      && if Belongs(d.node, p) then exists k: nat :: FirstNamed(p, d.node.ocname, k) && Placed(d.kids, Kids(p, k))
         else exists i: nat, j: nat :: FieldAt(d.node, p, i, j, |Tops(p)|)
  }

  // The wrapped nodes are those that do not match their namesake, and each wrapper is a structure
  // with the name of the first grid with a matching field.
  ghost predicate WrappedRight(d: Forest, p: Forest, w: map<CDFnode, CDFnode>)
    decreases d
  {
    d.Cons? ==>
      && WrappedRight(d.rest, p, w)
      && if Belongs(d.node, p) then
           d.node !in w && exists k: nat :: FirstNamed(p, d.node.ocname, k) && WrappedRight(d.kids, Kids(p, k), w)
         else
           && d.node in w && NodeSet(d.kids) !! w.Keys
           && exists i: nat, j: nat :: FirstField(d.node, p, i, j, |Tops(p)|) &&
                w[d.node].nctype == Structure && w[d.node].ocname == Tops(p)[i].ocname && w[d.node].Rank() == 0
  }

  // ---------- The searches ----------

  /** FindByName starts at the first sibling of that name. */
  lemma {:induction false} FindsFirstNamed(p: Forest, name: string) returns (k: nat)
    ensures FindByName(p, name).Nil? ==> forall h :: 0 <= h < |Tops(p)| ==> Tops(p)[h].ocname != name
    ensures FindByName(p, name).Cons? ==>
      FirstNamed(p, name, k) && FindByName(p, name).node == Tops(p)[k] && FindByName(p, name).kids == Kids(p, k)
  {
    k := 0;
    if p.Cons? && p.node.ocname != name {
      k := FindsFirstNamed(p.rest, name);
      k := k + 1;
    }
  }

  lemma FirstNamedIsUnique(p: Forest, name: string, k: nat, h: nat)
    requires FirstNamed(p, name, k) && FirstNamed(p, name, h)
    ensures k == h
  {
  }

  // FieldIn takes the first match.
  lemma {:induction false} FindsFirstMatch(n: CDFnode, fields: Forest, bound: nat) returns (j: nat)
    ensures FieldIn(n, fields, bound).None? ==> forall k :: 0 <= k < bound && k < |Tops(fields)| ==> !Match(n, Tops(fields)[k])
    ensures FieldIn(n, fields, bound).Some? ==>
      && j < bound && j < |Tops(fields)| && Match(n, Tops(fields)[j])
      && FieldIn(n, fields, bound).value == Tops(fields)[j]
      && forall k :: 0 <= k < j ==> !Match(n, Tops(fields)[k])
  {
    j := 0;
    if fields.Cons? && bound > 0 && !Match(n, fields.node) {
      j := FindsFirstMatch(n, fields.rest, bound - 1);
      j := j + 1;
    }
  }

  /** FindGrid starts at the first grid with a match. */
  lemma {:induction false} FindsFirstField(n: CDFnode, p: Forest, siblings: nat) returns (i: nat, j: nat)
    ensures var g := FindGrid(n, p, siblings, true);
      if g.Nil? then forall i: nat, j: nat :: !FieldAt(n, p, i, j, siblings)
      else FirstField(n, p, i, j, siblings) && g.node == Tops(p)[i] && FieldIn(n, g.kids, siblings) == Some(Tops(Kids(p, i))[j])
  {
    i, j := 0, 0;
    if p.Cons? {
      var k := FindsFirstMatch(n, p.kids, siblings);
      if FindGrid(n, p, siblings, true) == p {
        j := k;
      } else {
        i, j := FindsFirstField(n, p.rest, siblings);
        i := i + 1;
        NextField(n, p, siblings);
      }
    }
  }

  // Behind a sibling without a matching field, the fields are those of the siblings after it.
  lemma NextField(n: CDFnode, p: Forest, siblings: nat)
    requires p.Cons? && forall j: nat :: !FieldAt(n, p, 0, j, siblings)
    ensures forall i: nat, j: nat :: FieldAt(n, p.rest, i, j, siblings) ==> FieldAt(n, p, i + 1, j, siblings)
    ensures forall i: nat, j: nat :: FieldAt(n, p, i, j, siblings) ==> i > 0 && FieldAt(n, p.rest, i - 1, j, siblings)
  {
    forall i: nat, j: nat
      ensures FieldAt(n, p.rest, i, j, siblings) <==> FieldAt(n, p, i + 1, j, siblings)
    {
      assert i < |Tops(p.rest)| ==> Kids(p, i + 1) == Kids(p.rest, i);
    }
  }

  lemma BelongsIff(n: CDFnode, p: Forest) returns (k: nat)
    ensures DirectMatch(n, p) <==> Belongs(n, p)
    ensures DirectMatch(n, p) ==> FirstNamed(p, n.ocname, k) && Kids(p, k) == FindByName(p, n.ocname).kids
  {
    k := FindsFirstNamed(p, n.ocname);
    forall h | FirstNamed(p, n.ocname, h) && FindByName(p, n.ocname).Cons?
      ensures h == k
    {
      FirstNamedIsUnique(p, n.ocname, h, k);
    }
  }

  // ---------- The main results ----------

  /** A tree is accepted exactly when every node of it has a place. */
  lemma {:induction false} PlacedIff(d: Forest, p: Forest)
    ensures Walk(d, p, true).Some? <==> Placed(d, p)
    decreases d
  {
    if d.Cons? {
      PlacedIff(d.rest, p);
      var k := BelongsIff(d.node, p);
      if DirectMatch(d.node, p) {
        PlacedIff(d.kids, Kids(p, k));
        forall h | FirstNamed(p, d.node.ocname, h)
          ensures h == k
        {
          FirstNamedIsUnique(p, d.node.ocname, h, k);
        }
      } else {
        var i, j := FindsFirstField(d.node, p, |Tops(p)|);
      }
    }
  }

  /** In a restructured tree, each stray node is in a structure named after the first grid that matches. */
  lemma {:induction false} WrappedAtFirst(d: Forest, p: Forest, w: map<CDFnode, CDFnode>)
    requires GoodWrappers(d, p, w) && Walk(d, p, true).Some?
    ensures WrappedRight(d, p, w)
    decreases d
  {
    if d.Cons? {
      WrappedAtFirst(d.rest, p, w);
      var k := BelongsIff(d.node, p);
      if DirectMatch(d.node, p) {
        WrappedAtFirst(d.kids, Kids(p, k), w);
      } else {
        var i, j := FindsFirstField(d.node, p, |Tops(p)|);
      }
    }
  }

  /** On the heap, a wrapped node is the only child of its wrapper, which takes its place below its parent. */
  lemma {:induction false} WrappedLinks(f: Forest, parent: CDFnode?, w: map<CDFnode, CDFnode>, n: CDFnode)
    requires Linked(Wrap(f, w), parent) && Distinct(f) && n in NodeSet(f) && n in w
    ensures n.container == w[n] && w[n].subnodes == [n] && (n in Tops(f) ==> w[n].container == parent)
  {
    TopsInSet(f);
    if n == f.node {
      assert Tops(Cons(n, Wrap(f.kids, w), Nil)) == [n];
    } else if n in NodeSet(f.kids) {
      TopsInSet(f.rest);
      assert n !in Tops(f);
      var parent' := f.node;
      WrappedLinks(f.kids, parent', w, n);
    } else {
      WrappedLinks(f.rest, parent, w, n);
    }
  }

  // Alike in name, rank, kind and, if atomic, element type.
  predicate Alike(a: CDFnode, b: CDFnode) {
    && a.ocname == b.ocname && |a.dimset0| == |b.dimset0|
    && (a.nctype == b.nctype || {a.nctype, b.nctype} == {Grid, Structure})
    && (a.nctype == Atomic ==> a.etype == b.etype)
  }

  // Each sibling of d is alike some sibling of p, and so below, in any order.
  ghost predicate PartOf(d: Forest, p: Forest)
    decreases d
  {
    d.Cons? ==>
      && PartOf(d.rest, p)
      && exists k: nat :: k < |Tops(p)| && Alike(d.node, Tops(p)[k]) && PartOf(d.kids, Kids(p, k))
  }

  lemma {:induction false} DistinctNamed(p: Forest, k: nat)
    requires DistinctNames(p) && k < |Tops(p)|
    ensures FirstNamed(p, Tops(p)[k].ocname, k) && DistinctNames(Kids(p, k))
  {
    if k > 0 {
      DistinctNamed(p.rest, k - 1);
    }
  }

  /** If siblings of the pattern have different names, any part of it is accepted and left as it is. */
  lemma {:induction false} PartIsAccepted(d: Forest, p: Forest)
    requires PartOf(d, p) && DistinctNames(p)
    ensures Walk(d, p, true) == Some([])
    decreases d
  {
    if d.Cons? {
      PartIsAccepted(d.rest, p);
      var k: nat :| k < |Tops(p)| && Alike(d.node, Tops(p)[k]) && PartOf(d.kids, Kids(p, k));
      DistinctNamed(p, k);
      var h := BelongsIff(d.node, p);
      FirstNamedIsUnique(p, d.node.ocname, h, k);
      PartIsAccepted(d.kids, Kids(p, k));
      var none: seq<Repair> := [];
      assert none + none == none;
    }
  }
}
