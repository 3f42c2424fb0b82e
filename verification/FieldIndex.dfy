/**
Which field of a returned structure movetofield moves to (libdap2/getvara.c, movetofield, findfield).

The walk follows the path of a variable in the repaired tree, but the fields are counted in the data
as the server returned them, where the structures that restruct added do not occur.
*/
module FieldIndex {
  import opened CdfTree
  import Restruct

  // The first place of n in s, or -1.
  function IndexOf(s: seq<CDFnode>, n: CDFnode): (r: int)
    ensures -1 <= r < |s|
    ensures r >= 0 ==> s[r] == n
    ensures forall k :: 0 <= k < (if r >= 0 then r else |s|) ==> s[k] != n
  {
    if s == [] then -1
    else if s[0] == n then 0
    else
      var r := IndexOf(s[1..], n);
      assert forall k :: 1 <= k < |s| ==> s[k] == s[1..][k - 1];
      if r >= 0 then r + 1 else -1
  }

  // n is at place i of s, and not before.
  predicate IsFirst(s: seq<CDFnode>, n: CDFnode, i: nat) {
    i < |s| && s[i] == n && forall k :: 0 <= k < i ==> s[k] != n
  }

  /** findfield */
  method FindField(node: CDFnode, field: CDFnode) returns (i: int)
    ensures i == IndexOf(node.subnodes, field)
  {
    var subnodes := node.subnodes;
    i := 0;
    while i < |subnodes|
      invariant 0 <= i <= |subnodes| && forall k :: 0 <= k < i ==> subnodes[k] != field
    {
      if subnodes[i] == field {
        return;
      }
      i := i + 1;
    }
    i := -1;
  }

  // The field to move to, and the place on the path where the walk goes on.
  datatype FieldStep = Field(index: int, newdepth: nat) | NC_EBADFIELD

  function StepOf(path: seq<CDFnode>, depth: nat): (r: FieldStep)
    requires depth + 1 < |path| && (path[depth + 1].isVirtual ==> depth + 2 < |path|)
    reads path`subnodes
  {
    var next := path[depth + 1];
    var i := IndexOf(path[depth].subnodes, next);
    if i < 0 then NC_EBADFIELD
    else if next.isVirtual then Field(i + IndexOf(next.subnodes, path[depth + 2]), depth + 2)
    else Field(i, depth + 1)
  }

  /** movetofield, up to the call of oc_data_ithfield. */
  method MoveToField(path: seq<CDFnode>, depth: nat) returns (r: FieldStep)
    requires depth + 1 < |path| && (path[depth + 1].isVirtual ==> depth + 2 < |path|)
    ensures r == StepOf(path, depth)
    ensures r.NC_EBADFIELD? <==> path[depth + 1] !in path[depth].subnodes
    ensures var next := path[depth + 1];
      forall i: nat :: IsFirst(path[depth].subnodes, next, i) ==>
        && (!next.isVirtual ==> r == Field(i, depth + 1))
        && (next.isVirtual ==>
              var inner := path[depth + 2];
              forall j: nat :: IsFirst(next.subnodes, inner, j) ==> r == Field(i + j, depth + 2))
  {
    var next := path[depth + 1];
    var fieldindex := FindField(path[depth], next);
    if fieldindex < 0 {
      return NC_EBADFIELD;
    }
    if next.isVirtual {
      var gridindex := fieldindex;
      fieldindex := FindField(next, path[depth + 2]);
      return Field(fieldindex + gridindex, depth + 2);
    }
    return Field(fieldindex, depth + 1);
  }

  // ---------- Children in the returned and in the repaired tree ----------

  // The children of a node, with what is below them.
  function KidsOf(f: Forest, c: CDFnode): (r: Forest)
    requires c in NodeSet(f)
  {
    if c == f.node then f.kids
    else if c in NodeSet(f.kids) then KidsOf(f.kids, c)
    else KidsOf(f.rest, c)
  }

  lemma {:induction false} KidsLinked(f: Forest, parent: CDFnode?, c: CDFnode)
    requires Linked(f, parent) && c in NodeSet(f)
    ensures NodeSet(KidsOf(f, c)) <= NodeSet(f)
    ensures c.subnodes == Tops(KidsOf(f, c)) && Linked(KidsOf(f, c), c)
  {
    KidsInside(f, c);
    if c != f.node {
      if c in NodeSet(f.kids) {
        KidsLinked(f.kids, f.node, c);
      } else {
        KidsLinked(f.rest, parent, c);
      }
    }
  }

  lemma {:induction false} KidsDistinct(f: Forest, c: CDFnode)
    requires Distinct(f) && c in NodeSet(f)
    ensures Distinct(KidsOf(f, c))
  {
    if c != f.node {
      if c in NodeSet(f.kids) {
        KidsDistinct(f.kids, c);
      } else {
        KidsDistinct(f.rest, c);
      }
    }
  }

  lemma {:induction false} WrapAdds(f: Forest, w: map<CDFnode, CDFnode>)
    ensures NodeSet(f) <= NodeSet(Restruct.Wrap(f, w)) <= NodeSet(f) + w.Values
  {
    if f.Cons? {
      WrapAdds(f.kids, w);
      WrapAdds(f.rest, w);
      if f.node in w {
        assert w[f.node] in w.Values;
        var inner := Cons(f.node, Restruct.Wrap(f.kids, w), Nil);
        assert NodeSet(inner) == {f.node} + NodeSet(Restruct.Wrap(f.kids, w));
      }
    }
  }

  // Wrapping keeps the children of every node, each in its wrapper if it has one.
  lemma {:induction false} KidsWrapped(d: Forest, w: map<CDFnode, CDFnode>, c: CDFnode)
    requires Distinct(d) && c in NodeSet(d) && NodeSet(d) !! w.Values
    ensures c in NodeSet(Restruct.Wrap(d, w)) && KidsOf(Restruct.Wrap(d, w), c) == Restruct.Wrap(KidsOf(d, c), w)
  {
    var kids, rest := Restruct.Wrap(d.kids, w), Restruct.Wrap(d.rest, w);
    WrapAdds(d.kids, w);
    var inner := Cons(d.node, kids, Nil);
    assert NodeSet(inner) == {d.node} + NodeSet(kids);
    if c in NodeSet(d.kids) && c != d.node {
      KidsWrapped(d.kids, w, c);
    } else if c != d.node {
      KidsWrapped(d.rest, w, c);
    }
    if d.node in w {
      assert w[d.node] in w.Values;
      assert Restruct.Wrap(d, w) == Cons(w[d.node], inner, rest);
      if c == d.node || c in NodeSet(d.kids) {
        assert KidsOf(Restruct.Wrap(d, w), c) == KidsOf(inner, c);
      }
    }
  }

  lemma {:induction false} KidsInside(f: Forest, c: CDFnode)
    requires c in NodeSet(f)
    ensures NodeSet(KidsOf(f, c)) <= NodeSet(f)
  {
    if c != f.node {
      if c in NodeSet(f.kids) {
        KidsInside(f.kids, c);
      } else {
        KidsInside(f.rest, c);
      }
    }
  }

  lemma {:induction false} TopsWrapped(f: Forest, w: map<CDFnode, CDFnode>, i: nat)
    requires i < |Tops(f)|
    ensures |Tops(Restruct.Wrap(f, w))| == |Tops(f)|
    ensures Tops(Restruct.Wrap(f, w))[i] == if Tops(f)[i] in w then w[Tops(f)[i]] else Tops(f)[i]
  {
    if i > 0 {
      TopsWrapped(f.rest, w, i - 1);
    } else if f.rest.Cons? {
      TopsWrapped(f.rest, w, 0);
    }
  }

  // A wrapper has the wrapped node for its only child.
  lemma {:induction false} WrapperHolds(f: Forest, w: map<CDFnode, CDFnode>, parent: CDFnode?, i: nat)
    requires i < |Tops(f)| && Linked(Restruct.Wrap(f, w), parent) && Tops(f)[i] in w
    ensures w[Tops(f)[i]].subnodes == [Tops(f)[i]] && Tops(f)[i].container == w[Tops(f)[i]]
  {
    if i > 0 {
      WrapperHolds(f.rest, w, parent, i - 1);
    } else {
      var inner := Cons(f.node, Restruct.Wrap(f.kids, w), Nil);
      assert Linked(inner, w[f.node]) && Tops(inner) == [f.node];
    }
  }

  // ---------- The index is that in the returned data ----------

  // w puts nodes of the returned tree into new structures.
  ghost predicate Repaired(d: Forest, w: map<CDFnode, CDFnode>)
    reads NodeSet(Restruct.Wrap(d, w))
  {
    && Distinct(d) && (forall n :: n in NodeSet(d) ==> !n.isVirtual)
    && (forall n :: n in w ==> w[n].isVirtual)
    && Distinct(Restruct.Wrap(d, w)) && Linked(Restruct.Wrap(d, w), null)
  }

  // A path by the container links, from the top.
  ghost predicate IsPath(path: seq<CDFnode>)
    reads path`container
  {
    path != [] && path[0].container == null && forall j :: 0 <= j < |path| - 1 ==> path[j + 1].container == path[j]
  }

  lemma FirstIndex(s: seq<CDFnode>, i: nat)
    requires i < |s| && forall j, k :: 0 <= j < k < |s| ==> s[j] != s[k]
    ensures IndexOf(s, s[i]) == i
  {
  }

  // The i-th child of c in the returned tree, as it stands in the repaired one.
  lemma ChildInRepaired(d: Forest, w: map<CDFnode, CDFnode>, c: CDFnode, i: nat, n: CDFnode)
    requires Repaired(d, w) && c in NodeSet(d) && i < |Tops(KidsOf(d, c))| && n == Tops(KidsOf(d, c))[i]
    ensures c in NodeSet(Restruct.Wrap(d, w)) && n in NodeSet(d)
    ensures n !in w ==> n.container == c && IndexOf(c.subnodes, n) == i
    ensures n in w ==> n.container == w[n] && w[n].container == c && IndexOf(c.subnodes, w[n]) == i && w[n].subnodes == [n]
  {
    var kids, d' := KidsOf(d, c), Restruct.Wrap(d, w);
    KidsWrapped(d, w, c);
    KidsLinked(d', null, c);
    KidsDistinct(d', c);
    TopsDistinct(KidsOf(d', c));
    TopsContainer(KidsOf(d', c), c);
    TopsWrapped(kids, w, i);
    FirstIndex(c.subnodes, i);
    KidsInside(d, c);
    TopsInSet(kids);
    if n in w {
      WrapperHolds(kids, w, c, i);
    }
  }

  /**
  On a path of the repaired tree, the step to a node that is the i-th child of its container in the
  returned tree takes the i-th field, whether or not the node has been put into a new structure.
  */
  lemma StepTakesReturnedField(d: Forest, w: map<CDFnode, CDFnode>, c: CDFnode, i: nat, path: seq<CDFnode>, m: nat)
    requires Repaired(d, w) && c in NodeSet(d) && i < |Tops(KidsOf(d, c))|
    requires IsPath(path) && m < |path| && path[m] == Tops(KidsOf(d, c))[i]
    ensures var up := if path[m] in w then 2 else 1;
      && up <= m && path[m - up] == c && (path[m - up + 1].isVirtual <==> path[m] in w)
      && StepOf(path, m - up) == Field(i, m)
  {
    ChildInRepaired(d, w, c, i, path[m]);
    assert m > 0 && path[m - 1] == path[m].container;
    if path[m] in w {
      assert m > 1 && path[m - 2] == path[m - 1].container;
    }
  }

  /** So it is after restruct: whatever was repaired, the walk reaches the fields that the server returned. */
  lemma RestructedTakesReturnedField(d: Forest, p: Forest, w: map<CDFnode, CDFnode>, d': Forest, c: CDFnode, i: nat, path: seq<CDFnode>, m: nat)
    requires IsTree(d) && IsTree(p) && Distinct(d) && forall n :: n in NodeSet(d) ==> !n.isVirtual
    requires Restruct.Restructured(d, p, w, d') && Linked(d', null) && Distinct(d')
    requires c in NodeSet(d) && i < |Tops(KidsOf(d, c))|
    requires IsPath(path) && m < |path| && path[m] == Tops(KidsOf(d, c))[i]
    ensures var up := if path[m] in w then 2 else 1;
      up <= m && path[m - up] == c && (path[m - up + 1].isVirtual <==> path[m] in w) && StepOf(path, m - up) == Field(i, m)
  {
    assert d' == Restruct.Wrap(d, w);
    StepTakesReturnedField(d, w, c, i, path, m);
  }
}
