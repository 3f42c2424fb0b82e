/**
Ordering the variables of a tree (computevarnodes in libdap2/cdf.c): the variables at top level,
then the fields of grids, then the others, each group in the order of the tree.
*/
module VarNodes {
  import opened CdfTree

  datatype Group = TopLevel | GridArray | GridMap | Other

  // daptoplevel
  predicate IsTopLevel(n: CDFnode)
    reads n
  {
    n.container != null && n.container.nctype == Dataset
  }

  // dapgridarray: the first field of a grid.
  predicate IsGridArray(n: CDFnode)
    reads n, n.container
  {
    n.container != null && n.container.nctype == Grid && n.container.subnodes != [] && n.container.subnodes[0] == n
  }

  // dapgridmap: any other field of a grid.
  predicate IsGridMap(n: CDFnode)
    reads n, n.container
  {
    n.container != null && n.container.nctype == Grid && !(n.container.subnodes != [] && n.container.subnodes[0] == n)
  }

  ghost function GroupOf(n: CDFnode): Group
    reads n, n.container
  {
    if IsTopLevel(n) then TopLevel
    else if IsGridArray(n) then GridArray
    else if IsGridMap(n) then GridMap
    else Other
  }

  // The groups of the nodes, as they are now.
  ghost predicate Grouped(nodes: seq<CDFnode>, groups: map<CDFnode, Group>)
    reads set n | n in nodes, set n | n in nodes :: n.container
  {
    forall n :: n in nodes ==> n in groups && groups[n] == GroupOf(n)
  }

  // ---------- Selecting in order ----------

  ghost function Atoms(nodes: seq<CDFnode>): (r: seq<CDFnode>) {
    if nodes == [] then []
    else Atoms(nodes[..|nodes| - 1]) + (if nodes[|nodes| - 1].nctype == Atomic then [nodes[|nodes| - 1]] else [])
  }

  lemma {:induction false} AtomsAre(nodes: seq<CDFnode>, n: CDFnode)
    ensures n in Atoms(nodes) <==> n in nodes && n.nctype == Atomic
  {
    if nodes != [] {
      AtomsAre(nodes[..|nodes| - 1], n);
      assert nodes == nodes[..|nodes| - 1] + [nodes[|nodes| - 1]];
    }
  }

  // The three passes of computevarnodes over the atomic nodes.
  function Stage(g: Group): nat {
    match g
    case TopLevel => 0
    case GridArray => 1
    case GridMap => 1
    case Other => 2
  }

  // Whether a pass takes a node; with NCF_NCDAP, grid maps are dropped.
  predicate Takes(groups: map<CDFnode, Group>, stage: nat, ncdap: bool, n: CDFnode) {
    n in groups && Stage(groups[n]) == stage && !LeftOut(ncdap, groups, n)
  }

  predicate LeftOut(ncdap: bool, groups: map<CDFnode, Group>, n: CDFnode) {
    ncdap && n in groups && groups[n] == GridMap
  }

  // The nodes that a pass takes, in order.
  ghost function Kept(nodes: seq<CDFnode>, groups: map<CDFnode, Group>, stage: nat, ncdap: bool): (r: seq<CDFnode>) {
    if nodes == [] then []
    else
      Kept(nodes[..|nodes| - 1], groups, stage, ncdap) +
      (if Takes(groups, stage, ncdap, nodes[|nodes| - 1]) then [nodes[|nodes| - 1]] else [])
  }

  lemma {:induction false} KeptAre(nodes: seq<CDFnode>, groups: map<CDFnode, Group>, stage: nat, ncdap: bool, n: CDFnode)
    ensures n in Kept(nodes, groups, stage, ncdap) <==> n in nodes && Takes(groups, stage, ncdap, n)
  {
    if nodes != [] {
      KeptAre(nodes[..|nodes| - 1], groups, stage, ncdap, n);
      assert nodes == nodes[..|nodes| - 1] + [nodes[|nodes| - 1]];
    }
  }

  lemma KeptGrows(nodes: seq<CDFnode>, groups: map<CDFnode, Group>, stage: nat, ncdap: bool, i: nat)
    requires i < |nodes|
    ensures Kept(nodes[..i + 1], groups, stage, ncdap) ==
            Kept(nodes[..i], groups, stage, ncdap) + (if Takes(groups, stage, ncdap, nodes[i]) then [nodes[i]] else [])
  {
    assert nodes[..i + 1][..i] == nodes[..i];
  }

  // The result: what the passes take, one after the other.
  ghost function Ordered(nodes: seq<CDFnode>, groups: map<CDFnode, Group>, ncdap: bool): (r: seq<CDFnode>) {
    Kept(Atoms(nodes), groups, 0, ncdap) + Kept(Atoms(nodes), groups, 1, ncdap) + Kept(Atoms(nodes), groups, 2, ncdap)
  }

  // ---------- The method ----------

  method CollectAtoms(allnodes: seq<CDFnode>) returns (all: seq<CDFnode>)
    ensures all == Atoms(allnodes)
  {
    all := [];
    var i := 0;
    while i < |allnodes|
      invariant 0 <= i <= |allnodes| && all == Atoms(allnodes[..i])
    {
      assert allnodes[..i + 1][..i] == allnodes[..i];
      if allnodes[i].nctype == Atomic {
        all := all + [allnodes[i]];
      }
      i := i + 1;
    }
    assert allnodes[..i] == allnodes;
  }

  // The list during a pass: entries taken by earlier passes, or already by this one, are NULL.
  ghost predicate Nulled(work: seq<CDFnode?>, atoms: seq<CDFnode>, groups: map<CDFnode, Group>, stage: nat, i: nat) {
    |work| == |atoms| &&
    forall k :: 0 <= k < |atoms| && atoms[k] in groups ==>
      work[k] == if Stage(groups[atoms[k]]) < (if k < i then stage + 1 else stage) then null else atoms[k]
  }

  method TakeTopLevel(atoms: seq<CDFnode>, ncdap: bool, ghost groups: map<CDFnode, Group>)
    returns (work: seq<CDFnode?>, vars: seq<CDFnode>)
    requires Grouped(atoms, groups)
    ensures Nulled(work, atoms, groups, 1, 0)
    ensures vars == Kept(atoms, groups, 0, ncdap)
  {
    work, vars := atoms, [];
    var i := 0;
    while i < |atoms|
      invariant 0 <= i <= |atoms| && Nulled(work, atoms, groups, 0, i)
      invariant vars == Kept(atoms[..i], groups, 0, ncdap)
    {
      KeptGrows(atoms, groups, 0, ncdap, i);
      assert atoms[i] in atoms;
      if IsTopLevel(atoms[i]) {
        vars := vars + [atoms[i]];
        work := work[i := null];
      }
      i := i + 1;
    }
    assert atoms[..i] == atoms;
  }

  method TakeFields(atoms: seq<CDFnode>, start: seq<CDFnode?>, ncdap: bool, ghost groups: map<CDFnode, Group>)
    returns (work: seq<CDFnode?>, vars: seq<CDFnode>)
    requires Grouped(atoms, groups) && Nulled(start, atoms, groups, 1, 0)
    ensures Nulled(work, atoms, groups, 2, 0)
    ensures vars == Kept(atoms, groups, 1, ncdap)
  {
    work, vars := start, [];
    var i := 0;
    while i < |work|
      invariant 0 <= i <= |atoms| && Nulled(work, atoms, groups, 1, i)
      invariant vars == Kept(atoms[..i], groups, 1, ncdap)
    {
      KeptGrows(atoms, groups, 1, ncdap, i);
      assert atoms[i] in atoms;
      var node := work[i];
      if node != null {
        if IsGridArray(node) {
          vars := vars + [node];
          work := work[i := null];
        } else if IsGridMap(node) {
          if !ncdap {
            vars := vars + [node];
          }
          work := work[i := null];
        }
      }
      i := i + 1;
    }
    assert atoms[..i] == atoms;
  }

  method TakeOthers(atoms: seq<CDFnode>, work: seq<CDFnode?>, ncdap: bool, ghost groups: map<CDFnode, Group>)
    returns (vars: seq<CDFnode>)
    requires Grouped(atoms, groups) && Nulled(work, atoms, groups, 2, 0)
    ensures vars == Kept(atoms, groups, 2, ncdap)
  {
    vars := [];
    var i := 0;
    while i < |work|
      invariant 0 <= i <= |atoms| && vars == Kept(atoms[..i], groups, 2, ncdap)
    {
      KeptGrows(atoms, groups, 2, ncdap, i);
      assert atoms[i] in atoms;
      var node := work[i];
      if node != null {
        vars := vars + [node];
      }
      i := i + 1;
    }
    assert atoms[..i] == atoms;
  }

  /** computevarnodes: the ordered variables are appended to the list given. */
  method ComputeVarNodes(ncdap: bool, allnodes: seq<CDFnode>, varnodes: seq<CDFnode>, ghost groups: map<CDFnode, Group>)
    returns (r: seq<CDFnode>)
    requires Grouped(Atoms(allnodes), groups)
    ensures r == varnodes + Ordered(allnodes, groups, ncdap)
  {
    var allvarnodes := CollectAtoms(allnodes);
    var work, top := TakeTopLevel(allvarnodes, ncdap, groups);
    var left, fields := TakeFields(allvarnodes, work, ncdap, groups);
    var others := TakeOthers(allvarnodes, left, ncdap, groups);
    r := varnodes + top + fields + others;
    assert r == varnodes + (top + fields + others);
  }

  // ---------- What the order means ----------

  lemma {:induction false} KeptCounts(nodes: seq<CDFnode>, groups: map<CDFnode, Group>, stage: nat, ncdap: bool, n: CDFnode)
    ensures multiset(Kept(nodes, groups, stage, ncdap))[n] == if Takes(groups, stage, ncdap, n) then multiset(nodes)[n] else 0
  {
    if nodes != [] {
      KeptCounts(nodes[..|nodes| - 1], groups, stage, ncdap, n);
      assert nodes == nodes[..|nodes| - 1] + [nodes[|nodes| - 1]];
    }
  }

  /** Every variable occurs as often as in the tree, except that nc-dap mode leaves out the grid maps. */
  lemma OrderedIsPermutation(nodes: seq<CDFnode>, groups: map<CDFnode, Group>, ncdap: bool, n: CDFnode)
    requires n in Atoms(nodes) ==> n in groups
    ensures multiset(Ordered(nodes, groups, ncdap))[n] ==
            if LeftOut(ncdap, groups, n) then 0 else multiset(Atoms(nodes))[n]
  {
    KeptCounts(Atoms(nodes), groups, 0, ncdap, n);
    KeptCounts(Atoms(nodes), groups, 1, ncdap, n);
    KeptCounts(Atoms(nodes), groups, 2, ncdap, n);
    assert n in multiset(Atoms(nodes)) ==> n in Atoms(nodes);
  }

  // a comes before b in the list.
  ghost predicate Before(s: seq<CDFnode>, a: CDFnode, b: CDFnode) {
    exists i, j :: 0 <= i < j < |s| && s[i] == a && s[j] == b
  }

  // Before, for a list with one more element.
  lemma BeforeLast(s: seq<CDFnode>, last: CDFnode, a: CDFnode, b: CDFnode)
    ensures Before(s + [last], a, b) <==> Before(s, a, b) || (a in s && b == last)
  {
    var all := s + [last];
    if Before(s, a, b) {
      var i, j :| 0 <= i < j < |s| && s[i] == a && s[j] == b;
      assert all[i] == a && all[j] == b;
    }
    if a in s && b == last {
      var i :| 0 <= i < |s| && s[i] == a;
      assert all[i] == a && all[|s|] == b;
    }
    if Before(all, a, b) {
      var i, j :| 0 <= i < j < |all| && all[i] == a && all[j] == b;
      if j < |s| {
        assert s[i] == a && s[j] == b;
      } else {
        assert s[i] == a;
      }
    }
  }

  lemma {:induction false} AtomsOrder(nodes: seq<CDFnode>, a: CDFnode, b: CDFnode)
    requires Before(Atoms(nodes), a, b)
    ensures Before(nodes, a, b)
  {
    if nodes != [] {
      var front, last := nodes[..|nodes| - 1], nodes[|nodes| - 1];
      assert nodes == front + [last];
      BeforeLast(front, last, a, b);
      BeforeLast(Atoms(front), last, a, b);
      AtomsAre(front, a);
      assert Atoms(front) + [] == Atoms(front);
      if Before(Atoms(front), a, b) {
        AtomsOrder(front, a, b);
      }
    }
  }

  lemma {:induction false} KeptOrder(nodes: seq<CDFnode>, groups: map<CDFnode, Group>, stage: nat, ncdap: bool, a: CDFnode, b: CDFnode)
    requires Before(Kept(nodes, groups, stage, ncdap), a, b)
    ensures Before(nodes, a, b)
  {
    if nodes != [] {
      var front, last := nodes[..|nodes| - 1], nodes[|nodes| - 1];
      assert nodes == front + [last];
      BeforeLast(front, last, a, b);
      BeforeLast(Kept(front, groups, stage, ncdap), last, a, b);
      KeptAre(front, groups, stage, ncdap, a);
      assert Kept(front, groups, stage, ncdap) + [] == Kept(front, groups, stage, ncdap);
      if Before(Kept(front, groups, stage, ncdap), a, b) {
        KeptOrder(front, groups, stage, ncdap, a, b);
      }
    }
  }

  // Two elements of a concatenation: one in each part, or both in the same one.
  lemma BeforeConcat(s: seq<CDFnode>, t: seq<CDFnode>, a: CDFnode, b: CDFnode)
    requires Before(s + t, a, b)
    ensures Before(s, a, b) || Before(t, a, b) || (a in s && b in t)
  {
    var all := s + t;
    var i, j :| 0 <= i < j < |all| && all[i] == a && all[j] == b;
    if j < |s| {
      assert s[i] == a && s[j] == b;
    } else if |s| <= i {
      assert t[i - |s|] == a && t[j - |s|] == b;
    } else {
      assert s[i] == a && t[j - |s|] == b;
    }
  }

  // What the place of two nodes in one pass says about them.
  lemma InStage(nodes: seq<CDFnode>, groups: map<CDFnode, Group>, stage: nat, ncdap: bool, a: CDFnode, b: CDFnode)
    ensures a in Kept(Atoms(nodes), groups, stage, ncdap) ==> Takes(groups, stage, ncdap, a)
    ensures b in Kept(Atoms(nodes), groups, stage, ncdap) ==> Takes(groups, stage, ncdap, b)
    ensures Before(Kept(Atoms(nodes), groups, stage, ncdap), a, b) ==>
      Takes(groups, stage, ncdap, a) && Takes(groups, stage, ncdap, b) && Before(nodes, a, b)
  {
    KeptAre(Atoms(nodes), groups, stage, ncdap, a);
    KeptAre(Atoms(nodes), groups, stage, ncdap, b);
    if Before(Kept(Atoms(nodes), groups, stage, ncdap), a, b) {
      KeptOrder(Atoms(nodes), groups, stage, ncdap, a, b);
      AtomsOrder(nodes, a, b);
    }
  }

  /** The order is by pass, and within a pass it is that of the tree. */
  lemma OrderedIsStable(nodes: seq<CDFnode>, groups: map<CDFnode, Group>, ncdap: bool, a: CDFnode, b: CDFnode)
    requires Before(Ordered(nodes, groups, ncdap), a, b)
    ensures a in groups && b in groups
    ensures Stage(groups[a]) < Stage(groups[b]) || (Stage(groups[a]) == Stage(groups[b]) && Before(nodes, a, b))
  {
    var atoms := Atoms(nodes);
    var k0, k1, k2 := Kept(atoms, groups, 0, ncdap), Kept(atoms, groups, 1, ncdap), Kept(atoms, groups, 2, ncdap);
    BeforeConcat(k0 + k1, k2, a, b);
    if Before(k0 + k1, a, b) {
      BeforeConcat(k0, k1, a, b);
    }
    InStage(nodes, groups, 0, ncdap, a, b);
    InStage(nodes, groups, 1, ncdap, a, b);
    InStage(nodes, groups, 2, ncdap, a, b);
  }

  // ---------- In terms of the containers ----------

  lemma {:induction false} AtomsCount(nodes: seq<CDFnode>, n: CDFnode)
    ensures multiset(Atoms(nodes))[n] == if n.nctype == Atomic then multiset(nodes)[n] else 0
  {
    if nodes != [] {
      AtomsCount(nodes[..|nodes| - 1], n);
      assert nodes == nodes[..|nodes| - 1] + [nodes[|nodes| - 1]];
    }
  }

  /** Exactly the atomic nodes are listed, but in nc-dap mode no field of a grid except its first. */
  lemma ListedAre(nodes: seq<CDFnode>, groups: map<CDFnode, Group>, ncdap: bool, n: CDFnode)
    requires Grouped(Atoms(nodes), groups)
    ensures var field := n.container != null && n.container.nctype == Grid;
      var first := field && n.container.subnodes != [] && n.container.subnodes[0] == n;
      multiset(Ordered(nodes, groups, ncdap))[n] ==
      if n.nctype != Atomic || (ncdap && field && !first) then 0 else multiset(nodes)[n]
  {
    AtomsCount(nodes, n);
    AtomsAre(nodes, n);
    if n in Atoms(nodes) {
      OrderedIsPermutation(nodes, groups, ncdap, n);
    } else {
      NotListed(nodes, groups, ncdap, n);
      assert n !in multiset(Atoms(nodes));
    }
  }

  lemma NotListed(nodes: seq<CDFnode>, groups: map<CDFnode, Group>, ncdap: bool, n: CDFnode)
    requires n !in Atoms(nodes)
    ensures multiset(Ordered(nodes, groups, ncdap))[n] == 0
  {
    KeptCounts(Atoms(nodes), groups, 0, ncdap, n);
    KeptCounts(Atoms(nodes), groups, 1, ncdap, n);
    KeptCounts(Atoms(nodes), groups, 2, ncdap, n);
    assert n !in multiset(Atoms(nodes));
  }

  /** First children of the dataset, then fields of grids, then the others, each in the order of the tree. */
  lemma ListedInOrder(nodes: seq<CDFnode>, groups: map<CDFnode, Group>, ncdap: bool, a: CDFnode, b: CDFnode)
    requires Grouped(Atoms(nodes), groups) && Before(Ordered(nodes, groups, ncdap), a, b)
    ensures var topA := a.container != null && a.container.nctype == Dataset;
      var topB := b.container != null && b.container.nctype == Dataset;
      var fieldA := a.container != null && a.container.nctype == Grid;
      var fieldB := b.container != null && b.container.nctype == Grid;
      && (topB ==> topA) && (fieldB ==> topA || fieldA)
      && (topA == topB && fieldA == fieldB ==> Before(nodes, a, b))
  {
    OrderedIsStable(nodes, groups, ncdap, a, b);
    OrderedAreAtoms(nodes, groups, ncdap, a);
    OrderedAreAtoms(nodes, groups, ncdap, b);
  }

  lemma OrderedAreAtoms(nodes: seq<CDFnode>, groups: map<CDFnode, Group>, ncdap: bool, n: CDFnode)
    ensures n in Ordered(nodes, groups, ncdap) ==> n in Atoms(nodes)
  {
    KeptAre(Atoms(nodes), groups, 0, ncdap, n);
    KeptAre(Atoms(nodes), groups, 1, ncdap, n);
    KeptAre(Atoms(nodes), groups, 2, ncdap, n);
  }

  /** In a tree, the first field of a grid is its array, and all others are maps. */
  lemma {:induction false} GridFields(f: Forest, parent: CDFnode?, grid: CDFnode, i: nat)
    requires Linked(f, parent) && Distinct(f) && grid in NodeSet(f) && grid.nctype == Grid && i < |grid.subnodes|
    ensures IsGridArray(grid.subnodes[i]) <==> i == 0
    ensures IsGridMap(grid.subnodes[i]) <==> i > 0
    ensures !IsTopLevel(grid.subnodes[i])
  {
    if grid == f.node {
      TopsContainer(f.kids, f.node);
      TopsDistinct(f.kids);
    } else if grid in NodeSet(f.kids) {
      GridFields(f.kids, f.node, grid, i);
    } else {
      GridFields(f.rest, parent, grid, i);
    }
  }
}
