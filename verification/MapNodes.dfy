/**
Linking each node of the constrained tree to its twin in the full tree
(libdap2/cdf.c, mapnodes, mapnodesr, mapfcn and unmap).
*/
module MapNodes {
  import opened CdfTree
  import opened Wrappers
  import Restruct

  // Panic: a failed ASSERT, which aborts the program.
  datatype Status = NC_NOERR | NC_EINVAL | Panic

  // ---------- What the recursion assigns ----------

  // The basenode of the siblings d and of everything below them.  A node that matches several
  // siblings in p is mapped again for each of them; the last one stays.
  function BaseMap(d: Forest, p: Forest): (r: map<CDFnode, CDFnode>)
    decreases d, 0
  {
    if d.Nil? then map[] else BaseOne(d.node, d.kids, p) + BaseMap(d.rest, p)
  }

  function BaseOne(n: CDFnode, kids: Forest, p: Forest): (r: map<CDFnode, CDFnode>)
    decreases kids, 1, p
  {
    if p.Nil? then map[]
    else (if Match(p.node, n) then map[n := p.node] + BaseMap(kids, p.kids) else map[]) + BaseOne(n, kids, p.rest)
  }

  /** Of several siblings that match, the last one becomes the basenode; without any there is none. */
  lemma {:induction false} LastMatchWins(n: CDFnode, kids: Forest, p: Forest, k: nat)
    requires n !in NodeSet(kids)
    requires k < |Tops(p)| ==> Match(Tops(p)[k], n)
    requires forall i :: k < i < |Tops(p)| ==> !Match(Tops(p)[i], n)
    requires k >= |Tops(p)| ==> forall i :: 0 <= i < |Tops(p)| ==> !Match(Tops(p)[i], n)
    ensures if k < |Tops(p)| then n in BaseOne(n, kids, p) && BaseOne(n, kids, p)[n] == Tops(p)[k]
            else n !in BaseOne(n, kids, p)
    decreases p
  {
    if p.Cons? {
      assert forall i :: 0 <= i < |Tops(p.rest)| ==> Tops(p.rest)[i] == Tops(p)[i + 1];
      assert Tops(p)[0] == p.node;
      BaseMapKeys(kids, p.kids);
      if k == 0 {
        LastMatchWins(n, kids, p.rest, |Tops(p.rest)|);
      } else {
        LastMatchWins(n, kids, p.rest, k - 1);
      }
    }
  }

  // The child-count assertion fails for a pair of nodes with the children k and q, or below.
  predicate Panics(k: Forest, q: Forest)
    decreases k, 2
  {
    |Tops(k)| > |Tops(q)| || PanicsBelow(k, q)
  }

  predicate PanicsBelow(d: Forest, p: Forest)
    decreases d, 0
  {
    d.Cons? && (PanicsOne(d.node, d.kids, p) || PanicsBelow(d.rest, p))
  }

  predicate PanicsOne(n: CDFnode, kids: Forest, p: Forest)
    decreases kids, 3, p
  {
    p.Cons? && ((Match(p.node, n) && Panics(kids, p.kids)) || PanicsOne(n, kids, p.rest))
  }

  lemma {:induction false} BaseMapKeys(d: Forest, p: Forest)
    ensures BaseMap(d, p).Keys <= NodeSet(d)
    decreases d, 0
  {
    if d.Cons? {
      BaseOneKeys(d.node, d.kids, p);
      BaseMapKeys(d.rest, p);
    }
  }

  lemma {:induction false} BaseOneKeys(n: CDFnode, kids: Forest, p: Forest)
    ensures BaseOne(n, kids, p).Keys <= {n} + NodeSet(kids)
    decreases kids, 1, p
  {
    if p.Cons? {
      BaseMapKeys(kids, p.kids);
      BaseOneKeys(n, kids, p.rest);
    }
  }

  // ---------- Names decide ----------

  // The only sibling in p that can match a node of that name.
  lemma {:induction false} NoOtherMatch(n: CDFnode, kids: Forest, p: Forest)
    requires forall i :: 0 <= i < |Tops(p)| ==> Tops(p)[i].ocname != n.ocname
    ensures BaseOne(n, kids, p) == map[]
    ensures !PanicsOne(n, kids, p)
    ensures !Restruct.EmbedsOne(n, kids, p)
  {
    if p.Cons? {
      assert Tops(p)[0] == p.node;
      assert forall i :: 0 <= i < |Tops(p.rest)| ==> Tops(p.rest)[i] == Tops(p)[i + 1];
      NoOtherMatch(n, kids, p.rest);
    }
  }

  // With distinct names, an embedded node has exactly one twin, and it is mapped through it.
  lemma {:induction false} OneTwin(n: CDFnode, kids: Forest, p: Forest)
    requires Restruct.EmbedsOne(n, kids, p) && DistinctNames(p)
    ensures var q := Restruct.FindByName(p, n.ocname);
      && q.Cons? && q.node in Tops(p) && Match(n, q.node) && DistinctNames(q.kids)
      && Restruct.Embeds(kids, q.kids)
      && BaseOne(n, kids, p) == map[n := q.node] + BaseMap(kids, q.kids)
  {
    if Match(n, p.node) {
      NoOtherMatch(n, kids, p.rest);
    } else {
      OneTwin(n, kids, p.rest);
      TwinIsLater(n, kids, p);
    }
  }

  // A node that is embedded without matching the first sibling has its name further on.
  lemma {:induction false} TwinIsLater(n: CDFnode, kids: Forest, p: Forest)
    requires p.Cons? && Restruct.EmbedsOne(n, kids, p.rest) && DistinctNames(p)
    ensures p.node.ocname != n.ocname
  {
    if p.node.ocname == n.ocname {
      assert Tops(p)[0] == p.node;
      forall i | 0 <= i < |Tops(p.rest)|
        ensures Tops(p.rest)[i].ocname != n.ocname
      {
        assert Tops(p)[i + 1] == Tops(p.rest)[i];
      }
      NoOtherMatch(n, kids, p.rest);
    }
  }

  // The assertion on it fails exactly below the twin.
  lemma {:induction false} OneTwinPanics(n: CDFnode, kids: Forest, p: Forest)
    requires Restruct.EmbedsOne(n, kids, p) && DistinctNames(p)
    ensures Restruct.FindByName(p, n.ocname).Cons?
    ensures PanicsOne(n, kids, p) == Panics(kids, Restruct.FindByName(p, n.ocname).kids)
  {
    if Match(n, p.node) {
      NoOtherMatch(n, kids, p.rest);
    } else {
      OneTwinPanics(n, kids, p.rest);
      TwinIsLater(n, kids, p);
    }
  }

  // Where the nodes of d get their twins from.
  lemma BaseMapParts(d: Forest, p: Forest)
    requires Restruct.Embeds(d, p) && DistinctNames(p) && Distinct(d) && d.Cons?
    ensures var q, m := Restruct.FindByName(p, d.node.ocname), BaseMap(d, p);
      && q.Cons? && q.node in Tops(p) && Match(d.node, q.node) && DistinctNames(q.kids) && Restruct.Embeds(d.kids, q.kids)
      && d.node in m && m[d.node] == q.node
      && (forall n :: n in NodeSet(d.kids) && n in BaseMap(d.kids, q.kids) ==> n in m && m[n] == BaseMap(d.kids, q.kids)[n])
      && (forall n :: n in NodeSet(d.rest) && n in BaseMap(d.rest, p) ==> n in m && m[n] == BaseMap(d.rest, p)[n])
  {
    OneTwin(d.node, d.kids, p);
    BaseMapKeys(d.kids, Restruct.FindByName(p, d.node.ocname).kids);
    BaseMapKeys(d.rest, p);
  }

  /** Every node of an embedded tree is mapped, to a matching node. */
  lemma {:induction false} EveryNodeMapped(d: Forest, p: Forest, n: CDFnode)
    requires Restruct.Embeds(d, p) && DistinctNames(p) && Distinct(d) && n in NodeSet(d)
    ensures n in BaseMap(d, p) && Match(n, BaseMap(d, p)[n])
    decreases d
  {
    BaseMapParts(d, p);
    if n in NodeSet(d.kids) {
      EveryNodeMapped(d.kids, Restruct.FindByName(p, d.node.ocname).kids, n);
    } else if n in NodeSet(d.rest) {
      EveryNodeMapped(d.rest, p, n);
    }
  }

  // The twin's container is the twin, by m, of n's container; at the top it is pparent.
  ghost predicate TwinsMeet(n: CDFnode, twin: CDFnode, m: map<CDFnode, CDFnode>, dparent: CDFnode?, pparent: CDFnode?)
    reads n`container, twin`container
  {
    if n.container == dparent then twin.container == pparent
    else n.container != null && n.container in m && twin.container == m[n.container]
  }

  /** The container of a node's twin is the twin of its container. */
  lemma {:induction false} TwinsCommute(d: Forest, p: Forest, dparent: CDFnode?, pparent: CDFnode?, n: CDFnode)
    requires Restruct.Embeds(d, p) && DistinctNames(p) && Distinct(d) && n in NodeSet(d)
    requires Linked(d, dparent) && Linked(p, pparent)
    requires dparent != null ==> dparent !in NodeSet(d)
    ensures n in BaseMap(d, p) && TwinsMeet(n, BaseMap(d, p)[n], BaseMap(d, p), dparent, pparent)
    decreases d
  {
    BaseMapParts(d, p);
    Restruct.LinkedParts(d.node, p, pparent, 0);
    if n in NodeSet(d.kids) {
      var q := Restruct.FindByName(p, d.node.ocname);
      TwinsCommute(d.kids, q.kids, d.node, q.node, n);
      ContainerInside(d.kids, d.node, n);
    } else if n in NodeSet(d.rest) {
      TwinsCommute(d.rest, p, dparent, pparent, n);
      ContainerInside(d.rest, dparent, n);
    }
  }

  lemma ContainerInside(f: Forest, parent: CDFnode?, n: CDFnode)
    requires Linked(f, parent) && n in NodeSet(f)
    ensures n.container == parent || (n.container != null && n.container in NodeSet(f))
  {
    LinkedMutually(f, parent, n);
  }

  // ---------- The assertion on the number of children ----------

  function Names(f: Forest): (r: set<string>) {
    if f.Nil? then {} else {f.node.ocname} + Names(f.rest)
  }

  lemma {:induction false} NamesOfTops(f: Forest, s: string)
    ensures s in Names(f) <==> exists i :: 0 <= i < |Tops(f)| && Tops(f)[i].ocname == s
  {
    if f.Cons? {
      NamesOfTops(f.rest, s);
      assert Tops(f)[0] == f.node;
      assert forall i :: 1 <= i < |Tops(f)| ==> Tops(f)[i] == Tops(f.rest)[i - 1];
      assert forall i :: 0 <= i < |Tops(f.rest)| ==> Tops(f)[i + 1] == Tops(f.rest)[i];
    }
  }

  lemma {:induction false} NamesAreTops(f: Forest)
    ensures forall s :: s in Names(f) <==> exists i :: 0 <= i < |Tops(f)| && Tops(f)[i].ocname == s
    ensures |Names(f)| <= |Tops(f)|
    ensures DistinctNames(f) ==> |Names(f)| == |Tops(f)|
  {
    forall s
      ensures s in Names(f) <==> exists i :: 0 <= i < |Tops(f)| && Tops(f)[i].ocname == s
    {
      NamesOfTops(f, s);
    }
    NumberOfNames(f);
  }

  lemma {:induction false} NumberOfNames(f: Forest)
    ensures |Names(f)| <= |Tops(f)|
    ensures DistinctNames(f) ==> |Names(f)| == |Tops(f)|
  {
    if f.Cons? {
      NumberOfNames(f.rest);
      if f.node.ocname in Names(f.rest) {
        NamesOfTops(f.rest, f.node.ocname);
        assert Names(f) == Names(f.rest);
      } else {
        assert |Names(f)| == |Names(f.rest)| + 1;
      }
    }
  }

  lemma {:induction false} EmbeddedNames(d: Forest, p: Forest)
    requires Restruct.Embeds(d, p) && DistinctNames(p)
    ensures Names(d) <= Names(p)
  {
    if d.Cons? {
      EmbeddedNames(d.rest, p);
      OneTwin(d.node, d.kids, p);
      NamesAreTops(p);
    }
  }

  /** With distinct names on both sides the assertion on the number of children holds everywhere. */
  lemma {:induction false} NeverPanics(d: Forest, p: Forest)
    requires Restruct.Embeds(d, p) && DistinctNames(p) && DistinctNames(d)
    ensures !Panics(d, p)
    decreases d, 1
  {
    EmbeddedNames(d, p);
    NamesAreTops(d);
    NamesAreTops(p);
    SubsetSize(Names(d), Names(p));
    NothingPanicsBelow(d, p);
  }

  lemma {:induction false} NothingPanicsBelow(d: Forest, p: Forest)
    requires Restruct.Embeds(d, p) && DistinctNames(p) && DistinctNames(d)
    ensures !PanicsBelow(d, p)
    decreases d, 0
  {
    if d.Cons? {
      OneTwin(d.node, d.kids, p);
      OneTwinPanics(d.node, d.kids, p);
      NeverPanics(d.kids, Restruct.FindByName(p, d.node.ocname).kids);
      NothingPanicsBelow(d.rest, p);
    }
  }

  lemma {:induction false} SubsetSize<T>(a: set<T>, b: set<T>)
    requires a <= b
    ensures |a| <= |b|
  {
    if a != {} {
      var x :| x in a;
      SubsetSize(a - {x}, b - {x});
    }
  }

  // ---------- The passes in place ----------

  // The basenode fields of a set of nodes.
  ghost function Bases(nodes: set<CDFnode>): (r: map<CDFnode, CDFnode?>)
    reads nodes`basenode
  {
    map n | n in nodes :: n.basenode
  }

  // The fields b after the assignments m.
  ghost function Assign(b: map<CDFnode, CDFnode?>, m: map<CDFnode, CDFnode>): (r: map<CDFnode, CDFnode?>) {
    map n | n in b :: if n in m then m[n] else b[n]
  }

  // The same assignments made one after the other, in the order of the recursion.
  ghost function Run(b: map<CDFnode, CDFnode?>, d: Forest, p: Forest): (r: map<CDFnode, CDFnode?>)
    decreases d, 0
  {
    if d.Nil? then b else Run(RunOne(b, d.node, d.kids, p), d.rest, p)
  }

  ghost function RunOne(b: map<CDFnode, CDFnode?>, n: CDFnode, kids: Forest, p: Forest): (r: map<CDFnode, CDFnode?>)
    decreases kids, 1, p
  {
    if p.Nil? then b
    else RunOne(if Match(p.node, n) then Run(b[n := p.node], kids, p.kids) else b, n, kids, p.rest)
  }

  lemma AssignTwice(b: map<CDFnode, CDFnode?>, m: map<CDFnode, CDFnode>, m': map<CDFnode, CDFnode>)
    ensures Assign(Assign(b, m), m') == Assign(b, m + m')
    ensures Assign(b, m).Keys == b.Keys
  {
  }

  lemma {:induction false} RunIsAssign(b: map<CDFnode, CDFnode?>, d: Forest, p: Forest)
    requires NodeSet(d) <= b.Keys
    ensures Run(b, d, p) == Assign(b, BaseMap(d, p))
    decreases d, 0
  {
    if d.Cons? {
      RunOneIsAssign(b, d.node, d.kids, p);
      var one := BaseOne(d.node, d.kids, p);
      AssignTwice(b, one, BaseMap(d.rest, p));
      RunIsAssign(Assign(b, one), d.rest, p);
    }
  }

  lemma {:induction false} RunOneIsAssign(b: map<CDFnode, CDFnode?>, n: CDFnode, kids: Forest, p: Forest)
    requires NodeSet(kids) + {n} <= b.Keys
    ensures RunOne(b, n, kids, p) == Assign(b, BaseOne(n, kids, p))
    decreases kids, 1, p
  {
    if p.Cons? {
      var first: map<CDFnode, CDFnode> := map[];
      if Match(p.node, n) {
        var here: map<CDFnode, CDFnode> := map[n := p.node];
        assert b[n := p.node] == Assign(b, here);
        RunIsAssign(b[n := p.node], kids, p.kids);
        AssignTwice(b, here, BaseMap(kids, p.kids));
        first := here + BaseMap(kids, p.kids);
      }
      AssignTwice(b, first, BaseOne(n, kids, p.rest));
      assert Assign(b, map[]) == b;
      RunOneIsAssign(Assign(b, first), n, kids, p.rest);
    }
  }

  /** mapnodesr: map connode to fullnode, then every child to each matching child. */
  method MapNodesR(connode: CDFnode, fullnode: CDFnode, ghost k: Forest, ghost q: Forest, ghost nodes: set<CDFnode>)
    returns (ok: bool)
    requires Match(connode, fullnode)
    requires connode.subnodes == Tops(k) && Linked(k, connode) && NodeSet(k) + {connode} <= nodes
    requires fullnode.subnodes == Tops(q) && Linked(q, fullnode)
    modifies nodes`basenode
    ensures ok == !Panics(k, q)
    ensures ok ==> Bases(nodes) == Run(old(Bases(nodes))[connode := fullnode], k, q)
    decreases k, 2
  {
    ghost var start := Bases(nodes)[connode := fullnode];
    connode.basenode := fullnode;
    assert Bases(nodes) == start;
    var consubnodes := connode.subnodes;
    if |consubnodes| > |fullnode.subnodes| {
      return false;
    }
    ok := MapChildren(connode, fullnode, k, q, nodes);
  }

  // The outer loop of mapnodesr.
  method MapChildren(connode: CDFnode, fullnode: CDFnode, ghost k: Forest, ghost q: Forest, ghost nodes: set<CDFnode>)
    returns (ok: bool)
    requires connode.subnodes == Tops(k) && Linked(k, connode) && NodeSet(k) <= nodes
    requires fullnode.subnodes == Tops(q) && Linked(q, fullnode)
    modifies nodes`basenode
    ensures ok == !PanicsBelow(k, q)
    ensures ok ==> Bases(nodes) == Run(old(Bases(nodes)), k, q)
    decreases k, 1
  {
    ghost var start := Bases(nodes);
    var consubnodes := connode.subnodes;
    ghost var todo := k;
    var i := 0;
    while i < |consubnodes|
      invariant 0 <= i <= |consubnodes| && Tops(todo) == consubnodes[i..]
      invariant todo == k || todo < k
      invariant BothLinked(todo, connode, q, fullnode) && NodeSet(todo) <= nodes
      invariant PanicsBelow(k, q) == PanicsBelow(todo, q)
      invariant Run(Bases(nodes), todo, q) == Run(start, k, q)
    {
      TopsStep(todo, consubnodes, i);
      ok := MapNext(consubnodes[i], connode, fullnode, todo, q, nodes);
      if !ok {
        return;
      }
      todo := todo.rest;
      i := i + 1;
    }
    ok := true;
  }

  ghost predicate BothLinked(d: Forest, dparent: CDFnode, p: Forest, pparent: CDFnode)
    reads NodeSet(d)`container, NodeSet(d)`subnodes, NodeSet(p)`container, NodeSet(p)`subnodes, pparent`subnodes
  {
    Linked(d, dparent) && Linked(p, pparent) && pparent.subnodes == Tops(p)
  }

  // One turn of the outer loop.
  method MapNext(sub: CDFnode, connode: CDFnode, fullnode: CDFnode, ghost todo: Forest, ghost q: Forest, ghost nodes: set<CDFnode>)
    returns (ok: bool)
    requires todo.Cons? && todo.node == sub && BothLinked(todo, connode, q, fullnode) && NodeSet(todo) <= nodes
    modifies nodes`basenode
    ensures BothLinked(todo.rest, connode, q, fullnode)
    ensures ok == !PanicsOne(sub, todo.kids, q)
    ensures ok ==> Bases(nodes) == RunOne(old(Bases(nodes)), sub, todo.kids, q)
    decreases todo, 0
  {
    NodesAllocated(todo);
    NodesAllocated(q);
    ok := MapChild(sub, fullnode, todo.kids, q, nodes);
    assert Linked(todo.rest, connode) && Linked(q, fullnode);
  }

  // The inner loop of mapnodesr: one child against all the children of fullnode.
  method MapChild(consubnode: CDFnode, fullnode: CDFnode, ghost kids: Forest, ghost q: Forest, ghost nodes: set<CDFnode>)
    returns (ok: bool)
    requires consubnode.subnodes == Tops(kids) && Linked(kids, consubnode) && NodeSet(kids) + {consubnode} <= nodes
    requires fullnode.subnodes == Tops(q) && Linked(q, fullnode)
    modifies nodes`basenode
    ensures ok == !PanicsOne(consubnode, kids, q)
    ensures ok ==> Bases(nodes) == RunOne(old(Bases(nodes)), consubnode, kids, q)
    decreases kids, 3
  {
    ghost var start := Bases(nodes);
    var fullsubnodes := fullnode.subnodes;
    NodesAllocated(kids);
    ghost var todo := q;
    var j := 0;
    while j < |fullsubnodes|
      invariant 0 <= j <= |fullsubnodes|
      invariant Tops(todo) == fullsubnodes[j..] && Linked(todo, fullnode)
      invariant consubnode.subnodes == Tops(kids) && Linked(kids, consubnode)
      invariant PanicsOne(consubnode, kids, q) == PanicsOne(consubnode, kids, todo)
      invariant RunOne(Bases(nodes), consubnode, kids, todo) == RunOne(start, consubnode, kids, q)
    {
      assert fullsubnodes[j..][1..] == fullsubnodes[j + 1..];
      NodesAllocated(todo);
      if Match(fullsubnodes[j], consubnode) {
        ok := MapNodesR(consubnode, fullsubnodes[j], kids, todo.kids, nodes);
        if !ok {
          return;
        }
      }
      assert Linked(todo, fullnode);
      todo := todo.rest;
      j := j + 1;
    }
    ok := true;
  }

  /** unmap: clear all associations of a tree. */
  method Unmap(tree: CDFtree)
    modifies tree.nodes`basenode
    ensures forall n :: n in tree.nodes ==> n.basenode == null
  {
    var nodes := tree.nodes;
    for i := 0 to |nodes|
      invariant forall k :: 0 <= k < i ==> nodes[k].basenode == null
    {
      nodes[i].basenode := null;
    }
  }

  /** mapnodes: link every node of the constrained tree to its twin in the full tree. */
  method MapNodes(tree: CDFtree, root: CDFnode, fullroot: CDFnode, ghost d: Forest, ghost p: Forest)
    returns (status: Status)
    requires IsTree(d) && d.node == root && Linked(d, null)
    requires IsTree(p) && p.node == fullroot && Linked(p, null)
    requires forall n :: n in NodeSet(d) ==> n in tree.nodes
    modifies tree.nodes`basenode
    ensures status == NC_EINVAL <==> !Match(root, fullroot)
    ensures status == Panic <==> Match(root, fullroot) && Panics(d.kids, p.kids)
    ensures status == NC_EINVAL ==> forall n :: n in tree.nodes ==> n.basenode == old(n.basenode)
    ensures status == NC_NOERR ==>
      forall n :: n in tree.nodes ==> n.basenode == if n in BaseMap(d, p) then BaseMap(d, p)[n] else null
  {
    if !Match(root, fullroot) {
      return NC_EINVAL;
    }
    NodesAllocated(d);
    NodesAllocated(p);
    Unmap(tree);
    ghost var nodes := set n | n in tree.nodes;
    ghost var cleared := Bases(nodes);
    assert Linked(d, null) && Linked(p, null);
    var ok := MapNodesR(root, fullroot, d.kids, p.kids, nodes);
    status := if ok then NC_NOERR else Panic;
    if ok {
      assert RunOne(cleared, root, d.kids, p) == Run(cleared[root := fullroot], d.kids, p.kids);
      assert Run(cleared, d, p) == RunOne(cleared, root, d.kids, p);
      RunIsAssign(cleared, d, p);
      forall n | n in tree.nodes
        ensures n.basenode == if n in BaseMap(d, p) then BaseMap(d, p)[n] else null
      {
        assert n in nodes && Bases(nodes)[n] == n.basenode && cleared[n] == null;
      }
    }
  }

  // ---------- What a mapped tree is like ----------

  // The basenode fields of the nodes of d, as mapnodes leaves them.
  ghost predicate Mapped(d: Forest, p: Forest)
    reads NodeSet(d)`basenode
  {
    forall n :: n in NodeSet(d) ==> n.basenode == if n in BaseMap(d, p) then BaseMap(d, p)[n] else null
  }

  /** In an embedded tree every node has a matching basenode, and basenode commutes with container. */
  lemma MappedTree(d: Forest, p: Forest, n: CDFnode)
    requires IsTree(d) && Linked(d, null) && Distinct(d)
    requires IsTree(p) && Linked(p, null) && DistinctNames(p)
    requires Restruct.Embeds(d, p) && Mapped(d, p) && n in NodeSet(d)
    ensures n.basenode != null && Match(n, n.basenode)
    ensures n.basenode.ocname == n.ocname && |n.basenode.dimset0| == |n.dimset0|
    ensures if n.nctype == Atomic then n.basenode.nctype == Atomic && n.basenode.etype == n.etype
            else n.basenode.nctype == n.nctype || {n.basenode.nctype, n.nctype} == {Grid, Structure}
    ensures if n.container == null then n.basenode.container == null
            else n.container in NodeSet(d) && n.basenode.container == n.container.basenode
  {
    EveryNodeMapped(d, p, n);
    TwinsCommute(d, p, null, null, n);
    ContainerInside(d, null, n);
  }

  /** The path to a node and the path to its basenode carry the same names. */
  lemma PathsAgree(d: Forest, p: Forest, path: seq<CDFnode>, twins: seq<CDFnode>)
    requires IsTree(d) && Linked(d, null) && Distinct(d)
    requires IsTree(p) && Linked(p, null) && DistinctNames(p)
    requires Restruct.Embeds(d, p) && Mapped(d, p)
    requires |twins| == |path| && IsPath(path)
    requires forall i :: 0 <= i < |path| ==> path[i] in NodeSet(d) && path[i].basenode == twins[i]
    ensures IsPath(twins)
    ensures forall i :: 0 <= i < |path| ==> twins[i].ocname == path[i].ocname
  {
    forall i | 0 <= i < |path|
      ensures twins[i].ocname == path[i].ocname
      ensures i == 0 ==> twins[i].container == null
      ensures i > 0 ==> twins[i].container == twins[i - 1]
    {
      MappedTree(d, p, path[i]);
      if i > 0 {
        assert path[(i - 1) + 1].container == path[i - 1];
        MappedTree(d, p, path[i - 1]);
      }
    }
  }

  /** After restruct, mapnodes finds a twin for every node, the synthesized structures included. */
  lemma RestructThenMap(d: Forest, p: Forest, w: map<CDFnode, CDFnode>, d': Forest, n: CDFnode)
    requires Restruct.Accepts(d, p) && Restruct.Restructured(d, p, w, d')
    requires Restruct.PlainGrids(p) && AtomicLeaves(d) && DistinctNames(p)
    requires Distinct(d') && n in NodeSet(d')
    ensures n in BaseMap(d', p) && Match(n, BaseMap(d', p)[n])
    ensures DistinctNames(d') ==> !Panics(d'.kids, p.kids)
  {
    Restruct.RestructuredEmbeds(d, p, w, d');
    EveryNodeMapped(d', p, n);
    if DistinctNames(d') {
      OneTwin(d'.node, d'.kids, p);
      OneTwinPanics(d'.node, d'.kids, p);
      NeverPanics(d'.kids, p.kids);
    }
  }

  // ---------- When the child-count assertion fails ----------

  // Somewhere the returned tree has more children than the pattern node they are compared with.
  predicate Crowded(d: Forest, p: Forest)
    decreases d, 1
  {
    |Tops(d)| > |Tops(p)| || CrowdedBelow(d, p)
  }

  predicate CrowdedBelow(d: Forest, p: Forest)
    decreases d, 0
  {
    d.Cons? &&
    ((Restruct.DirectMatch(d.node, p) && Crowded(d.kids, Restruct.FindByName(p, d.node.ocname).kids)) || CrowdedBelow(d.rest, p))
  }

  lemma {:induction false} WrapKeepsCount(f: Forest, w: map<CDFnode, CDFnode>)
    ensures |Tops(Restruct.Wrap(f, w))| == |Tops(f)|
  {
    if f.Cons? {
      WrapKeepsCount(f.rest, w);
    }
  }

  lemma EmbeddedHead(n: CDFnode, kids: Forest, rest: Forest, p: Forest)
    requires Restruct.Embeds(Cons(n, kids, rest), p)
    ensures Restruct.EmbedsOne(n, kids, p)
  {
  }

  // A stray node in its wrapper never panics: one child, against the fields of a grid.
  lemma WrappedStrayIsSafe(n: CDFnode, s: CDFnode, p: Forest)
    requires DistinctNames(p) && Restruct.PlainGrids(p)
    requires Restruct.EmbedsOne(s, Cons(n, Nil, Nil), p)
    ensures !PanicsOne(s, Cons(n, Nil, Nil), p)
  {
    var one := Cons(n, Nil, Nil);
    OneTwin(s, one, p);
    OneTwinPanics(s, one, p);
    var q := Restruct.FindByName(p, s.ocname).kids;
    EmbeddedHead(n, Nil, Nil, q);
    OneTwin(n, Nil, q);
    OneTwinPanics(n, Nil, q);
    assert Tops(one) == [n] + Tops(Nil) && Tops(q) == [q.node] + Tops(q.rest);
    var deeper := Restruct.FindByName(q, n.ocname).kids;
    assert !PanicsBelow(Nil, deeper) && !PanicsBelow(Nil, q);
    assert !Panics(Nil, deeper);
    assert !PanicsBelow(one, q);
  }

  lemma {:induction false} PanicsBelowIffCrowded(d: Forest, p: Forest, w: map<CDFnode, CDFnode>)
    requires Restruct.Walk(d, p, true).Some? && Restruct.GoodWrappers(d, p, w)
    requires Restruct.PlainGrids(p) && AtomicLeaves(d) && DistinctNames(p)
    ensures PanicsBelow(Restruct.Wrap(d, w), p) <==> CrowdedBelow(d, p)
    decreases d, 0
  {
    if d.Cons? {
      var n := d.node;
      PanicsBelowIffCrowded(d.rest, p, w);
      Restruct.RepairedTreeEmbeds(d, p, w);
      if Restruct.DirectMatch(n, p) {
        var q := Restruct.FindByName(p, n.ocname).kids;
        Restruct.NamedPartKeeps(p, n.ocname);
        EmbeddedHead(n, Restruct.Wrap(d.kids, w), Restruct.Wrap(d.rest, w), p);
        OneTwin(n, Restruct.Wrap(d.kids, w), p);
        OneTwinPanics(n, Restruct.Wrap(d.kids, w), p);
        PanicsIffCrowded(d.kids, q, w);
      } else {
        var g := Restruct.FindGrid(n, p, |Tops(p)|, true);
        Restruct.GridIsPlain(n, p, |Tops(p)|, true);
        Restruct.FieldIsAtomic(n, g.kids, |Tops(p)|);
        assert d.kids == Nil && Restruct.Wrap(d.kids, w) == Nil;
        assert Restruct.Wrap(d, w) == Cons(w[n], Cons(n, Nil, Nil), Restruct.Wrap(d.rest, w));
        EmbeddedHead(w[n], Cons(n, Nil, Nil), Restruct.Wrap(d.rest, w), p);
        WrappedStrayIsSafe(n, w[n], p);
      }
    }
  }

  /** After the repairs the assertion fails exactly when the tree was crowded as the server returned it. */
  lemma {:induction false} PanicsIffCrowded(d: Forest, p: Forest, w: map<CDFnode, CDFnode>)
    requires Restruct.Walk(d, p, true).Some? && Restruct.GoodWrappers(d, p, w)
    requires Restruct.PlainGrids(p) && AtomicLeaves(d) && DistinctNames(p)
    ensures Panics(Restruct.Wrap(d, w), p) <==> Crowded(d, p)
    decreases d, 1
  {
    WrapKeepsCount(d, w);
    PanicsBelowIffCrowded(d, p, w);
  }

  /** mapnodes after restruct panics exactly on the trees that came back crowded. */
  lemma MapPanicsIffCrowded(d: Forest, p: Forest, w: map<CDFnode, CDFnode>, d': Forest)
    requires Restruct.Accepts(d, p) && Restruct.Restructured(d, p, w, d')
    requires Restruct.PlainGrids(p) && AtomicLeaves(d) && DistinctNames(p)
    ensures Panics(d'.kids, p.kids) <==> Crowded(d.kids, p.kids)
  {
    PanicsIffCrowded(d.kids, p.kids, w);
  }

  /**
  An input for which it does: the two fields of a grid come back alone, beside the grid's only
  sibling.  They match the pattern's fields but are nodes of their own, as are their wrappers.
  */
  lemma TwoStrayFieldsPanic(grid: CDFnode, arr: CDFnode, axis: CDFnode, x: CDFnode,
                            a: CDFnode, b: CDFnode, c: CDFnode, s: CDFnode, t: CDFnode)
    requires grid.nctype == Grid && grid.Rank() == 0
    requires arr.nctype == Atomic && axis.nctype == Atomic && x.nctype == Atomic
    requires arr.ocname != axis.ocname && x.ocname !in [arr.ocname, axis.ocname, grid.ocname]
    requires grid.ocname !in [arr.ocname, axis.ocname]
    requires Match(a, arr) && Match(b, axis) && Match(c, x)
    requires {a, b, c, s, t} !! {grid, arr, axis, x} && s != t && {s, t} !! {a, b, c}
    requires Restruct.StandsFor(s, grid) && Restruct.StandsFor(t, grid)
    ensures var p := Cons(grid, Cons(arr, Nil, Cons(axis, Nil, Nil)), Cons(x, Nil, Nil));
      var d := Cons(a, Nil, Cons(b, Nil, Cons(c, Nil, Nil)));
      && Restruct.Walk(d, p, true) == Some([Restruct.Repair(a, arr), Restruct.Repair(b, axis)])
      && Restruct.GoodWrappers(d, p, map[a := s, b := t])
      && Panics(Restruct.Wrap(d, map[a := s, b := t]), p)
  {
    var last, sibling := Cons(axis, Nil, Nil), Cons(x, Nil, Nil);
    var fields := Cons(arr, Nil, last);
    var p := Cons(grid, fields, sibling);
    var d3 := Cons(c, Nil, Nil);
    var d2 := Cons(b, Nil, d3);
    var d := Cons(a, Nil, d2);
    assert Tops(sibling) == [x] + Tops(Nil) && Tops(p) == [grid] + Tops(sibling);
    assert forall n :: Restruct.FindByName(sibling, n) == if x.ocname == n then sibling else Nil;
    assert forall n :: Restruct.FindByName(p, n) == if grid.ocname == n then p else Restruct.FindByName(sibling, n);
    assert Restruct.FieldIn(a, fields, 2) == Some(arr);
    assert Restruct.FieldIn(b, last, 1) == Some(axis) && Restruct.FieldIn(b, fields, 2) == Some(axis);
    assert Restruct.FindGrid(a, p, 2, true) == p && Restruct.FindGrid(b, p, 2, true) == p;
    assert |Tops(p)| == 2 && !Restruct.DirectMatch(a, p) && !Restruct.DirectMatch(b, p);
    var none: seq<Restruct.Repair> := [];
    assert Restruct.Walk(Nil, p, true) == Some(none) && Restruct.Walk(Nil, Nil, true) == Some(none) && none + none == none;
    assert Restruct.Walk(d3, p, true) == Some(none);
    var second := [Restruct.Repair(b, axis)];
    assert second + none == second && Restruct.Walk(d2, p, true) == Some(second);
    assert [Restruct.Repair(a, arr)] + second == [Restruct.Repair(a, arr), Restruct.Repair(b, axis)];
    var w := map[a := s, b := t];
    assert forall q: Forest :: Restruct.GoodWrappers(Nil, q, w);
    assert Restruct.DirectMatch(c, p) && c !in w && d3.kids == Nil && d3.rest == Nil;
    assert Restruct.GoodWrappers(d3, p, w);
    assert b in w && w[b] == t && Restruct.GoodWrappers(d2, p, w);
    assert a in w && w[a] == s && Restruct.GoodWrappers(d, p, w);
    WrapKeepsCount(d, w);
    assert Tops(d3) == [c] + Tops(Nil) && Tops(d2) == [b] + Tops(d3) && Tops(d) == [a] + Tops(d2);
  }
}
