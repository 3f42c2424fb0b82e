/**
Inherited dimensions (definedimsettrans and definedimsets in libdap2/cdf.c): every node gets the
dimensions of its containers, cloned, followed by its own.
*/
module Dimsets {
  import opened CdfTree

  // ---------- What the lists must be ----------

  // The dimensions of the node itself; with `plus`, its string and sequence dimensions too.
  function Own(n: CDFnode, plus: bool): (r: seq<CDFnode>) {
    n.dimset0 +
    (if plus && n.stringdim != null then [n.stringdim] else []) +
    (if plus && n.seqdim != null then [n.seqdim] else [])
  }

  // c is a flagged copy of dimension d that belongs to v.
  predicate CloneOf(c: CDFnode, d: CDFnode, v: CDFnode) {
    c.nctype == Dimension && c.isClone && c.owner == v && c.ocname == d.ocname && c.declsize == d.declsize
  }

  predicate Clones(cs: seq<CDFnode>, ds: seq<CDFnode>, v: CDFnode) {
    |cs| == |ds| && forall k :: 0 <= k < |cs| ==> CloneOf(cs[k], ds[k], v)
  }

  // The list of v: clones of the dimensions of its container, then its own ones.
  predicate Inherits(list: seq<CDFnode>, up: seq<CDFnode>, own: seq<CDFnode>, v: CDFnode) {
    |list| == |up| + |own| && Clones(list[..|up|], up, v) && list[|up|..] == own
  }

  // The list of every node of the forest; `up` is the list of the container.
  predicate Defined(f: Forest, up: seq<CDFnode>, plus: bool, dims: map<CDFnode, seq<CDFnode>>)
    decreases f, 0
  {
    f.Cons? ==>
      && (f.node.nctype != Dimension ==> DefinedTree(f.node, f.kids, up, plus, dims))
      && Defined(f.rest, up, plus, dims)
  }

  predicate DefinedTree(node: CDFnode, kids: Forest, up: seq<CDFnode>, plus: bool, dims: map<CDFnode, seq<CDFnode>>)
    decreases kids, 1
  {
    node in dims && Inherits(dims[node], up, Own(node, plus), node) && Defined(kids, dims[node], plus, dims)
  }

  // The clones made for a forest, in the order in which they are made.
  function Made(f: Forest, up: nat, dims: map<CDFnode, seq<CDFnode>>): (r: seq<CDFnode>)
    decreases f, 0
  {
    if f.Nil? then []
    else MadeOne(f, up, dims) + Made(f.rest, up, dims)
  }

  // Those made for the first of the siblings.
  function MadeOne(f: Forest, up: nat, dims: map<CDFnode, seq<CDFnode>>): (r: seq<CDFnode>)
    requires f.Cons?
    decreases f.kids, 2
  {
    if f.node.nctype == Dimension then [] else MadeTree(f.node, f.kids, up, dims)
  }

  function MadeTree(node: CDFnode, kids: Forest, up: nat, dims: map<CDFnode, seq<CDFnode>>): (r: seq<CDFnode>)
    decreases kids, 1
  {
    if node !in dims || |dims[node]| < up then []
    else dims[node][..up] + Made(kids, |dims[node]|, dims)
  }

  ghost predicate Extends(more: map<CDFnode, seq<CDFnode>>, less: map<CDFnode, seq<CDFnode>>) {
    forall n :: n in less ==> n in more && more[n] == less[n]
  }

  lemma {:induction false} DefinedExtends(f: Forest, up: seq<CDFnode>, plus: bool, less: map<CDFnode, seq<CDFnode>>, more: map<CDFnode, seq<CDFnode>>)
    requires Defined(f, up, plus, less) && Extends(more, less)
    ensures Defined(f, up, plus, more) && Made(f, |up|, more) == Made(f, |up|, less)
  {
    if f.Cons? {
      DefinedExtends(f.rest, up, plus, less, more);
      if f.node.nctype != Dimension {
        DefinedExtends(f.kids, less[f.node], plus, less, more);
        assert MadeTree(f.node, f.kids, |up|, more) == MadeTree(f.node, f.kids, |up|, less);
      }
    }
  }

  // The siblings before `todo` are done.
  predicate Upto(all: Forest, todo: Forest, up: seq<CDFnode>, plus: bool, dims: map<CDFnode, seq<CDFnode>>) {
    all != todo ==>
      && all.Cons?
      && (all.node.nctype != Dimension ==> DefinedTree(all.node, all.kids, up, plus, dims))
      && Upto(all.rest, todo, up, plus, dims)
  }

  function MadeUpto(all: Forest, todo: Forest, up: nat, dims: map<CDFnode, seq<CDFnode>>): (r: seq<CDFnode>) {
    if all == todo || all.Nil? then []
    else MadeOne(all, up, dims) + MadeUpto(all.rest, todo, up, dims)
  }

  lemma {:induction false} UptoExtends(all: Forest, todo: Forest, up: seq<CDFnode>, plus: bool, less: map<CDFnode, seq<CDFnode>>, more: map<CDFnode, seq<CDFnode>>)
    requires Upto(all, todo, up, plus, less) && Extends(more, less)
    ensures Upto(all, todo, up, plus, more)
    ensures MadeUpto(all, todo, |up|, more) == MadeUpto(all, todo, |up|, less)
  {
    if all != todo {
      UptoExtends(all.rest, todo, up, plus, less, more);
      if all.node.nctype != Dimension {
        DefinedExtends(all.kids, less[all.node], plus, less, more);
        assert MadeTree(all.node, all.kids, |up|, more) == MadeTree(all.node, all.kids, |up|, less);
      }
    }
  }

  lemma {:induction false} UptoGrows(all: Forest, todo: Forest, up: seq<CDFnode>, plus: bool, dims: map<CDFnode, seq<CDFnode>>)
    requires Upto(all, todo, up, plus, dims) && todo.Cons?
    requires todo.node.nctype != Dimension ==> DefinedTree(todo.node, todo.kids, up, plus, dims)
    ensures Upto(all, todo.rest, up, plus, dims)
    ensures MadeUpto(all, todo.rest, |up|, dims) == MadeUpto(all, todo, |up|, dims) + MadeOne(todo, |up|, dims)
  {
    Larger(all, todo, up, plus, dims);
    if all != todo {
      UptoGrows(all.rest, todo, up, plus, dims);
    }
  }

  // A suffix of the siblings is no larger.
  lemma {:induction false} Larger(all: Forest, todo: Forest, up: seq<CDFnode>, plus: bool, dims: map<CDFnode, seq<CDFnode>>)
    requires Upto(all, todo, up, plus, dims)
    ensures |Tops(all)| >= |Tops(todo)|
  {
    if all != todo {
      Larger(all.rest, todo, up, plus, dims);
    }
  }

  lemma {:induction false} UptoEnd(all: Forest, up: seq<CDFnode>, plus: bool, dims: map<CDFnode, seq<CDFnode>>)
    requires Upto(all, Nil, up, plus, dims)
    ensures Defined(all, up, plus, dims) && Made(all, |up|, dims) == MadeUpto(all, Nil, |up|, dims)
  {
    if all.Cons? {
      UptoEnd(all.rest, up, plus, dims);
    }
  }

  // ---------- The methods ----------

  // clonedimset: new clones, recorded in the node list of the tree.
  method CloneDimset(tree: CDFtree, dimset: seq<CDFnode>, v: CDFnode) returns (r: seq<CDFnode>)
    modifies tree`nodes
    ensures Clones(r, dimset, v) && NoRepeats(r) && (forall n :: n in r ==> fresh(n))
    ensures tree.nodes == old(tree.nodes) + r
  {
    r := [];
    var i := 0;
    while i < |dimset|
      invariant 0 <= i <= |dimset| && Clones(r, dimset[..i], v) && NoRepeats(r)
      invariant forall n :: n in r ==> fresh(n)
      invariant tree.nodes == old(tree.nodes) + r
    {
      var clone := new CDFnode.CloneDim(dimset[i], v);
      tree.nodes := tree.nodes + [clone];
      assert clone !in r;
      r := r + [clone];
      i := i + 1;
    }
    assert dimset[..i] == dimset;
  }

  // definetransdimset: the list of one node.
  method DefineTransDimset(tree: CDFtree, node: CDFnode) returns (ghost made: seq<CDFnode>)
    modifies tree`nodes, node`dimsettrans
    ensures var up := if node.container == null then [] else old(node.container.dimsettrans).Elems();
      && node.dimsettrans.List?
      && Inherits(node.dimsettrans.elems, up, Own(node, false), node)
      && made == node.dimsettrans.elems[..|up|]
    ensures NoRepeats(made) && (forall n :: n in made ==> fresh(n)) && tree.nodes == old(tree.nodes) + made
  {
    var clones: seq<CDFnode> := [];
    if node.container != null {
      clones := CloneDimset(tree, node.container.dimsettrans.Elems(), node);
    }
    made := clones;
    node.dimsettrans := List(clones + node.dimset0);
    assert (clones + node.dimset0)[..|clones|] == clones;
    assert Own(node, false) == node.dimset0;
  }

  // definedimsetplus and definedimsetall: the two lists of one node.
  method DefineDimsetPlusAll(tree: CDFtree, node: CDFnode) returns (ghost made: seq<CDFnode>)
    modifies tree`nodes, node`dimsetplus, node`dimsetall
    ensures var up := if node.container == null then [] else old(node.container.dimsetall).Elems();
      && node.dimsetplus.Elems() == Own(node, true)
      && Inherits(node.dimsetall.Elems(), up, Own(node, true), node)
      && made == node.dimsetall.Elems()[..|up|]
    ensures NoRepeats(made) && (forall n :: n in made ==> fresh(n)) && tree.nodes == old(tree.nodes) + made
  {
    var dimset := node.dimset0;
    if node.stringdim != null {
      dimset := dimset + [node.stringdim];
    }
    if node.seqdim != null {
      dimset := dimset + [node.seqdim];
    }
    assert dimset == Own(node, true);
    var clones: seq<CDFnode> := [];
    if node.container != null {
      clones := CloneDimset(tree, node.container.dimsetall.Elems(), node);
    }
    made := clones;
    node.dimsetplus := if dimset == [] then NoList else List(dimset);
    node.dimsetall := if clones + dimset == [] then NoList else List(clones + dimset);
    assert (clones + dimset)[..|clones|] == clones;
  }

  // No list has been set yet, as the assertions in the loops demand.
  ghost predicate Unset(nodes: set<CDFnode>)
    reads nodes`dimsettrans, nodes`dimsetplus, nodes`dimsetall
  {
    forall n :: n in nodes ==> n.dimsettrans.NoList? && n.dimsetplus.NoList? && n.dimsetall.NoList?
  }

  // `up` is the list of the container, or empty at the root.
  predicate Container(parent: CDFnode?, up: seq<CDFnode>, dims: map<CDFnode, seq<CDFnode>>) {
    if parent == null then up == [] else parent in dims && dims[parent] == up
  }

  // Between two turns of a loop over `kids`.
  ghost predicate Progress(kids: Forest, todo: Forest, up: seq<CDFnode>, plus: bool, was: map<CDFnode, seq<CDFnode>>,
    dims: map<CDFnode, seq<CDFnode>>, made: seq<CDFnode>)
  {
    && NodeSet(todo) <= NodeSet(kids)
    && NodeSet(todo) !! dims.Keys
    && Extends(dims, was) && dims.Keys <= was.Keys + NodeSet(kids)
    && Upto(kids, todo, up, plus, dims)
    && made == MadeUpto(kids, todo, |up|, dims)
    && NoRepeats(made)
  }

  lemma ProgressGrows(kids: Forest, todo: Forest, up: seq<CDFnode>, plus: bool, was: map<CDFnode, seq<CDFnode>>,
    dims: map<CDFnode, seq<CDFnode>>, made: seq<CDFnode>, more: map<CDFnode, seq<CDFnode>>, added: seq<CDFnode>)
    requires Progress(kids, todo, up, plus, was, dims, made) && todo.Cons? && Distinct(todo)
    requires Extends(more, dims) && more.Keys <= dims.Keys + NodeSet(todo.kids) + {todo.node}
    requires todo.node.nctype != Dimension ==> DefinedTree(todo.node, todo.kids, up, plus, more)
    requires added == MadeOne(todo, |up|, more) && NoRepeats(added) && forall n :: n in made ==> n !in added
    ensures Progress(kids, todo.rest, up, plus, was, more, made + added)
  {
    UptoExtends(kids, todo, up, plus, dims, more);
    UptoGrows(kids, todo, up, plus, more);
    JoinFresh(made, added);
  }

  lemma ProgressEnd(kids: Forest, todo: Forest, up: seq<CDFnode>, plus: bool, was: map<CDFnode, seq<CDFnode>>,
    dims: map<CDFnode, seq<CDFnode>>, made: seq<CDFnode>)
    requires Progress(kids, todo, up, plus, was, dims, made) && Tops(todo) == []
    ensures Extends(dims, was) && dims.Keys <= was.Keys + NodeSet(kids)
    ensures Defined(kids, up, plus, dims) && made == Made(kids, |up|, dims) && NoRepeats(made)
  {
    UptoEnd(kids, up, plus, dims);
  }

  lemma Associate(a: seq<CDFnode>, b: seq<CDFnode>, c: seq<CDFnode>)
    ensures a + b + c == a + (b + c)
  {
  }

  lemma JoinFresh(a: seq<CDFnode>, b: seq<CDFnode>)
    requires NoRepeats(a) && NoRepeats(b) && forall n :: n in a ==> n !in b
    ensures NoRepeats(a + b)
  {
    forall i, j | 0 <= i < j < |a + b|
      ensures (a + b)[i] != (a + b)[j]
    {
      if i < |a| <= j {
        assert (a + b)[i] in a && (a + b)[j] in b;
      }
    }
  }

  // The lists that have been set so far.
  ghost predicate Trans(dims: map<CDFnode, seq<CDFnode>>)
    reads dims.Keys`dimsettrans
  {
    forall n :: n in dims ==> n.dimsettrans.Elems() == dims[n]
  }

  /** definedimsettransR. */
  method DefineTransR(tree: CDFtree, node: CDFnode, ghost f: Forest, ghost parent: CDFnode?, ghost up: seq<CDFnode>,
    ghost was: map<CDFnode, seq<CDFnode>>)
    returns (ghost dims: map<CDFnode, seq<CDFnode>>, ghost made: seq<CDFnode>)
    requires f.Cons? && f.node == node && Linked(f, parent) && Distinct(f) && Unset(NodeSet(f.kids))
    requires NodeSet(f.kids) + {node} !! was.Keys && Trans(was) && Container(parent, up, was)
    modifies tree`nodes, (NodeSet(f.kids) + {node})`dimsettrans
    ensures Extends(dims, was) && dims.Keys <= was.Keys + NodeSet(f.kids) + {node} && Trans(dims)
    ensures DefinedTree(node, f.kids, up, false, dims) && made == MadeTree(node, f.kids, |up|, dims)
    ensures NoRepeats(made) && (forall n :: n in made ==> fresh(n)) && tree.nodes == old(tree.nodes) + made
    decreases f, 1
  {
    NodesAllocated(f.kids);
    assert Linked(f.kids, node);
    ghost var own := DefineTransDimset(tree, node);
    ghost var mid := was[node := node.dimsettrans.Elems()];
    assert Linked(f.kids, node) && Unset(NodeSet(f.kids));
    ghost var below;
    dims, below := DefineTransChildren(tree, node, f.kids, mid);
    made := own + below;
    JoinFresh(own, below);
    Associate(old(tree.nodes), own, below);
  }

  // Between two turns of the loop in DefineTransLoop.  The loop compares it with true, so that it is
  // carried along as one fact instead of many.
  ghost predicate TransState(tree: CDFtree, kids: Forest, todo: Forest, node: CDFnode, up: seq<CDFnode>, was: map<CDFnode, seq<CDFnode>>,
    dims: map<CDFnode, seq<CDFnode>>, nodes: seq<CDFnode>, made: seq<CDFnode>)
    reads tree`nodes, NodeSet(todo), dims.Keys`dimsettrans
  {
    && Linked(todo, node) && Distinct(todo) && Unset(NodeSet(todo))
    && Trans(dims) && Container(node, up, dims)
    && Progress(kids, todo, up, false, was, dims, made)
    && tree.nodes == nodes + made
  }

  // The subnodes.
  method DefineTransChildren(tree: CDFtree, node: CDFnode, ghost kids: Forest, ghost was: map<CDFnode, seq<CDFnode>>)
    returns (ghost dims: map<CDFnode, seq<CDFnode>>, ghost made: seq<CDFnode>)
    requires node.subnodes == Tops(kids) && Linked(kids, node) && Distinct(kids) && Unset(NodeSet(kids))
    requires NodeSet(kids) !! was.Keys && Trans(was) && node in was
    modifies tree`nodes, NodeSet(kids)`dimsettrans
    ensures Extends(dims, was) && dims.Keys <= was.Keys + NodeSet(kids) && Trans(dims)
    ensures Defined(kids, was[node], false, dims) && made == Made(kids, |was[node]|, dims)
    ensures NoRepeats(made) && (forall n :: n in made ==> fresh(n)) && tree.nodes == old(tree.nodes) + made
    decreases kids, 5
  {
    ghost var nodes := tree.nodes;
    assert nodes == nodes + [];
    dims, made := DefineTransLoop(tree, node, kids, was[node], was, nodes);
    ProgressEnd(kids, Nil, was[node], false, was, dims, made);
  }

  method DefineTransLoop(tree: CDFtree, node: CDFnode, ghost kids: Forest, ghost up: seq<CDFnode>,
    ghost was: map<CDFnode, seq<CDFnode>>, ghost nodes: seq<CDFnode>)
    returns (ghost dims: map<CDFnode, seq<CDFnode>>, ghost made: seq<CDFnode>)
    requires node.subnodes == Tops(kids) && TransState(tree, kids, kids, node, up, was, was, nodes, [])
    modifies tree`nodes, NodeSet(kids)`dimsettrans
    ensures true == TransState(tree, kids, Nil, node, up, was, dims, nodes, made)
    ensures forall n :: n in made ==> fresh(n)
    decreases kids, 4
  {
    dims, made := was, [];
    ghost var todo := kids;
    var subnodes := node.subnodes;
    var i := 0;
    while i < |subnodes|
      invariant 0 <= i <= |subnodes| && Tops(todo) == subnodes[i..] && (todo == kids || todo < kids)
      invariant true == TransState(tree, kids, todo, node, up, was, dims, nodes, made)
      invariant forall n :: n in made ==> fresh(n)
    {
      TopsStep(todo, subnodes, i);
      dims, made := DefineTransNext(tree, subnodes[i], kids, todo, node, up, was, dims, nodes, made);
      todo := todo.rest;
      i := i + 1;
    }
  }

  // One turn of the loop.
  method DefineTransNext(tree: CDFtree, sub: CDFnode, ghost kids: Forest, ghost todo: Forest, ghost parent: CDFnode,
    ghost up: seq<CDFnode>, ghost first: map<CDFnode, seq<CDFnode>>, ghost was: map<CDFnode, seq<CDFnode>>,
    ghost nodes: seq<CDFnode>, ghost before: seq<CDFnode>)
    returns (ghost dims: map<CDFnode, seq<CDFnode>>, ghost made: seq<CDFnode>)
    requires todo.Cons? && todo.node == sub && TransState(tree, kids, todo, parent, up, first, was, nodes, before)
    modifies tree`nodes, (NodeSet(todo.kids) + {sub})`dimsettrans
    ensures TransState(tree, kids, todo.rest, parent, up, first, dims, nodes, made)
    ensures forall n :: n in made ==> n in before || fresh(n)
    decreases todo, 3
  {
    ghost var added;
    dims, added := DefineTransOne(tree, sub, todo, parent, up, was);
    ProgressGrows(kids, todo, up, false, first, was, before, dims, added);
    Associate(nodes, before, added);
    made := before + added;
  }

  // A child that is not a dimension is defined with all that is below it.
  method DefineTransOne(tree: CDFtree, sub: CDFnode, ghost todo: Forest, ghost parent: CDFnode, ghost up: seq<CDFnode>,
    ghost was: map<CDFnode, seq<CDFnode>>)
    returns (ghost dims: map<CDFnode, seq<CDFnode>>, ghost made: seq<CDFnode>)
    requires todo.Cons? && todo.node == sub && Linked(todo, parent) && Distinct(todo) && Unset(NodeSet(todo))
    requires NodeSet(todo) !! was.Keys && Trans(was) && Container(parent, up, was)
    modifies tree`nodes, (NodeSet(todo.kids) + {sub})`dimsettrans
    ensures Extends(dims, was) && dims.Keys <= was.Keys + NodeSet(todo.kids) + {sub} && Trans(dims)
    ensures Linked(todo.rest, parent) && Unset(NodeSet(todo.rest))
    ensures sub.nctype != Dimension ==> DefinedTree(sub, todo.kids, up, false, dims)
    ensures made == MadeOne(todo, |up|, dims)
    ensures NoRepeats(made) && (forall n :: n in made ==> fresh(n)) && tree.nodes == old(tree.nodes) + made
    decreases todo, 2
  {
    NodesAllocated(todo);
    dims, made := was, [];
    if sub.nctype != Dimension {
      assert sub.dimsettrans.NoList? && sub.dimsetplus.NoList? && sub.dimsetall.NoList?;
      dims, made := DefineTransR(tree, sub, todo, parent, up, was);
    }
    assert Linked(todo.rest, parent);
  }

  // The lists that have been set so far.
  ghost predicate All(dims: map<CDFnode, seq<CDFnode>>)
    reads dims.Keys`dimsetall, dims.Keys`dimsetplus
  {
    forall n :: n in dims ==> n.dimsetall.Elems() == dims[n] && n.dimsetplus.Elems() == Own(n, true)
  }

  /** definedimsetsR. */
  method DefineAllR(tree: CDFtree, node: CDFnode, ghost f: Forest, ghost parent: CDFnode?, ghost up: seq<CDFnode>,
    ghost was: map<CDFnode, seq<CDFnode>>)
    returns (ghost dims: map<CDFnode, seq<CDFnode>>, ghost made: seq<CDFnode>)
    requires f.Cons? && f.node == node && Linked(f, parent) && Distinct(f) && Unset(NodeSet(f.kids))
    requires NodeSet(f.kids) + {node} !! was.Keys && All(was) && Container(parent, up, was)
    modifies tree`nodes, (NodeSet(f.kids) + {node})`dimsetall, (NodeSet(f.kids) + {node})`dimsetplus
    ensures Extends(dims, was) && dims.Keys <= was.Keys + NodeSet(f.kids) + {node} && All(dims)
    ensures DefinedTree(node, f.kids, up, true, dims) && made == MadeTree(node, f.kids, |up|, dims)
    ensures NoRepeats(made) && (forall n :: n in made ==> fresh(n)) && tree.nodes == old(tree.nodes) + made
    decreases f, 1
  {
    NodesAllocated(f.kids);
    assert Linked(f.kids, node);
    ghost var own := DefineDimsetPlusAll(tree, node);
    ghost var mid := was[node := node.dimsetall.Elems()];
    assert Linked(f.kids, node) && Unset(NodeSet(f.kids));
    ghost var below;
    dims, below := DefineAllChildren(tree, node, f.kids, mid);
    made := own + below;
    JoinFresh(own, below);
    Associate(old(tree.nodes), own, below);
  }

  // The same for DefineAllLoop.
  ghost predicate AllState(tree: CDFtree, kids: Forest, todo: Forest, node: CDFnode, up: seq<CDFnode>, was: map<CDFnode, seq<CDFnode>>,
    dims: map<CDFnode, seq<CDFnode>>, nodes: seq<CDFnode>, made: seq<CDFnode>)
    reads tree`nodes, NodeSet(todo), dims.Keys`dimsetall, dims.Keys`dimsetplus
  {
    && Linked(todo, node) && Distinct(todo) && Unset(NodeSet(todo))
    && All(dims) && Container(node, up, dims)
    && Progress(kids, todo, up, true, was, dims, made)
    && tree.nodes == nodes + made
  }

  // The subnodes.
  method DefineAllChildren(tree: CDFtree, node: CDFnode, ghost kids: Forest, ghost was: map<CDFnode, seq<CDFnode>>)
    returns (ghost dims: map<CDFnode, seq<CDFnode>>, ghost made: seq<CDFnode>)
    requires node.subnodes == Tops(kids) && Linked(kids, node) && Distinct(kids) && Unset(NodeSet(kids))
    requires NodeSet(kids) !! was.Keys && All(was) && node in was
    modifies tree`nodes, NodeSet(kids)`dimsetall, NodeSet(kids)`dimsetplus
    ensures Extends(dims, was) && dims.Keys <= was.Keys + NodeSet(kids) && All(dims)
    ensures Defined(kids, was[node], true, dims) && made == Made(kids, |was[node]|, dims)
    ensures NoRepeats(made) && (forall n :: n in made ==> fresh(n)) && tree.nodes == old(tree.nodes) + made
    decreases kids, 5
  {
    ghost var nodes := tree.nodes;
    assert nodes == nodes + [];
    dims, made := DefineAllLoop(tree, node, kids, was[node], was, nodes);
    ProgressEnd(kids, Nil, was[node], true, was, dims, made);
  }

  method DefineAllLoop(tree: CDFtree, node: CDFnode, ghost kids: Forest, ghost up: seq<CDFnode>,
    ghost was: map<CDFnode, seq<CDFnode>>, ghost nodes: seq<CDFnode>)
    returns (ghost dims: map<CDFnode, seq<CDFnode>>, ghost made: seq<CDFnode>)
    requires node.subnodes == Tops(kids) && AllState(tree, kids, kids, node, up, was, was, nodes, [])
    modifies tree`nodes, NodeSet(kids)`dimsetall, NodeSet(kids)`dimsetplus
    ensures true == AllState(tree, kids, Nil, node, up, was, dims, nodes, made)
    ensures forall n :: n in made ==> fresh(n)
    decreases kids, 4
  {
    dims, made := was, [];
    ghost var todo := kids;
    var subnodes := node.subnodes;
    var i := 0;
    while i < |subnodes|
      invariant 0 <= i <= |subnodes| && Tops(todo) == subnodes[i..] && (todo == kids || todo < kids)
      invariant true == AllState(tree, kids, todo, node, up, was, dims, nodes, made)
      invariant forall n :: n in made ==> fresh(n)
    {
      TopsStep(todo, subnodes, i);
      dims, made := DefineAllNext(tree, subnodes[i], kids, todo, node, up, was, dims, nodes, made);
      todo := todo.rest;
      i := i + 1;
    }
  }

  // One turn of the loop.
  method DefineAllNext(tree: CDFtree, sub: CDFnode, ghost kids: Forest, ghost todo: Forest, ghost parent: CDFnode,
    ghost up: seq<CDFnode>, ghost first: map<CDFnode, seq<CDFnode>>, ghost was: map<CDFnode, seq<CDFnode>>,
    ghost nodes: seq<CDFnode>, ghost before: seq<CDFnode>)
    returns (ghost dims: map<CDFnode, seq<CDFnode>>, ghost made: seq<CDFnode>)
    requires todo.Cons? && todo.node == sub && AllState(tree, kids, todo, parent, up, first, was, nodes, before)
    modifies tree`nodes, (NodeSet(todo.kids) + {sub})`dimsetall, (NodeSet(todo.kids) + {sub})`dimsetplus
    ensures AllState(tree, kids, todo.rest, parent, up, first, dims, nodes, made)
    ensures forall n :: n in made ==> n in before || fresh(n)
    decreases todo, 3
  {
    ghost var added;
    dims, added := DefineAllOne(tree, sub, todo, parent, up, was);
    ProgressGrows(kids, todo, up, true, first, was, before, dims, added);
    Associate(nodes, before, added);
    made := before + added;
  }

  // A child that is not a dimension is defined with all that is below it.
  method DefineAllOne(tree: CDFtree, sub: CDFnode, ghost todo: Forest, ghost parent: CDFnode, ghost up: seq<CDFnode>,
    ghost was: map<CDFnode, seq<CDFnode>>)
    returns (ghost dims: map<CDFnode, seq<CDFnode>>, ghost made: seq<CDFnode>)
    requires todo.Cons? && todo.node == sub && Linked(todo, parent) && Distinct(todo) && Unset(NodeSet(todo))
    requires NodeSet(todo) !! was.Keys && All(was) && Container(parent, up, was)
    modifies tree`nodes, (NodeSet(todo.kids) + {sub})`dimsetall, (NodeSet(todo.kids) + {sub})`dimsetplus
    ensures Extends(dims, was) && dims.Keys <= was.Keys + NodeSet(todo.kids) + {sub} && All(dims)
    ensures Linked(todo.rest, parent) && Unset(NodeSet(todo.rest))
    ensures sub.nctype != Dimension ==> DefinedTree(sub, todo.kids, up, true, dims)
    ensures made == MadeOne(todo, |up|, dims)
    ensures NoRepeats(made) && (forall n :: n in made ==> fresh(n)) && tree.nodes == old(tree.nodes) + made
    decreases todo, 2
  {
    NodesAllocated(todo);
    dims, made := was, [];
    if sub.nctype != Dimension {
      assert sub.dimsettrans.NoList? && sub.dimsetplus.NoList? && sub.dimsetall.NoList?;
      dims, made := DefineAllR(tree, sub, todo, parent, up, was);
    }
    assert Linked(todo.rest, parent);
  }

  // ---------- What the lists mean ----------

  // The sizes of the dimensions of all nodes on a path, from the root down.
  function PathSizes(path: seq<CDFnode>, plus: bool): (r: seq<nat>) {
    if path == [] then [] else SizesOf(Own(path[0], plus)) + PathSizes(path[1..], plus)
  }

  // No node on the path is a dimension: the walks reach its end.
  predicate Structural(path: seq<CDFnode>)
    ensures Structural(path) <==> forall m :: m in path ==> m.nctype != Dimension
  {
    assert path != [] ==> path == [path[0]] + path[1..];
    path != [] ==> path[0].nctype != Dimension && Structural(path[1..])
  }

  lemma InheritedSizes(list: seq<CDFnode>, up: seq<CDFnode>, own: seq<CDFnode>, v: CDFnode)
    requires Inherits(list, up, own, v)
    ensures SizesOf(list) == SizesOf(up) + SizesOf(own)
  {
    var clones := list[..|up|];
    assert forall k :: 0 <= k < |up| ==> clones[k].declsize == up[k].declsize;
    assert SizesOf(clones) == SizesOf(up);
    assert list == clones + own;
  }

  /** The sizes in the list of a node are those of all dimensions from the root down to it. */
  lemma {:induction false} AlongPath(f: Forest, up: seq<CDFnode>, plus: bool, dims: map<CDFnode, seq<CDFnode>>, n: CDFnode)
    requires Defined(f, up, plus, dims) && n in NodeSet(f) && Structural(PathTo(f, n))
    ensures n in dims && SizesOf(dims[n]) == SizesOf(up) + PathSizes(PathTo(f, n), plus)
  {
    var path := PathTo(f, n);
    if n == f.node {
      InheritedSizes(dims[n], up, Own(n, plus), n);
      assert path[1..] == [] && SizesOf(Own(n, plus)) + [] == SizesOf(Own(n, plus));
    } else if n in NodeSet(f.kids) {
      assert path[1..] == PathTo(f.kids, n);
      AlongPath(f.kids, dims[f.node], plus, dims, n);
      InheritedSizes(dims[f.node], up, Own(f.node, plus), f.node);
    } else {
      AlongPath(f.rest, up, plus, dims, n);
    }
  }

  /** The list of a node is that of its container, cloned, and its own dimensions; every clone is recorded. */
  lemma {:induction false} FromContainer(f: Forest, parent: CDFnode?, up: seq<CDFnode>, plus: bool, dims: map<CDFnode, seq<CDFnode>>, n: CDFnode)
    requires Defined(f, up, plus, dims) && Linked(f, parent) && n in NodeSet(f) && Structural(PathTo(f, n))
    requires Container(parent, up, dims)
    ensures n in dims && (n.container != null ==> n.container in dims)
    ensures Inherits(dims[n], if n.container == null then [] else dims[n.container], Own(n, plus), n)
    ensures forall k :: 0 <= k < |dims[n]| - |Own(n, plus)| ==> dims[n][k] in Made(f, |up|, dims)
  {
    var path := PathTo(f, n);
    if n == f.node {
      assert forall k :: 0 <= k < |up| ==> dims[n][k] in dims[n][..|up|];
      assert MadeOne(f, |up|, dims) == dims[n][..|up|] + Made(f.kids, |dims[n]|, dims);
    } else if n in NodeSet(f.kids) {
      assert path[1..] == PathTo(f.kids, n);
      FromContainer(f.kids, f.node, dims[f.node], plus, dims, n);
      assert MadeOne(f, |up|, dims) == dims[f.node][..|up|] + Made(f.kids, |dims[f.node]|, dims);
    } else {
      FromContainer(f.rest, parent, up, plus, dims, n);
    }
  }

  // How many clones a forest needs: each node one for every dimension above it.
  function ClonesFor(f: Forest, up: nat, plus: bool): (r: nat) {
    if f.Nil? then 0
    else (if f.node.nctype == Dimension then 0 else up + ClonesFor(f.kids, up + |Own(f.node, plus)|, plus)) + ClonesFor(f.rest, up, plus)
  }

  lemma {:induction false} MadeLength(f: Forest, up: seq<CDFnode>, plus: bool, dims: map<CDFnode, seq<CDFnode>>)
    requires Defined(f, up, plus, dims)
    ensures |Made(f, |up|, dims)| == ClonesFor(f, |up|, plus)
  {
    if f.Cons? {
      MadeLength(f.rest, up, plus, dims);
      if f.node.nctype != Dimension {
        MadeLength(f.kids, dims[f.node], plus, dims);
        assert MadeOne(f, |up|, dims) == dims[f.node][..|up|] + Made(f.kids, |dims[f.node]|, dims);
      }
    }
  }

  // The list of node n is what it should be, given that of its container and the clones made.
  ghost predicate ListRight(f: Forest, n: CDFnode, list: seq<CDFnode>, up: seq<CDFnode>, plus: bool, made: seq<CDFnode>)
    requires n in NodeSet(f)
  {
    && SizesOf(list) == PathSizes(PathTo(f, n), plus)
    && Inherits(list, up, Own(n, plus), n)
    && forall k :: 0 <= k < |up| ==> list[k] in made
  }

  lemma ListsRight(f: Forest, plus: bool, dims: map<CDFnode, seq<CDFnode>>, made: seq<CDFnode>)
    requires IsTree(f) && Linked(f, null) && f.node.nctype != Dimension
    requires DefinedTree(f.node, f.kids, [], plus, dims) && made == MadeTree(f.node, f.kids, 0, dims)
    ensures forall n :: n in NodeSet(f) && Structural(PathTo(f, n)) ==>
      && n in dims
      && (n.container != null ==> n.container in dims)
      && ListRight(f, n, dims[n], if n.container == null then [] else dims[n.container], plus, made)
    ensures |made| == ClonesFor(f, 0, plus)
  {
    assert Made(f.rest, 0, dims) == [];
    assert Made(f, 0, dims) == MadeOne(f, 0, dims) + [] == made;
    MadeLength(f, [], plus, dims);
    forall n | n in NodeSet(f) && Structural(PathTo(f, n))
      ensures n in dims && (n.container != null ==> n.container in dims)
      ensures ListRight(f, n, dims[n], if n.container == null then [] else dims[n.container], plus, made)
    {
      AlongPath(f, [], plus, dims, n);
      FromContainer(f, null, [], plus, dims, n);
    }
  }

  lemma OwnSizes(m: CDFnode)
    ensures SizesOf(Own(m, true)) == SizesOf(m.dimset0)
      + (if m.stringdim != null then [m.stringdim.declsize] else [])
      + (if m.seqdim != null then [m.seqdim.declsize] else [])
  {
    var s, q := if m.stringdim != null then [m.stringdim] else [], if m.seqdim != null then [m.seqdim] else [];
    assert SizesOf(m.dimset0 + s + q) == SizesOf(m.dimset0) + SizesOf(s) + SizesOf(q);
  }

  /** Below nodes without pseudo-dimensions, the two passes differ by its own string and sequence dimensions. */
  lemma {:induction false} PassesAgree(path: seq<CDFnode>)
    requires path != [] && forall i :: 0 <= i < |path| - 1 ==> path[i].stringdim == null && path[i].seqdim == null
    ensures var n := path[|path| - 1];
      PathSizes(path, true) == PathSizes(path, false)
        + (if n.stringdim != null then [n.stringdim.declsize] else [])
        + (if n.seqdim != null then [n.seqdim.declsize] else [])
  {
    var m := path[0];
    assert Own(m, false) == m.dimset0;
    if |path| == 1 {
      OwnSizes(m);
      assert PathSizes(path[1..], true) == [] && PathSizes(path[1..], false) == [];
    } else {
      assert Own(m, true) == m.dimset0;
      PassesAgree(path[1..]);
    }
  }

  /** The same for the two lists that the passes leave in a node. */
  lemma PassesCompared(f: Forest, n: CDFnode, made: seq<CDFnode>, more: seq<CDFnode>)
    requires n in NodeSet(f) && Linked(f, null)
    requires ListRight(f, n, n.dimsettrans.Elems(), if n.container == null then [] else n.container.dimsettrans.Elems(), false, made)
    requires ListRight(f, n, n.dimsetall.Elems(), if n.container == null then [] else n.container.dimsetall.Elems(), true, more)
    requires forall m :: m in PathTo(f, n) && m != n ==> m.stringdim == null && m.seqdim == null
    requires NoRepeats(PathTo(f, n))
    ensures SizesOf(n.dimsetall.Elems()) == SizesOf(n.dimsettrans.Elems())
      + (if n.stringdim != null then [n.stringdim.declsize] else [])
      + (if n.seqdim != null then [n.seqdim.declsize] else [])
  {
    PathToIsPath(f, null, n);
    PassesAgree(PathTo(f, n));
  }

  // A list starts with flagged copies, for v, of the dimensions of its container.
  ghost predicate StartsWithCopies(list: seq<CDFnode>, up: seq<CDFnode>, v: CDFnode)
    ensures StartsWithCopies(list, up, v) <==> |up| <= |list| && forall k :: 0 <= k < |up| ==>
      list[k].nctype == Dimension && list[k].isClone && list[k].owner == v && list[k].ocname == up[k].ocname &&
      list[k].declsize == up[k].declsize
  {
    |up| <= |list| && Clones(list[..|up|], up, v)
  }

  /** definedimsettrans: the declared dimensions of a node and of all its containers. */
  method DefineDimsetTrans(tree: CDFtree, ghost f: Forest) returns (ghost made: seq<CDFnode>)
    requires IsTree(f) && f.node == tree.root && Linked(f, null) && Distinct(f) && Unset(NodeSet(f)) && f.node.nctype != Dimension
    modifies tree`nodes, NodeSet(f)`dimsettrans
    ensures forall n :: n in NodeSet(f) && Structural(PathTo(f, n)) ==>
      ListRight(f, n, n.dimsettrans.Elems(), if n.container == null then [] else n.container.dimsettrans.Elems(), false, made)
    ensures forall n :: n in NodeSet(f) && Structural(PathTo(f, n)) ==>
      var list, up := n.dimsettrans.Elems(), if n.container == null then [] else n.container.dimsettrans.Elems();
      StartsWithCopies(list, up, n) && list[|up|..] == n.dimset0
    ensures NoRepeats(made) && (forall n :: n in made ==> fresh(n)) && tree.nodes == old(tree.nodes) + made
    ensures |made| == ClonesFor(f, 0, false)
  {
    NodesAllocated(f);
    ghost var dims;
    dims, made := DefineTransR(tree, tree.root, f, null, [], map[]);
    assert Linked(f, null);
    ListsRight(f, false, dims, made);
  }

  /** definedimsets: the same with string and sequence dimensions. */
  method DefineDimsets(tree: CDFtree, ghost f: Forest) returns (ghost made: seq<CDFnode>)
    requires IsTree(f) && f.node == tree.root && Linked(f, null) && Distinct(f) && Unset(NodeSet(f)) && f.node.nctype != Dimension
    modifies tree`nodes, NodeSet(f)`dimsetall, NodeSet(f)`dimsetplus
    ensures forall n :: n in NodeSet(f) && Structural(PathTo(f, n)) ==>
      ListRight(f, n, n.dimsetall.Elems(), if n.container == null then [] else n.container.dimsetall.Elems(), true, made)
    ensures forall n :: n in NodeSet(f) && Structural(PathTo(f, n)) ==>
      n.dimsetplus.Elems() ==
        n.dimset0 + (if n.stringdim != null then [n.stringdim] else []) + (if n.seqdim != null then [n.seqdim] else [])
    ensures forall n :: n in NodeSet(f) && Structural(PathTo(f, n)) ==>
      var list, up := n.dimsetall.Elems(), if n.container == null then [] else n.container.dimsetall.Elems();
      StartsWithCopies(list, up, n) && list[|up|..] == n.dimsetplus.Elems()
    ensures NoRepeats(made) && (forall n :: n in made ==> fresh(n)) && tree.nodes == old(tree.nodes) + made
    ensures |made| == ClonesFor(f, 0, true)
  {
    NodesAllocated(f);
    ghost var dims;
    dims, made := DefineAllR(tree, tree.root, f, null, [], map[]);
    assert Linked(f, null);
    ListsRight(f, true, dims, made);
  }
}
