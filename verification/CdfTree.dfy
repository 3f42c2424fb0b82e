/**
The node trees of the DAP2 client (`CDFnode`, `CDFtree`) and the shape predicates that the
tree passes share.

A tree of heap nodes is described by a ghost `Forest`: a list of sibling nodes, each with the
forest of its children.  Recursion over the heap is then structural recursion over the forest,
and `Linked` says that the `container` and `subnodes` fields agree with it.
*/
module CdfTree {

  datatype NodeKind = Dataset | Sequence | Structure | Grid | Dimension | Atomic

  const NC_MAX_NAME: nat := 256

  // Every node is built by makecdfnode, which cuts names to NC_MAX_NAME-1 characters.
  type NodeName = s: string | |s| < NC_MAX_NAME witness ""

  function CutName(s: string): (r: NodeName)
    ensures |s| < NC_MAX_NAME ==> r == s
    ensures r <= s
  {
    if |s| < NC_MAX_NAME then s else s[..NC_MAX_NAME - 1]
  }

  // An NClist* field: the null pointer counts as a list of length 0.
  datatype NodeList = NoList | List(elems: seq<CDFnode>) {
    function Elems(): seq<CDFnode> {
      if NoList? then [] else elems
    }
  }

  class CDFnode {
    const nctype: NodeKind
    const etype: int
    const ocname: NodeName
    const dimset0: seq<CDFnode>   // dimensions declared for this node
    const declsize: nat           // of a dimension node
    const declsize0: nat          // of a dimension node: its size in the full tree
    const isClone: bool           // dimension flag CDFDIMCLONE
    const owner: CDFnode?         // dim.array: the node a dimension belongs to
    const stringdim: CDFnode?
    const seqdim: CDFnode?
    const isVirtual: bool         // nc_virtual: made by restruct, not by the server

    var container: CDFnode?
    var subnodes: seq<CDFnode>
    var basenode: CDFnode?
    var usesequence: bool
    var sequence: CDFnode?        // innermost enclosing sequence of a variable
    var ncfullname: string
    var basevar: CDFnode?
    var prefetchable: bool        // small enough, and not in a sequence
    var dimsettrans: NodeList
    var dimsetplus: NodeList
    var dimsetall: NodeList

    function Rank(): nat {
      |dimset0|
    }

    // makecdfnode as makenewstruct uses it: no dimensions, no children yet, nc_virtual set.
    constructor MakeVirtual(name: string, kind: NodeKind, elemtype: int, parent: CDFnode?)
      ensures ocname == CutName(name) && nctype == kind && etype == elemtype && dimset0 == []
      ensures container == parent && subnodes == [] && isVirtual
    {
      ocname, nctype, etype, dimset0 := CutName(name), kind, elemtype, [];
      declsize, isClone, owner, stringdim, seqdim := 0, false, null, null, null;
      container, subnodes, isVirtual := parent, [], true;
      basenode, usesequence, sequence, ncfullname, basevar := null, false, null, "", null;
      prefetchable, declsize0, dimsettrans, dimsetplus, dimsetall := false, 0, NoList, NoList, NoList;
    }

    // clonedim: the same dimension, flagged as a clone that belongs to `variable`.
    constructor CloneDim(dim: CDFnode, variable: CDFnode)
      ensures ocname == dim.ocname && nctype == Dimension && container == dim.container
      ensures declsize == dim.declsize && isClone && owner == variable && dimset0 == []
    {
      ocname, nctype, etype, dimset0 := dim.ocname, Dimension, 0, [];
      declsize, isClone, owner, stringdim, seqdim := dim.declsize, true, variable, null, null;
      container, subnodes, isVirtual := dim.container, [], false;
      basenode, usesequence, sequence, ncfullname, basevar := null, false, null, "", null;
      prefetchable, declsize0, dimsettrans, dimsetplus, dimsetall := false, dim.declsize0, NoList, NoList, NoList;
    }
  }

  class CDFtree {
    const root: CDFnode
    var nodes: seq<CDFnode>       // every node of the tree, in creation order
    var restructed: bool

    constructor (r: CDFnode, all: seq<CDFnode>)
      ensures root == r && nodes == all && !restructed
    {
      root, nodes, restructed := r, all, false;
    }
  }

  predicate NoRepeats(s: seq<CDFnode>) {
    forall i, j :: 0 <= i < j < |s| ==> s[i] != s[j]
  }

  // The sizes of a list of dimensions.
  function SizesOf(dims: seq<CDFnode>): (r: seq<nat>)
    ensures |r| == |dims| && forall i :: 0 <= i < |r| ==> r[i] == dims[i].declsize
  {
    seq(|dims|, i requires 0 <= i < |dims| => dims[i].declsize)
  }

  /** simplenodematch on two nodes, with the Columbia server flag off. */
  predicate Match(a: CDFnode, b: CDFnode) {
    && a.ocname == b.ocname
    && a.Rank() == b.Rank()
    && (a.nctype == b.nctype
        || (a.nctype == Grid && b.nctype == Structure)
        || (a.nctype == Structure && b.nctype == Grid))
    && (a.nctype == Atomic ==> a.etype == b.etype)
  }

  lemma MatchIsEquivalence(a: CDFnode, b: CDFnode, c: CDFnode)
    ensures Match(a, b) <==>
      && a.ocname == b.ocname && |a.dimset0| == |b.dimset0|
      && (if a.nctype == Atomic then b.nctype == Atomic && a.etype == b.etype
          else a.nctype == b.nctype || {a.nctype, b.nctype} == {Grid, Structure})
    ensures Match(a, a)
    ensures Match(a, b) == Match(b, a)
    ensures Match(a, b) && Match(b, c) ==> Match(a, c)
  {
  }

  // ---------- Shapes ----------

  datatype Forest = Nil | Cons(node: CDFnode, kids: Forest, rest: Forest)

  // The siblings at the top of a forest, in order.
  function Tops(f: Forest): (r: seq<CDFnode>) {
    if f.Nil? then [] else [f.node] + Tops(f.rest)
  }

  function NodeSet(f: Forest): (r: set<CDFnode>) {
    if f.Nil? then {} else {f.node} + NodeSet(f.kids) + NodeSet(f.rest)
  }

  // No node occurs twice.
  predicate Distinct(f: Forest) {
    f.Cons? ==>
      && f.node !in NodeSet(f.kids)
      && f.node !in NodeSet(f.rest)
      && NodeSet(f.kids) !! NodeSet(f.rest)
      && Distinct(f.kids)
      && Distinct(f.rest)
  }

  // Parent and child links agree with the shape; the top siblings are children of `parent`.
  ghost predicate Linked(f: Forest, parent: CDFnode?)
    reads NodeSet(f)`container, NodeSet(f)`subnodes
  {
    f.Cons? ==>
      && f.node.container == parent
      && f.node.subnodes == Tops(f.kids)
      && Linked(f.kids, f.node)
      && Linked(f.rest, parent)
  }

  // One node with its children, without its siblings.
  predicate IsTree(f: Forest) {
    f.Cons? && f.rest.Nil?
  }

  // Atomic nodes have no children.
  predicate AtomicLeaves(f: Forest) {
    f.Cons? ==>
      && (f.node.nctype == Atomic ==> f.kids.Nil?)
      && AtomicLeaves(f.kids)
      && AtomicLeaves(f.rest)
  }

  // At every level, siblings have different names.
  predicate DistinctNames(f: Forest) {
    f.Cons? ==>
      && (forall i :: 0 <= i < |Tops(f.rest)| ==> Tops(f.rest)[i].ocname != f.node.ocname)
      && DistinctNames(f.kids)
      && DistinctNames(f.rest)
  }

  // The atomic nodes in preorder.
  function Leaves(f: Forest): (r: seq<CDFnode>) {
    if f.Nil? then []
    else (if f.node.nctype == Atomic then [f.node] else []) + Leaves(f.kids) + Leaves(f.rest)
  }

  lemma {:induction false} TopsInSet(f: Forest)
    ensures forall i :: 0 <= i < |Tops(f)| ==> Tops(f)[i] in NodeSet(f)
  {
    if f.Cons? {
      TopsInSet(f.rest);
    }
  }

  // One step of a loop over the children of a node.
  lemma TopsStep(todo: Forest, subnodes: seq<CDFnode>, i: nat)
    requires i < |subnodes| && Tops(todo) == subnodes[i..]
    ensures todo.Cons? && todo.node == subnodes[i] && Tops(todo.rest) == subnodes[i + 1..]
  {
    assert subnodes[i..][1..] == subnodes[i + 1..];
  }

  lemma {:induction false} TopsContainer(f: Forest, parent: CDFnode?)
    requires Linked(f, parent)
    ensures forall i :: 0 <= i < |Tops(f)| ==> Tops(f)[i].container == parent
  {
    if f.Cons? {
      TopsContainer(f.rest, parent);
    }
  }

  lemma {:induction false} TopsDistinct(f: Forest)
    requires Distinct(f)
    ensures forall i, j :: 0 <= i < j < |Tops(f)| ==> Tops(f)[i] != Tops(f)[j]
  {
    if f.Cons? {
      TopsDistinct(f.rest);
      TopsInSet(f.rest);
    }
  }

  // Every node but the top ones has its container in the forest, and lists of children agree.
  lemma {:induction false} LinkedMutually(f: Forest, parent: CDFnode?, n: CDFnode)
    requires Linked(f, parent) && n in NodeSet(f)
    ensures n in Tops(f) ==> n.container == parent
    ensures n !in Tops(f) ==> n.container != null && n.container in NodeSet(f)
    ensures n !in Tops(f) ==> n in n.container.subnodes
    ensures forall c :: c in n.subnodes ==> c.container == n && c in NodeSet(f)
  {
    if n == f.node {
      TopsContainer(f, parent);
      TopsContainer(f.kids, f.node);
      TopsInSet(f.kids);
    } else if n in NodeSet(f.kids) {
      LinkedMutually(f.kids, f.node, n);
      TopsContainer(f, parent);
    } else {
      LinkedMutually(f.rest, parent, n);
    }
  }

  // The nodes from the top of a forest down to a node.
  function PathTo(f: Forest, n: CDFnode): (r: seq<CDFnode>)
    requires n in NodeSet(f)
    ensures r != []
  {
    if n == f.node then [n]
    else if n in NodeSet(f.kids) then [f.node] + PathTo(f.kids, n)
    else PathTo(f.rest, n)
  }

  // By the container links, the path leads from the top down to the node.
  lemma {:induction false} PathToIsPath(f: Forest, parent: CDFnode?, n: CDFnode)
    requires Linked(f, parent) && n in NodeSet(f)
    ensures var path := PathTo(f, n);
      && path != [] && path[|path| - 1] == n && path[0].container == parent
      && forall i :: 0 <= i < |path| - 1 ==> path[i + 1].container == path[i]
    ensures forall m :: m in PathTo(f, n) ==> m in NodeSet(f)
  {
    if n != f.node {
      if n in NodeSet(f.kids) {
        PathToIsPath(f.kids, f.node, n);
      } else {
        PathToIsPath(f.rest, parent, n);
      }
    }
  }

  // Lets a caller carry `Linked` over calls that only allocate.
  lemma {:induction false} NodesAllocated(f: Forest)
    ensures forall n :: n in NodeSet(f) ==> allocated(n)
  {
    if f.Cons? {
      NodesAllocated(f.kids);
      NodesAllocated(f.rest);
    }
  }

  // A chain of containers from a root down to a node.
  ghost predicate IsPath(path: seq<CDFnode>)
    reads (set n | n in path)`container
  {
    && (path != [] ==> path[0].container == null)
    && (forall i :: 0 <= i < |path| - 1 ==> path[i + 1].container == path[i])
  }

  // A path that starts at the dataset, which occurs nowhere else on it.
  ghost predicate FromDataset(path: seq<CDFnode>)
    reads (set n | n in path)`container
  {
    path != [] && IsPath(path) && forall i :: 0 <= i < |path| ==> (path[i].nctype == Dataset <==> i == 0)
  }
}
