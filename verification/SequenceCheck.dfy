/**
Marking the usable sequences (sequencecheck in libdap2/cdf.c).

The walk is proved to mark exactly the sequences that the declarative predicate `Usable` names, and
to record with every variable it reaches the innermost sequence around it.
*/
module SequenceCheck {
  import opened CdfTree

  // The children of a node, with all that is below them.
  function Below(f: Forest, n: CDFnode): (r: Forest)
    requires n in NodeSet(f)
    ensures NodeSet(r) <= NodeSet(f)
  {
    if n == f.node then f.kids
    else if n in NodeSet(f.kids) then Below(f.kids, n)
    else Below(f.rest, n)
  }

  // ---------- What usable means ----------

  predicate NoSequence(path: seq<CDFnode>) {
    forall i :: 0 <= i < |path| ==> path[i].nctype != Sequence
  }

  predicate Dimensionless(path: seq<CDFnode>) {
    forall i :: 0 <= i < |path| ==> path[i].Rank() == 0
  }

  // Some variable lies in the forest with no sequence on the way to it.
  ghost predicate HoldsVariable(f: Forest, vars: seq<CDFnode>) {
    exists m :: m in NodeSet(f) && m in vars && NoSequence(PathTo(f, m))
  }

  /** The sequences that can be used: scalar all the way up, outermost, with a variable of their own. */
  ghost predicate Usable(f: Forest, vars: seq<CDFnode>, n: CDFnode)
    requires n in NodeSet(f)
  {
    && n.nctype == Sequence
    && Dimensionless(PathTo(f, n))
    && NoSequence(Front(PathTo(f, n)))
    && HoldsVariable(Below(f, n), vars)
  }

  function Front(path: seq<CDFnode>): (r: seq<CDFnode>) {
    if path == [] then [] else path[..|path| - 1]
  }

  // The last sequence on a path.
  function Innermost(path: seq<CDFnode>): (r: CDFnode?)
    ensures r == null <==> NoSequence(path)
    ensures r != null ==>
      exists i :: 0 <= i < |path| && path[i] == r && r.nctype == Sequence && NoSequence(path[i + 1..])
  {
    if path == [] then null
    else
      var inner := Innermost(path[1..]);
      if inner != null then
        var i :| 0 <= i < |path| - 1 && path[1..][i] == inner && inner.nctype == Sequence && NoSequence(path[1..][i + 1..]);
        assert path[i + 1] == inner && path[1..][i + 1..] == path[i + 2..];
        inner
      else if path[0].nctype == Sequence then path[0] else null
  }

  // Down to the outermost sequence, nothing has dimensions.
  predicate Reached(path: seq<CDFnode>) {
    path != [] ==> path[0].Rank() == 0 && (path[0].nctype == Sequence || Reached(path[1..]))
  }

  // ---------- The walk ----------

  predicate OnlyAtomic(vars: seq<CDFnode>) {
    forall i :: 0 <= i < |vars| ==> vars[i].nctype == Atomic
  }

  // The result of sequencecheckr; `inside` says that topseq is not null.
  predicate TreeOk(node: CDFnode, kids: Forest, vars: seq<CDFnode>, inside: bool)
    decreases kids, 1
  {
    if !inside && node.Rank() > 0 then false
    else if node.nctype == Sequence then AnyOk(kids, vars, true) && !inside
    else if node in vars then true
    else AnyOk(kids, vars, inside)
  }

  predicate AnyOk(f: Forest, vars: seq<CDFnode>, inside: bool)
    decreases f, 0
  {
    f.Cons? && (TreeOk(f.node, f.kids, vars, inside) || AnyOk(f.rest, vars, inside))
  }

  // Whether the walk goes on to the children of a node.
  predicate Descends(node: CDFnode, vars: seq<CDFnode>, inside: bool) {
    !(!inside && node.Rank() > 0) && (node.nctype == Sequence || node !in vars)
  }

  // The mark of node n after the walk.
  function Mark(f: Forest, vars: seq<CDFnode>, inside: bool, n: CDFnode, was: bool): (r: bool) {
    if f.Nil? then was
    else if n == f.node then
      if n.nctype == Sequence && Descends(n, vars, inside) then TreeOk(n, f.kids, vars, inside) else was
    else if n in NodeSet(f.kids) then
      if Descends(f.node, vars, inside) then Mark(f.kids, vars, inside || f.node.nctype == Sequence, n, was) else was
    else Mark(f.rest, vars, inside, n, was)
  }

  // The sequence recorded with node n after the walk.
  function Recorded(f: Forest, vars: seq<CDFnode>, topseq: CDFnode?, n: CDFnode, was: CDFnode?): (r: CDFnode?) {
    if f.Nil? then was
    else if n == f.node then
      if n.nctype != Sequence && n in vars && !(topseq == null && n.Rank() > 0) then topseq else was
    else if n in NodeSet(f.kids) then
      if Descends(f.node, vars, topseq != null)
      then Recorded(f.kids, vars, if f.node.nctype == Sequence then f.node else topseq, n, was) else was
    else Recorded(f.rest, vars, topseq, n, was)
  }

  // The two fields of every node before a walk.
  datatype Fields = Fields(use: map<CDFnode, bool>, sequence: map<CDFnode, CDFnode?>)

  ghost predicate Knows(was: Fields, nodes: set<CDFnode>) {
    nodes <= was.use.Keys && nodes <= was.sequence.Keys
  }

  ghost predicate Untouched(nodes: set<CDFnode>, was: Fields)
    requires Knows(was, nodes)
    reads nodes`usesequence, nodes`sequence
  {
    forall n :: n in nodes ==> n.usesequence == was.use[n] && n.sequence == was.sequence[n]
  }

  // What the walk over f does to node n.
  ghost function Outcome(f: Forest, vars: seq<CDFnode>, topseq: CDFnode?, was: Fields, n: CDFnode): (bool, CDFnode?)
    requires n in was.use && n in was.sequence
  {
    (Mark(f, vars, topseq != null, n, was.use[n]), Recorded(f, vars, topseq, n, was.sequence[n]))
  }

  // The nodes have the fields that the walk over f leaves behind.
  ghost predicate Walked(nodes: set<CDFnode>, f: Forest, vars: seq<CDFnode>, topseq: CDFnode?, was: Fields)
    requires Knows(was, nodes)
    reads nodes`usesequence, nodes`sequence
  {
    forall n :: n in nodes ==> (n.usesequence, n.sequence) == Outcome(f, vars, topseq, was, n)
  }

  /** sequencecheckr on one node. */
  method SequenceCheckR(node: CDFnode, vars: seq<CDFnode>, topseq: CDFnode?, ghost f: Forest, ghost parent: CDFnode?,
                        ghost was: Fields)
    returns (ok: bool)
    requires f.Cons? && f.node == node && Linked(f, parent) && Distinct(f)
    requires Knows(was, NodeSet(f)) && Untouched(NodeSet(f.kids) + {node}, was)
    modifies NodeSet(f.kids)`usesequence, NodeSet(f.kids)`sequence, node`usesequence, node`sequence
    ensures ok == TreeOk(node, f.kids, vars, topseq != null)
    ensures Walked(NodeSet(f.kids) + {node}, f, vars, topseq, was)
    decreases f, 1
  {
    NodesAllocated(f);
    if topseq == null && node.Rank() > 0 {
      ok := false;
    } else if node.nctype == Sequence {
      ok := CheckChildren(node, vars, node, f.kids, was);
      if topseq == null && ok {
        node.usesequence := true;
      } else {
        node.usesequence := false;
        ok := false;
      }
    } else if node in vars {
      node.sequence := topseq;
      ok := true;
    } else {
      ok := CheckChildren(node, vars, topseq, f.kids, was);
    }
  }

  // The loop over the subnodes.
  method CheckChildren(node: CDFnode, vars: seq<CDFnode>, topseq: CDFnode?, ghost kids: Forest, ghost was: Fields)
    returns (ok: bool)
    requires node.subnodes == Tops(kids) && Linked(kids, node) && Distinct(kids) && node !in NodeSet(kids)
    requires Knows(was, NodeSet(kids)) && Untouched(NodeSet(kids), was)
    modifies NodeSet(kids)`usesequence, NodeSet(kids)`sequence
    ensures ok == AnyOk(kids, vars, topseq != null)
    ensures Walked(NodeSet(kids), kids, vars, topseq, was)
    decreases kids, 4
  {
    ok := false;
    var subnodes := node.subnodes;
    ghost var todo := kids;
    BetweenStarts(kids, node, vars, topseq, was);
    var i := 0;
    while i < |subnodes|
      invariant 0 <= i <= |subnodes| && Tops(todo) == subnodes[i..]
      invariant todo == kids || todo < kids
      invariant AnyOk(kids, vars, topseq != null) == (ok || AnyOk(todo, vars, topseq != null))
      invariant true == Between(kids, todo, node, vars, topseq, was)
    {
      TopsStep(todo, subnodes, i);
      var good := CheckNext(subnodes[i], vars, topseq, kids, todo, node, was);
      ok := ok || good;
      todo := todo.rest;
      i := i + 1;
    }
    BetweenEnds(kids, todo, node, vars, topseq, was);
  }

  lemma BetweenStarts(kids: Forest, parent: CDFnode, vars: seq<CDFnode>, topseq: CDFnode?, was: Fields)
    requires Linked(kids, parent) && Distinct(kids) && Knows(was, NodeSet(kids)) && Untouched(NodeSet(kids), was)
    ensures true == Between(kids, kids, parent, vars, topseq, was)
  {
  }

  lemma BetweenEnds(kids: Forest, todo: Forest, parent: CDFnode, vars: seq<CDFnode>, topseq: CDFnode?, was: Fields)
    requires Between(kids, todo, parent, vars, topseq, was) && Tops(todo) == []
    ensures Knows(was, NodeSet(kids)) && todo.Nil? && true == Walked(NodeSet(kids), kids, vars, topseq, was)
  {
    assert NodeSet(kids) - NodeSet(todo) == NodeSet(kids);
  }

  // Between two turns of the loop: the trees before `todo` have been walked, the others not.  The loop
  // compares it with true, so that it is carried along as one fact instead of many.
  ghost predicate Between(kids: Forest, todo: Forest, parent: CDFnode, vars: seq<CDFnode>, topseq: CDFnode?, was: Fields)
    reads NodeSet(kids), NodeSet(todo)
  {
    && Linked(todo, parent) && Distinct(todo) && NodeSet(todo) <= NodeSet(kids)
    && Knows(was, NodeSet(kids)) && Untouched(NodeSet(todo), was) && SameOutcome(kids, todo, vars, topseq, was)
    && Walked(NodeSet(kids) - NodeSet(todo), kids, vars, topseq, was)
  }

  // One turn of the loop.
  method CheckNext(sub: CDFnode, vars: seq<CDFnode>, topseq: CDFnode?, ghost kids: Forest, ghost todo: Forest,
                   ghost parent: CDFnode, ghost was: Fields)
    returns (ok: bool)
    requires todo.Cons? && todo.node == sub && Between(kids, todo, parent, vars, topseq, was)
    modifies NodeSet(todo.kids)`usesequence, NodeSet(todo.kids)`sequence, sub`usesequence, sub`sequence
    ensures ok == TreeOk(sub, todo.kids, vars, topseq != null)
    ensures true == Between(kids, todo.rest, parent, vars, topseq, was)
    decreases todo, 3
  {
    OutcomeSplits(kids, todo, vars, topseq, was);
    NodesAllocated(todo);
    ok := SequenceCheckR(sub, vars, topseq, todo, parent, was);
    assert Linked(todo.rest, parent);
    WalkedGrows(kids, todo, vars, topseq, was);
  }

  // The walk over the remaining siblings does to their nodes what the walk over all of them does.
  ghost predicate SameOutcome(all: Forest, todo: Forest, vars: seq<CDFnode>, topseq: CDFnode?, was: Fields) {
    && Knows(was, NodeSet(todo))
    && forall n :: n in NodeSet(todo) ==> Outcome(all, vars, topseq, was, n) == Outcome(todo, vars, topseq, was, n)
  }

  lemma OutcomeSplits(all: Forest, todo: Forest, vars: seq<CDFnode>, topseq: CDFnode?, was: Fields)
    requires todo.Cons? && Distinct(todo) && SameOutcome(all, todo, vars, topseq, was)
    ensures SameOutcome(all, todo.rest, vars, topseq, was)
  {
  }

  lemma WalkedGrows(all: Forest, todo: Forest, vars: seq<CDFnode>, topseq: CDFnode?, was: Fields)
    requires todo.Cons? && SameOutcome(all, todo, vars, topseq, was) && Knows(was, NodeSet(all)) && Knows(was, NodeSet(todo))
    requires Walked(NodeSet(all) - NodeSet(todo), all, vars, topseq, was)
    requires Walked(NodeSet(todo.kids) + {todo.node}, todo, vars, topseq, was)
    ensures Walked(NodeSet(all) - NodeSet(todo.rest), all, vars, topseq, was)
  {
    forall n | n in NodeSet(all) - NodeSet(todo.rest)
      ensures (n.usesequence, n.sequence) == Outcome(all, vars, topseq, was, n)
    {
      if n in NodeSet(todo) {
        assert n in NodeSet(todo.kids) + {todo.node};
      } else {
        assert n in NodeSet(all) - NodeSet(todo);
      }
    }
  }

  /** sequencecheck on a whole tree whose marks are still unset. */
  method SequenceCheck(root: CDFnode, vars: seq<CDFnode>, ghost f: Forest, ghost was: map<CDFnode, CDFnode?>)
    requires IsTree(f) && f.node == root && Linked(f, null) && Distinct(f) && AtomicLeaves(f) && OnlyAtomic(vars)
    requires forall n :: n in NodeSet(f) ==> !n.usesequence && n in was && n.sequence == was[n]
    modifies NodeSet(f)`usesequence, NodeSet(f)`sequence
    ensures forall n :: n in NodeSet(f) ==> (n.usesequence <==> Usable(f, vars, n))
    ensures forall n :: n in NodeSet(f) ==>
      n.sequence == if n in vars && Reached(PathTo(f, n)) then Innermost(PathTo(f, n)) else was[n]
  {
    ghost var fields := Fields(map n | n in NodeSet(f) :: false, was);
    var ok := SequenceCheckR(root, vars, null, f, null, fields);
    forall n | n in NodeSet(f)
      ensures n.usesequence <==> Usable(f, vars, n)
      ensures n.sequence == if n in vars && Reached(PathTo(f, n)) then Innermost(PathTo(f, n)) else was[n]
    {
      assert (n.usesequence, n.sequence) == Outcome(f, vars, null, fields, n);
      MarkedIffUsable(f, vars, n);
      RecordsInnermost(f, vars, n, was[n]);
    }
  }

  // ---------- The walk finds what the predicates say ----------

  lemma {:induction false} OkIffHolds(f: Forest, vars: seq<CDFnode>)
    requires AtomicLeaves(f) && Distinct(f) && OnlyAtomic(vars)
    ensures AnyOk(f, vars, true) <==> HoldsVariable(f, vars)
  {
    if f.Cons? {
      OkIffHolds(f.kids, vars);
      OkIffHolds(f.rest, vars);
      HoldsSplits(f, vars);
    }
  }

  // A variable is the first node itself, below it, or in a later sibling.
  lemma HoldsSplits(f: Forest, vars: seq<CDFnode>)
    requires f.Cons? && Distinct(f)
    ensures HoldsVariable(f, vars) <==>
      || (f.node.nctype != Sequence && (f.node in vars || HoldsVariable(f.kids, vars)))
      || HoldsVariable(f.rest, vars)
  {
    if HoldsVariable(f, vars) {
      var m :| m in NodeSet(f) && m in vars && NoSequence(PathTo(f, m));
      assert PathTo(f, m)[0].nctype != Sequence;
      if m in NodeSet(f.kids) {
        assert PathTo(f, m)[0] == f.node && PathTo(f, m)[1..] == PathTo(f.kids, m);
        assert NoSequence(PathTo(f, m)[1..]);
      }
    }
    if f.node.nctype != Sequence && f.node in vars {
      assert NoSequence(PathTo(f, f.node));
    }
    if f.node.nctype != Sequence && HoldsVariable(f.kids, vars) {
      var m :| m in NodeSet(f.kids) && m in vars && NoSequence(PathTo(f.kids, m));
      assert NoSequence(PathTo(f, m));
    }
    if HoldsVariable(f.rest, vars) {
      var m :| m in NodeSet(f.rest) && m in vars && NoSequence(PathTo(f.rest, m));
      assert NoSequence(PathTo(f, m));
    }
  }

  /** A sequence is marked exactly when it is usable. */
  lemma {:induction false} MarkedIffUsable(f: Forest, vars: seq<CDFnode>, n: CDFnode)
    requires AtomicLeaves(f) && Distinct(f) && OnlyAtomic(vars) && n in NodeSet(f)
    ensures Mark(f, vars, false, n, false) <==> Usable(f, vars, n)
    ensures !Mark(f, vars, true, n, false)
  {
    if n == f.node {
      OkIffHolds(f.kids, vars);
      assert PathTo(f, n) == [n] && Front([n]) == [];
      assert Dimensionless([n]) <==> [n][0].Rank() == 0;
    } else if n in NodeSet(f.kids) {
      MarkedIffUsable(f.kids, vars, n);
      PathGrows(f, n);
    } else {
      MarkedIffUsable(f.rest, vars, n);
    }
  }

  lemma PathGrows(f: Forest, n: CDFnode)
    requires f.Cons? && n in NodeSet(f.kids) && n != f.node
    ensures Dimensionless(PathTo(f, n)) <==> f.node.Rank() == 0 && Dimensionless(PathTo(f.kids, n))
    ensures NoSequence(Front(PathTo(f, n))) <==> f.node.nctype != Sequence && NoSequence(Front(PathTo(f.kids, n)))
  {
    var path, rest := PathTo(f, n), PathTo(f.kids, n);
    assert rest != [];
    assert path[0] == f.node && path[1..] == rest;
    assert forall i :: 0 <= i < |rest| ==> path[i + 1] == rest[i];
    assert Front(path) == [f.node] + Front(rest);
    var a, b := Front(path), Front(rest);
    assert forall i :: 0 <= i < |b| ==> a[i + 1] == b[i];
    assert a[0] == f.node;
  }

  /** A variable that the walk reaches records the innermost sequence around it. */
  lemma {:induction false} RecordsInnermost(f: Forest, vars: seq<CDFnode>, n: CDFnode, was: CDFnode?)
    requires AtomicLeaves(f) && Distinct(f) && OnlyAtomic(vars) && n in NodeSet(f)
    ensures var path := PathTo(f, n);
      && (n !in vars ==> forall topseq :: Recorded(f, vars, topseq, n, was) == was)
      && (n in vars ==> Recorded(f, vars, null, n, was) == if Reached(path) then Innermost(path) else was)
      && (n in vars ==> forall top: CDFnode ::
            Recorded(f, vars, top, n, was) == if NoSequence(path) then top else Innermost(path))
  {
    if n != f.node {
      if n in NodeSet(f.kids) {
        RecordsInnermost(f.kids, vars, n, was);
        assert PathTo(f, n)[1..] == PathTo(f.kids, n);
      } else {
        RecordsInnermost(f.rest, vars, n, was);
      }
    }
  }

  // ---------- In terms of paths ----------

  // Below a node, paths go on from the path to it.
  lemma {:induction false} PathsJoin(f: Forest, n: CDFnode, m: CDFnode)
    requires Distinct(f) && n in NodeSet(f) && m in NodeSet(Below(f, n))
    ensures m in NodeSet(f) && PathTo(f, m) == PathTo(f, n) + PathTo(Below(f, n), m)
  {
    if n == f.node {
      assert m != f.node;
    } else if n in NodeSet(f.kids) {
      PathsJoin(f.kids, n, m);
    } else {
      PathsJoin(f.rest, n, m);
    }
  }

  // A node whose path leads through n lies below n.
  lemma {:induction false} ThroughIsBelow(f: Forest, n: CDFnode, m: CDFnode)
    requires Distinct(f) && n in NodeSet(f) && m in NodeSet(f)
    requires |PathTo(f, m)| > |PathTo(f, n)| && PathTo(f, m)[..|PathTo(f, n)|] == PathTo(f, n)
    ensures m in NodeSet(Below(f, n))
  {
    var path, through := PathTo(f, m), PathTo(f, n);
    assert path[0] == path[..|through|][0] == through[0];
    if n == f.node {
      assert path != [m];
      assert m in NodeSet(f.rest) ==> path == PathTo(f.rest, m);
      if m in NodeSet(f.rest) && m !in NodeSet(f.kids) {
        PathHeads(f.rest, m);
      }
    } else if n in NodeSet(f.kids) {
      if m !in NodeSet(f.kids) && m != f.node {
        PathHeads(f.rest, m);
      }
      assert path[1..][..|through| - 1] == path[..|through|][1..] == through[1..];
      ThroughIsBelow(f.kids, n, m);
    } else {
      PathHeads(f.rest, n);
      ThroughIsBelow(f.rest, n, m);
    }
  }

  lemma {:induction false} PathHeads(f: Forest, m: CDFnode)
    requires m in NodeSet(f)
    ensures PathTo(f, m)[0] in NodeSet(f)
  {
    if m != f.node && m !in NodeSet(f.kids) {
      PathHeads(f.rest, m);
    }
  }

  // From n on, a path to variable m meets no other sequence.
  ghost predicate LeadsTo(f: Forest, n: CDFnode, m: CDFnode)
    requires n in NodeSet(f) && m in NodeSet(f)
  {
    var path, on := PathTo(f, n), PathTo(f, m);
    |on| > |path| && on[..|path|] == path && forall i :: |path| <= i < |on| ==> on[i].nctype != Sequence
  }

  lemma HoldsMeans(f: Forest, vars: seq<CDFnode>, n: CDFnode)
    requires Distinct(f) && n in NodeSet(f)
    ensures HoldsVariable(Below(f, n), vars) <==> exists m :: m in vars && m in NodeSet(f) && LeadsTo(f, n, m)
  {
    var path, below := PathTo(f, n), Below(f, n);
    if HoldsVariable(below, vars) {
      var m :| m in NodeSet(below) && m in vars && NoSequence(PathTo(below, m));
      PathsJoin(f, n, m);
      assert LeadsTo(f, n, m);
    }
    if m :| m in vars && m in NodeSet(f) && LeadsTo(f, n, m) {
      ThroughIsBelow(f, n, m);
      PathsJoin(f, n, m);
      var on, rest := PathTo(f, m), PathTo(below, m);
      assert forall i :: 0 <= i < |rest| ==> on[|path| + i] == rest[i];
    }
  }

  /**
  Usable is a sequence with nothing of rank one or more on its path, no sequence above it, and some
  variable below it with no other sequence on the way.
  */
  lemma UsableMeans(f: Forest, vars: seq<CDFnode>, n: CDFnode)
    requires Distinct(f) && n in NodeSet(f)
    ensures var path := PathTo(f, n);
      Usable(f, vars, n) <==>
      && n.nctype == Sequence
      && (forall i :: 0 <= i < |path| ==> |path[i].dimset0| == 0)
      && (forall i :: 0 <= i < |path| - 1 ==> path[i].nctype != Sequence)
      && exists m :: m in vars && m in NodeSet(f) && |PathTo(f, m)| > |path| && PathTo(f, m)[..|path|] == path
           && forall i :: |path| <= i < |PathTo(f, m)| ==> PathTo(f, m)[i].nctype != Sequence
  {
    HoldsMeans(f, vars, n);
    LeadsMeans(f, vars, n);
    AboveMeans(PathTo(f, n));
  }

  lemma AboveMeans(path: seq<CDFnode>)
    requires path != []
    ensures Dimensionless(path) <==> forall i :: 0 <= i < |path| ==> |path[i].dimset0| == 0
    ensures NoSequence(Front(path)) <==> forall i :: 0 <= i < |path| - 1 ==> path[i].nctype != Sequence
  {
    assert forall i :: 0 <= i < |path| - 1 ==> Front(path)[i] == path[i];
  }

  lemma LeadsMeans(f: Forest, vars: seq<CDFnode>, n: CDFnode)
    requires n in NodeSet(f)
    ensures var path := PathTo(f, n);
      (exists m :: m in vars && m in NodeSet(f) && LeadsTo(f, n, m)) <==>
      exists m :: m in vars && m in NodeSet(f) && |PathTo(f, m)| > |path| && PathTo(f, m)[..|path|] == path
        && forall i :: |path| <= i < |PathTo(f, m)| ==> PathTo(f, m)[i].nctype != Sequence
  {
  }

  /** A path is walked when each node of rank one or more on it has a sequence above it. */
  lemma {:induction false} ReachedMeans(path: seq<CDFnode>)
    ensures Reached(path) <==>
      forall i :: 0 <= i < |path| && |path[i].dimset0| > 0 ==> exists h :: 0 <= h < i && path[h].nctype == Sequence
  {
    if path != [] {
      var rest := path[1..];
      ReachedMeans(rest);
      assert forall i :: 0 <= i < |rest| ==> rest[i] == path[i + 1];
      if path[0].Rank() == 0 && path[0].nctype != Sequence {
        if Reached(rest) {
          forall i | 0 <= i < |path| && |path[i].dimset0| > 0
            ensures exists h :: 0 <= h < i && path[h].nctype == Sequence
          {
            var h :| 0 <= h < i - 1 && rest[h].nctype == Sequence;
            assert path[h + 1].nctype == Sequence;
          }
        } else {
          var i :| 0 <= i < |rest| && |rest[i].dimset0| > 0 && forall h :: 0 <= h < i ==> rest[h].nctype != Sequence;
          assert path[i + 1] == rest[i];
          forall h | 0 <= h < i + 1
            ensures path[h].nctype != Sequence
          {
          }
        }
      }
    }
  }
}
