/**
Re-gridding of a tree returned by a server against the tree of the whole dataset
(libdap2/cdf.c, restruct and its helpers).

`Walk` is what the recursive search computes; `Wrap` is the tree after every collected repair.
The in-place methods are proved against these two functions.
*/
module Restruct {
  import opened CdfTree
  import opened Wrappers

  // "node" stands alone where the pattern has a grid with the field "field".
  datatype Repair = Repair(node: CDFnode, field: CDFnode)

  datatype Status = NC_NOERR | NC_EDATADDS

  // ---------- The search ----------

  // The part of p that starts with the first sibling of that name.
  function FindByName(p: Forest, name: string): (r: Forest) {
    if p.Nil? || p.node.ocname == name then p else FindByName(p.rest, name)
  }

  // The first of the first `bound` fields that matches n.
  function FieldIn(n: CDFnode, fields: Forest, bound: nat): (r: Option<CDFnode>) {
    if fields.Nil? || bound == 0 then None
    else if Match(n, fields.node) then Some(fields.node)
    else FieldIn(n, fields.rest, bound - 1)
  }

  // How many fields of a grid are looked at.  The code stops at the number of siblings of the
  // grid (`asCoded`); its comment asks for all the fields of the grid.
  function SearchBound(asCoded: bool, siblings: nat, grid: Forest): (r: nat)
    requires grid.Cons?
  {
    if asCoded then siblings else |Tops(grid.kids)|
  }

  // The part of p that starts with the first grid that has a matching field.
  function FindGrid(n: CDFnode, p: Forest, siblings: nat, asCoded: bool): (r: Forest)
    ensures r.Cons? ==> r.node.nctype == Grid
    ensures r.Cons? ==> FieldIn(n, r.kids, SearchBound(asCoded, siblings, r)).Some?
  {
    if p.Nil? || (p.node.nctype == Grid && FieldIn(n, p.kids, SearchBound(asCoded, siblings, p)).Some?)
    then p
    else FindGrid(n, p.rest, siblings, asCoded)
  }

  function DirectMatch(n: CDFnode, p: Forest): (r: bool) {
    var m := FindByName(p, n.ocname);
    m.Cons? && Match(n, m.node)
  }

  // The repairs for the siblings d, which sit where the pattern has the siblings p;
  // None when some node fits nowhere.
  function Walk(d: Forest, p: Forest, asCoded: bool): (r: Option<seq<Repair>>)
    decreases d
  {
    if d.Nil? then Some([])
    else if DirectMatch(d.node, p) then
      var below := Walk(d.kids, FindByName(p, d.node.ocname).kids, asCoded);
      var after := Walk(d.rest, p, asCoded);
      if below.Some? && after.Some? then Some(below.value + after.value) else None
    else
      var g := FindGrid(d.node, p, |Tops(p)|, asCoded);
      var after := Walk(d.rest, p, asCoded);
      if g.Cons? && after.Some? then
        var field := FieldIn(d.node, g.kids, SearchBound(asCoded, |Tops(p)|, g)).value;
        Some([Repair(d.node, field)] + after.value)
      else None
  }

  // ---------- The repaired shape ----------

  // Each node in w's domain is put inside its wrapper.
  function Wrap(f: Forest, w: map<CDFnode, CDFnode>): (r: Forest) {
    if f.Nil? then Nil
    else if f.node in w then Cons(w[f.node], Cons(f.node, Wrap(f.kids, w), Nil), Wrap(f.rest, w))
    else Cons(f.node, Wrap(f.kids, w), Wrap(f.rest, w))
  }

  // Rewriting during the search, instead of collecting repairs first: a stray node is wrapped as
  // soon as it is found, with the next of the structures `made`.  The structures not used are left.
  function Immediate(d: Forest, p: Forest, made: seq<CDFnode>): (r: Option<(Forest, seq<CDFnode>)>)
    decreases d
  {
    if d.Nil? then Some((Nil, made))
    else if DirectMatch(d.node, p) then
      match Immediate(d.kids, FindByName(p, d.node.ocname).kids, made)
      case None => None
      case Some((kids, left)) =>
        match Immediate(d.rest, p, left)
        case None => None
        case Some((rest, unused)) => Some((Cons(d.node, kids, rest), unused))
    else if FindGrid(d.node, p, |Tops(p)|, true).Nil? || made == [] then None
    else
      match Immediate(d.rest, p, made[1..])
      case None => None
      case Some((rest, unused)) => Some((Cons(made[0], Cons(d.node, d.kids, Nil), rest), unused))
  }

  // A structure with the name of the grid, as makenewstruct builds it.
  predicate StandsFor(s: CDFnode, grid: CDFnode) {
    s.nctype == Structure && s.ocname == grid.ocname && s.Rank() == 0 && s.isVirtual
  }

  // ---------- What success means ----------

  // Every node of d matches a pattern node whose parent is the match of its parent.
  predicate Embeds(d: Forest, p: Forest)
    decreases d, 0
  {
    d.Cons? ==> EmbedsOne(d.node, d.kids, p) && Embeds(d.rest, p)
  }

  predicate EmbedsOne(n: CDFnode, kids: Forest, p: Forest)
    decreases kids, 1, p
  {
    p.Cons? && ((Match(n, p.node) && Embeds(kids, p.kids)) || EmbedsOne(n, kids, p.rest))
  }

  // A DAP2 grid has no dimensions of its own and its fields are atomic.
  predicate PlainGrids(p: Forest) {
    p.Cons? ==>
      && (p.node.nctype == Grid ==> p.node.Rank() == 0 && AllAtomic(p.kids))
      && PlainGrids(p.kids)
      && PlainGrids(p.rest)
  }

  predicate AllAtomic(f: Forest) {
    f.Cons? ==> f.node.nctype == Atomic && AllAtomic(f.rest)
  }

  function Targets(reps: seq<Repair>): (r: set<CDFnode>) {
    if reps == [] then {} else {reps[0].node} + Targets(reps[1..])
  }

  lemma {:induction false} TargetsAre(reps: seq<Repair>)
    ensures forall i :: 0 <= i < |reps| ==> reps[i].node in Targets(reps)
    ensures forall n :: n in Targets(reps) ==> exists r :: r in reps && r.node == n
  {
    if reps != [] {
      TargetsAre(reps[1..]);
      assert reps == [reps[0]] + reps[1..];
    }
  }

  lemma {:induction false} TargetsSplit(a: seq<Repair>, b: seq<Repair>)
    ensures Targets(a + b) == Targets(a) + Targets(b)
  {
    if a == [] {
      assert a + b == b;
    } else {
      TargetsSplit(a[1..], b);
      assert (a + b)[1..] == a[1..] + b;
    }
  }

  // w holds a wrapper for each stray node and for nothing else in d.
  predicate GoodWrappers(d: Forest, p: Forest, w: map<CDFnode, CDFnode>)
    decreases d
  {
    d.Cons? ==>
      && GoodWrappers(d.rest, p, w)
      && if DirectMatch(d.node, p) then
           && d.node !in w
           && GoodWrappers(d.kids, FindByName(p, d.node.ocname).kids, w)
         else
           var g := FindGrid(d.node, p, |Tops(p)|, true);
           && d.node in w
           && (g.Cons? ==> StandsFor(w[d.node], g.node))
           && NodeSet(d.kids) !! w.Keys
  }

  // ---------- Facts about the search ----------

  lemma {:induction false} EmbedsOneByName(n: CDFnode, kids: Forest, p: Forest, name: string)
    requires var m := FindByName(p, name); m.Cons? && Match(n, m.node) && Embeds(kids, m.kids)
    ensures EmbedsOne(n, kids, p)
  {
    if p.node.ocname != name {
      EmbedsOneByName(n, kids, p.rest, name);
    }
  }

  lemma {:induction false} EmbedsOneInGrid(s: CDFnode, kids: Forest, n: CDFnode, p: Forest, siblings: nat)
    requires var g := FindGrid(n, p, siblings, true); g.Cons? && Match(s, g.node) && Embeds(kids, g.kids)
    ensures EmbedsOne(s, kids, p)
  {
    if FindGrid(n, p, siblings, true) != p {
      EmbedsOneInGrid(s, kids, n, p.rest, siblings);
    }
  }

  lemma {:induction false} FieldEmbeds(n: CDFnode, fields: Forest, bound: nat)
    requires FieldIn(n, fields, bound).Some?
    ensures EmbedsOne(n, Nil, fields)
  {
    if !Match(n, fields.node) {
      FieldEmbeds(n, fields.rest, bound - 1);
    }
  }

  lemma {:induction false} FieldIsAtomic(n: CDFnode, fields: Forest, bound: nat)
    requires AllAtomic(fields) && FieldIn(n, fields, bound).Some?
    ensures n.nctype == Atomic
  {
    if !Match(n, fields.node) {
      FieldIsAtomic(n, fields.rest, bound - 1);
    }
  }

  lemma {:induction false} GridIsPlain(n: CDFnode, p: Forest, siblings: nat, asCoded: bool)
    requires PlainGrids(p)
    ensures var g := FindGrid(n, p, siblings, asCoded);
      g.Cons? ==> g.node.Rank() == 0 && AllAtomic(g.kids) && PlainGrids(g)
  {
    if FindGrid(n, p, siblings, asCoded) != p {
      GridIsPlain(n, p.rest, siblings, asCoded);
    }
  }

  lemma {:induction false} NamedPartKeeps(p: Forest, name: string)
    ensures var m := FindByName(p, name);
      && (PlainGrids(p) ==> PlainGrids(m))
      && (DistinctNames(p) ==> DistinctNames(m))
      && NodeSet(m) <= NodeSet(p)
      && (m.Cons? ==> m.node.ocname == name && m.node in NodeSet(p))
  {
    if p.Cons? && p.node.ocname != name {
      NamedPartKeeps(p.rest, name);
    }
  }

  // The repaired nodes are nodes of the walked tree.
  lemma {:induction false} TargetsInside(d: Forest, p: Forest, asCoded: bool)
    requires Walk(d, p, asCoded).Some?
    ensures forall r :: r in Walk(d, p, asCoded).value ==> r.node in NodeSet(d)
    ensures Targets(Walk(d, p, asCoded).value) <= NodeSet(d)
    decreases d
  {
    if d.Cons? {
      TargetsInside(d.rest, p, asCoded);
      if DirectMatch(d.node, p) {
        TargetsInside(d.kids, FindByName(p, d.node.ocname).kids, asCoded);
      }
      TargetsAre(Walk(d, p, asCoded).value);
    }
  }

  // ---------- Soundness ----------

  /** Wrapping the collected nodes makes the tree embed in the pattern. */
  lemma {:induction false} RepairedTreeEmbeds(d: Forest, p: Forest, w: map<CDFnode, CDFnode>)
    requires Walk(d, p, true).Some? && GoodWrappers(d, p, w)
    requires PlainGrids(p) && AtomicLeaves(d)
    ensures Embeds(Wrap(d, w), p)
    decreases d
  {
    if d.Cons? {
      RepairedTreeEmbeds(d.rest, p, w);
      var n, kids := d.node, Wrap(d.kids, w);
      if DirectMatch(n, p) {
        NamedPartKeeps(p, n.ocname);
        RepairedTreeEmbeds(d.kids, FindByName(p, n.ocname).kids, w);
        EmbedsOneByName(n, kids, p, n.ocname);
      } else {
        var g := FindGrid(n, p, |Tops(p)|, true);
        GridIsPlain(n, p, |Tops(p)|, true);
        FieldIsAtomic(n, g.kids, |Tops(p)|);
        FieldEmbeds(n, g.kids, |Tops(p)|);
        EmbedsOneInGrid(w[n], Cons(n, Nil, Nil), n, p, |Tops(p)|);
      }
    }
  }

  // ---------- A second pass ----------

  lemma {:induction false} NameFindsGrid(n: CDFnode, p: Forest, siblings: nat)
    requires DistinctNames(p)
    ensures var g := FindGrid(n, p, siblings, true);
      g.Cons? ==> FindByName(p, g.node.ocname) == g && DistinctNames(g) && g.node in Tops(p)
  {
    if p.Cons? && FindGrid(n, p, siblings, true) != p {
      NameFindsGrid(n, p.rest, siblings);
    }
  }

  lemma {:induction false} NameFindsField(n: CDFnode, fields: Forest, bound: nat)
    requires DistinctNames(fields) && FieldIn(n, fields, bound).Some?
    ensures DirectMatch(n, fields) && n.ocname == FieldIn(n, fields, bound).value.ocname
    ensures FieldIn(n, fields, bound).value in Tops(fields)
  {
    if !Match(n, fields.node) {
      NameFindsField(n, fields.rest, bound - 1);
    }
  }

  lemma LoneMatchIsClean(n: CDFnode, p: Forest)
    requires DirectMatch(n, p)
    ensures Walk(Cons(n, Nil, Nil), p, true) == Some([])
  {
    var one, none: seq<Repair> := Cons(n, Nil, Nil), [];
    assert none + none == none;
    assert Walk(one.kids, FindByName(p, n.ocname).kids, true) == Some([]);
    assert Walk(one.rest, p, true) == Some([]);
  }

  /** After the repairs there is nothing left to repair. */
  lemma {:induction false} SecondWalkIsClean(d: Forest, p: Forest, w: map<CDFnode, CDFnode>)
    requires Walk(d, p, true).Some? && GoodWrappers(d, p, w)
    requires PlainGrids(p) && AtomicLeaves(d) && DistinctNames(p)
    ensures Walk(Wrap(d, w), p, true) == Some([])
    decreases d
  {
    if d.Cons? {
      SecondWalkIsClean(d.rest, p, w);
      var n := d.node;
      if DirectMatch(n, p) {
        NamedPartKeeps(p, n.ocname);
        SecondWalkIsClean(d.kids, FindByName(p, n.ocname).kids, w);
      } else {
        var g := FindGrid(n, p, |Tops(p)|, true);
        GridIsPlain(n, p, |Tops(p)|, true);
        FieldIsAtomic(n, g.kids, |Tops(p)|);
        NameFindsGrid(n, p, |Tops(p)|);
        NameFindsField(n, g.kids, |Tops(p)|);
        LoneMatchIsClean(n, g.kids);
      }
    }
  }

  // ---------- Deferred repairs against immediate ones ----------

  lemma {:induction false} WrapOutside(f: Forest, w: map<CDFnode, CDFnode>)
    requires NodeSet(f) !! w.Keys
    ensures Wrap(f, w) == f
  {
    if f.Cons? {
      WrapOutside(f.kids, w);
      WrapOutside(f.rest, w);
    }
  }

  /** Repairs neither lose, add nor reorder atomic nodes. */
  lemma {:induction false} LeavesKept(d: Forest, w: map<CDFnode, CDFnode>)
    requires forall n :: n in w ==> w[n].nctype == Structure
    ensures Leaves(Wrap(d, w)) == Leaves(d)
  {
    if d.Cons? {
      LeavesKept(d.kids, w);
      LeavesKept(d.rest, w);
      var inner := Cons(d.node, Wrap(d.kids, w), Nil);
      assert Leaves(inner) == (if d.node.nctype == Atomic then [d.node] else []) + Leaves(d.kids);
    }
  }

  // One more wrapper on top of those already applied.
  lemma {:induction false} WrapOneMore(f: Forest, w: map<CDFnode, CDFnode>, n: CDFnode, s: CDFnode)
    requires n !in w && n !in w.Values
    ensures Wrap(f, w[n := s]) == Wrap(Wrap(f, w), map[n := s])
  {
    if f.Cons? {
      WrapOneMore(f.kids, w, n, s);
      WrapOneMore(f.rest, w, n, s);
      if f.node in w {
        assert w[f.node] in w.Values;
        var inner := Cons(f.node, Wrap(f.kids, w), Nil);
        assert Wrap(inner, map[n := s]) == Cons(f.node, Wrap(f.kids, w[n := s]), Nil);
      }
    }
  }

  // ---------- One repair on the heap ----------

  function Replaced(s: seq<CDFnode>, a: CDFnode, b: CDFnode): (r: seq<CDFnode>) {
    if s == [] then [] else [if s[0] == a then b else s[0]] + Replaced(s[1..], a, b)
  }

  lemma {:induction false} ReplacedAt(s: seq<CDFnode>, a: CDFnode, b: CDFnode, i: nat)
    requires i < |s| && s[i] == a
    requires forall j, k :: 0 <= j < k < |s| ==> s[j] != s[k]
    ensures Replaced(s, a, b) == s[i := b]
  {
    if i == 0 {
      ReplacedNone(s[1..], a, b);
    } else {
      ReplacedAt(s[1..], a, b, i - 1);
    }
  }

  lemma {:induction false} ReplacedNone(s: seq<CDFnode>, a: CDFnode, b: CDFnode)
    requires a !in s
    ensures Replaced(s, a, b) == s
  {
    if s != [] {
      ReplacedNone(s[1..], a, b);
    }
  }

  lemma {:induction false} WrapTops(f: Forest, n: CDFnode, s: CDFnode)
    ensures Tops(Wrap(f, map[n := s])) == Replaced(Tops(f), n, s)
  {
    if f.Cons? {
      WrapTops(f.rest, n, s);
      assert Tops(f)[1..] == Tops(f.rest);
    }
  }

  lemma {:induction false} WrapDistinct(f: Forest, n: CDFnode, s: CDFnode)
    requires Distinct(f) && s !in NodeSet(f)
    ensures Distinct(Wrap(f, map[n := s]))
    ensures NodeSet(Wrap(f, map[n := s])) == NodeSet(f) + (if n in NodeSet(f) then {s} else {})
  {
    if f.Cons? {
      WrapDistinct(f.kids, n, s);
      WrapDistinct(f.rest, n, s);
      var inner := Cons(f.node, Wrap(f.kids, map[n := s]), Nil);
      assert NodeSet(inner) == {f.node} + NodeSet(Wrap(f.kids, map[n := s]));
      assert Distinct(inner);
    }
  }

  // The links of a set of nodes at some moment.
  datatype Links = Links(container: map<CDFnode, CDFnode?>, subnodes: map<CDFnode, seq<CDFnode>>)

  ghost function CurrentLinks(nodes: set<CDFnode>): (r: Links)
    reads nodes`container, nodes`subnodes
  {
    Links(map x | x in nodes :: x.container, map x | x in nodes :: x.subnodes)
  }

  ghost predicate LinkedIn(f: Forest, parent: CDFnode?, l: Links) {
    f.Cons? ==>
      && f.node in l.container && l.container[f.node] == parent
      && f.node in l.subnodes && l.subnodes[f.node] == Tops(f.kids)
      && LinkedIn(f.kids, f.node, l)
      && LinkedIn(f.rest, parent, l)
  }

  lemma {:induction false} LinkedInCurrent(f: Forest, parent: CDFnode?, nodes: set<CDFnode>)
    requires NodeSet(f) <= nodes && Linked(f, parent)
    ensures LinkedIn(f, parent, CurrentLinks(nodes))
  {
    if f.Cons? {
      LinkedInCurrent(f.kids, f.node, nodes);
      LinkedInCurrent(f.rest, parent, nodes);
    }
  }

  lemma {:induction false} NotATop(f: Forest, parent: CDFnode, n: CDFnode, l: Links)
    requires LinkedIn(f, parent, l) && n in l.container && l.container[n] != parent
    ensures n !in Tops(f)
  {
    if f.Cons? {
      NotATop(f.rest, parent, n, l);
    }
  }

  // Since the links were l, n has been moved into s, and s has taken n's place in the list of
  // children of n's parent.
  ghost predicate Rewired(nodes: set<CDFnode>, n: CDFnode, s: CDFnode, l: Links)
    reads nodes`container, nodes`subnodes, n`container, s`container, s`subnodes
  {
    && n in l.container
    && n.container == s
    && s.container == l.container[n]
    && s.subnodes == [n]
    && (forall x :: x in nodes && x in l.container && x != n ==> x.container == l.container[x])
    && (forall x :: x in nodes && x in l.subnodes ==>
          x.subnodes == if x == l.container[n] then Replaced(l.subnodes[x], n, s) else l.subnodes[x])
  }

  /** A repair keeps parent and child links consistent: they now describe the wrapped shape. */
  lemma {:induction false} WrapKeepsLinks(f: Forest, parent: CDFnode?, n: CDFnode, s: CDFnode, l: Links)
    requires LinkedIn(f, parent, l) && Distinct(f)
    requires parent != null ==> parent !in NodeSet(f)
    requires s !in NodeSet(f)
    requires Rewired(NodeSet(f), n, s, l)
    ensures Linked(Wrap(f, map[n := s]), parent)
  {
    if f.Cons? {
      WrapKeepsLinks(f.kids, f.node, n, s, l);
      WrapKeepsLinks(f.rest, parent, n, s, l);
      WrapTops(f.kids, n, s);
      if l.container[n] != f.node {
        NotATop(f.kids, f.node, n, l);
        ReplacedNone(Tops(f.kids), n, s);
      }
      assert f.node.subnodes == Tops(Wrap(f.kids, map[n := s]));
      if f.node == n {
        var inner := Cons(n, Wrap(f.kids, map[n := s]), Nil);
        assert Linked(inner, s);
        assert Tops(inner) == [n];
      }
    }
  }

  // ---------- The passes in place ----------

  // The first child of `parent` with that name, or null.
  method FindChildNamed(parent: CDFnode, name: string, ghost p: Forest) returns (r: CDFnode?)
    requires parent.subnodes == Tops(p) && Linked(p, parent)
    ensures var m := FindByName(p, name);
      if m.Nil? then r == null else r == m.node && r.subnodes == Tops(m.kids) && Linked(m.kids, r)
    ensures r == null ==> forall k :: 0 <= k < |parent.subnodes| ==> parent.subnodes[k].ocname != name
    ensures r != null ==>
      exists i :: 0 <= i < |parent.subnodes| && r == parent.subnodes[i] && r.ocname == name
        && forall k :: 0 <= k < i ==> parent.subnodes[k].ocname != name
  {
    ghost var todo := p;
    var i := 0;
    while i < |parent.subnodes|
      invariant 0 <= i <= |parent.subnodes|
      invariant Tops(todo) == parent.subnodes[i..] && Linked(todo, parent)
      invariant FindByName(p, name) == FindByName(todo, name)
      invariant forall k :: 0 <= k < i ==> parent.subnodes[k].ocname != name
    {
      if parent.subnodes[i].ocname == name {
        return parent.subnodes[i];
      }
      todo := todo.rest;
      i := i + 1;
    }
    r := null;
  }

  // The first of the first `bound` children of `grid` that matches n, and its place, or null.
  method FindFieldOf(n: CDFnode, grid: CDFnode, bound: nat, ghost fields: Forest) returns (r: CDFnode?, ghost place: nat)
    requires grid.subnodes == Tops(fields) && Linked(fields, grid)
    ensures match FieldIn(n, fields, bound)
      case None => r == null
      case Some(field) => r == field && field.container == grid
    ensures r == null ==> forall k :: 0 <= k < bound && k < |grid.subnodes| ==> !Match(n, grid.subnodes[k])
    ensures r != null ==>
      && place < bound && place < |grid.subnodes| && r == grid.subnodes[place] && Match(n, r)
      && forall k :: 0 <= k < place ==> !Match(n, grid.subnodes[k])
  {
    ghost var todo := fields;
    var subnodes := grid.subnodes;
    var j := 0;
    while j < bound
      invariant 0 <= j <= bound
      invariant if j <= |subnodes| then Tops(todo) == subnodes[j..] else todo == Nil
      invariant Linked(todo, grid)
      invariant FieldIn(n, fields, bound) == FieldIn(n, todo, bound - j)
      invariant forall k :: 0 <= k < j && k < |subnodes| ==> !Match(n, subnodes[k])
    {
      var field := if j < |subnodes| then subnodes[j] else null;
      if j < |subnodes| {
        TopsStep(todo, subnodes, j);
      } else {
        assert todo == Nil;
      }
      if field != null && Match(n, field) {
        return field, j;
      }
      todo := if todo.Cons? then todo.rest else Nil;
      j := j + 1;
    }
    r, place := null, 0;
  }

  // No field of a grid before place i matches n, as far as there are siblings.
  ghost predicate NoMatchBefore(n: CDFnode, subnodes: seq<CDFnode>, i: nat)
    reads subnodes
  {
    forall h, k :: 0 <= h < i && h < |subnodes| && 0 <= k < |subnodes| && subnodes[h].nctype == Grid && k < |subnodes[h].subnodes| ==>
      !Match(n, subnodes[h].subnodes[k])
  }

  lemma NoMatchGrows(n: CDFnode, subnodes: seq<CDFnode>, i: nat)
    requires NoMatchBefore(n, subnodes, i) && i < |subnodes|
    requires subnodes[i].nctype == Grid ==>
      forall k :: 0 <= k < |subnodes| && k < |subnodes[i].subnodes| ==> !Match(n, subnodes[i].subnodes[k])
    ensures true == NoMatchBefore(n, subnodes, i + 1)
  {
  }

  // The first field of the first grid below `parent` that matches n: field j of child i, or null.
  method FindStrayField(n: CDFnode, parent: CDFnode, ghost p: Forest) returns (r: CDFnode?, ghost i: nat, ghost j: nat)
    requires parent.subnodes == Tops(p) && Linked(p, parent)
    ensures var g := FindGrid(n, p, |Tops(p)|, true);
      if g.Nil? then r == null
      else r == FieldIn(n, g.kids, |Tops(p)|).value && r.container == g.node
    ensures var subnodes := parent.subnodes;
      r == null ==>
        forall h, k :: 0 <= h < |subnodes| && 0 <= k < |subnodes| && subnodes[h].nctype == Grid && k < |subnodes[h].subnodes| ==>
          !Match(n, subnodes[h].subnodes[k])
    ensures var subnodes := parent.subnodes;
      r != null ==>
        && i < |subnodes| && j < |subnodes| && subnodes[i].nctype == Grid && j < |subnodes[i].subnodes|
        && r == subnodes[i].subnodes[j] && Match(n, r)
        && (forall k :: 0 <= k < j ==> !Match(n, subnodes[i].subnodes[k]))
        && (forall h, k :: 0 <= h < i && 0 <= k < |subnodes| && subnodes[h].nctype == Grid && k < |subnodes[h].subnodes| ==>
              !Match(n, subnodes[h].subnodes[k]))
  {
    ghost var todo := p;
    var index := 0;
    while index < |parent.subnodes|
      invariant 0 <= index <= |parent.subnodes|
      invariant Tops(todo) == parent.subnodes[index..] && Linked(todo, parent)
      invariant FindGrid(n, p, |Tops(p)|, true) == FindGrid(n, todo, |Tops(p)|, true)
      invariant true == NoMatchBefore(n, parent.subnodes, index)
    {
      var candidate := parent.subnodes[index];
      NodesAllocated(todo);
      if candidate.nctype == Grid {
        r, j := FindFieldOf(n, candidate, |parent.subnodes|, todo.kids);
        if r != null {
          i := index;
          return;
        }
        assert Linked(todo, parent);
      }
      NoMatchGrows(n, parent.subnodes, index);
      todo := todo.rest;
      index := index + 1;
    }
    r, i, j := null, 0, 0;
  }

  // The repairs found so far, followed by those still to come.
  function Continued(found: seq<Repair>, later: Option<seq<Repair>>): (r: Option<seq<Repair>>) {
    if later.None? then None else Some(found + later.value)
  }

  // The repairs for one child with its subtree.
  function WalkOne(n: CDFnode, kids: Forest, p: Forest): (r: Option<seq<Repair>>) {
    if DirectMatch(n, p) then Walk(kids, FindByName(p, n.ocname).kids, true)
    else
      var g := FindGrid(n, p, |Tops(p)|, true);
      if g.Nil? then None else Some([Repair(n, FieldIn(n, g.kids, |Tops(p)|).value)])
  }

  lemma WalkSteps(found: seq<Repair>, todo: Forest, p: Forest)
    requires todo.Cons?
    ensures var one := WalkOne(todo.node, todo.kids, p);
      Continued(found, Walk(todo, p, true)) ==
      if one.None? then None else Continued(found + one.value, Walk(todo.rest, p, true))
  {
    var one := WalkOne(todo.node, todo.kids, p);
    var later := Walk(todo.rest, p, true);
    if one.Some? && later.Some? {
      assert found + (one.value + later.value) == (found + one.value) + later.value;
    }
  }

  // One turn of the loop of restructr: the child n against the pattern's children.
  method RestructChild(n: CDFnode, patternparent: CDFnode, ghost kids: Forest, ghost p: Forest)
    returns (ok: bool, repairs: seq<Repair>)
    requires n.subnodes == Tops(kids) && Linked(kids, n)
    requires patternparent.subnodes == Tops(p) && Linked(p, patternparent)
    ensures ok == WalkOne(n, kids, p).Some?
    ensures ok ==> repairs == WalkOne(n, kids, p).value
    decreases kids, 1
  {
    NodesAllocated(kids);
    NodesAllocated(p);
    var matchnode := FindChildNamed(patternparent, n.ocname, p);
    if matchnode != null && Match(n, matchnode) {
      ok, repairs := RestructR(n, matchnode, kids, FindByName(p, n.ocname).kids);
    } else {
      var field;
      ghost var at, place;
      field, at, place := FindStrayField(n, patternparent, p);
      ok, repairs := field != null, if field == null then [] else [Repair(n, field)];
    }
  }

  /** restructr: collect the repairs below one matched pair of nodes. */
  method RestructR(dxdparent: CDFnode, patternparent: CDFnode, ghost d: Forest, ghost p: Forest)
    returns (ok: bool, repairs: seq<Repair>)
    requires dxdparent.subnodes == Tops(d) && Linked(d, dxdparent)
    requires patternparent.subnodes == Tops(p) && Linked(p, patternparent)
    ensures ok == Walk(d, p, true).Some?
    ensures ok ==> repairs == Walk(d, p, true).value
    decreases d, 0
  {
    ghost var todo := d;
    var subnodes := dxdparent.subnodes;
    repairs := [];
    assert Walk(d, p, true).Some? ==> [] + Walk(d, p, true).value == Walk(d, p, true).value;
    NodesAllocated(p);
    var index := 0;
    while index < |subnodes|
      invariant 0 <= index <= |subnodes|
      invariant Tops(todo) == subnodes[index..]
      invariant Linked(todo, dxdparent)
      invariant patternparent.subnodes == Tops(p) && Linked(p, patternparent)
      invariant todo == d || todo < d
      invariant Walk(d, p, true) == Continued(repairs, Walk(todo, p, true))
    {
      assert subnodes[index..][1..] == subnodes[index + 1..];
      NodesAllocated(todo);
      WalkSteps(repairs, todo, p);
      var more;
      ok, more := RestructChild(subnodes[index], patternparent, todo.kids, p);
      if !ok {
        return;
      }
      repairs := repairs + more;
      assert Linked(todo, dxdparent);
      todo := todo.rest;
      index := index + 1;
    }
    ok := true;
  }

  // ---------- Applying the repairs ----------

  method FindIn(parent: CDFnode, child: CDFnode) returns (index: nat)
    requires child in parent.subnodes
    ensures index < |parent.subnodes| && parent.subnodes[index] == child
    ensures child !in parent.subnodes[..index]
  {
    index := 0;
    while parent.subnodes[index] != child
      invariant index < |parent.subnodes|
      invariant child !in parent.subnodes[..index]
      decreases |parent.subnodes| - index
    {
      index := index + 1;
    }
  }

  /** structwrap with makenewstruct: put node inside a new structure that stands for the grid. */
  method StructWrap(tree: CDFtree, node: CDFnode, parent: CDFnode, parentindex: nat, patterngrid: CDFnode)
    returns (newstruct: CDFnode)
    requires node.container == parent && parent != node && parentindex < |parent.subnodes|
    modifies tree`nodes, node`container, parent`subnodes
    ensures fresh(newstruct) && StandsFor(newstruct, patterngrid)
    ensures newstruct.container == parent && newstruct.subnodes == [node] && node.container == newstruct
    ensures parent.subnodes == old(parent.subnodes)[parentindex := newstruct]
    ensures tree.nodes == old(tree.nodes) + [newstruct]
  {
    newstruct := new CDFnode.MakeVirtual(patterngrid.ocname, Structure, patterngrid.etype, node.container);
    node.container := newstruct;
    newstruct.subnodes := newstruct.subnodes + [node];
    parent.subnodes := parent.subnodes[parentindex := newstruct];
    tree.nodes := tree.nodes + [newstruct];
  }

  // One repair: the shape f becomes the shape with one more wrapper.
  method RepairOne(tree: CDFtree, node: CDFnode, patterngrid: CDFnode, ghost f: Forest)
    returns (newstruct: CDFnode)
    requires Linked(f, null) && Distinct(f)
    requires node in NodeSet(f) && node !in Tops(f)
    modifies tree`nodes, NodeSet(f)`container, NodeSet(f)`subnodes
    ensures fresh(newstruct) && StandsFor(newstruct, patterngrid)
    ensures Linked(Wrap(f, map[node := newstruct]), null) && Distinct(Wrap(f, map[node := newstruct]))
    ensures tree.nodes == old(tree.nodes) + [newstruct]
  {
    ghost var links := CurrentLinks(NodeSet(f));
    LinkedInCurrent(f, null, NodeSet(f));
    LinkedMutually(f, null, node);
    var parent := node.container;
    assert parent != null && parent in NodeSet(f);
    ParentIsOther(f, null, node);
    ChildrenDistinct(f, null, parent);
    NodesAllocated(f);
    var index := FindIn(parent, node);
    ghost var siblings := parent.subnodes;
    newstruct := StructWrap(tree, node, parent, index, patterngrid);
    ReplacedAt(siblings, node, newstruct, index);
    assert Rewired(NodeSet(f), node, newstruct, links);
    WrapKeepsLinks(f, null, node, newstruct, links);
    WrapDistinct(f, node, newstruct);
  }

  lemma {:induction false} ParentIsOther(f: Forest, parent: CDFnode?, n: CDFnode)
    requires Linked(f, parent) && Distinct(f) && n in NodeSet(f)
    requires parent != null ==> parent !in NodeSet(f)
    ensures n.container != n
  {
    if n in NodeSet(f.kids) {
      ParentIsOther(f.kids, f.node, n);
    } else if n in NodeSet(f.rest) {
      ParentIsOther(f.rest, parent, n);
    }
  }

  lemma {:induction false} ChildrenDistinct(f: Forest, parent: CDFnode?, n: CDFnode)
    requires Linked(f, parent) && Distinct(f) && n in NodeSet(f)
    ensures forall i, j :: 0 <= i < j < |n.subnodes| ==> n.subnodes[i] != n.subnodes[j]
  {
    if n == f.node {
      TopsDistinct(f.kids);
    } else if n in NodeSet(f.kids) {
      ChildrenDistinct(f.kids, f.node, n);
    } else {
      ChildrenDistinct(f.rest, parent, n);
    }
  }

  // ---------- The whole pass ----------

  lemma {:induction false} FieldContainer(n: CDFnode, fields: Forest, bound: nat, grid: CDFnode)
    requires Linked(fields, grid) && FieldIn(n, fields, bound).Some?
    ensures FieldIn(n, fields, bound).value.container == grid
  {
    if !Match(n, fields.node) {
      FieldContainer(n, fields.rest, bound - 1, grid);
    }
  }

  lemma {:induction false} LinkedParts(n: CDFnode, p: Forest, parent: CDFnode?, siblings: nat)
    requires Linked(p, parent)
    ensures Linked(FindByName(p, n.ocname), parent)
    ensures Linked(FindGrid(n, p, siblings, true), parent)
  {
    if p.Cons? {
      LinkedParts(n, p.rest, parent, siblings);
    }
  }

  lemma {:induction false} TargetsDistinct(d: Forest, p: Forest)
    requires Distinct(d) && Walk(d, p, true).Some?
    ensures var reps := Walk(d, p, true).value;
      forall i, j :: 0 <= i < j < |reps| ==> reps[i].node != reps[j].node
    decreases d
  {
    if d.Cons? {
      TargetsDistinct(d.rest, p);
      TargetsInside(d.rest, p, true);
      if DirectMatch(d.node, p) {
        var q := FindByName(p, d.node.ocname).kids;
        TargetsDistinct(d.kids, q);
        TargetsInside(d.kids, q, true);
      }
    }
  }

  // w has a wrapper for each repair, standing for the grid of its field.
  ghost predicate WrappersFor(w: map<CDFnode, CDFnode>, reps: seq<Repair>)
    reads set r | r in reps :: r.field
  {
    forall r :: r in reps ==>
      r.node in w && r.field.container != null && StandsFor(w[r.node], r.field.container)
  }

  // Everything WrappersAreGood asks of w, for the repairs reps of the forest d.
  ghost predicate WrapsExactly(w: map<CDFnode, CDFnode>, d: Forest, reps: seq<Repair>)
    reads set r | r in reps :: r.field
  {
    WrappersFor(w, reps) && w.Keys * NodeSet(d) <= Targets(reps)
  }

  // Restricting to one of two parts with disjoint nodes.
  lemma WrapsPart(w: map<CDFnode, CDFnode>, d: Forest, part: Forest, reps: seq<Repair>, mine: seq<Repair>, other: seq<Repair>)
    requires WrapsExactly(w, d, reps) && (reps == mine + other || reps == other + mine)
    requires NodeSet(part) <= NodeSet(d) && NodeSet(part) !! Targets(other)
    ensures WrapsExactly(w, part, mine)
  {
    TargetsSplit(mine, other);
    TargetsSplit(other, mine);
    assert Targets(reps) == Targets(mine) + Targets(other);
    assert forall r :: r in mine ==> r in reps;
    forall n | n in w.Keys * NodeSet(part)
      ensures n in Targets(mine)
    {
      assert n in w.Keys * NodeSet(d);
    }
  }

  lemma {:induction false} WrappersAreGood(d: Forest, p: Forest, parent: CDFnode?, w: map<CDFnode, CDFnode>)
    requires Distinct(d) && Linked(p, parent) && Walk(d, p, true).Some?
    requires WrapsExactly(w, d, Walk(d, p, true).value)
    ensures GoodWrappers(d, p, w)
    decreases d
  {
    if d.Cons? {
      var n := d.node;
      var reps, after := Walk(d, p, true).value, Walk(d.rest, p, true).value;
      TargetsInside(d.rest, p, true);
      LinkedParts(n, p, parent, |Tops(p)|);
      if DirectMatch(n, p) {
        var m := FindByName(p, n.ocname);
        var below := Walk(d.kids, m.kids, true).value;
        TargetsInside(d.kids, m.kids, true);
        TargetsSplit(below, after);
        WrapsPart(w, d, d.kids, reps, below, after);
        WrapsPart(w, d, d.rest, reps, after, below);
        WrappersAreGood(d.kids, m.kids, m.node, w);
        WrappersAreGood(d.rest, p, parent, w);
      } else {
        var one := [reps[0]];
        assert reps == one + after && reps[0] in reps && reps[0].node == n;
        assert Targets(one) == {n};
        TargetsSplit(one, after);
        WrapsPart(w, d, d.rest, reps, after, one);
        WrappersAreGood(d.rest, p, parent, w);
        StrayIsGood(d, p, parent, w, reps);
      }
    }
  }

  lemma StrayIsGood(d: Forest, p: Forest, parent: CDFnode?, w: map<CDFnode, CDFnode>, reps: seq<Repair>)
    requires d.Cons? && Distinct(d) && Linked(p, parent) && !DirectMatch(d.node, p)
    requires Walk(d, p, true) == Some(reps) && WrapsExactly(w, d, reps)
    requires Targets(reps) <= {d.node} + NodeSet(d.rest)
    ensures d.node in w && NodeSet(d.kids) !! w.Keys
    ensures StandsFor(w[d.node], FindGrid(d.node, p, |Tops(p)|, true).node)
  {
    var g := FindGrid(d.node, p, |Tops(p)|, true);
    LinkedParts(d.node, p, parent, |Tops(p)|);
    FieldContainer(d.node, g.kids, |Tops(p)|, g.node);
    assert reps[0] in reps;
  }

  // The repairs are at different nodes, below the root of d.
  predicate Repairable(d: Forest, reps: seq<Repair>) {
    && (forall i :: 0 <= i < |reps| ==> reps[i].node in NodeSet(d) && reps[i].node !in Tops(d))
    && (forall i, j :: 0 <= i < j < |reps| ==> reps[i].node != reps[j].node)
  }

  // The shape after making the repairs one after the other, with the structures made for them.
  function Applied(d: Forest, reps: seq<Repair>, made: seq<CDFnode>): (r: Forest)
    requires |made| == |reps|
  {
    if reps == [] then d
    else
      var n := |reps| - 1;
      Wrap(Applied(d, reps[..n], made[..n]), map[reps[n].node := made[n]])
  }

  function WrapperOf(reps: seq<Repair>, made: seq<CDFnode>): (r: map<CDFnode, CDFnode>)
    requires |made| == |reps|
  {
    if reps == [] then map[]
    else
      var n := |reps| - 1;
      WrapperOf(reps[..n], made[..n])[reps[n].node := made[n]]
  }

  lemma {:induction false} WrapperKeys(reps: seq<Repair>, made: seq<CDFnode>)
    requires |made| == |reps|
    ensures WrapperOf(reps, made).Keys == Targets(reps)
  {
    if reps != [] {
      var n := |reps| - 1;
      WrapperKeys(reps[..n], made[..n]);
      assert reps == reps[..n] + [reps[n]];
      TargetsSplit(reps[..n], [reps[n]]);
    }
  }

  lemma {:induction false} WrapperFinds(reps: seq<Repair>, made: seq<CDFnode>, i: nat)
    requires i < |made| == |reps|
    requires forall i, j :: 0 <= i < j < |reps| ==> reps[i].node != reps[j].node
    ensures reps[i].node in WrapperOf(reps, made) && WrapperOf(reps, made)[reps[i].node] == made[i]
  {
    var n := |reps| - 1;
    if i < n {
      WrapperFinds(reps[..n], made[..n], i);
    }
  }

  lemma {:induction false} WrapperValues(reps: seq<Repair>, made: seq<CDFnode>)
    requires |made| == |reps|
    ensures forall s :: s in WrapperOf(reps, made).Values ==> s in made
  {
    if reps != [] {
      var n := |reps| - 1;
      WrapperValues(reps[..n], made[..n]);
      assert made == made[..n] + [made[n]];
    }
  }

  /** One repair after the other gives what wrapping all nodes at once gives. */
  lemma {:induction false} AppliedIsWrap(d: Forest, reps: seq<Repair>, made: seq<CDFnode>)
    requires |made| == |reps|
    requires forall i, j :: 0 <= i < j < |reps| ==> reps[i].node != reps[j].node
    requires forall i :: 0 <= i < |reps| ==> reps[i].node !in made
    ensures Applied(d, reps, made) == Wrap(d, WrapperOf(reps, made))
  {
    if reps == [] {
      WrapOutside(d, map[]);
    } else {
      var n := |reps| - 1;
      AppliedIsWrap(d, reps[..n], made[..n]);
      WrapperKeys(reps[..n], made[..n]);
      WrapperValues(reps[..n], made[..n]);
      TargetsAre(reps[..n]);
      assert reps[n].node !in made[..n];
      WrapOneMore(d, WrapperOf(reps[..n], made[..n]), reps[n].node, made[n]);
    }
  }

  lemma {:induction false} WrapperSplit(a: seq<Repair>, b: seq<Repair>, s: seq<CDFnode>, t: seq<CDFnode>)
    requires |a| == |s| && |b| == |t|
    ensures WrapperOf(a + b, s + t) == WrapperOf(a, s) + WrapperOf(b, t)
  {
    if b == [] {
      assert a + b == a && s + t == s;
    } else {
      var n := |b| - 1;
      WrapperSplit(a, b[..n], s, t[..n]);
      assert (a + b)[..|a| + n] == a + b[..n] && (s + t)[..|s| + n] == s + t[..n];
    }
  }

  // Only the wrappers of nodes in the forest matter.
  lemma {:induction false} WrapAgrees(f: Forest, w: map<CDFnode, CDFnode>, v: map<CDFnode, CDFnode>)
    requires forall n :: n in NodeSet(f) ==> (n in w <==> n in v) && (n in w ==> w[n] == v[n])
    ensures Wrap(f, w) == Wrap(f, v)
  {
    if f.Cons? {
      WrapAgrees(f.kids, w, v);
      WrapAgrees(f.rest, w, v);
    }
  }

  // Two parts of a tree with disjoint nodes are wrapped by their own repairs.
  lemma WrapParts(first: Forest, second: Forest, a: seq<Repair>, b: seq<Repair>, s: seq<CDFnode>, t: seq<CDFnode>)
    requires |a| == |s| && |b| == |t| && NodeSet(first) !! NodeSet(second)
    requires Targets(a) <= NodeSet(first) && Targets(b) <= NodeSet(second)
    ensures Wrap(first, WrapperOf(a + b, s + t)) == Wrap(first, WrapperOf(a, s))
    ensures Wrap(second, WrapperOf(a + b, s + t)) == Wrap(second, WrapperOf(b, t))
  {
    WrapperSplit(a, b, s, t);
    WrapperKeys(a, s);
    WrapperKeys(b, t);
    WrapAgrees(first, WrapperOf(a + b, s + t), WrapperOf(a, s));
    WrapAgrees(second, WrapperOf(a + b, s + t), WrapperOf(b, t));
  }

  lemma {:induction false} ImmediateIsWrap(d: Forest, p: Forest, made: seq<CDFnode>, more: seq<CDFnode>)
    requires Distinct(d) && Walk(d, p, true).Some? && |made| == |Walk(d, p, true).value|
    ensures Immediate(d, p, made + more) == Some((Wrap(d, WrapperOf(Walk(d, p, true).value, made)), more))
    decreases d
  {
    if d.Nil? {
      assert made + more == more;
    } else if DirectMatch(d.node, p) {
      var q := FindByName(p, d.node.ocname).kids;
      var n := |Walk(d.kids, q, true).value|;
      var s, t := made[..n], made[n..];
      assert made == s + t && made + more == s + (t + more);
      ImmediateIsWrap(d.kids, q, s, t + more);
      ImmediateIsWrap(d.rest, p, t, more);
      MatchedWrapped(d, p, s, t);
      MatchedAtOnce(d, p, made + more, t + more);
    } else {
      StrayWrapped(d, p, made);
      ImmediateIsWrap(d.rest, p, made[1..], more);
      assert (made + more)[1..] == made[1..] + more;
    }
  }

  lemma MatchedAtOnce(d: Forest, p: Forest, made: seq<CDFnode>, left: seq<CDFnode>)
    requires d.Cons? && DirectMatch(d.node, p)
    requires var kids := Immediate(d.kids, FindByName(p, d.node.ocname).kids, made); kids.Some? && kids.value.1 == left
    requires Immediate(d.rest, p, left).Some?
    ensures var kids := Immediate(d.kids, FindByName(p, d.node.ocname).kids, made).value.0;
      var rest := Immediate(d.rest, p, left).value;
      Immediate(d, p, made) == Some((Cons(d.node, kids, rest.0), rest.1))
  {
  }

  // A matched node is kept, with what is below it and what follows it wrapped.
  lemma MatchedWrapped(d: Forest, p: Forest, s: seq<CDFnode>, t: seq<CDFnode>)
    requires d.Cons? && Distinct(d) && DirectMatch(d.node, p) && Walk(d, p, true).Some?
    requires |s| == |Walk(d.kids, FindByName(p, d.node.ocname).kids, true).value| && |t| == |Walk(d.rest, p, true).value|
    ensures var below, after := Walk(d.kids, FindByName(p, d.node.ocname).kids, true).value, Walk(d.rest, p, true).value;
      && Walk(d, p, true).value == below + after
      && Wrap(d, WrapperOf(below + after, s + t)) ==
         Cons(d.node, Wrap(d.kids, WrapperOf(below, s)), Wrap(d.rest, WrapperOf(after, t)))
  {
    var q := FindByName(p, d.node.ocname).kids;
    var below, after := Walk(d.kids, q, true).value, Walk(d.rest, p, true).value;
    TargetsInside(d.kids, q, true);
    TargetsInside(d.rest, p, true);
    WrapParts(d.kids, d.rest, below, after, s, t);
    WrapperKeys(below + after, s + t);
    TargetsSplit(below, after);
  }

  // A stray node gets the first structure, and the nodes below it are left alone.
  lemma StrayWrapped(d: Forest, p: Forest, made: seq<CDFnode>)
    requires d.Cons? && Distinct(d) && !DirectMatch(d.node, p)
    requires Walk(d, p, true).Some? && |made| == |Walk(d, p, true).value|
    ensures made != [] && |made[1..]| == |Walk(d.rest, p, true).value|
    ensures Wrap(d, WrapperOf(Walk(d, p, true).value, made)) ==
            Cons(made[0], Cons(d.node, d.kids, Nil), Wrap(d.rest, WrapperOf(Walk(d.rest, p, true).value, made[1..])))
  {
    var reps, after := Walk(d, p, true).value, Walk(d.rest, p, true).value;
    var one := [reps[0]];
    var w := WrapperOf(reps, made);
    TargetsInside(d.rest, p, true);
    assert reps == one + after && made == [made[0]] + made[1..];
    assert Targets(one) == {d.node};
    WrapperSplit(one, after, [made[0]], made[1..]);
    WrapperKeys(after, made[1..]);
    assert WrapperOf(one, [made[0]]) == map[d.node := made[0]];
    WrapAgrees(d.rest, w, WrapperOf(after, made[1..]));
    WrapOutside(d.kids, w);
  }

  /**
  Collecting the repairs and applying them one after the other gives the tree that rewriting during
  the search gives, using the new structures in the same order; and both refuse the same trees.
  */
  lemma DeferredEqualsImmediate(d: Forest, p: Forest, made: seq<CDFnode>)
    requires Distinct(d) && forall s :: s in made ==> s !in NodeSet(d)
    ensures Walk(d, p, true).None? ==> Immediate(d, p, made).None?
    ensures Walk(d, p, true).Some? && |made| == |Walk(d, p, true).value| ==>
      Immediate(d, p, made) == Some((Applied(d, Walk(d, p, true).value, made), []))
  {
    if Walk(d, p, true).None? {
      RefusedAtOnce(d, p, made);
    } else if |made| == |Walk(d, p, true).value| {
      TargetsInside(d, p, true);
      TargetsDistinct(d, p);
      AppliedIsWrap(d, Walk(d, p, true).value, made);
      ImmediateIsWrap(d, p, made, []);
      assert made + [] == made;
    }
  }

  lemma {:induction false} RefusedAtOnce(d: Forest, p: Forest, made: seq<CDFnode>)
    requires Walk(d, p, true).None?
    ensures Immediate(d, p, made).None?
    decreases d
  {
    if DirectMatch(d.node, p) {
      var q := FindByName(p, d.node.ocname).kids;
      if Walk(d.kids, q, true).None? {
        RefusedAtOnce(d.kids, q, made);
      } else if Immediate(d.kids, q, made).Some? {
        RefusedAtOnce(d.rest, p, Immediate(d.kids, q, made).value.1);
      }
    } else if FindGrid(d.node, p, |Tops(p)|, true).Cons? && made != [] {
      RefusedAtOnce(d.rest, p, made[1..]);
    }
  }

  // f has the nodes of d and the same root.
  predicate Grown(d: Forest, f: Forest) {
    Distinct(f) && NodeSet(d) <= NodeSet(f) && Tops(f) == Tops(d)
  }

  lemma GrowsByWrapping(d: Forest, f: Forest, n: CDFnode, s: CDFnode)
    requires Grown(d, f) && s !in NodeSet(f) && n in NodeSet(d) && n !in Tops(d)
    ensures Grown(d, Wrap(f, map[n := s]))
    ensures NodeSet(Wrap(f, map[n := s])) == NodeSet(f) + {s}
  {
    WrapDistinct(f, n, s);
    WrapTops(f, n, s);
    ReplacedNone(Tops(f), n, s);
  }

  // Wrap one node, wherever earlier repairs have moved it.
  method RepairNth(tree: CDFtree, node: CDFnode, field: CDFnode, ghost d: Forest, ghost f: Forest)
    returns (newstruct: CDFnode)
    requires Grown(d, f) && Linked(f, null)
    requires node in NodeSet(d) && node !in Tops(d)
    requires field.container != null
    modifies tree`nodes, NodeSet(f)`container, NodeSet(f)`subnodes
    ensures fresh(newstruct) && tree.nodes == old(tree.nodes) + [newstruct]
    ensures StandsFor(newstruct, old(field.container))
    ensures var f' := Wrap(f, map[node := newstruct]);
      Grown(d, f') && Linked(f', null) && NodeSet(f') == NodeSet(f) + {newstruct}
  {
    NodesAllocated(f);
    newstruct := RepairOne(tree, node, field.container, f);
    GrowsByWrapping(d, f, node, newstruct);
  }

  // What has been repaired after the first i repairs: f is the tree they leave.
  ghost predicate RepairedSoFar(d: Forest, reps: seq<Repair>, i: nat, made: seq<CDFnode>, f: Forest)
    reads NodeSet(f)
  {
    i == |made| <= |reps| && Grown(d, f) && Linked(f, null) && f == Applied(d, reps[..i], made)
  }

  // One turn of the loop of repairgrids.
  method RepairNext(tree: CDFtree, reps: seq<Repair>, i: nat, ghost d: Forest, ghost f: Forest, ghost made: seq<CDFnode>)
    returns (newstruct: CDFnode, ghost f': Forest)
    requires i < |reps| && RepairedSoFar(d, reps, i, made, f) && Repairable(d, reps) && reps[i].field.container != null
    modifies tree`nodes, NodeSet(f)`container, NodeSet(f)`subnodes
    ensures fresh(newstruct) && tree.nodes == old(tree.nodes) + [newstruct]
    ensures StandsFor(newstruct, old(reps[i].field.container))
    ensures RepairedSoFar(d, reps, i + 1, made + [newstruct], f') && NodeSet(f') == NodeSet(f) + {newstruct}
  {
    newstruct := RepairNth(tree, reps[i].node, reps[i].field, d, f);
    f' := Wrap(f, map[reps[i].node := newstruct]);
    assert reps[..i + 1][..i] == reps[..i] && (made + [newstruct])[..i] == made;
  }

  /** repairgrids: apply the collected repairs one after the other. */
  method RepairGrids(tree: CDFtree, reps: seq<Repair>, ghost d: Forest)
    returns (ghost made: seq<CDFnode>)
    requires IsTree(d) && Linked(d, null) && Distinct(d) && Repairable(d, reps)
    requires forall i :: 0 <= i < |reps| ==> reps[i].field !in NodeSet(d) && reps[i].field.container != null
    modifies tree`nodes, NodeSet(d)`container, NodeSet(d)`subnodes
    ensures |made| == |reps|
    ensures forall i :: 0 <= i < |made| ==> fresh(made[i]) && StandsFor(made[i], old(reps[i].field.container))
    ensures Linked(Applied(d, reps, made), null) && Distinct(Applied(d, reps, made))
    ensures tree.nodes == old(tree.nodes) + made
  {
    made := [];
    ghost var f, nodes := d, tree.nodes;
    NodesAllocated(d);
    var i := 0;
    while i < |reps|
      invariant 0 <= i <= |reps| && RepairedSoFar(d, reps, i, made, f)
      invariant forall x :: x in NodeSet(f) ==> x in NodeSet(d) || fresh(x)
      invariant forall k :: 0 <= k < |reps| ==> reps[k].field.container == old(reps[k].field.container)
      invariant forall k :: 0 <= k < |made| ==> fresh(made[k]) && StandsFor(made[k], old(reps[k].field.container))
      invariant tree.nodes == nodes + made
    {
      var newstruct;
      newstruct, f := RepairNext(tree, reps, i, d, f, made);
      made := made + [newstruct];
      i := i + 1;
    }
    assert reps[..i] == reps;
  }

  lemma {:induction false} FieldInside(n: CDFnode, fields: Forest, bound: nat)
    requires FieldIn(n, fields, bound).Some?
    ensures FieldIn(n, fields, bound).value in NodeSet(fields)
  {
    if !Match(n, fields.node) {
      FieldInside(n, fields.rest, bound - 1);
    }
  }

  lemma {:induction false} GridInside(n: CDFnode, p: Forest, siblings: nat)
    ensures NodeSet(FindGrid(n, p, siblings, true)) <= NodeSet(p)
  {
    if p.Cons? {
      GridInside(n, p.rest, siblings);
    }
  }

  // The fields of the repairs are nodes of the pattern, and their containers are grids.
  lemma {:induction false} FieldsAreGridFields(d: Forest, p: Forest, parent: CDFnode?)
    requires Linked(p, parent) && Walk(d, p, true).Some?
    ensures forall r :: r in Walk(d, p, true).value ==>
      r.field in NodeSet(p) && r.field.container != null && r.field.container.nctype == Grid
    decreases d
  {
    if d.Cons? {
      var n := d.node;
      FieldsAreGridFields(d.rest, p, parent);
      LinkedParts(n, p, parent, |Tops(p)|);
      NamedPartKeeps(p, n.ocname);
      if DirectMatch(n, p) {
        var m := FindByName(p, n.ocname);
        FieldsAreGridFields(d.kids, m.kids, m.node);
      } else {
        var g := FindGrid(n, p, |Tops(p)|, true);
        GridInside(n, p, |Tops(p)|);
        FieldInside(n, g.kids, |Tops(p)|);
        FieldContainer(n, g.kids, |Tops(p)|, g.node);
      }
    }
  }

  // What one successful pass has done to the tree.
  ghost predicate Restructured(d: Forest, p: Forest, w: map<CDFnode, CDFnode>, d': Forest)
    requires IsTree(d) && IsTree(p)
  {
    && GoodWrappers(d.kids, p.kids, w)
    && d.node !in w
    && d' == Cons(d.node, Wrap(d.kids, w), Nil)
    && (forall n :: n in w ==> w[n].nctype == Structure && w[n].isVirtual)
  }

  // The matching of the roots and the walk below them.
  predicate Accepts(d: Forest, p: Forest) {
    IsTree(d) && IsTree(p) && Match(d.node, p.node) && Walk(d.kids, p.kids, true).Some?
  }

  /** restruct: make the tree at ddsroot fit the pattern, or report that it cannot. */
  method Restruct(tree: CDFtree, ddsroot: CDFnode, patternroot: CDFnode, ghost d: Forest, ghost p: Forest)
    returns (status: Status, ghost w: map<CDFnode, CDFnode>, ghost made: seq<CDFnode>, ghost d': Forest)
    requires IsTree(d) && d.node == ddsroot && Linked(d, null) && Distinct(d)
    requires IsTree(p) && p.node == patternroot && Linked(p, null)
    requires NodeSet(d) !! NodeSet(p)
    modifies tree`nodes, NodeSet(d)`container, NodeSet(d)`subnodes
    ensures status == NC_NOERR <==> tree.restructed || Accepts(d, p)
    ensures Linked(d', null) && Distinct(d')
    ensures status != NC_NOERR || tree.restructed ==> d' == d && tree.nodes == old(tree.nodes)
    ensures status == NC_NOERR && !tree.restructed ==>
      && Restructured(d, p, w, d')
      && Immediate(d.kids, p.kids, made) == Some((d'.kids, []))
      && tree.nodes == old(tree.nodes) + made
      && |made| == |Walk(d.kids, p.kids, true).value|
      && (forall s :: s in made ==> fresh(s))
      && (forall n :: n in w ==> w[n] in made)
  {
    w, made, d' := map[], [], d;
    status := NC_NOERR;
    if tree.restructed {
      return;
    }
    NodesAllocated(d);
    NodesAllocated(p);
    if !Match(ddsroot, patternroot) {
      status := NC_EDATADDS;
      return;
    }
    var ok, repairs := RestructR(ddsroot, patternroot, d.kids, p.kids);
    if !ok {
      status := NC_EDATADDS;
      return;
    }
    assert Linked(d, null) && Linked(p, null);
    TargetsInside(d.kids, p.kids, true);
    TargetsDistinct(d.kids, p.kids);
    FieldsAreGridFields(d.kids, p.kids, p.node);
    made := RepairGrids(tree, repairs, d);
    assert Linked(p, null);
    w := WrapperOf(repairs, made);
    d' := Applied(d, repairs, made);
    RepairsAreRestruct(d, p, repairs, made);
    RepairsAreImmediate(d, p, repairs, made);
  }

  lemma RepairsAreRestruct(d: Forest, p: Forest, reps: seq<Repair>, made: seq<CDFnode>)
    requires IsTree(d) && Distinct(d) && IsTree(p) && Linked(p, null)
    requires Walk(d.kids, p.kids, true) == Some(reps) && |made| == |reps|
    requires forall i :: 0 <= i < |made| ==> made[i] !in NodeSet(d) && reps[i].field.container != null
    requires forall i :: 0 <= i < |made| ==> StandsFor(made[i], reps[i].field.container)
    ensures Restructured(d, p, WrapperOf(reps, made), Applied(d, reps, made))
    ensures forall n :: n in WrapperOf(reps, made) ==> WrapperOf(reps, made)[n] in made
  {
    var w := WrapperOf(reps, made);
    TargetsInside(d.kids, p.kids, true);
    TargetsDistinct(d.kids, p.kids);
    forall i | 0 <= i < |reps|
      ensures reps[i].node !in made
    {
      assert reps[i] in reps;
    }
    AppliedIsWrap(d, reps, made);
    WrapperKeys(reps, made);
    WrapperValues(reps, made);
    forall n | n in w
      ensures w[n] in made && w[n].nctype == Structure
    {
      assert w[n] in w.Values;
    }
    forall r | r in reps
      ensures r.node in w && StandsFor(w[r.node], r.field.container)
    {
      var i :| 0 <= i < |reps| && reps[i] == r;
      WrapperFinds(reps, made, i);
    }
    WrappersAreGood(d.kids, p.kids, p.node, w);
  }

  // The repaired tree is the one that rewriting during the search gives.
  lemma RepairsAreImmediate(d: Forest, p: Forest, reps: seq<Repair>, made: seq<CDFnode>)
    requires IsTree(d) && Distinct(d) && IsTree(p)
    requires Walk(d.kids, p.kids, true) == Some(reps) && |made| == |reps|
    requires forall s :: s in made ==> s !in NodeSet(d)
    ensures Applied(d, reps, made) == Cons(d.node, Applied(d.kids, reps, made), Nil)
    ensures Immediate(d.kids, p.kids, made) == Some((Applied(d.kids, reps, made), []))
  {
    DeferredEqualsImmediate(d.kids, p.kids, made);
    TargetsInside(d.kids, p.kids, true);
    TargetsDistinct(d.kids, p.kids);
    AppliedIsWrap(d.kids, reps, made);
    AppliedIsWrap(d, reps, made);
    HeadUnwrapped(d.node, reps, made);
  }

  lemma HeadUnwrapped(n: CDFnode, reps: seq<Repair>, made: seq<CDFnode>)
    requires |made| == |reps| && n !in Targets(reps)
    ensures n !in WrapperOf(reps, made)
  {
    WrapperKeys(reps, made);
  }

  // ---------- What a restructured tree is like ----------

  /** The repaired tree embeds in the pattern, root included. */
  lemma RestructuredEmbeds(d: Forest, p: Forest, w: map<CDFnode, CDFnode>, d': Forest)
    requires Accepts(d, p) && Restructured(d, p, w, d')
    requires PlainGrids(p) && AtomicLeaves(d)
    ensures Embeds(d', p)
  {
    RepairedTreeEmbeds(d.kids, p.kids, w);
    assert EmbedsOne(d.node, Wrap(d.kids, w), p);
  }

  /** The atomic nodes are as before, in the same order. */
  lemma RestructuredKeeps(d: Forest, p: Forest, w: map<CDFnode, CDFnode>, d': Forest)
    requires Accepts(d, p) && Restructured(d, p, w, d')
    ensures Leaves(d') == Leaves(d)
  {
    LeavesKept(d.kids, w);
  }

  /** A second pass accepts the repaired tree and has nothing to repair. */
  lemma RestructTwice(d: Forest, p: Forest, w: map<CDFnode, CDFnode>, d': Forest)
    requires Accepts(d, p) && Restructured(d, p, w, d')
    requires PlainGrids(p) && AtomicLeaves(d) && DistinctNames(p)
    ensures Accepts(d', p) && Walk(d'.kids, p.kids, true) == Some([])
  {
    SecondWalkIsClean(d.kids, p.kids, w);
  }
}
