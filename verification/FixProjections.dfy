/**
Cleaning up the list of projections of a URL (dapfixprojections in libdap2/constraints.c).

The result keeps the function calls and, for each leaf variable, its first projection.  Projections
of containers are removed: each container finds itself on its own path, so the loop that would
replace it by its fields is never entered.
*/
module FixProjections {
  import opened CdfTree
  import PartialNames

  class DCEprojection {
    const isVar: bool              // discrim == CES_VAR; otherwise a function call
    const annotation: CDFnode      // of a variable: the node it was resolved to

    constructor (v: bool, node: CDFnode)
      ensures isVar == v && annotation == node
    {
      isVar, annotation := v, node;
    }
  }

  predicate IsContainer(n: CDFnode) {
    n.nctype in {Dataset, Sequence, Structure, Grid}
  }

  predicate NoRepeats(list: seq<DCEprojection?>) {
    forall i, j :: 0 <= i < j < |list| && list[i] != null ==> list[i] != list[j]
  }

  // ---------- What is kept ----------

  // Entry i is a projection of a variable that an earlier entry projects too.
  predicate Repeated(list: seq<DCEprojection?>, i: nat)
    requires i < |list|
  {
    list[i] != null && list[i].isVar &&
    exists j :: 0 <= j < i && list[j] != null && list[j].isVar && list[j].annotation == list[i].annotation
  }

  predicate Container(p: DCEprojection?) {
    p != null && p.isVar && IsContainer(p.annotation)
  }

  predicate Stays(list: seq<DCEprojection?>, i: nat)
    requires i < |list|
  {
    list[i] != null && !Repeated(list, i) && !Container(list[i])
  }

  /** The entries that stay, in order. */
  function Fixed(list: seq<DCEprojection?>, upto: nat): (r: seq<DCEprojection>)
    requires upto <= |list|
  {
    if upto == 0 then []
    else Fixed(list, upto - 1) + (if Stays(list, upto - 1) then [list[upto - 1]] else [])
  }

  // ---------- Step 1: duplicates ----------

  // The list after its first `i` entries have removed their later duplicates.
  ghost predicate Unified(list: seq<DCEprojection?>, now: seq<DCEprojection?>, i: nat) {
    |now| == |list| &&
    forall k :: 0 <= k < |list| ==> now[k] == if RepeatedFrom(list, k, i) then null else list[k]
  }

  predicate RepeatedFrom(list: seq<DCEprojection?>, k: nat, i: nat)
    requires k < |list|
  {
    list[k] != null && list[k].isVar &&
    exists j :: 0 <= j < k && j < i && list[j] != null && list[j].isVar && list[j].annotation == list[k].annotation
  }

  predicate SameVar(p: DCEprojection?, q: DCEprojection?) {
    p != null && q != null && p.isVar && q.isVar && p.annotation == q.annotation
  }

  // The inner loop: entries after i that project the same variable are removed.
  method RemoveLater(list: seq<DCEprojection?>, i: nat) returns (r: seq<DCEprojection?>)
    requires i < |list| && NoRepeats(list)
    ensures |r| == |list| && forall k :: 0 <= k < |list| ==> r[k] == if k > i && SameVar(list[i], list[k]) then null else list[k]
  {
    r := list;
    var p1 := list[i];
    if p1 == null || !p1.isVar {
      return;
    }
    var j := i;
    while j < |r|
      invariant i <= j <= |r| == |list|
      invariant forall k :: 0 <= k < |list| ==> r[k] == if i < k < j && SameVar(list[i], list[k]) then null else list[k]
    {
      var p2 := r[j];
      if p2 != null && p1 != p2 && p2.isVar && p1.annotation == p2.annotation {
        r := r[j := null];
      }
      j := j + 1;
    }
  }

  lemma UnifiedGrows(list: seq<DCEprojection?>, now: seq<DCEprojection?>, next: seq<DCEprojection?>, i: nat)
    requires Unified(list, now, i) && i < |list| && |next| == |list|
    requires forall k :: 0 <= k < |list| ==> next[k] == if k > i && SameVar(now[i], now[k]) then null else now[k]
    ensures Unified(list, next, i + 1)
  {
    forall k | 0 <= k < |list|
      ensures next[k] == if RepeatedFrom(list, k, i + 1) then null else list[k]
    {
      if RepeatedFrom(list, k, i + 1) && !RepeatedFrom(list, k, i) {
        assert k > i && SameVar(list[i], list[k]);
        assert !RepeatedFrom(list, i, i);
      }
    }
  }

  lemma UnifiedDistinct(list: seq<DCEprojection?>, now: seq<DCEprojection?>, i: nat)
    requires Unified(list, now, i) && NoRepeats(list)
    ensures NoRepeats(now)
  {
  }

  method RemoveDuplicates(list: seq<DCEprojection?>) returns (r: seq<DCEprojection?>)
    requires NoRepeats(list)
    ensures |r| == |list| && forall k :: 0 <= k < |list| ==> r[k] == if Repeated(list, k) then null else list[k]
  {
    r := list;
    var i := 0;
    while i < |r|
      invariant 0 <= i <= |r| == |list| && Unified(list, r, i)
    {
      UnifiedDistinct(list, r, i);
      var next := RemoveLater(r, i);
      UnifiedGrows(list, r, next, i);
      r := next;
      i := i + 1;
    }
    forall k | 0 <= k < |list|
      ensures RepeatedFrom(list, k, i) <==> Repeated(list, k)
    {
    }
  }

  // ---------- Step 2: containers ----------

  ghost predicate HasPath(p: DCEprojection?, paths: map<CDFnode, seq<CDFnode>>)
    reads if p != null && p.annotation in paths then set n | n in paths[p.annotation] else {}
  {
    p != null && p.isVar ==>
      var n := p.annotation;
      n in paths && paths[n] != [] && IsPath(paths[n]) && paths[n][|paths[n]| - 1] == n
  }

  // Node c lies on the path of what p projects.
  ghost predicate OnPath(c: CDFnode, p: DCEprojection?, paths: map<CDFnode, seq<CDFnode>>) {
    p != null && p.isVar && p.annotation in paths && c in paths[p.annotation]
  }

  // The two inner loops: whether the node lies on the path of some entry from i on.
  method FindOnPath(list: seq<DCEprojection?>, i: nat, c: CDFnode, ghost paths: map<CDFnode, seq<CDFnode>>) returns (found: bool)
    requires i < |list| && forall p :: p in list ==> HasPath(p, paths)
    ensures found <==> exists j :: i <= j < |list| && OnPath(c, list[j], paths)
  {
    var j := i;
    while j < |list|
      invariant i <= j <= |list| && forall k :: i <= k < j ==> !OnPath(c, list[k], paths)
    {
      var p2 := list[j];
      if p2 != null && p2.isVar {
        assert p2 in list;
        var tmp := PartialNames.CollectNodePath(p2.annotation, true, paths[p2.annotation]);
        var k := 0;
        while k < |tmp|
          invariant 0 <= k <= |tmp| && forall l :: 0 <= l < k ==> tmp[l] != c
        {
          if tmp[k] == c {
            assert OnPath(c, list[j], paths);
            return true;
          }
          k := k + 1;
        }
      }
      j := j + 1;
    }
    return false;
  }

  method RemoveContainers(list: seq<DCEprojection?>, ghost paths: map<CDFnode, seq<CDFnode>>) returns (r: seq<DCEprojection?>)
    requires forall p :: p in list ==> HasPath(p, paths)
    ensures |r| == |list| && forall k :: 0 <= k < |list| ==> r[k] == if Container(list[k]) then null else list[k]
  {
    r := list;
    var i := 0;
    while i < |r|
      invariant 0 <= i <= |r| == |list|
      invariant forall k :: 0 <= k < |list| ==> r[k] == if k < i && Container(list[k]) then null else list[k]
    {
      var p1 := r[i];
      if p1 != null && p1.isVar && IsContainer(p1.annotation) {
        assert p1 in list;
        forall p | p in r
          ensures HasPath(p, paths)
        {
          var k :| 0 <= k < |r| && r[k] == p;
          assert p == null || list[k] == p;
        }
        var found := FindOnPath(r, i, p1.annotation, paths);
        assert paths[p1.annotation][|paths[p1.annotation]| - 1] in paths[p1.annotation];
        assert OnPath(p1.annotation, r[i], paths);
        if found {
          r := r[i := null];
        }
      }
      i := i + 1;
    }
  }

  // ---------- Steps 3 and 4 ----------

  /** Step 3: the containers that are still in the list. */
  method CaptureContainers(list: seq<DCEprojection?>) returns (tmp: seq<DCEprojection>, r: seq<DCEprojection?>)
    ensures tmp == [] <==> forall k :: 0 <= k < |list| ==> !Container(list[k])
    ensures |r| == |list| && forall k :: 0 <= k < |list| ==> r[k] == if Container(list[k]) then null else list[k]
  {
    tmp, r := [], list;
    var i := 0;
    while i < |r|
      invariant 0 <= i <= |r| == |list|
      invariant tmp == [] <==> forall k :: 0 <= k < i ==> !Container(list[k])
      invariant forall k :: 0 <= k < |list| ==> r[k] == if k < i && Container(list[k]) then null else list[k]
    {
      var target := r[i];
      if target != null && target.isVar && IsContainer(target.annotation) {
        if target !in tmp {
          tmp := tmp + [target];
        }
        r := r[i := null];
      }
      i := i + 1;
    }
  }

  // The entries that are not NULL, in order.
  function Compact(list: seq<DCEprojection?>): (r: seq<DCEprojection>) {
    if list == [] then []
    else Compact(list[..|list| - 1]) + (if list[|list| - 1] != null then [list[|list| - 1]] else [])
  }

  lemma {:induction false} CompactSplits(a: seq<DCEprojection?>, b: seq<DCEprojection?>)
    ensures Compact(a + b) == Compact(a) + Compact(b)
  {
    if b == [] {
      assert a + b == a;
    } else {
      var front := b[..|b| - 1];
      assert (a + b)[..|a + b| - 1] == a + front;
      CompactSplits(a, front);
    }
  }

  lemma NullDrops(a: seq<DCEprojection?>, b: seq<DCEprojection?>)
    ensures Compact(a + [null] + b) == Compact(a + b)
  {
    CompactSplits(a + [null], b);
    CompactSplits(a, b);
    assert (a + [null])[..|a|] == a;
    assert Compact(a) + [] == Compact(a);
  }

  // The last loop, from the end of the list to its start.
  method RemoveNulls(list: seq<DCEprojection?>) returns (r: seq<DCEprojection?>)
    ensures Compact(r) == Compact(list) && forall k :: 0 <= k < |r| ==> r[k] != null
  {
    r := list;
    var n := |r|;
    while n > 0
      invariant 0 <= n <= |r| && Compact(r) == Compact(list) && forall k :: n <= k < |r| ==> r[k] != null
    {
      n := n - 1;
      if r[n] == null {
        NullDrops(r[..n], r[n + 1..]);
        assert r == r[..n] + [null] + r[n + 1..];
        r := r[..n] + r[n + 1..];
      }
    }
  }

  lemma {:induction false} CompactIsFixed(list: seq<DCEprojection?>, now: seq<DCEprojection?>, upto: nat)
    requires |now| == |list| && upto <= |list|
    requires forall k :: 0 <= k < |list| ==> now[k] == if Stays(list, k) then list[k] else null
    ensures Compact(now[..upto]) == Fixed(list, upto)
  {
    if upto > 0 {
      CompactIsFixed(list, now, upto - 1);
      assert now[..upto][..upto - 1] == now[..upto - 1];
    }
  }

  /**
  dapfixprojections.  The list that comes back is what `Fixed` keeps; in particular the loop that
  expands containers never finds one.
  */
  method DapFixProjections(list: seq<DCEprojection?>, ghost paths: map<CDFnode, seq<CDFnode>>) returns (r: seq<DCEprojection?>)
    requires NoRepeats(list) && forall p :: p in list ==> HasPath(p, paths)
    ensures |r| == |Fixed(list, |list|)| && forall k :: 0 <= k < |r| ==> r[k] == Fixed(list, |list|)[k]
    ensures forall p: DCEprojection :: p in r <==>
      exists i :: 0 <= i < |list| && list[i] == p &&
        (p.isVar ==>
          && p.annotation.nctype in {Atomic, Dimension}
          && forall j :: 0 <= j < i && list[j] != null && list[j].isVar ==> list[j].annotation != p.annotation)
  {
    if |list| == 0 {
      return list;
    }
    var one := RemoveDuplicates(list);
    forall p | p in one
      ensures HasPath(p, paths)
    {
      var k :| 0 <= k < |one| && one[k] == p;
      assert p == null || list[k] == p;
    }
    var two := RemoveContainers(one, paths);
    var tmp, three := CaptureContainers(two);
    assert tmp == [];
    r := RemoveNulls(three);
    assert three[..|list|] == three;
    CompactIsFixed(list, three, |list|);
    CompactNonNull(r);
    forall p: DCEprojection
      ensures p in r <==> p in Fixed(list, |list|)
    {
    }
    forall p: DCEprojection {
      SurvivorsAre(list, p);
    }
  }

  lemma {:induction false} CompactNonNull(list: seq<DCEprojection?>)
    requires forall k :: 0 <= k < |list| ==> list[k] != null
    ensures |Compact(list)| == |list| && forall k :: 0 <= k < |list| ==> Compact(list)[k] == list[k]
  {
    if list != [] {
      CompactNonNull(list[..|list| - 1]);
    }
  }

  // ---------- What the result means ----------

  lemma {:induction false} FixedAre(list: seq<DCEprojection?>, upto: nat, p: DCEprojection)
    requires upto <= |list|
    ensures p in Fixed(list, upto) <==> exists i :: 0 <= i < upto && Stays(list, i) && list[i] == p
  {
    if upto > 0 {
      FixedAre(list, upto - 1, p);
    }
  }

  /** The result is a sublist: its elements come from increasing places of the list. */
  lemma {:induction false} FixedIsSublist(list: seq<DCEprojection?>, upto: nat) returns (at: seq<nat>)
    requires upto <= |list|
    ensures |at| == |Fixed(list, upto)|
    ensures forall k :: 0 <= k < |at| ==> at[k] < upto && Stays(list, at[k]) && list[at[k]] == Fixed(list, upto)[k]
    ensures forall k, l :: 0 <= k < l < |at| ==> at[k] < at[l]
  {
    at := [];
    if upto > 0 {
      at := FixedIsSublist(list, upto - 1);
      if Stays(list, upto - 1) {
        at := at + [upto - 1];
      }
    }
  }

  /** Every function call stays. */
  lemma FunctionsStay(list: seq<DCEprojection?>, p: DCEprojection)
    requires p in list && !p.isVar
    ensures p in Fixed(list, |list|)
  {
    FixedAre(list, |list|, p);
    var i :| 0 <= i < |list| && list[i] == p;
    assert Stays(list, i);
  }

  // The first entry that projects variable v.
  predicate IsFirst(list: seq<DCEprojection?>, v: CDFnode, i: nat) {
    && i < |list| && list[i] != null && list[i].isVar && list[i].annotation == v
    && forall j :: 0 <= j < i && list[j] != null && list[j].isVar ==> list[j].annotation != v
  }

  /** Of the projections of a leaf variable exactly the first stays; those of containers all go. */
  lemma VariablesStay(list: seq<DCEprojection?>, p: DCEprojection)
    requires p.isVar
    ensures p in Fixed(list, |list|) <==>
      p.annotation.nctype in {Atomic, Dimension} && exists i: nat :: IsFirst(list, p.annotation, i) && list[i] == p
  {
    NoContainer(p.annotation);
    FixedAre(list, |list|, p);
    if p in Fixed(list, |list|) {
      var i :| 0 <= i < |list| && Stays(list, i) && list[i] == p;
      assert IsFirst(list, p.annotation, i);
    }
    if p.annotation.nctype in {Atomic, Dimension} && exists i: nat :: IsFirst(list, p.annotation, i) && list[i] == p {
      var i: nat :| IsFirst(list, p.annotation, i) && list[i] == p;
      assert Stays(list, i);
    }
  }

  lemma NoContainer(n: CDFnode)
    ensures !IsContainer(n) <==> n.nctype in {Atomic, Dimension}
  {
    match n.nctype
    case Atomic => assert n.nctype == Atomic;
    case Dimension => assert n.nctype == Dimension;
    case _ =>
  }

  /** What is left: all function calls, and the first projection of each node that can have no fields. */
  lemma SurvivorsAre(list: seq<DCEprojection?>, p: DCEprojection)
    ensures p in Fixed(list, |list|) <==>
      exists i :: 0 <= i < |list| && list[i] == p &&
        (p.isVar ==>
          && p.annotation.nctype in {Atomic, Dimension}
          && forall j :: 0 <= j < i && list[j] != null && list[j].isVar ==> list[j].annotation != p.annotation)
  {
    NoContainer(p.annotation);
    FixedAre(list, |list|, p);
    if p in Fixed(list, |list|) {
      var i :| 0 <= i < |list| && Stays(list, i) && list[i] == p;
      assert p.isVar ==> IsFirst(list, p.annotation, i);
    }
    if i: nat :| i < |list| && list[i] == p && (p.isVar ==> p.annotation.nctype in {Atomic, Dimension} && IsFirst(list, p.annotation, i)) {
      assert Stays(list, i);
    }
  }

  lemma {:induction false} FirstExists(list: seq<DCEprojection?>, k: nat) returns (i: nat)
    requires k < |list| && list[k] != null && list[k].isVar
    ensures i <= k && IsFirst(list, list[k].annotation, i)
  {
    i := k;
    if Repeated(list, k) {
      var j :| 0 <= j < k && list[j] != null && list[j].isVar && list[j].annotation == list[k].annotation;
      i := FirstExists(list, j);
    }
  }

  /**
  The documented expansion of a container that is projected alone does not happen: something below
  the container is projected afterwards exactly when a leaf below it was projected beforehand.
  */
  lemma CoveredIff(list: seq<DCEprojection?>, paths: map<CDFnode, seq<CDFnode>>, c: CDFnode)
    ensures (exists p :: p in Fixed(list, |list|) && p.isVar && p.annotation in paths && c in paths[p.annotation]) <==>
            (exists q :: q in list && q != null && q.isVar && q.annotation in paths && c in paths[q.annotation] &&
                         q.annotation.nctype in {Atomic, Dimension})
  {
    if exists p :: p in Fixed(list, |list|) && OnPath(c, p, paths) {
      var p: DCEprojection :| p in Fixed(list, |list|) && OnPath(c, p, paths);
      FixedAre(list, |list|, p);
      VariablesStay(list, p);
      assert p in list;
    }
    if exists q :: q in list && OnPath(c, q, paths) && q.annotation.nctype in {Atomic, Dimension} {
      var q: DCEprojection :| q in list && OnPath(c, q, paths) && q.annotation.nctype in {Atomic, Dimension};
      var k :| 0 <= k < |list| && list[k] == q;
      var i := FirstExists(list, k);
      var p: DCEprojection := list[i];
      VariablesStay(list, p);
      assert p in Fixed(list, |list|) && OnPath(c, p, paths);
    }
  }

  /** A list that has been cleaned up stays as it is. */
  lemma FixedTwice(list: seq<DCEprojection?>, again: seq<DCEprojection?>)
    requires |again| == |Fixed(list, |list|)| && forall k :: 0 <= k < |again| ==> again[k] == Fixed(list, |list|)[k]
    ensures Fixed(again, |again|) == Fixed(list, |list|)
  {
    var at := FixedIsSublist(list, |list|);
    forall k | 0 <= k < |again|
      ensures Stays(again, k)
    {
      assert Stays(list, at[k]);
    }
    AllStay(again, |again|);
  }

  lemma {:induction false} AllStay(list: seq<DCEprojection?>, upto: nat)
    requires upto <= |list| && forall k :: 0 <= k < |list| ==> Stays(list, k)
    ensures |Fixed(list, upto)| == upto && forall k :: 0 <= k < upto ==> Fixed(list, upto)[k] == list[k]
  {
    if upto > 0 {
      AllStay(list, upto - 1);
    }
  }
}
