/**
The data cache of the DAP2 client: a list of fetched responses kept in order of use, with limits on
size and number, and one permanent prefetch response (libdap2/cache.c).
*/
module Cache {
  import opened CdfTree

  // The elements of one variable as they came from the server, in row-major order.
  datatype Variable = Variable(shape: seq<nat>, elems: seq<int>)

  class NCcachenode {
    const wholevariable: bool
    const isprefetch: bool
    const xdrsize: nat
    const vars: seq<CDFnode>
    const content: map<CDFnode, Variable>

    constructor (whole: bool, pre: bool, size: nat, vs: seq<CDFnode>, data: map<CDFnode, Variable>)
      ensures wholevariable == whole && isprefetch == pre && xdrsize == size && vars == vs && content == data
    {
      wholevariable, isprefetch, xdrsize, vars, content := whole, pre, size, vs, data;
    }
  }

  // ---------- What the list operations compute ----------

  function TotalSize(nodes: seq<NCcachenode>): (r: nat) {
    if nodes == [] then 0 else nodes[0].xdrsize + TotalSize(nodes[1..])
  }

  lemma {:induction false} TotalSizeLast(nodes: seq<NCcachenode>, n: NCcachenode)
    ensures TotalSize(nodes + [n]) == TotalSize(nodes) + n.xdrsize
  {
    if nodes == [] {
      assert ([n])[1..] == [];
    } else {
      TotalSizeLast(nodes[1..], n);
      assert (nodes + [n])[1..] == nodes[1..] + [n];
    }
  }

  lemma {:induction false} TotalSizeWithout(nodes: seq<NCcachenode>, i: nat)
    requires i < |nodes|
    ensures TotalSize(nodes[..i] + nodes[i + 1..]) == TotalSize(nodes) - nodes[i].xdrsize
  {
    if i == 0 {
      assert nodes[..0] + nodes[1..] == nodes[1..];
    } else {
      TotalSizeWithout(nodes[1..], i - 1);
      assert (nodes[..i] + nodes[i + 1..])[1..] == nodes[1..][..i - 1] + nodes[1..][i..];
      assert nodes[1..][i..] == nodes[i + 1..];
    }
  }

  // The nodes from i on leave room for `need` more bytes, and are not too many.
  predicate Fits(nodes: seq<NCcachenode>, i: nat, need: nat, limit: nat, count: nat)
    requires i <= |nodes|
  {
    (TotalSize(nodes[i..]) + need <= limit || i == |nodes|) && |nodes| - i <= count
  }

  // i is where the longest fitting suffix starts.
  predicate LongestFit(nodes: seq<NCcachenode>, i: nat, need: nat, limit: nat, count: nat) {
    i <= |nodes| && Fits(nodes, i, need, limit, count) && forall j :: 0 <= j < i ==> !Fits(nodes, j, need, limit, count)
  }

  /** Nodes are dropped from the front, none too many, until the others leave room and are few enough. */
  lemma LongestFitMeans(nodes: seq<NCcachenode>, i: nat, need: nat, limit: nat, count: nat)
    requires LongestFit(nodes, i, need, limit, count)
    ensures (TotalSize(nodes[i..]) + need <= limit || i == |nodes|) && |nodes| - i <= count
    ensures forall j :: 0 <= j < i ==> TotalSize(nodes[j..]) + need > limit || |nodes| - j > count
  {
    forall j | 0 <= j < i
      ensures TotalSize(nodes[j..]) + need > limit || |nodes| - j > count
    {
      assert !Fits(nodes, j, need, limit, count);
    }
  }

  lemma LongestFitIsUnique(nodes: seq<NCcachenode>, i: nat, j: nat, need: nat, limit: nat, count: nat)
    requires LongestFit(nodes, i, need, limit, count) && LongestFit(nodes, j, need, limit, count)
    ensures i == j
  {
  }

  // The time of the last use of n: its last place in the history of insertions and hits.
  function LastUse(history: seq<NCcachenode>, n: NCcachenode): (r: int)
  {
    if history == [] then -1
    else if history[|history| - 1] == n then |history| - 1
    else LastUse(history[..|history| - 1], n)
  }

  /** LastUse is the greatest time at which n was used, if there is one. */
  lemma {:induction false} LastUseIsLatest(history: seq<NCcachenode>, n: NCcachenode)
    ensures -1 <= LastUse(history, n) < |history|
    ensures LastUse(history, n) >= 0 ==> history[LastUse(history, n)] == n
    ensures forall k :: LastUse(history, n) < k < |history| ==> history[k] != n
  {
    if history != [] && history[|history| - 1] != n {
      LastUseIsLatest(history[..|history| - 1], n);
    }
  }

  // Least recently used first; every node has been used.
  predicate UseOrdered(nodes: seq<NCcachenode>, history: seq<NCcachenode>) {
    && (forall i :: 0 <= i < |nodes| ==> LastUse(history, nodes[i]) >= 0)
    && (forall i, j :: 0 <= i < j < |nodes| ==> LastUse(history, nodes[i]) < LastUse(history, nodes[j]))
  }

  lemma UseOfOther(history: seq<NCcachenode>, n: NCcachenode, m: NCcachenode)
    ensures LastUse(history + [m], n) == if n == m then |history| else LastUse(history, n)
    ensures LastUse(history, n) < |history|
  {
    LastUseIsLatest(history, n);
    assert (history + [m])[..|history|] == history;
  }

  function MovedToEnd(nodes: seq<NCcachenode>, i: nat): (r: seq<NCcachenode>)
    requires i < |nodes|
    ensures |r| == |nodes| && r[|nodes| - 1] == nodes[i]
  {
    nodes[..i] + nodes[i + 1..] + [nodes[i]]
  }

  /** Using a node and moving it to the end keeps the order of use. */
  lemma MoveToEndKeepsOrder(nodes: seq<NCcachenode>, history: seq<NCcachenode>, i: nat)
    requires i < |nodes| && UseOrdered(nodes, history)
    ensures UseOrdered(MovedToEnd(nodes, i), history + [nodes[i]])
  {
    forall k | 0 <= k < |nodes| {
      UseOfOther(history, nodes[k], nodes[i]);
    }
    var moved := MovedToEnd(nodes, i);
    forall k | 0 <= k < |nodes|
      ensures moved[k] == if k < i then nodes[k] else if k < |nodes| - 1 then nodes[k + 1] else nodes[i]
    {
    }
  }

  // The list with its recorded size keeps the limits and the order of use.
  predicate InOrder(nodes: seq<NCcachenode>, size: int, limit: nat, count: nat, history: seq<NCcachenode>) {
    && size == TotalSize(nodes)
    && (size <= limit || |nodes| == 1)
    && |nodes| <= count + 1
    && UseOrdered(nodes, history)
  }

  lemma MoveToEndKeepsAll(nodes: seq<NCcachenode>, i: nat, size: int, limit: nat, count: nat, history: seq<NCcachenode>)
    requires i < |nodes| && InOrder(nodes, size, limit, count, history)
    ensures InOrder(MovedToEnd(nodes, i), size, limit, count, history + [nodes[i]])
    ensures |nodes| == 1 ==> MovedToEnd(nodes, i) == nodes
  {
    MoveToEndKeepsOrder(nodes, history, i);
    MoveToEndKeepsSize(nodes, i);
  }

  lemma MoveToEndKeepsSize(nodes: seq<NCcachenode>, i: nat)
    requires i < |nodes|
    ensures TotalSize(MovedToEnd(nodes, i)) == TotalSize(nodes)
    ensures |nodes| == 1 ==> MovedToEnd(nodes, i) == nodes
  {
    TotalSizeWithout(nodes, i);
    TotalSizeLast(nodes[..i] + nodes[i + 1..], nodes[i]);
  }

  /** Appending a node that was not in the list and dropping a prefix keep the order of use. */
  lemma InsertKeepsOrder(nodes: seq<NCcachenode>, history: seq<NCcachenode>, k: nat, n: NCcachenode)
    requires k <= |nodes| && UseOrdered(nodes, history) && n !in nodes
    ensures UseOrdered(nodes[k..] + [n], history + [n])
  {
    forall i | 0 <= i < |nodes| {
      UseOfOther(history, nodes[i], n);
    }
    UseOfOther(history, n, n);
    var kept := nodes[k..] + [n];
    forall i | 0 <= i < |kept|
      ensures kept[i] == if i < |nodes| - k then nodes[k + i] else n
    {
    }
  }

  // The latest whole-variable node with that variable, or -1.
  function FindWhole(nodes: seq<NCcachenode>, target: CDFnode): (r: int)
    ensures -1 <= r < |nodes|
  {
    if nodes == [] then -1
    else
      var last := |nodes| - 1;
      if nodes[last].wholevariable && target in nodes[last].vars then last else FindWhole(nodes[..last], target)
  }

  lemma {:induction false} FindWholeFinds(nodes: seq<NCcachenode>, target: CDFnode)
    ensures var r := FindWhole(nodes, target);
      && (r >= 0 ==> nodes[r].wholevariable && target in nodes[r].vars)
      && forall k :: r < k < |nodes| ==> !(nodes[k].wholevariable && target in nodes[k].vars)
  {
    if nodes != [] {
      var last := |nodes| - 1;
      if !(nodes[last].wholevariable && target in nodes[last].vars) {
        FindWholeFinds(nodes[..last], target);
      }
    }
  }

  predicate Prefetched(prefetch: NCcachenode?, target: CDFnode) {
    prefetch != null && target in prefetch.vars
  }

  // The node that answers for a variable, or null.
  function Hit(prefetch: NCcachenode?, nodes: seq<NCcachenode>, target: CDFnode): (r: NCcachenode?) {
    if Prefetched(prefetch, target) then prefetch
    else
      var i := FindWhole(nodes, target);
      if i < 0 then null else nodes[i]
  }

  // The list after asking for a variable, and the history of uses after it.
  function AfterHit(prefetch: NCcachenode?, nodes: seq<NCcachenode>, target: CDFnode): (r: seq<NCcachenode>) {
    var i := FindWhole(nodes, target);
    if Prefetched(prefetch, target) || i < 0 then nodes else MovedToEnd(nodes, i)
  }

  function HistoryAfter(history: seq<NCcachenode>, prefetch: NCcachenode?, nodes: seq<NCcachenode>, target: CDFnode): (r: seq<NCcachenode>) {
    var i := FindWhole(nodes, target);
    if Prefetched(prefetch, target) || i < 0 then history else history + [nodes[i]]
  }

  /** A hit is the prefetch node or a whole-variable node, and it lists the variable. */
  lemma HitIsUsable(prefetch: NCcachenode?, nodes: seq<NCcachenode>, target: CDFnode)
    ensures var r := Hit(prefetch, nodes, target);
      && (r != null ==> target in r.vars && (r == prefetch || (r in nodes && r.wholevariable)))
      && (r == null ==> !Prefetched(prefetch, target) && forall k :: 0 <= k < |nodes| ==> !(nodes[k].wholevariable && target in nodes[k].vars))
  {
    FindWholeFinds(nodes, target);
  }

  /**
  The prefetch answers first, and nothing moves.  Otherwise the latest whole-variable node with the
  variable answers and goes to the end of the list, as the latest one used.
  */
  lemma HitMoves(prefetch: NCcachenode?, nodes: seq<NCcachenode>, target: CDFnode, history: seq<NCcachenode>)
    returns (i: int)
    ensures -1 <= i < |nodes| && (i >= 0 ==> nodes[i].wholevariable && target in nodes[i].vars)
    ensures forall k :: i < k < |nodes| ==> !(nodes[k].wholevariable && target in nodes[k].vars)
    ensures (prefetch != null && target in prefetch.vars) || i < 0 ==>
      && Hit(prefetch, nodes, target) == (if prefetch != null && target in prefetch.vars then prefetch else null)
      && AfterHit(prefetch, nodes, target) == nodes
      && HistoryAfter(history, prefetch, nodes, target) == history
    ensures !(prefetch != null && target in prefetch.vars) && i >= 0 ==>
      && Hit(prefetch, nodes, target) == nodes[i]
      && AfterHit(prefetch, nodes, target) == nodes[..i] + nodes[i + 1..] + [nodes[i]]
      && HistoryAfter(history, prefetch, nodes, target) == history + [nodes[i]]
  {
    FindWholeFinds(nodes, target);
    i := FindWhole(nodes, target);
  }

  method Contains(vars: seq<CDFnode>, target: CDFnode) returns (found: bool)
    ensures found == (target in vars)
  {
    var j := 0;
    while j < |vars|
      invariant 0 <= j <= |vars| && target !in vars[..j]
    {
      if vars[j] == target {
        return true;
      }
      j := j + 1;
    }
    assert vars[..j] == vars;
    found := false;
  }

  class NCcache {
    const cachelimit: nat
    const cachecount: nat
    var cachesize: int
    var nodes: seq<NCcachenode>
    var prefetch: NCcachenode?
    ghost var history: seq<NCcachenode>   // the nodes inserted or hit so far

    /** What holds in every reachable state. */
    ghost predicate Valid()
      reads this
    {
      InOrder(nodes, cachesize, cachelimit, cachecount, history)
    }

    // createnccache
    constructor (limit: nat, count: nat)
      ensures Valid() && nodes == [] && prefetch == null && cachelimit == limit && cachecount == count && history == []
    {
      cachelimit, cachecount, cachesize, nodes, prefetch, history := limit, count, 0, [], null, [];
    }

    /**
    iscached: the prefetch node if it has the variable, else the latest whole-variable node that
    has it, which becomes the most recently used one.
    */
    method IsCached(target: CDFnode) returns (cachenode: NCcachenode?)
      requires Valid()
      modifies this`nodes, this`history
      ensures Valid()
      ensures cachenode == Hit(prefetch, old(nodes), target)
      ensures nodes == AfterHit(prefetch, old(nodes), target)
      ensures history == HistoryAfter(old(history), prefetch, old(nodes), target)
    {
      cachenode := null;
      if prefetch != null {
        var found := Contains(prefetch.vars, target);
        if found {
          assert AfterHit(prefetch, nodes, target) == nodes;
          return prefetch;
        }
      }
      var index := Search(target);
      ghost var before := nodes;
      if index < 0 {
        assert AfterHit(prefetch, before, target) == before;
        return;
      }
      assert AfterHit(prefetch, before, target) == MovedToEnd(before, index);
      cachenode := nodes[index];
      Touch(index);
    }

    // Move a node to the end of the list: it has been used.
    method Touch(index: nat)
      requires Valid() && index < |nodes|
      modifies this`nodes, this`history
      ensures Valid()
      ensures nodes == MovedToEnd(old(nodes), index)
      ensures history == old(history) + [old(nodes)[index]]
    {
      var cachenode := nodes[index];
      MoveToEndKeepsAll(nodes, index, cachesize, cachelimit, cachecount, history);
      history := history + [cachenode];
      if |nodes| > 1 {
        nodes := nodes[..index] + nodes[index + 1..];
        nodes := nodes + [cachenode];
      }
    }

    // The search of iscached, from the latest node to the oldest.
    method Search(target: CDFnode) returns (index: int)
      ensures index == FindWhole(nodes, target)
    {
      var i := |nodes|;
      assert nodes[..i] == nodes;
      while i > 0
        invariant 0 <= i <= |nodes|
        invariant FindWhole(nodes, target) == FindWhole(nodes[..i], target)
      {
        assert nodes[..i][..i - 1] == nodes[..i - 1];
        i := i - 1;
        if nodes[i].wholevariable {
          var found := Contains(nodes[i].vars, target);
          if found {
            return i;
          }
        }
      }
      index := -1;
    }

    // The two eviction loops of buildcachenode; k is the number of evicted nodes.
    method Trim(need: nat) returns (ghost k: nat)
      requires cachesize == TotalSize(nodes)
      modifies this`nodes, this`cachesize
      ensures LongestFit(old(nodes), k, need, cachelimit, cachecount)
      ensures nodes == old(nodes)[k..] && cachesize == TotalSize(nodes)
    {
      ghost var before := nodes;
      k := 0;
      while cachesize + need > cachelimit && |nodes| > 0
        invariant k <= |before| && nodes == before[k..] && cachesize == TotalSize(nodes)
        invariant forall j :: 0 <= j < k ==> !Fits(before, j, need, cachelimit, cachecount)
        decreases |nodes|
      {
        cachesize := cachesize - nodes[0].xdrsize;
        nodes := nodes[1..];
        k := k + 1;
      }
      while |nodes| > cachecount
        invariant k <= |before| && nodes == before[k..] && cachesize == TotalSize(nodes)
        invariant cachesize + need <= cachelimit || nodes == []
        invariant forall j :: 0 <= j < k ==> !Fits(before, j, need, cachelimit, cachecount)
        decreases |nodes|
      {
        cachesize := cachesize - nodes[0].xdrsize;
        nodes := nodes[1..];
        k := k + 1;
      }
    }

    /**
    The insertion at the end of buildcachenode: drop nodes from the front until the new one fits
    and they are few enough, and append it.
    */
    method Insert(cachenode: NCcachenode) returns (ghost k: nat)
      requires Valid() && cachenode !in nodes
      modifies this`nodes, this`cachesize, this`history
      ensures Valid() && history == old(history) + [cachenode]
      ensures LongestFit(old(nodes), k, cachenode.xdrsize, cachelimit, cachecount)
      ensures k <= |old(nodes)|
      ensures (TotalSize(old(nodes)[k..]) + cachenode.xdrsize <= cachelimit || k == |old(nodes)|) && |old(nodes)| - k <= cachecount
      ensures forall j :: 0 <= j < k ==> TotalSize(old(nodes)[j..]) + cachenode.xdrsize > cachelimit || |old(nodes)| - j > cachecount
      ensures nodes == old(nodes)[k..] + [cachenode]
    {
      ghost var before := nodes;
      k := Trim(cachenode.xdrsize);
      LongestFitMeans(before, k, cachenode.xdrsize, cachelimit, cachecount);
      InsertKeepsOrder(before, history, k, cachenode);
      TotalSizeLast(nodes, cachenode);
      nodes := nodes + [cachenode];
      cachesize := cachesize + cachenode.xdrsize;
      history := history + [cachenode];
    }
  }
}
