/**
Reading a variable through the cache (libdap2/getvara.c, nc3d_getvarx; libdap2/cache.c, prefetchdata).

A request is answered from a cached response, by fetching the whole field, or by fetching the
requested part.  What the caller gets is `Answers.Answer` for the way taken; after any run of requests
and prefetches it is the strided read of what the URL of the dataset makes visible wherever
`Answers.Sound` holds for each way that may be taken.
*/
module GetVara {
  import opened Wrappers
  import opened CdfTree
  import opened Arithmetic
  import opened Slices
  import opened RowMajor
  import opened Projections
  import opened Selections
  import opened MoveTo
  import opened Cache
  import opened Answers
  import Prefetch
  import Restruct
  import MapNodes

  // ---------- The path of a variable ----------

  // A structure, which may have dimensions, or a grid, which has none.
  predicate IsContainer(n: CDFnode) {
    n.nctype == Structure || (n.nctype == Grid && n.dimset0 == [])
  }

  /**
  Containers down to the variable, none of them with a string or sequence dimension; end to end their
  segments declare at least the sizes of v.
  */
  ghost predicate PathDeclares(ds: Dataset, v: CDFnode, path: seq<CDFnode>)
    reads path`dimsetplus
  {
    && v in ds.full && path != [] && path[|path| - 1] == v && v.nctype == Atomic
    && (forall i :: 0 <= i < |path| - 1 ==> IsContainer(path[i]))
    && (forall n :: n in path ==> n.stringdim == null && n.seqdim == null && n.dimsetplus.Elems() == n.dimset0)
    && (forall n :: n in path ==> |n.dimset0| <= NC_MAX_VAR_DIMS)
    && Declared(ds.full[v].shape, Flat(PathSlices(path)))
  }

  // The rank of each segment.
  function Ranks(path: seq<CDFnode>): (r: seq<nat>)
    ensures |r| == |path|
  {
    seq(|path|, i requires 0 <= i < |path| => |path[i].dimset0|)
  }

  lemma {:induction false} SumOfRanks(ranks: seq<nat>, parts: seq<seq<Slice>>)
    requires |ranks| == |parts| && forall i :: 0 <= i < |ranks| ==> ranks[i] == |parts[i]|
    ensures Sum(ranks) == |Flat(parts)|
  {
    if parts != [] {
      SumOfRanks(ranks[1..], parts[1..]);
    }
  }

  lemma RanksAddUp(ds: Dataset, v: CDFnode, path: seq<CDFnode>)
    requires PathDeclares(ds, v, path)
    ensures Ranks(path) != [] && Sum(Ranks(path)) == |ds.full[v].shape|
    ensures ContainerRank(Ranks(path)) == |ds.full[v].shape| - |v.dimset0|
  {
    SumOfRanks(Ranks(path), PathSlices(path));
  }

  // ---------- Arguments ----------

  // Arguments of the rank of the variable; they are unsigned, and nothing is counted zero times.
  predicate Arguments(rank: nat, start: seq<int>, count: seq<int>, stride: seq<int>) {
    && |start| == |count| == |stride| == rank
    && forall d :: 0 <= d < rank ==> start[d] >= 0 && count[d] >= 1
  }

  /** The checks of nc3d_getvarx on its arguments. */
  method CheckArguments(shape: seq<nat>, start: seq<int>, count: seq<int>, stride: seq<int>) returns (ok: bool)
    requires Arguments(|shape|, start, count, stride)
    ensures ok <==> AccessInBounds(shape, start, count, stride)
    ensures ok <==> forall d :: 0 <= d < |shape| ==> stride[d] >= 1 && start[d] + stride[d] * (count[d] - 1) < shape[d]
  {
    var i := 0;
    while i < |shape|
      invariant 0 <= i <= |shape| && forall d :: 0 <= d < i ==> InBounds(start[d], count[d], stride[d], shape[d])
    {
      if stride[i] < 1 {
        return false;
      }
      if start[i] >= shape[i] || start[i] + stride[i] * (count[i] - 1) >= shape[i] {
        return false;
      }
      MulNonneg(stride[i], count[i] - 1);
      i := i + 1;
    }
    return true;
  }

  // ---------- The client ----------

  class DapClient {
    const ds: Dataset
    const wholevar: bool                  // NCF_WHOLEVAR: always fetch whole variables
    const invisible: set<CDFnode>         // variables without a variable id
    const cache: NCcache

    constructor (dataset: Dataset, whole: bool, hidden: set<CDFnode>, limit: nat, count: nat)
      requires ValidDataset(dataset)
      ensures Valid() && ds == dataset && wholevar == whole && invisible == hidden && fresh(cache)
    {
      ds, wholevar, invisible := dataset, whole, hidden;
      cache := new NCcache(limit, count);
    }

    // A node that may be used for a variable without fetching holds usable content for it.
    ghost predicate NodeOk(n: NCcachenode) {
      n.wholevariable ==> forall v :: v in n.vars && v !in invisible ==> v in n.content && Usable(ds, v, n.content[v])
    }

    /** What holds in every reachable state of the client. */
    ghost predicate Valid()
      reads cache
    {
      ValidDataset(ds) && cache.Valid() && ContentOk(cache.prefetch, cache.nodes)
    }

    ghost predicate ContentOk(prefetch: NCcachenode?, nodes: seq<NCcachenode>) {
      && (forall n :: n in nodes ==> NodeOk(n))
      && (prefetch != null ==> prefetch.wholevariable && NodeOk(prefetch))
      && (ds.selections ==> forall n :: n in nodes ==> !n.wholevariable)
    }

    // Asking the cache keeps what holds of its content.
    lemma HitOk(prefetch: NCcachenode?, nodes: seq<NCcachenode>, v: CDFnode)
      requires ContentOk(prefetch, nodes)
      ensures ContentOk(prefetch, AfterHit(prefetch, nodes, v))
      ensures var hit := Hit(prefetch, nodes, v);
        && (hit != null ==> hit.wholevariable && NodeOk(hit) && v in hit.vars)
        && (hit == null ==> AfterHit(prefetch, nodes, v) == nodes)
        && forall n :: n in AfterHit(prefetch, nodes, v) ==> n in nodes
    {
      HitIsUsable(prefetch, nodes, v);
      AfterHitKeeps(prefetch, nodes, v);
    }

    // The state that nc3d_getvarx goes to.
    function WayOf(hit: bool): (way: Way) {
      if hit then CACHED else if wholevar then FETCHVAR else FETCHPART
    }

    /** buildcachenode for one variable: fetch, wrap in a cache node, insert. */
    method FetchInto(v: CDFnode, x: Variable, whole: bool, xdrsize: nat) returns (node: NCcachenode)
      requires Valid() && (whole ==> Usable(ds, v, x) && !ds.selections)
      modifies cache
      ensures Valid() && fresh(node) && cache.prefetch == old(cache.prefetch)
      ensures node.wholevariable == whole && Stored(old(cache.nodes), cache.nodes, v, x)
    {
      node := new NCcachenode(whole, false, xdrsize, [v], map[v := x]);
      ghost var k := cache.Insert(node);
      forall n | n in cache.nodes
        ensures NodeOk(n)
      {
        if n != node {
          assert n in old(cache.nodes)[k..];
        }
      }
    }

    // The latest node is new, and holds x for v.
    ghost predicate Stored(was: seq<NCcachenode>, nodes: seq<NCcachenode>, v: CDFnode, x: Variable) {
      nodes != [] &&
      var last := nodes[|nodes| - 1];
      last !in was && last.vars == [v] && last.content == map[v := x]
    }

    // What Fetch and the methods for its cases are called with; c dimensions belong to containers.
    ghost predicate Called(v: CDFnode, vara: seq<Slice>, ranks: seq<nat>, c: nat, memory: seq<int>) {
      && ValidRequest(ds, v, vara)
      && ranks != [] && Sum(ranks) == |vara| && c == ContainerRank(ranks) <= |vara|
      && |memory| == Product(SliceCounts(vara))
    }

    /** The case CACHED: walk over the content of the node that was hit. */
    method ReadCached(node: NCcachenode, v: CDFnode, vara: seq<Slice>, ranks: seq<nat>, c: nat, conv: Conversion, memory: seq<int>)
      returns (ok: bool, out: seq<int>)
      requires Called(v, vara, ranks, c, memory) && v !in invisible
      requires node.wholevariable && NodeOk(node) && v in node.vars
      ensures ok && Answer(ds, v, c, vara, conv, memory, WayOf(true)) == Some(out)
    {
      var x := node.content[v];
      RestrictReads(ds, v, vara);
      var walk := Restrict(ds, v, vara);
      CachedAnswer(ds, v, c, vara, conv, memory, walk, x);
      ok, out := Moveto(x.elems, x.shape, walk, ranks, node.wholevariable, conv, memory);
    }

    // dapiswholeprojection on the slices of a fetch, unless the URL has selections.
    method IsMarked(v: CDFnode, vara: seq<Slice>, p: seq<Slice>, k: nat) returns (whole: bool)
      requires ValidRequest(ds, v, vara) && p == Restrict(ds, v, vara) && k <= |p| == |vara|
      ensures whole == Marks(ds, v, vara, k)
    {
      var visible := if v in ds.url then SliceCounts(ds.url[v]) else ds.full[v].shape;
      whole := !ds.selections && IsWholeProjection(p, visible, k);
    }

    /** The case FETCHVAR: fetch the whole field, in the requested instances, and walk with the request. */
    method FetchVar(v: CDFnode, vara: seq<Slice>, ranks: seq<nat>, c: nat, conv: Conversion, memory: seq<int>, xdrsize: nat)
      returns (ok: bool, out: seq<int>, ghost x: Variable)
      requires Valid() && Called(v, vara, ranks, c, memory)
      modifies cache
      ensures Valid() && cache.prefetch == old(cache.prefetch)
      ensures Answer(ds, v, c, vara, conv, memory, FETCHVAR) == if ok then Some(out) else None
      ensures x.shape == SliceCounts(vara)[..c] + ds.full[v].shape[c..]
      ensures Stored(old(cache.nodes), cache.nodes, v, x)
    {
      RestrictReads(ds, v, vara);
      var p := Restrict(ds, v, vara);
      FetchedFits(ds.full[v].shape, p, c);
      var response := Response(ds.full[v], Fetched(p, ds.full[v].shape, c));
      x := response;
      var whole := IsMarked(v, vara, p, c);
      if whole {
        WholeFetchIsUsable(ds, v, vara, c);
      }
      var node := FetchInto(v, response, whole, xdrsize);
      FieldReady(ds, v, c, vara, x, whole);
      MovesIfMarked(ds, v, c, vara, conv, FETCHVAR, whole);
      FieldAnswer(ds, v, c, vara, conv, memory, p, x, whole, Advances(|vara| - c, whole, conv));
      ok, out := Moveto(response.elems, response.shape, p, ranks, node.wholevariable, conv, memory);
    }

    /** The case FETCHPART: fetch the requested part and walk over it with the shifted request. */
    method FetchPart(v: CDFnode, vara: seq<Slice>, ranks: seq<nat>, c: nat, conv: Conversion, memory: seq<int>, xdrsize: nat)
      returns (ok: bool, out: seq<int>, ghost x: Variable)
      requires Valid() && Called(v, vara, ranks, c, memory)
      modifies cache
      ensures Valid() && cache.prefetch == old(cache.prefetch)
      ensures ok && Answer(ds, v, c, vara, conv, memory, FETCHPART) == Some(out)
      ensures x == Variable(SliceCounts(vara), Wanted(ds, v, vara)) && Stored(old(cache.nodes), cache.nodes, v, x)
    {
      RestrictReads(ds, v, vara);
      var p := Restrict(ds, v, vara);
      var response := Response(ds.full[v], p);
      x := response;
      var whole := IsMarked(v, vara, p, |p|);
      if whole {
        PartIsUsable(ds, v, vara);
      }
      var node := FetchInto(v, response, whole, xdrsize);
      PartReady(ds, v, c, vara, x.shape, whole);
      MovesIfMarked(ds, v, c, vara, conv, FETCHPART, whole);
      ghost var left := PartLeaves(ds, v, c, vara, conv, memory, x, whole, Advances(|x.shape| - c, whole, conv));
      ok, out := Moveto(response.elems, response.shape, ShiftAll(vara), ranks, node.wholevariable, conv, memory);
    }

    // What Fetch leaves in the cache, and that it may fail only on the way FETCHVAR.
    ghost predicate Filled(v: CDFnode, vara: seq<Slice>, c: nat, hit: bool, was: seq<NCcachenode>, nodes: seq<NCcachenode>, x: Variable, ok: bool)
      requires ValidRequest(ds, v, vara) && c <= |vara|
    {
      && (!wholevar || hit ==> ok)
      && (hit ==> forall n :: n in nodes ==> n in was)
      && (!hit ==> Stored(was, nodes, v, x))
      && (!hit && !wholevar ==> x == Variable(SliceCounts(vara), Wanted(ds, v, vara)))
      && (!hit && wholevar ==> x.shape == SliceCounts(vara)[..c] + ds.full[v].shape[c..])
    }

    // The response is not in the cache.
    method FetchMissing(v: CDFnode, vara: seq<Slice>, ranks: seq<nat>, c: nat, conv: Conversion, memory: seq<int>, xdrsize: nat)
      returns (ok: bool, out: seq<int>, ghost x: Variable)
      requires Valid() && Called(v, vara, ranks, c, memory)
      modifies cache
      ensures Valid() && cache.prefetch == old(cache.prefetch)
      ensures Answer(ds, v, c, vara, conv, memory, WayOf(false)) == (if ok then Some(out) else None)
      ensures Filled(v, vara, c, false, old(cache.nodes), cache.nodes, x, ok)
    {
      if wholevar {
        ok, out, x := FetchVar(v, vara, ranks, c, conv, memory, xdrsize);
      } else {
        ok, out, x := FetchPart(v, vara, ranks, c, conv, memory, xdrsize);
      }
    }

    lemma FilledByHit(v: CDFnode, vara: seq<Slice>, c: nat, was: seq<NCcachenode>, nodes: seq<NCcachenode>, x: Variable)
      requires ValidRequest(ds, v, vara) && c <= |vara| && forall n :: n in nodes ==> n in was
      ensures Filled(v, vara, c, true, was, nodes, x, true)
    {
    }

    // Once the request is known: the elements asked for, from the cache or from the server.
    method Fetch(v: CDFnode, vara: seq<Slice>, ranks: seq<nat>, c: nat, conv: Conversion, memory: seq<int>, xdrsize: nat, ghost hit: bool)
      returns (ok: bool, out: seq<int>, ghost x: Variable)
      requires Valid() && Called(v, vara, ranks, c, memory) && v !in invisible
      requires hit == (Hit(cache.prefetch, cache.nodes, v) != null)
      modifies cache
      ensures Valid() && cache.prefetch == old(cache.prefetch)
      ensures Answer(ds, v, c, vara, conv, memory, WayOf(hit)) == (if ok then Some(out) else None)
      ensures Filled(v, vara, c, hit, old(cache.nodes), cache.nodes, x, ok)
    {
      ghost var was := cache.nodes;
      HitOk(cache.prefetch, cache.nodes, v);
      var cachenode := cache.IsCached(v);
      if cachenode != null {
        x := cachenode.content[v];
        FilledByHit(v, vara, c, was, cache.nodes, x);
        ok, out := ReadCached(cachenode, v, vara, ranks, c, conv, memory);
      } else {
        ok, out, x := FetchMissing(v, vara, ranks, c, conv, memory, xdrsize);
      }
    }

    // A request for v: c dimensions in containers, declared slices, arguments in bounds, and memory for the result.
    ghost predicate Requested(v: CDFnode, c: nat, sl: seq<Slice>, start: seq<int>, count: seq<int>, stride: seq<int>, memory: seq<int>) {
      && ValidDataset(ds) && v in ds.full && Declared(ds.full[v].shape, sl) && c <= |ds.full[v].shape|
      && AccessInBounds(Visible(ds, v).shape, start, count, stride) && |memory| == Product(count)
    }

    // The reply to a request that is answered in the given way.
    ghost predicate Replied(v: CDFnode, c: nat, sl: seq<Slice>, start: seq<int>, count: seq<int>, stride: seq<int>,
                            conv: Conversion, memory: seq<int>, way: Way, reply: Reply)
      requires Requested(v, c, sl, start, count, stride, memory)
    {
      RequestIsStridedRead(ds, v, sl, start, count, stride, conv);
      VisibleSmaller(ds, v);
      match Answer(ds, v, c, BuiltAll(sl, 0, start, count, stride), conv, memory, way)
      case Some(out) => reply == Data(out)
      case None => reply.NC_EINVALCOORDS?
    }

    // Whether the request can be trusted to be answered right.
    ghost predicate Trusted(v: CDFnode, c: nat, sl: seq<Slice>, start: seq<int>, count: seq<int>, stride: seq<int>,
                            conv: Conversion, memory: seq<int>, way: Way)
      requires Requested(v, c, sl, start, count, stride, memory)
    {
      RequestIsStridedRead(ds, v, sl, start, count, stride, conv);
      VisibleSmaller(ds, v);
      Sound(ds, v, c, BuiltAll(sl, 0, start, count, stride), conv, way)
    }

    /** The reply to a sound request is the strided read. */
    lemma TrustedReply(v: CDFnode, c: nat, sl: seq<Slice>, start: seq<int>, count: seq<int>, stride: seq<int>,
                       conv: Conversion, memory: seq<int>, way: Way, reply: Reply)
      requires Requested(v, c, sl, start, count, stride, memory)
      requires Replied(v, c, sl, start, count, stride, conv, memory, way, reply)
      requires Trusted(v, c, sl, start, count, stride, conv, memory, way)
      ensures reply.Data? && IsStridedRead(reply.elems, Visible(ds, v), start, count, stride, conv)
    {
      RequestIsStridedRead(ds, v, sl, start, count, stride, conv);
      VisibleSmaller(ds, v);
      SoundAnswer(ds, v, c, BuiltAll(sl, 0, start, count, stride), conv, memory, way);
    }

    lemma FetchedReply(v: CDFnode, c: nat, sl: seq<Slice>, start: seq<int>, count: seq<int>, stride: seq<int>,
                       conv: Conversion, memory: seq<int>, way: Way, answer: Option<seq<int>>, reply: Reply)
      requires Requested(v, c, sl, start, count, stride, memory)
      requires ValidRequest(ds, v, BuiltAll(sl, 0, start, count, stride)) && |BuiltAll(sl, 0, start, count, stride)| == |ds.full[v].shape|
      requires |memory| == Product(SliceCounts(BuiltAll(sl, 0, start, count, stride)))
      requires answer == Answer(ds, v, c, BuiltAll(sl, 0, start, count, stride), conv, memory, way)
      requires reply == if answer.Some? then Data(answer.value) else Reply.NC_EINVALCOORDS
      ensures Replied(v, c, sl, start, count, stride, conv, memory, way, reply)
    {
    }

    // What a request does to the cache, and whether it is answered; c dimensions belong to containers.
    ghost predicate Outcome(v: CDFnode, c: nat, start: seq<int>, count: seq<int>, stride: seq<int>, hit: bool,
                            was: seq<NCcachenode>, nodes: seq<NCcachenode>, x: Variable, reply: Reply)
      requires ValidDataset(ds) && v in ds.full && c <= |ds.full[v].shape|
      requires AccessInBounds(Visible(ds, v).shape, start, count, stride)
    {
      VisibleSmaller(ds, v);
      && (!wholevar || hit ==> reply.Data?)
      && (hit ==> forall n :: n in nodes ==> n in was)
      && (!hit ==> Stored(was, nodes, v, x))
      && (!hit && !wholevar ==> x.shape == count && IsStridedRead(x.elems, Visible(ds, v), start, count, stride, Same))
      && (!hit && wholevar ==>
            x.shape == count[..c] + ds.full[v].shape[c..] && (reply.Data? <==> TakesFront(ds, v, c, start, count, stride)))
    }

    lemma OutcomeOf(v: CDFnode, c: nat, sl: seq<Slice>, start: seq<int>, count: seq<int>, stride: seq<int>, conv: Conversion, memory: seq<int>,
                    hit: bool, was: seq<NCcachenode>, nodes: seq<NCcachenode>, x: Variable, answer: Option<seq<int>>, reply: Reply)
      requires Requested(v, c, sl, start, count, stride, memory)
      requires ValidRequest(ds, v, BuiltAll(sl, 0, start, count, stride)) && |BuiltAll(sl, 0, start, count, stride)| == |ds.full[v].shape|
      requires SliceCounts(BuiltAll(sl, 0, start, count, stride)) == count
      requires answer == Answer(ds, v, c, BuiltAll(sl, 0, start, count, stride), conv, memory, WayOf(hit))
      requires reply == if answer.Some? then Data(answer.value) else Reply.NC_EINVALCOORDS
      requires !wholevar || hit ==> answer.Some?
      requires hit ==> forall n :: n in nodes ==> n in was
      requires !hit ==> Stored(was, nodes, v, x)
      requires !hit && !wholevar ==> x == Variable(count, Wanted(ds, v, BuiltAll(sl, 0, start, count, stride)))
      requires !hit && wholevar ==> x.shape == count[..c] + ds.full[v].shape[c..]
      ensures Outcome(v, c, start, count, stride, hit, was, nodes, x, reply)
    {
      VisibleSmaller(ds, v);
      RequestIsStridedRead(ds, v, sl, start, count, stride, Same);
      RefusedIff(ds, v, c, sl, start, count, stride, conv, memory);
    }

    // What a request leaves in the cache when it is not answered from it.
    ghost predicate Kept(v: CDFnode, c: nat, start: seq<int>, count: seq<int>, stride: seq<int>,
                         was: seq<NCcachenode>, nodes: seq<NCcachenode>, reply: Reply)
      requires ValidDataset(ds) && v in ds.full && AccessInBounds(Visible(ds, v).shape, start, count, stride)
      requires c <= |ds.full[v].shape|
    {
      VisibleSmaller(ds, v);
      && nodes != [] && nodes[|nodes| - 1] !in was && v in nodes[|nodes| - 1].content
      && var x := nodes[|nodes| - 1].content[v];
        && (!wholevar ==> x.shape == count && IsStridedRead(x.elems, Visible(ds, v), start, count, stride, Same))
        && (wholevar ==> x.shape == count[..c] + ds.full[v].shape[c..])
        && (wholevar ==> (reply.Data? <==> TakesFront(ds, v, c, start, count, stride)))
    }

    // What a caller may rely on after a request in bounds, where c dimensions belong to containers:
    // without NCF_WHOLEVAR, and from the cache, it is answered.
    ghost predicate Served(v: CDFnode, c: nat, sl: seq<Slice>, start: seq<int>, count: seq<int>, stride: seq<int>, conv: Conversion,
                           memory: seq<int>, prefetch: NCcachenode?, was: seq<NCcachenode>, nodes: seq<NCcachenode>, reply: Reply)
      requires Requested(v, c, sl, start, count, stride, memory)
    {
      var way := WayOf(Hit(prefetch, was, v) != null);
      && Replied(v, c, sl, start, count, stride, conv, memory, way, reply)
      && (Trusted(v, c, sl, start, count, stride, conv, memory, way) ==>
            reply.Data? && IsStridedRead(reply.elems, Visible(ds, v), start, count, stride, conv))
      && (!wholevar ==> reply.Data?)
      && (InCache(prefetch, was, v) ==>
            && reply.Data? && IsStridedRead(reply.elems, Visible(ds, v), start, count, stride, conv)
            && forall n :: n in nodes ==> n in was)
      && (!InCache(prefetch, was, v) ==> Kept(v, c, start, count, stride, was, nodes, reply))
    }

    /**
    So without NCF_WHOLEVAR every access in bounds is answered.  From the cache it gets the strided read, and
    nothing is fetched.  Otherwise the latest response is new: it holds the elements asked for, or with
    NCF_WHOLEVAR all of the field in the requested instances, which are answered if they take the front.
    */
    lemma ServedMeans(v: CDFnode, c: nat, sl: seq<Slice>, start: seq<int>, count: seq<int>, stride: seq<int>, conv: Conversion, memory: seq<int>,
                      prefetch: NCcachenode?, was: seq<NCcachenode>, nodes: seq<NCcachenode>, reply: Reply)
      requires Requested(v, c, sl, start, count, stride, memory) && c == |ds.full[v].shape| - |v.dimset0|
      requires Served(v, c, sl, start, count, stride, conv, memory, prefetch, was, nodes, reply)
      ensures c <= |start| == |count| == |stride| == |ds.full[v].shape|
      ensures !wholevar ==> reply.Data?
      ensures (prefetch != null && v in prefetch.vars) || (exists n :: n in was && n.wholevariable && v in n.vars) ==>
        && reply.Data? && IsStridedRead(reply.elems, Visible(ds, v), start, count, stride, conv)
        && forall n :: n in nodes ==> n in was
      ensures !(prefetch != null && v in prefetch.vars) && (forall n :: n in was ==> !(n.wholevariable && v in n.vars)) ==>
        && nodes != [] && nodes[|nodes| - 1] !in was && v in nodes[|nodes| - 1].content
        && var x := nodes[|nodes| - 1].content[v];
          && (!wholevar ==> x.shape == count && IsStridedRead(x.elems, Visible(ds, v), start, count, stride, Same))
          && (wholevar ==> x.shape == count[..c] + ds.full[v].shape[c..])
          && (wholevar ==> (reply.Data? <==> TakesFront(ds, v, c, start, count, stride)))
    {
      VisibleSmaller(ds, v);
    }

    // From what is known of a request to what its caller may rely on.
    lemma Got(v: CDFnode, c: nat, sl: seq<Slice>, start: seq<int>, count: seq<int>, stride: seq<int>, conv: Conversion, memory: seq<int>,
              prefetch: NCcachenode?, was: seq<NCcachenode>, nodes: seq<NCcachenode>, x: Variable, hit: bool, reply: Reply)
      requires Requested(v, c, sl, start, count, stride, memory) && hit == (Hit(prefetch, was, v) != null)
      requires c == |ds.full[v].shape| - |v.dimset0|
      requires Replied(v, c, sl, start, count, stride, conv, memory, WayOf(hit), reply)
      requires Outcome(v, c, start, count, stride, hit, was, nodes, x, reply)
      ensures Served(v, c, sl, start, count, stride, conv, memory, prefetch, was, nodes, reply)
    {
      InCacheIffHit(prefetch, was, v);
      if Trusted(v, c, sl, start, count, stride, conv, memory, WayOf(hit)) || hit {
        HitIsTrusted(v, c, sl, start, count, stride, conv, memory);
        TrustedReply(v, c, sl, start, count, stride, conv, memory, WayOf(hit), reply);
      }
    }

    lemma HitIsTrusted(v: CDFnode, c: nat, sl: seq<Slice>, start: seq<int>, count: seq<int>, stride: seq<int>, conv: Conversion, memory: seq<int>)
      requires Requested(v, c, sl, start, count, stride, memory)
      ensures Trusted(v, c, sl, start, count, stride, conv, memory, WayOf(true))
    {
    }

    // With arguments in bounds: build the request, fetch, and move what is wanted.
    method GetInBounds(v: CDFnode, path: seq<CDFnode>, start: seq<int>, count: seq<int>, stride: seq<int>,
                       conv: Conversion, memory: seq<int>, xdrsize: nat, c: nat, ghost sl: seq<Slice>)
      returns (reply: Reply)
      requires Valid() && v !in invisible && v in ds.full && PathDeclares(ds, v, path) && sl == Flat(PathSlices(path))
      requires c == ContainerRank(Ranks(path)) == |ds.full[v].shape| - |v.dimset0|
      requires Requested(v, c, sl, start, count, stride, memory)
      modifies cache
      ensures Valid() && cache.prefetch == old(cache.prefetch)
      ensures true == Served(v, c, sl, start, count, stride, conv, memory, cache.prefetch, old(cache.nodes), cache.nodes, reply)
    {
      ghost var hit := Hit(cache.prefetch, cache.nodes, v) != null;
      ghost var way, was := WayOf(hit), cache.nodes;
      ghost var parts := PathSlices(path);
      RanksAddUp(ds, v, path);
      RequestIsStridedRead(ds, v, sl, start, count, stride, conv);
      VisibleSmaller(ds, v);
      var vara := BuildRequest(path, start, count, stride, parts);
      var ok, out;
      ghost var x;
      ok, out, x := Fetch(v, vara, Ranks(path), c, conv, memory, xdrsize, hit);
      reply := if ok then Data(out) else Reply.NC_EINVALCOORDS;
      OutcomeOf(v, c, sl, start, count, stride, conv, memory, hit, was, cache.nodes, x, if ok then Some(out) else None, reply);
      FetchedReply(v, c, sl, start, count, stride, conv, memory, way, if ok then Some(out) else None, reply);
      Got(v, c, sl, start, count, stride, conv, memory, cache.prefetch, was, cache.nodes, x, hit, reply);
    }

    // The sizes that arguments are checked against are those of the constrained tree.
    method CheckAccess(v: CDFnode, start: seq<int>, count: seq<int>, stride: seq<int>) returns (ok: bool)
      requires ValidDataset(ds) && v in ds.full && Arguments(|ds.full[v].shape|, start, count, stride)
      ensures ok <==> AccessInBounds(Visible(ds, v).shape, start, count, stride)
    {
      VisibleSmaller(ds, v);
      var shape := if v in ds.url then SliceCounts(ds.url[v]) else ds.full[v].shape;
      ok := CheckArguments(shape, start, count, stride);
    }

    lemma RequestedBy(v: CDFnode, path: seq<CDFnode>, sl: seq<Slice>, start: seq<int>, count: seq<int>, stride: seq<int>, memory: seq<int>,
                      c: nat)
      requires ValidDataset(ds) && v in ds.full && PathDeclares(ds, v, path) && sl == Flat(PathSlices(path))
      requires AccessInBounds(Visible(ds, v).shape, start, count, stride) && |memory| == Product(count)
      requires Ranks(path) != [] && c == ContainerRank(Ranks(path))
      ensures c == |ds.full[v].shape| - |v.dimset0| && Requested(v, c, sl, start, count, stride, memory)
    {
      RanksAddUp(ds, v, path);
    }

    /**
    nc3d_getvarx: arguments out of bounds are refused, and otherwise the caller gets the answer of the
    way that is taken, which for a sound request is the strided read of what the URL makes visible.
    Without NCF_WHOLEVAR, and from the cache, every access in bounds is answered.
    */
    method GetVar(v: CDFnode, path: seq<CDFnode>, start: seq<int>, count: seq<int>, stride: seq<int>,
                  conv: Conversion, memory: seq<int>, xdrsize: nat, ghost sl: seq<Slice>)
      returns (reply: Reply, ghost c: nat)
      requires Valid() && v in ds.full && v !in invisible && PathDeclares(ds, v, path) && sl == Flat(PathSlices(path))
      requires Arguments(|ds.full[v].shape|, start, count, stride)
      requires AccessInBounds(Visible(ds, v).shape, start, count, stride) ==> |memory| == Product(count)
      modifies cache
      ensures Valid() && cache.prefetch == old(cache.prefetch)
      ensures !AccessInBounds(Visible(ds, v).shape, start, count, stride) ==>
        reply.NC_EINVALCOORDS? && cache.nodes == old(cache.nodes)
      ensures AccessInBounds(Visible(ds, v).shape, start, count, stride) ==>
        && c == |ds.full[v].shape| - |v.dimset0| && Requested(v, c, sl, start, count, stride, memory)
        && true == Served(v, c, sl, start, count, stride, conv, memory, cache.prefetch, old(cache.nodes), cache.nodes, reply)
      ensures AccessInBounds(Visible(ds, v).shape, start, count, stride) && !wholevar ==> reply.Data?
    {
      var ok := CheckAccess(v, start, count, stride);
      if !ok {
        return Reply.NC_EINVALCOORDS, 0;
      }
      var rank := ContainerRank(Ranks(path));
      RequestedBy(v, path, sl, start, count, stride, memory, rank);
      c := rank;
      reply := GetInBounds(v, path, start, count, stride, conv, memory, xdrsize, rank, sl);
    }

    // prefetchdata: whether a variable is taken into the prefetch.
    predicate Prefetches(v: CDFnode)
      reads v, v.basenode
    {
      v.basenode != null && v.basenode.prefetchable && v !in ds.url
    }

    /** prefetchdata: fetch, whole, the variables marked through basenode that the URL does not project. */
    method PrefetchData(allvars: seq<CDFnode>, xdrsize: nat)
      requires Valid() && forall v :: v in allvars ==> v in ds.full && v.basenode != null
      modifies cache`prefetch
      ensures Valid()
      ensures Held(cache.prefetch) == set v | v in allvars && Prefetches(v)
      ensures cache.prefetch == null <==> Held(cache.prefetch) == {}
      ensures forall v :: cache.prefetch != null && v in cache.prefetch.vars <==>
        v in allvars && v.basenode != null && v.basenode.prefetchable && v !in ds.url
      ensures cache.prefetch != null ==> fresh(cache.prefetch) && forall v :: v in cache.prefetch.vars && v !in invisible ==>
        v in cache.prefetch.content && cache.prefetch.content[v] == ds.full[v]
    {
      var vars: seq<CDFnode> := [];
      var content: map<CDFnode, Variable> := map[];
      var i := 0;
      while i < |allvars|
        invariant 0 <= i <= |allvars|
        invariant forall v :: v in vars <==> v in allvars[..i] && Prefetches(v)
        invariant forall v :: v in vars && v !in invisible ==> v in content && content[v] == ds.full[v]
      {
        var v := allvars[i];
        assert allvars[..i + 1] == allvars[..i] + [v];
        if Prefetches(v) {
          vars := vars + [v];
          if v !in invisible {
            content := content[v := ds.full[v]];
          }
        }
        i := i + 1;
      }
      assert allvars[..i] == allvars;
      if vars == [] {
        cache.prefetch := null;
      } else {
        var node := new NCcachenode(true, true, xdrsize, vars, content);
        cache.prefetch := node;
        assert vars[0] in Held(node);
      }
    }

    /** So no variable that is taken into the prefetch lies in a sequence. */
    lemma PrefetchHoldsNoRows(allvars: seq<CDFnode>, d: Forest, p: Forest, path: map<CDFnode, seq<CDFnode>>,
                              full: seq<CDFnode>, fullpath: map<CDFnode, seq<CDFnode>>, limit: nat, prefetch: bool)
      requires IsTree(d) && Linked(d, null) && Distinct(d)
      requires IsTree(p) && Linked(p, null) && DistinctNames(p)
      requires Restruct.Embeds(d, p) && MapNodes.Mapped(d, p)
      requires forall v :: v in allvars ==>
        v in path && FromDataset(path[v]) && path[v][|path[v]| - 1] == v && forall n :: n in path[v] ==> n in NodeSet(d)
      requires Prefetch.MarksEligible(full, fullpath, limit, prefetch) && forall v :: v in allvars ==> v.basenode in full
      ensures forall v :: v in allvars && Prefetches(v) ==> v.nctype == Atomic && !Prefetch.UnderSequence(path[v])
    {
      forall v | v in allvars && Prefetches(v)
        ensures v.nctype == Atomic && !Prefetch.UnderSequence(path[v])
      {
        Prefetch.MarkedOutsideSequences(d, p, path[v], full, fullpath, limit, prefetch);
      }
    }

    // ---------- Whole runs ----------

    // What an operation may be given: sl are the declared slices of its segments, end to end, and
    // `marked` holds the variables marked through basenode.
    ghost predicate ValidOp(op: Op, sl: seq<Slice>, marked: set<CDFnode>)
      reads if op.Get? then set n | n in op.path else set n | n in op.allvars
      reads if op.Get? then {} else set v | v in op.allvars && v.basenode != null :: v.basenode
    {
      match op
      case Get(v, path, start, count, stride, _, memory, _) =>
        && ValidDataset(ds) && v in ds.full && v !in invisible && PathDeclares(ds, v, path) && sl == Flat(PathSlices(path))
        && Arguments(|ds.full[v].shape|, start, count, stride)
        && (AccessInBounds(Visible(ds, v).shape, start, count, stride) ==> |memory| == Product(count))
      case Prefetch(allvars, _) =>
        forall v :: v in allvars ==> v in ds.full && v.basenode != null && (v in marked <==> v.basenode.prefetchable)
    }

    // The variables in the prefetch after the first n operations; `first` is the prefetch at the start.
    ghost function HeldAfter(ops: seq<Op>, n: nat, marked: set<CDFnode>, first: NCcachenode?): (r: set<CDFnode>)
      requires n <= |ops|
    {
      if n == 0 then Held(first)
      else if ops[n - 1].Prefetch? then Taken(ops[n - 1].allvars, marked)
      else HeldAfter(ops, n - 1, marked, first)
    }

    /** The last prefetch before an operation decides what is held. */
    lemma {:induction false} LastPrefetchDecides(ops: seq<Op>, n: nat, k: nat, marked: set<CDFnode>, first: NCcachenode?)
      requires k <= n <= |ops| && forall j :: k <= j < n ==> ops[j].Get?
      ensures k == 0 ==> HeldAfter(ops, n, marked, first) == if first == null then {} else set v | v in first.vars
      ensures k > 0 && ops[k - 1].Prefetch? ==>
        forall v :: v in HeldAfter(ops, n, marked, first) <==> v in ops[k - 1].allvars && v in marked && v !in ds.url
    {
      if k < n {
        LastPrefetchDecides(ops, n - 1, k, marked, first);
      }
    }

    ghost function Taken(allvars: seq<CDFnode>, marked: set<CDFnode>): (r: set<CDFnode>) {
      set v | v in allvars && v in marked && v !in ds.url
    }

    // Whether a request may find its variable in the cache: it must if the prefetch holds it, and under
    // selections nothing else is kept whole.
    predicate MayHit(hit: bool, held: bool) {
      (held ==> hit) && (ds.selections && hit ==> held)
    }

    // The reply that a request in bounds must get, where c dimensions belong to containers; `held` says whether
    // the prefetch holds its variable.
    ghost predicate Reached(op: Op, c: nat, sl: seq<Slice>, held: bool, hit: bool, reply: Reply)
      requires op.Get? && Requested(op.v, c, sl, op.start, op.count, op.stride, op.memory)
    {
      && MayHit(hit, held)
      && Replied(op.v, c, sl, op.start, op.count, op.stride, op.conv, op.memory, WayOf(hit), reply)
      && (!wholevar || hit ==> reply.Data?)
      && (hit ==> IsStridedRead(reply.elems, Visible(ds, op.v), op.start, op.count, op.stride, op.conv))
    }

    // The reply that operation i of a run must get.
    ghost predicate Answered(ops: seq<Op>, sls: seq<seq<Slice>>, i: nat, marked: set<CDFnode>, first: NCcachenode?, reply: Reply)
      requires i < |ops| == |sls|
    {
      var op := ops[i];
      if op.Prefetch? then reply.Done?
      else
        && ValidDataset(ds) && op.v in ds.full
        && (if AccessInBounds(Visible(ds, op.v).shape, op.start, op.count, op.stride)
            then exists hit, c: nat ::
                   && c == |ds.full[op.v].shape| - |op.v.dimset0|
                   && Requested(op.v, c, sls[i], op.start, op.count, op.stride, op.memory)
                   && Reached(op, c, sls[i], op.v in HeldAfter(ops, i, marked, first), hit, reply)
            else reply.NC_EINVALCOORDS?)
    }

    /**
    Whatever happened before it in a run, a request in bounds is answered, without NCF_WHOLEVAR, and gets the
    strided read, if the prefetch holds its variable.
    */
    lemma AnsweredInRun(ops: seq<Op>, sls: seq<seq<Slice>>, i: nat, marked: set<CDFnode>, first: NCcachenode?, reply: Reply)
      requires i < |ops| == |sls| && ops[i].Get? && Answered(ops, sls, i, marked, first, reply)
      ensures ValidDataset(ds) && ops[i].v in ds.full
      ensures var op := ops[i];
        AccessInBounds(Visible(ds, op.v).shape, op.start, op.count, op.stride) ==>
          && (!wholevar ==> reply.Data?)
          && (op.v in HeldAfter(ops, i, marked, first) ==>
                reply.Data? && IsStridedRead(reply.elems, Visible(ds, op.v), op.start, op.count, op.stride, op.conv))
    {
    }

    // A request that is sound in every way that may be taken for it.
    ghost predicate AlwaysTrusted(op: Op, c: nat, sl: seq<Slice>, held: bool)
      requires op.Get? && Requested(op.v, c, sl, op.start, op.count, op.stride, op.memory)
    {
      forall hit :: MayHit(hit, held) ==>
        Trusted(op.v, c, sl, op.start, op.count, op.stride, op.conv, op.memory, WayOf(hit))
    }

    /** Whatever happened before it in a run, such a request gets the strided read. */
    lemma TrustedInRun(ops: seq<Op>, sls: seq<seq<Slice>>, i: nat, marked: set<CDFnode>, first: NCcachenode?, reply: Reply, c: nat)
      requires i < |ops| == |sls| && ops[i].Get? && Answered(ops, sls, i, marked, first, reply)
      requires c == |ds.full[ops[i].v].shape| - |ops[i].v.dimset0|
      requires var op := ops[i]; Requested(op.v, c, sls[i], op.start, op.count, op.stride, op.memory)
      requires AlwaysTrusted(ops[i], c, sls[i], ops[i].v in HeldAfter(ops, i, marked, first))
      ensures reply.Data?
      ensures IsStridedRead(reply.elems, Visible(ds, ops[i].v), ops[i].start, ops[i].count, ops[i].stride, ops[i].conv)
    {
      var op := ops[i];
      var hit :| Reached(op, c, sls[i], op.v in HeldAfter(ops, i, marked, first), hit, reply);
      TrustedReply(op.v, c, sls[i], op.start, op.count, op.stride, op.conv, op.memory, WayOf(hit), reply);
    }

    // The first operations of a run, as many as there are replies, have been answered.
    ghost predicate AllAnswered(ops: seq<Op>, sls: seq<seq<Slice>>, marked: set<CDFnode>, first: NCcachenode?, replies: seq<Reply>)
      requires |ops| == |sls|
    {
      |replies| <= |ops| && forall i :: 0 <= i < |replies| ==> Answered(ops, sls, i, marked, first, replies[i])
    }

    lemma OneMoreAnswered(ops: seq<Op>, sls: seq<seq<Slice>>, marked: set<CDFnode>, first: NCcachenode?, replies: seq<Reply>, reply: Reply)
      requires |ops| == |sls| && AllAnswered(ops, sls, marked, first, replies) && |replies| < |ops|
      requires Answered(ops, sls, |replies|, marked, first, reply)
      ensures AllAnswered(ops, sls, marked, first, replies + [reply])
    {
      forall i | 0 <= i < |replies| + 1
        ensures Answered(ops, sls, i, marked, first, (replies + [reply])[i])
      {
        assert i < |replies| ==> (replies + [reply])[i] == replies[i];
      }
    }

    /** A whole run: whatever the order of prefetches and requests, every request gets its answer. */
    method Run(ops: seq<Op>, ghost sls: seq<seq<Slice>>, ghost marked: set<CDFnode>) returns (replies: seq<Reply>)
      requires Valid() && |ops| == |sls| && forall i :: 0 <= i < |ops| ==> ValidOp(ops[i], sls[i], marked)
      modifies cache
      ensures Valid() && |replies| == |ops| && AllAnswered(ops, sls, marked, old(cache.prefetch), replies)
    {
      ghost var first := cache.prefetch;
      replies := [];
      var i := 0;
      while i < |ops|
        invariant 0 <= i == |replies| <= |ops| && Valid()
        invariant forall k :: i <= k < |ops| ==> ValidOp(ops[k], sls[k], marked)
        invariant Held(cache.prefetch) == HeldAfter(ops, i, marked, first)
        invariant AllAnswered(ops, sls, marked, first, replies)
      {
        var reply := Step(ops, sls, i, marked, first);
        OneMoreAnswered(ops, sls, marked, first, replies, reply);
        replies := replies + [reply];
        i := i + 1;
      }
    }

    // The answer to a request, for a way that may be taken.
    lemma GetAnswered(ops: seq<Op>, sls: seq<seq<Slice>>, i: nat, marked: set<CDFnode>, first: NCcachenode?, reply: Reply,
                      c: nat, hit: bool)
      requires i < |ops| == |sls| && ops[i].Get? && ValidDataset(ds) && ops[i].v in ds.full
      requires var op := ops[i];
        if AccessInBounds(Visible(ds, op.v).shape, op.start, op.count, op.stride)
        then c == |ds.full[op.v].shape| - |op.v.dimset0| &&
             Requested(op.v, c, sls[i], op.start, op.count, op.stride, op.memory) &&
             Reached(op, c, sls[i], op.v in HeldAfter(ops, i, marked, first), hit, reply)
        else reply.NC_EINVALCOORDS?
      ensures Answered(ops, sls, i, marked, first, reply)
    {
    }

    // What is promised for one request is what is promised for it in a run.
    lemma ServedInRun(op: Op, c: nat, sl: seq<Slice>, held: bool, hit: bool, reply: Reply,
                      prefetch: NCcachenode?, was: seq<NCcachenode>, nodes: seq<NCcachenode>)
      requires op.Get? && Requested(op.v, c, sl, op.start, op.count, op.stride, op.memory)
      requires Served(op.v, c, sl, op.start, op.count, op.stride, op.conv, op.memory, prefetch, was, nodes, reply)
      requires hit == (Hit(prefetch, was, op.v) != null) && MayHit(hit, held)
      ensures true == Reached(op, c, sl, held, hit, reply)
    {
      InCacheIffHit(prefetch, was, op.v);
    }

    // One operation of a run.
    method Step(ops: seq<Op>, ghost sls: seq<seq<Slice>>, i: nat, ghost marked: set<CDFnode>, ghost first: NCcachenode?)
      returns (reply: Reply)
      requires Valid() && i < |ops| == |sls| && ValidOp(ops[i], sls[i], marked)
      requires Held(cache.prefetch) == HeldAfter(ops, i, marked, first)
      modifies cache
      ensures Valid() && Answered(ops, sls, i, marked, first, reply)
      ensures Held(cache.prefetch) == HeldAfter(ops, i + 1, marked, first)
    {
      match ops[i] {
        case Get(v, path, start, count, stride, conv, memory, size) =>
          ghost var hit := Hit(cache.prefetch, cache.nodes, v) != null;
          HitsAllowed(v);
          ghost var was, c := cache.nodes, 0;
          reply, c := GetVar(v, path, start, count, stride, conv, memory, size, sls[i]);
          if AccessInBounds(Visible(ds, v).shape, start, count, stride) {
            ServedInRun(ops[i], c, sls[i], v in Held(cache.prefetch), hit, reply, cache.prefetch, was, cache.nodes);
          }
          GetAnswered(ops, sls, i, marked, first, reply, c, hit);
        case Prefetch(allvars, size) =>
          PrefetchMarked(allvars, marked, size);
          reply := Done;
      }
    }

    // A hit comes from the prefetch, or from a node that is whole.
    lemma HitsAllowed(v: CDFnode)
      requires Valid()
      ensures MayHit(Hit(cache.prefetch, cache.nodes, v) != null, v in Held(cache.prefetch))
    {
      HitIsUsable(cache.prefetch, cache.nodes, v);
    }

    method PrefetchMarked(allvars: seq<CDFnode>, ghost marked: set<CDFnode>, size: nat)
      requires Valid() && ValidOp(Prefetch(allvars, size), [], marked)
      modifies cache`prefetch
      ensures Valid()
      ensures Held(cache.prefetch) == Taken(allvars, marked)
    {
      PrefetchData(allvars, size);
      assert forall v :: v in allvars ==> (Prefetches(v) <==> v in marked && v !in ds.url);
    }
  }

  // The variables of a prefetch node.
  ghost function Held(prefetch: NCcachenode?): (r: set<CDFnode>) {
    if prefetch == null then {} else set v | v in prefetch.vars
  }

  // A request carries the conversion that its types require, and what the caller's memory holds.
  datatype Op = Get(v: CDFnode, path: seq<CDFnode>, start: seq<int>, count: seq<int>, stride: seq<int>,
                    conv: Conversion, memory: seq<int>, size: nat)
              | Prefetch(allvars: seq<CDFnode>, size: nat)

  datatype Reply = Data(elems: seq<int>) | NC_EINVALCOORDS | Done

  // A variable can be answered from the cache.
  ghost predicate InCache(prefetch: NCcachenode?, nodes: seq<NCcachenode>, v: CDFnode) {
    (prefetch != null && v in prefetch.vars) || exists n :: n in nodes && n.wholevariable && v in n.vars
  }

  lemma InCacheIffHit(prefetch: NCcachenode?, nodes: seq<NCcachenode>, v: CDFnode)
    ensures InCache(prefetch, nodes, v) <==> Hit(prefetch, nodes, v) != null
  {
    HitIsUsable(prefetch, nodes, v);
  }

  lemma AfterHitKeeps(prefetch: NCcachenode?, nodes: seq<NCcachenode>, v: CDFnode)
    ensures forall n :: n in AfterHit(prefetch, nodes, v) ==> n in nodes
  {
    var i := FindWhole(nodes, v);
    if i >= 0 {
      assert forall n :: n in MovedToEnd(nodes, i) ==> n in nodes[..i] || n in nodes[i + 1..] || n == nodes[i];
    }
  }
}
