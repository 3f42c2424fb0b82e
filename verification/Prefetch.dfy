/**
Choosing the variables to prefetch (markprefetch in libdap2/cache.c, dapinsequence in
libdap2/daputil.c): marks are set in the unconstrained tree and read, through basenode, for the
variables of the constrained tree.
*/
module Prefetch {
  import opened CdfTree
  import opened MapNodes
  import opened RowMajor
  import Restruct

  // Some node strictly between the dataset and the end of the path is a sequence.
  predicate UnderSequence(path: seq<CDFnode>) {
    exists i :: 0 < i < |path| - 1 && path[i].nctype == Sequence
  }

  /** dapinsequence: whether a node lies in a sequence; the dataset itself counts as if it did. */
  method DapInSequence(node: CDFnode, ghost path: seq<CDFnode>) returns (inside: bool)
    requires FromDataset(path) && path[|path| - 1] == node
    ensures inside <==> |path| == 1 || UnderSequence(path)
    ensures inside <==> |path| == 1 || exists i :: 0 < i < |path| - 1 && path[i].nctype == Sequence
  {
    ghost var i := |path| - 2;
    assert |path| > 1 ==> path[i + 1].container == path[i];
    if node.container == null {
      return true;
    }
    var n: CDFnode := node.container;
    while n.nctype != Dataset
      invariant 0 <= i < |path| - 1 && n == path[i]
      invariant forall k :: i < k < |path| - 1 ==> path[k].nctype != Sequence
      decreases i
    {
      if n.nctype == Sequence {
        return true;
      }
      assert path[(i - 1) + 1].container == path[i - 1];
      i := i - 1;
      n := n.container;
    }
    return false;
  }

  // The number of elements of a variable.
  method CountElements(dims: seq<CDFnode>) returns (nelems: nat)
    ensures nelems == Product(SizesOf(dims))
  {
    nelems := 1;
    var j := 0;
    while j < |dims|
      invariant 0 <= j <= |dims| && nelems == Product(SizesOf(dims[..j]))
    {
      ProductLast(SizesOf(dims[..j]), dims[j].declsize);
      assert SizesOf(dims[..j + 1]) == SizesOf(dims[..j]) + [dims[j].declsize];
      nelems := nelems * dims[j].declsize;
      j := j + 1;
    }
    assert dims[..j] == dims;
  }

  // What markprefetch asks of a variable.
  ghost predicate Eligible(v: CDFnode, path: seq<CDFnode>, smallsizelimit: nat, prefetch: bool)
    reads v`dimsettrans
  {
    && prefetch
    && v.nctype == Atomic
    && |path| != 1 && !UnderSequence(path)
    && Product(SizesOf(v.dimsettrans.Elems())) <= smallsizelimit
  }

  /** markprefetch: every eligible variable is marked, and no other node changes. */
  method MarkPrefetch(allvars: seq<CDFnode>, smallsizelimit: nat, prefetch: bool, ghost path: map<CDFnode, seq<CDFnode>>)
    requires forall v :: v in allvars ==> v in path && FromDataset(path[v]) && path[v][|path[v]| - 1] == v
    modifies (set v | v in allvars)`prefetchable
    ensures forall v :: v in allvars ==>
      (v.prefetchable <==> old(v.prefetchable) || Eligible(v, path[v], smallsizelimit, prefetch))
    ensures forall v :: v in allvars ==>
      (v.prefetchable <==>
        || old(v.prefetchable)
        || (&& prefetch && v.nctype == Atomic && Product(SizesOf(v.dimsettrans.Elems())) <= smallsizelimit
            && |path[v]| != 1 && forall i :: 0 < i < |path[v]| - 1 ==> path[v][i].nctype != Sequence))
  {
    var i := 0;
    while i < |allvars|
      invariant 0 <= i <= |allvars|
      invariant forall v :: v in allvars ==>
        (v.prefetchable <==> old(v.prefetchable) || (v in allvars[..i] && Eligible(v, path[v], smallsizelimit, prefetch)))
    {
      var v := allvars[i];
      assert allvars[..i + 1] == allvars[..i] + [v];
      var inside := DapInSequence(v, path[v]);
      var nelems := CountElements(v.dimsettrans.Elems());
      if v.nctype == Atomic && !inside && nelems <= smallsizelimit && prefetch {
        v.prefetchable := true;
      }
      i := i + 1;
    }
    assert allvars[..i] == allvars;
  }

  /** Lying in a sequence carries over from a node to its basenode and back. */
  lemma TwinsShareSequences(d: Forest, p: Forest, path: seq<CDFnode>, twins: seq<CDFnode>)
    requires IsTree(d) && Linked(d, null) && Distinct(d)
    requires IsTree(p) && Linked(p, null) && DistinctNames(p)
    requires Restruct.Embeds(d, p) && Mapped(d, p)
    requires |twins| == |path| && FromDataset(path)
    requires forall i :: 0 <= i < |path| ==> path[i] in NodeSet(d) && path[i].basenode == twins[i]
    ensures FromDataset(twins) && (UnderSequence(path) <==> UnderSequence(twins))
  {
    PathsAgree(d, p, path, twins);
    forall i | 0 <= i < |path|
      ensures path[i].nctype == Sequence <==> twins[i].nctype == Sequence
      ensures path[i].nctype == Dataset <==> twins[i].nctype == Dataset
    {
      MappedTree(d, p, path[i]);
    }
  }

  /** A variable that prefetchdata takes does not lie in a sequence, in either tree. */
  lemma PrefetchedOutsideSequences(d: Forest, p: Forest, path: seq<CDFnode>, twins: seq<CDFnode>, limit: nat, prefetch: bool)
    requires IsTree(d) && Linked(d, null) && Distinct(d)
    requires IsTree(p) && Linked(p, null) && DistinctNames(p)
    requires Restruct.Embeds(d, p) && Mapped(d, p)
    requires |twins| == |path| && FromDataset(path)
    requires forall i :: 0 <= i < |path| ==> path[i] in NodeSet(d) && path[i].basenode == twins[i]
    requires Eligible(twins[|twins| - 1], twins, limit, prefetch)
    ensures path[|path| - 1].nctype == Atomic && !UnderSequence(path)
  {
    TwinsShareSequences(d, p, path, twins);
    MappedTree(d, p, path[|path| - 1]);
  }

  // Two chains of containers that end at the same node are the same.
  lemma {:induction false} OneChain(a: seq<CDFnode>, b: seq<CDFnode>)
    requires a != [] && b != [] && IsPath(a) && IsPath(b) && a[|a| - 1] == b[|b| - 1]
    ensures a == b
  {
    var m, n := |a| - 1, |b| - 1;
    assert m > 0 ==> a[(m - 1) + 1].container == a[m - 1];
    assert n > 0 ==> b[(n - 1) + 1].container == b[n - 1];
    if m > 0 && n > 0 {
      OneChain(a[..m], b[..n]);
      assert a == a[..m] + [a[m]] && b == b[..n] + [b[n]];
    }
  }

  // The basenodes of the nodes on a path.
  ghost function Twins(path: seq<CDFnode>): (r: seq<CDFnode>)
    requires forall n :: n in path ==> n.basenode != null
    reads path`basenode
    ensures |r| == |path| && forall i :: 0 <= i < |path| ==> r[i] == path[i].basenode
  {
    if path == [] then [] else Twins(path[..|path| - 1]) + [path[|path| - 1].basenode]
  }

  // The marks are those that markprefetch makes in a tree without marks.
  ghost predicate MarksEligible(full: seq<CDFnode>, path: map<CDFnode, seq<CDFnode>>, limit: nat, prefetch: bool)
    reads set v | v in full, set v, n | v in full && v in path && n in path[v] :: n
  {
    forall v :: v in full ==>
      && v in path && FromDataset(path[v]) && path[v][|path[v]| - 1] == v
      && (v.prefetchable <==> Eligible(v, path[v], limit, prefetch))
  }

  /** A variable of the constrained tree whose basenode is marked is atomic and not in a sequence. */
  lemma MarkedOutsideSequences(d: Forest, p: Forest, path: seq<CDFnode>, full: seq<CDFnode>, fullpath: map<CDFnode, seq<CDFnode>>,
                               limit: nat, prefetch: bool)
    requires IsTree(d) && Linked(d, null) && Distinct(d)
    requires IsTree(p) && Linked(p, null) && DistinctNames(p)
    requires Restruct.Embeds(d, p) && Mapped(d, p)
    requires FromDataset(path) && forall n :: n in path ==> n in NodeSet(d)
    requires MarksEligible(full, fullpath, limit, prefetch)
    requires var twin := path[|path| - 1].basenode; twin in full && twin.prefetchable
    ensures path[|path| - 1].nctype == Atomic && !UnderSequence(path)
  {
    forall n | n in path
      ensures n.basenode != null
    {
      MappedTree(d, p, n);
    }
    var twins := Twins(path);
    var twin := twins[|path| - 1];
    TwinsShareSequences(d, p, path, twins);
    OneChain(twins, fullpath[twin]);
    PrefetchedOutsideSequences(d, p, path, twins, limit, prefetch);
  }
}
