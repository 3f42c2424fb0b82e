/**
Unifying duplicate variables and checking that full names are unique (computecdfvarnames in
libdap2/cdf.c, after the full names have been assigned).
*/
module VarNames {
  import opened CdfTree

  // What two variables are compared by.
  datatype Key = Key(name: string, sizes: seq<nat>)

  ghost function KeyOf(v: CDFnode): (r: Key)
    reads v`ncfullname, v`dimsetall
  {
    Key(v.ncfullname, SizesOf(v.dimsetall.Elems()))
  }

  ghost predicate HaveKeys(vs: seq<CDFnode>, keys: seq<Key>)
    reads (set v | v in vs)`ncfullname, (set v | v in vs)`dimsetall
  {
    |keys| == |vs| && forall i :: 0 <= i < |vs| ==> KeyOf(vs[i]) == keys[i]
  }

  /** The next later variable with the same name and sizes, looking no further than `upto`. */
  function NextSame(keys: seq<Key>, j: nat, upto: nat): (r: nat)
    requires j < upto <= |keys|
    ensures j < r <= upto
    decreases upto
  {
    if upto == j + 1 then upto
    else
      var r := NextSame(keys, j, upto - 1);
      if r < upto - 1 then r
      else if keys[upto - 1] == keys[j] then upto - 1
      else upto
  }

  lemma {:induction false} NextSameIsNext(keys: seq<Key>, j: nat, upto: nat)
    requires j < upto <= |keys|
    ensures var r := NextSame(keys, j, upto);
      && (r < upto ==> keys[r] == keys[j])
      && forall k :: j < k < r ==> keys[k] != keys[j]
    decreases upto
  {
    if upto > j + 1 {
      NextSameIsNext(keys, j, upto - 1);
    }
  }

  // What basevar is to become.
  function Base(vs: seq<CDFnode>, keys: seq<Key>, j: nat, upto: nat): (r: CDFnode?)
    requires |keys| == |vs| && j < upto <= |vs|
  {
    if NextSame(keys, j, upto) < upto then vs[NextSame(keys, j, upto)] else null
  }

  lemma BaseGrows(vs: seq<CDFnode>, keys: seq<Key>, j: nat, i: nat)
    requires |keys| == |vs| && j < i < |vs|
    ensures Base(vs, keys, j, i + 1) ==
      if Base(vs, keys, j, i) == null && keys[i] == keys[j] then vs[i] else Base(vs, keys, j, i)
  {
  }

  // What basevar is after variables before `i`, and `i` as well for those before `j`, have been considered.
  function BaseAt(vs: seq<CDFnode>, keys: seq<Key>, i: nat, j: nat, k: nat): (r: CDFnode?)
    requires |keys| == |vs| && j <= i <= |vs| && (j > 0 ==> i < |vs|) && k < |vs|
  {
    if k < j then Base(vs, keys, k, i + 1) else if k < i then Base(vs, keys, k, i) else null
  }

  ghost predicate Unified(vs: seq<CDFnode>, keys: seq<Key>, i: nat, j: nat)
    requires |keys| == |vs| && j <= i <= |vs| && (j > 0 ==> i < |vs|)
    reads (set v | v in vs)`basevar
  {
    forall k :: 0 <= k < |vs| ==> vs[k].basevar == BaseAt(vs, keys, i, j, k)
  }

  // One pass of the inner comparison loop.
  method SameDims(v: seq<CDFnode>, t: seq<CDFnode>) returns (same: bool)
    ensures same <==> SizesOf(v) == SizesOf(t)
  {
    if |v| != |t| {
      return false;
    }
    var d := 0;
    while d < |t|
      invariant 0 <= d <= |t| && forall k :: 0 <= k < d ==> v[k].declsize == t[k].declsize
    {
      if v[d].declsize != t[d].declsize {
        assert SizesOf(v)[d] != SizesOf(t)[d];
        return false;
      }
      d := d + 1;
    }
    return true;
  }

  // The body of the inner loop.
  method UnifyPair(v: CDFnode, t: CDFnode)
    modifies t`basevar
    ensures t.basevar == if old(t.basevar) == null && KeyOf(t) == KeyOf(v) then v else old(t.basevar)
  {
    if t.basevar == null {
      var same := false;
      if v.ncfullname == t.ncfullname {
        same := SameDims(v.dimsetall.Elems(), t.dimsetall.Elems());
      }
      if same {
        t.basevar := v;
      }
    }
  }

  method UnifyWith(vs: seq<CDFnode>, i: nat, ghost keys: seq<Key>)
    requires NoRepeats(vs) && HaveKeys(vs, keys) && i < |vs| && Unified(vs, keys, i, 0)
    modifies (set v | v in vs)`basevar
    ensures Unified(vs, keys, i + 1, 0)
  {
    var j := 0;
    while j < i
      invariant 0 <= j <= i && HaveKeys(vs, keys) && Unified(vs, keys, i, j)
    {
      BaseGrows(vs, keys, j, i);
      assert KeyOf(vs[j]) == keys[j] && KeyOf(vs[i]) == keys[i];
      assert forall k :: 0 <= k < |vs| && k != j ==> vs[k] != vs[j];
      UnifyPair(vs[i], vs[j]);
      j := j + 1;
    }
  }

  /** The unification of NC3 mode: basevar becomes the next later variable with the same name and sizes. */
  method Unify(vs: seq<CDFnode>, ghost keys: seq<Key>)
    requires NoRepeats(vs) && HaveKeys(vs, keys) && forall k :: 0 <= k < |vs| ==> vs[k].basevar == null
    modifies (set v | v in vs)`basevar
    ensures forall k :: 0 <= k < |vs| ==> vs[k].basevar == Base(vs, keys, k, |vs|)
  {
    var i := 0;
    while i < |vs|
      invariant 0 <= i <= |vs| && Unified(vs, keys, i, 0)
    {
      UnifyWith(vs, i, keys);
      i := i + 1;
    }
  }

  // No two variables without a basevar have the same full name.
  ghost predicate NamesUnique(vs: seq<CDFnode>)
    reads (set v | v in vs)`ncfullname, (set v | v in vs)`basevar
  {
    forall j, i :: 0 <= j < i < |vs| && vs[i].basevar == null && vs[j].basevar == null ==>
      vs[i].ncfullname != vs[j].ncfullname
  }

  /** The final pass; false stands for the panic on duplicate names. */
  method VerifyUnique(vs: seq<CDFnode>) returns (ok: bool)
    ensures ok <==> NamesUnique(vs)
  {
    var i := 0;
    while i < |vs|
      invariant 0 <= i <= |vs|
      invariant forall k, l :: 0 <= k < l < i && vs[l].basevar == null && vs[k].basevar == null ==>
        vs[l].ncfullname != vs[k].ncfullname
    {
      if vs[i].basevar == null {
        var j := 0;
        while j < i
          invariant 0 <= j <= i
          invariant forall k :: 0 <= k < j && vs[k].basevar == null ==> vs[i].ncfullname != vs[k].ncfullname
        {
          if vs[j].basevar == null && vs[i].ncfullname == vs[j].ncfullname {
            return false;
          }
          j := j + 1;
        }
      }
      i := i + 1;
    }
    return true;
  }

  /**
  computecdfvarnames: in NC3 mode the names are accepted exactly when variables of the same name
  have the same sizes, in other modes exactly when all names differ.
  */
  method ComputeVarNames(nc3: bool, vs: seq<CDFnode>, ghost keys: seq<Key>) returns (ok: bool)
    requires NoRepeats(vs) && HaveKeys(vs, keys) && forall k :: 0 <= k < |vs| ==> vs[k].basevar == null
    modifies (set v | v in vs)`basevar
    ensures forall k :: 0 <= k < |vs| ==> vs[k].basevar == if nc3 then Base(vs, keys, k, |vs|) else null
    ensures ok <==> if nc3 then SizesFollowNames(keys) else DifferentNames(keys)
  {
    if nc3 {
      Unify(vs, keys);
    }
    ok := VerifyUnique(vs);
    assert forall k :: 0 <= k < |vs| ==> KeyOf(vs[k]) == keys[k];
    if nc3 {
      UniqueIffSizesFollow(vs, keys);
    }
  }

  // ---------- When the names are accepted ----------

  predicate SizesFollowNames(keys: seq<Key>) {
    forall i, j :: 0 <= i < |keys| && 0 <= j < |keys| && keys[i].name == keys[j].name ==> keys[i].sizes == keys[j].sizes
  }

  predicate DifferentNames(keys: seq<Key>) {
    forall j, i :: 0 <= j < i < |keys| ==> keys[i].name != keys[j].name
  }

  predicate IsLast(keys: seq<Key>, i: nat) {
    i < |keys| && forall k :: i < k < |keys| ==> keys[k] != keys[i]
  }

  lemma {:induction false} LastExists(keys: seq<Key>, i: nat) returns (k: nat)
    requires i < |keys|
    ensures i <= k < |keys| && keys[k] == keys[i] && IsLast(keys, k)
    decreases |keys| - i
  {
    k := i;
    var next := NextSame(keys, i, |keys|);
    NextSameIsNext(keys, i, |keys|);
    if next < |keys| {
      k := LastExists(keys, next);
    }
  }

  /** The variables left unmarked are the last of their kind. */
  lemma UnmarkedAreLast(vs: seq<CDFnode>, keys: seq<Key>, i: nat)
    requires |keys| == |vs| && i < |vs|
    ensures Base(vs, keys, i, |vs|) == null <==> IsLast(keys, i)
  {
    NextSameIsNext(keys, i, |vs|);
  }

  predicate LastNamesDiffer(keys: seq<Key>) {
    forall j, i :: 0 <= j < i < |keys| && IsLast(keys, i) && IsLast(keys, j) ==> keys[i].name != keys[j].name
  }

  /** The last of their kind have different names exactly when equal names come with equal sizes. */
  lemma LastNamesDifferIff(keys: seq<Key>)
    ensures LastNamesDiffer(keys) <==> SizesFollowNames(keys)
  {
    if LastNamesDiffer(keys) {
      forall i, j | 0 <= i < |keys| && 0 <= j < |keys| && keys[i].name == keys[j].name
        ensures keys[i].sizes == keys[j].sizes
      {
        var k := LastExists(keys, i);
        var l := LastExists(keys, j);
        assert !(k < l) && !(l < k);
      }
    }
  }

  lemma UniqueIffSizesFollow(vs: seq<CDFnode>, keys: seq<Key>)
    requires HaveKeys(vs, keys) && forall k :: 0 <= k < |vs| ==> vs[k].basevar == Base(vs, keys, k, |vs|)
    ensures NamesUnique(vs) <==> SizesFollowNames(keys)
  {
    LastNamesDifferIff(keys);
    forall k | 0 <= k < |vs|
      ensures vs[k].ncfullname == keys[k].name && (vs[k].basevar == null <==> IsLast(keys, k))
    {
      assert KeyOf(vs[k]) == keys[k];
      UnmarkedAreLast(vs, keys, k);
    }
  }

  // ---------- In terms of the variables ----------

  /** basevar is the next later variable of the same full name with the same sizes. */
  lemma BaseIsNextSame(vs: seq<CDFnode>, keys: seq<Key>, k: nat)
    requires HaveKeys(vs, keys) && k < |vs|
    ensures Base(vs, keys, k, |vs|) == null ==>
      forall l :: k < l < |vs| ==>
        vs[l].ncfullname != vs[k].ncfullname || SizesOf(vs[l].dimsetall.Elems()) != SizesOf(vs[k].dimsetall.Elems())
    ensures Base(vs, keys, k, |vs|) != null ==>
      exists l :: k < l < |vs| && Base(vs, keys, k, |vs|) == vs[l] && vs[l].ncfullname == vs[k].ncfullname
        && SizesOf(vs[l].dimsetall.Elems()) == SizesOf(vs[k].dimsetall.Elems())
        && forall m :: k < m < l ==>
             vs[m].ncfullname != vs[k].ncfullname || SizesOf(vs[m].dimsetall.Elems()) != SizesOf(vs[k].dimsetall.Elems())
  {
    NextSameIsNext(keys, k, |vs|);
    assert KeyOf(vs[k]) == keys[k];
    forall m | k < m < |vs|
      ensures keys[m] == keys[k] <==>
        vs[m].ncfullname == vs[k].ncfullname && SizesOf(vs[m].dimsetall.Elems()) == SizesOf(vs[k].dimsetall.Elems())
    {
      assert KeyOf(vs[m]) == keys[m];
    }
  }

  /** The two conditions under which names are accepted. */
  lemma AcceptedMeans(vs: seq<CDFnode>, keys: seq<Key>)
    requires HaveKeys(vs, keys)
    ensures SizesFollowNames(keys) <==>
      forall i, j :: 0 <= i < |vs| && 0 <= j < |vs| ==>
        vs[i].ncfullname != vs[j].ncfullname || SizesOf(vs[i].dimsetall.Elems()) == SizesOf(vs[j].dimsetall.Elems())
    ensures DifferentNames(keys) <==> forall j, i :: 0 <= j < i < |vs| ==> vs[i].ncfullname != vs[j].ncfullname
  {
    forall k | 0 <= k < |vs|
      ensures keys[k].name == vs[k].ncfullname && keys[k].sizes == SizesOf(vs[k].dimsetall.Elems())
    {
      assert KeyOf(vs[k]) == keys[k];
    }
  }
}
