/**
Resolving partial names (matchpartialname, matchsuffix and completesegments in
libdap2/constraints.c; collectnodepath in libdap2/daputil.c).

A projection may give only the last names of a path.  Among all nodes whose path ends with them the
one with the shortest path is chosen, and the segments are then completed to the full path.
*/
module PartialNames {
  import opened CdfTree
  import opened Projections

  // What matching looks at in a segment.
  datatype Part = Part(name: string, rank: nat)

  datatype Match = Found(node: CDFnode) | NoMatch | Ambiguous

  ghost predicate HasParts(segments: seq<DCEsegment>, parts: seq<Part>)
    reads segments`rank
  {
    |segments| == |parts| && forall i :: 0 <= i < |parts| ==> parts[i] == Part(segments[i].name, segments[i].rank)
  }

  // ---------- Paths ----------

  // The path without the dataset.
  function Named(path: seq<CDFnode>): (r: seq<CDFnode>)
    requires path != []
  {
    if |path| == 1 then path else path[1..]
  }

  ghost predicate PathOf(path: seq<CDFnode>, n: CDFnode)
    reads (set m | m in path)`container
  {
    FromDataset(path) && path[|path| - 1] == n
  }

  /** collectnodepath: the nodes from the root, or from below the dataset, down to the node. */
  method CollectNodePath(start: CDFnode, withdataset: bool, ghost full: seq<CDFnode>) returns (path: seq<CDFnode>)
    requires full != [] && IsPath(full) && full[|full| - 1] == start && (withdataset || FromDataset(full))
    ensures path == if withdataset || |full| == 1 then full else full[1..]
  {
    var node := start;
    path := [node];
    ghost var i := |full| - 1;
    assert full[i..] == [node];
    assert i > 0 ==> full[(i - 1) + 1].container == full[i - 1];
    while node.container != null
      invariant 0 <= i < |full| && node == full[i] && path == full[i..]
      invariant node.container == if i == 0 then null else full[i - 1]
      invariant !withdataset && i == 0 ==> |full| == 1
      decreases i
    {
      assert i > 1 ==> full[(i - 2) + 1].container == full[i - 2];
      node := node.container;
      if !withdataset && node.nctype == Dataset {
        break;
      }
      path := [node] + path;
      i := i - 1;
    }
  }

  // ---------- Suffixes ----------

  predicate PartMatches(n: CDFnode, p: Part) {
    && p.name == n.ocname
    && (var rank := if n.nctype == Sequence then p.rank - 1 else p.rank; rank > 0 ==> rank == n.Rank())
  }

  predicate IsSuffix(path: seq<CDFnode>, parts: seq<Part>) {
    && |parts| <= |path|
    && forall i :: 0 <= i < |parts| ==> PartMatches(path[|path| - |parts| + i], parts[i])
  }

  /** Names agree, and a rank counts if it is given; that of a sequence counts the sequence itself too. */
  lemma SuffixMeans(path: seq<CDFnode>, parts: seq<Part>)
    ensures IsSuffix(path, parts) <==>
      && |parts| <= |path|
      && forall i :: 0 <= i < |parts| ==>
           var n, rank := path[|path| - |parts| + i], parts[i].rank;
           parts[i].name == n.ocname && (rank == 0 || (if n.nctype == Sequence then rank == 1 || rank == |n.dimset0| + 1 else rank == |n.dimset0|))
  {
    if |parts| <= |path| {
      forall i | 0 <= i < |parts|
        ensures var n, rank := path[|path| - |parts| + i], parts[i].rank;
          PartMatches(n, parts[i]) <==>
          parts[i].name == n.ocname && (rank == 0 || (if n.nctype == Sequence then rank == 1 || rank == |n.dimset0| + 1 else rank == |n.dimset0|))
      {
      }
    }
  }

  /** matchsuffix */
  method MatchSuffix(matchpath: seq<CDFnode>, segments: seq<DCEsegment>, ghost parts: seq<Part>) returns (ok: bool)
    requires HasParts(segments, parts)
    ensures ok <==> IsSuffix(matchpath, parts)
    ensures ok <==>
      && |segments| <= |matchpath|
      && forall i :: 0 <= i < |segments| ==>
           var n, rank := matchpath[|matchpath| - |segments| + i], segments[i].rank;
           segments[i].name == n.ocname && (rank == 0 || (if n.nctype == Sequence then rank == 1 || rank == |n.dimset0| + 1 else rank == |n.dimset0|))
  {
    SuffixMeans(matchpath, parts);
    var pathstart: int := |matchpath| - |segments|;
    if pathstart < 0 {
      return false;
    }
    var i := 0;
    while i < |segments|
      invariant 0 <= i <= |segments| && forall k :: 0 <= k < i ==> PartMatches(matchpath[pathstart + k], parts[k])
    {
      var node := matchpath[pathstart + i];
      var seg := segments[i];
      var rank: int := seg.rank;
      var segmatch := true;
      if seg.name != node.ocname {
        segmatch := false;
      } else if rank != 0 {
        if node.nctype == Sequence {
          rank := rank - 1;
        }
        if rank > 0 && rank != node.Rank() {
          segmatch := false;
        }
      }
      assert segmatch <==> PartMatches(matchpath[|matchpath| - |parts| + i], parts[i]);
      if !segmatch {
        return false;
      }
      i := i + 1;
    }
    return true;
  }

  // ---------- Candidates ----------

  predicate Selectable(n: CDFnode) {
    n.nctype in {Sequence, Structure, Grid, Atomic}
  }

  lemma SelectableIff(n: CDFnode)
    ensures Selectable(n) <==> n.nctype !in {Dataset, Dimension}
  {
    match n.nctype
    case Atomic => assert n.nctype == Atomic;
    case _ =>
  }

  ghost predicate Candidate(n: CDFnode, parts: seq<Part>, paths: map<CDFnode, seq<CDFnode>>) {
    Selectable(n) && n in paths && paths[n] != [] && IsSuffix(Named(paths[n]), parts)
  }

  // The candidates among the nodes, in order.
  ghost function Candidates(nodes: seq<CDFnode>, parts: seq<Part>, paths: map<CDFnode, seq<CDFnode>>): (r: seq<CDFnode>) {
    if nodes == [] then []
    else
      Candidates(nodes[..|nodes| - 1], parts, paths) +
      (if Candidate(nodes[|nodes| - 1], parts, paths) then [nodes[|nodes| - 1]] else [])
  }

  lemma {:induction false} CandidatesAre(nodes: seq<CDFnode>, parts: seq<Part>, paths: map<CDFnode, seq<CDFnode>>, n: CDFnode)
    ensures n in Candidates(nodes, parts, paths) <==> n in nodes && Candidate(n, parts, paths)
  {
    if nodes != [] {
      CandidatesAre(nodes[..|nodes| - 1], parts, paths, n);
      assert nodes == nodes[..|nodes| - 1] + [nodes[|nodes| - 1]];
    }
  }

  ghost predicate HavePaths(nodes: seq<CDFnode>, paths: map<CDFnode, seq<CDFnode>>)
    reads set n, m | n in nodes && n in paths && m in paths[n] :: m
  {
    forall n :: n in nodes && Selectable(n) ==> n in paths && PathOf(paths[n], n)
  }

  // The first two loops of matchpartialname.
  method CollectMatches(nodes: seq<CDFnode>, segments: seq<DCEsegment>, ghost parts: seq<Part>, ghost paths: map<CDFnode, seq<CDFnode>>)
    returns (matches: seq<CDFnode>)
    requires segments != [] && HasParts(segments, parts) && HavePaths(nodes, paths)
    ensures matches == Candidates(nodes, parts, paths)
  {
    var lastseg := segments[|segments| - 1];
    matches := [];
    var i := 0;
    while i < |nodes|
      invariant 0 <= i <= |nodes| && matches == Candidates(nodes[..i], parts, paths)
    {
      var node := nodes[i];
      assert nodes[..i + 1][..i] == nodes[..i];
      assert node in nodes;
      var good := IsMatch(node, lastseg.name, segments, parts, paths);
      if good {
        matches := matches + [node];
      }
      i := i + 1;
    }
    assert nodes[..i] == nodes;
  }

  method IsMatch(node: CDFnode, name: string, segments: seq<DCEsegment>, ghost parts: seq<Part>, ghost paths: map<CDFnode, seq<CDFnode>>)
    returns (good: bool)
    requires segments != [] && HasParts(segments, parts) && name == segments[|segments| - 1].name
    requires Selectable(node) ==> node in paths && PathOf(paths[node], node)
    ensures good <==> Candidate(node, parts, paths)
  {
    good := false;
    if Selectable(node) {
      if node.ocname == name {
        var matchpath := CollectNodePath(node, false, paths[node]);
        good := MatchSuffix(matchpath, segments, parts);
      } else {
        SuffixEnds(Named(paths[node]), parts);
      }
    }
  }

  lemma SuffixEnds(path: seq<CDFnode>, parts: seq<Part>)
    requires path != [] && parts != []
    ensures IsSuffix(path, parts) ==> path[|path| - 1].ocname == parts[|parts| - 1].name
  {
    if IsSuffix(path, parts) {
      assert PartMatches(path[|path| - |parts| + (|parts| - 1)], parts[|parts| - 1]);
    }
  }

  // ---------- The shortest path ----------

  // The path lengths of the candidates.
  ghost function Lengths(matches: seq<CDFnode>, paths: map<CDFnode, seq<CDFnode>>): (r: seq<nat>)
    requires forall n :: n in matches ==> n in paths && paths[n] != []
    ensures |r| == |matches| && forall i :: 0 <= i < |r| ==> r[i] == |Named(paths[matches[i]])| > 0
  {
    seq(|matches|, i requires 0 <= i < |matches| => assert matches[i] in matches; |Named(paths[matches[i]])|)
  }

  function Ties(ls: seq<nat>, m: nat): (r: nat) {
    if ls == [] then 0 else Ties(ls[..|ls| - 1], m) + (if ls[|ls| - 1] == m then 1 else 0)
  }

  lemma {:induction false} TiesAre(ls: seq<nat>, m: nat)
    ensures Ties(ls, m) == multiset(ls)[m]
  {
    if ls != [] {
      TiesAre(ls[..|ls| - 1], m);
      assert ls == ls[..|ls| - 1] + [ls[|ls| - 1]];
    }
  }

  lemma TiesGrow(ls: seq<nat>, m: nat, i: nat)
    requires i < |ls|
    ensures Ties(ls[..i + 1], m) == Ties(ls[..i], m) + (if ls[i] == m then 1 else 0)
  {
    assert ls[..i + 1][..i] == ls[..i];
  }

  lemma {:induction false} NoTies(ls: seq<nat>, m: nat)
    requires forall k :: 0 <= k < |ls| ==> ls[k] != m
    ensures Ties(ls, m) == 0
  {
    if ls != [] {
      NoTies(ls[..|ls| - 1], m);
    }
  }

  predicate IsMin(ls: seq<nat>, k: nat) {
    k < |ls| && forall j :: 0 <= j < |ls| ==> ls[k] <= ls[j]
  }

  // The first of the shortest.
  predicate IsFirstMin(ls: seq<nat>, k: nat) {
    IsMin(ls, k) && forall j :: 0 <= j < k ==> ls[j] > ls[k]
  }

  /** The count that decides about ambiguity leaves out the first candidate, even if it is one of the shortest. */
  function Counted(ls: seq<nat>, m: nat): (r: int)
    requires ls != []
  {
    Ties(ls, m) - (if ls[0] == m then 1 else 0)
  }

  lemma CountedGrows(ls: seq<nat>, k: nat, i: nat)
    requires 0 < i < |ls| && IsFirstMin(ls[..i], k)
    ensures var now := if ls[i] < ls[k] then i else k;
      && IsFirstMin(ls[..i + 1], now)
      && Counted(ls[..i + 1], ls[now]) ==
         if ls[i] < ls[k] then 1 else Counted(ls[..i], ls[k]) + (if ls[i] == ls[k] then 1 else 0)
  {
    var before, after := ls[..i], ls[..i + 1];
    assert forall j :: 0 <= j < i ==> after[j] == before[j];
    if ls[i] < ls[k] {
      TiesGrow(ls, ls[i], i);
      NoTies(before, ls[i]);
    } else {
      TiesGrow(ls, ls[k], i);
    }
  }

  // The scan for the shortest: its place, and the count of ties.
  function Scan(ls: seq<nat>): (r: (nat, nat))
    requires ls != []
    ensures r.0 < |ls|
  {
    if |ls| == 1 then (0, 0)
    else
      var (k, nmin) := Scan(ls[..|ls| - 1]);
      var last := ls[|ls| - 1];
      if last == ls[k] then (k, nmin + 1)
      else if last < ls[k] then (|ls| - 1, 1)
      else (k, nmin)
  }

  lemma {:induction false} ScanIsFirstMin(ls: seq<nat>)
    requires ls != []
    ensures IsFirstMin(ls, Scan(ls).0) && Scan(ls).1 == Counted(ls, ls[Scan(ls).0])
  {
    var i := |ls| - 1;
    if i == 0 {
      TiesGrow(ls, ls[0], 0);
      assert ls[..1] == ls;
    } else {
      ScanIsFirstMin(ls[..i]);
      CountedGrows(ls, Scan(ls[..i]).0, i);
      assert ls[..i + 1] == ls;
    }
  }

  lemma ScanGrows(ls: seq<nat>, i: nat)
    requires 0 < i < |ls|
    ensures var (k, nmin) := Scan(ls[..i]);
      Scan(ls[..i + 1]) == if ls[i] == ls[k] then (k, nmin + 1) else if ls[i] < ls[k] then (i, 1) else (k, nmin)
  {
    assert ls[..i + 1][..i] == ls[..i];
  }

  // Every match has a path.
  ghost predicate AllPaths(matches: seq<CDFnode>, paths: map<CDFnode, seq<CDFnode>>)
    reads set n, m | n in matches && n in paths && m in paths[n] :: m
  {
    forall n :: n in matches ==> n in paths && paths[n] != [] && PathOf(paths[n], n)
  }

  // ls are the path lengths of the matches.
  ghost predicate Measured(matches: seq<CDFnode>, paths: map<CDFnode, seq<CDFnode>>, ls: seq<nat>)
    reads set n, m | n in matches && n in paths && m in paths[n] :: m
  {
    |matches| == |ls| && AllPaths(matches, paths) && ls == Lengths(matches, paths)
  }

  // The variables of the loop after the first i matches: `min` is the place of minnode.
  ghost predicate Scanned(ls: seq<nat>, i: nat, minpath: nat, min: nat, nmin: nat) {
    && i <= |ls|
    && (i == 0 ==> minpath == 0 && nmin == 0 && min == 0)
    && (i > 0 ==> min < |ls| && Scan(ls[..i]) == (min, nmin) && minpath == ls[min])
  }

  // The last part of matchpartialname.
  method PickShortest(matches: seq<CDFnode>, ghost paths: map<CDFnode, seq<CDFnode>>, ghost ls: seq<nat>) returns (r: Match)
    requires matches != [] && |matches| == |ls| && Measured(matches, paths, ls)
    ensures r == Chosen(matches, ls)
  {
    var minpath: nat := 0;
    var min: nat := 0;       // the place of minnode
    var nmin: nat := 0;
    var i := 0;
    while i < |matches|
      invariant 0 <= i <= |matches| && min < |matches|
      invariant true == Measured(matches, paths, ls) && true == Scanned(ls, i, minpath, min, nmin)
    {
      minpath, min, nmin, i := PickNext(matches, i, minpath, min, nmin, paths, ls);
    }
    ScannedAll(matches, ls, minpath, min, nmin);
    r := if nmin > 1 then Ambiguous else Found(matches[min]);
  }

  lemma ScannedAll(matches: seq<CDFnode>, ls: seq<nat>, minpath: nat, min: nat, nmin: nat)
    requires |matches| == |ls| > min && Scanned(ls, |ls|, minpath, min, nmin)
    ensures Chosen(matches, ls) == if nmin > 1 then Ambiguous else Found(matches[min])
  {
    assert ls[..|ls|] == ls;
  }

  // The body of the loop over the matches.
  method Consider(length: nat, i: nat, minpath: nat, min: nat, nmin: nat, ghost ls: seq<nat>)
    returns (minpath': nat, min': nat, nmin': nat, i': nat)
    requires i < |ls| && min < |ls| && length == ls[i] && forall k :: 0 <= k < |ls| ==> ls[k] > 0
    requires Scanned(ls, i, minpath, min, nmin)
    ensures i' == i + 1 && min' < |ls| && true == Scanned(ls, i', minpath', min', nmin')
  {
    i' := i + 1;
    if i > 0 {
      ScanGrows(ls, i);
    }
    minpath', min', nmin' := minpath, min, nmin;
    if minpath == 0 {
      minpath', min' := length, i;
    } else if length == minpath {
      nmin' := nmin + 1;
    } else if length < minpath {
      minpath', min', nmin' := length, i, 1;
    }
  }

  // One turn of that loop.
  method PickNext(matches: seq<CDFnode>, i: nat, minpath: nat, min: nat, nmin: nat, ghost paths: map<CDFnode, seq<CDFnode>>, ghost ls: seq<nat>)
    returns (minpath': nat, min': nat, nmin': nat, i': nat)
    requires i < |matches| == |ls| && Measured(matches, paths, ls)
    requires min < |ls| && Scanned(ls, i, minpath, min, nmin)
    ensures true == Measured(matches, paths, ls)
    ensures i' == i + 1 && min' < |ls| && true == Scanned(ls, i', minpath', min', nmin')
  {
    var length := PathLength(matches, i, paths, ls);
    minpath', min', nmin', i' := Consider(length, i, minpath, min, nmin, ls);
  }

  method PathLength(matches: seq<CDFnode>, i: nat, ghost paths: map<CDFnode, seq<CDFnode>>, ghost ls: seq<nat>) returns (n: nat)
    requires i < |matches| && AllPaths(matches, paths) && ls == Lengths(matches, paths)
    ensures n == ls[i]
  {
    assert matches[i] in matches;
    var matchpath := CollectNodePath(matches[i], false, paths[matches[i]]);
    n := |matchpath|;
  }

  ghost function Chosen(matches: seq<CDFnode>, ls: seq<nat>): (r: Match)
    requires |matches| == |ls|
  {
    if matches == [] then NoMatch
    else
      var (k, nmin) := Scan(ls);
      if nmin > 1 then Ambiguous else Found(matches[k])
  }

  // ---------- The whole search ----------

  lemma {:induction false} CandidatesHavePaths(nodes: seq<CDFnode>, parts: seq<Part>, paths: map<CDFnode, seq<CDFnode>>)
    ensures forall n :: n in Candidates(nodes, parts, paths) ==> n in paths && paths[n] != []
  {
    if nodes != [] {
      CandidatesHavePaths(nodes[..|nodes| - 1], parts, paths);
    }
  }

  ghost function PathLengths(nodes: seq<CDFnode>, parts: seq<Part>, paths: map<CDFnode, seq<CDFnode>>): (r: seq<nat>)
    ensures |r| == |Candidates(nodes, parts, paths)|
  {
    CandidatesHavePaths(nodes, parts, paths);
    Lengths(Candidates(nodes, parts, paths), paths)
  }

  // What matchpartialname returns.
  ghost function Resolve(nodes: seq<CDFnode>, parts: seq<Part>, paths: map<CDFnode, seq<CDFnode>>): (r: Match) {
    Chosen(Candidates(nodes, parts, paths), PathLengths(nodes, parts, paths))
  }

  /** matchpartialname */
  method MatchPartialName(nodes: seq<CDFnode>, segments: seq<DCEsegment>, ghost parts: seq<Part>, ghost paths: map<CDFnode, seq<CDFnode>>)
    returns (r: Match)
    requires segments != [] && HasParts(segments, parts) && HavePaths(nodes, paths)
    ensures r == Resolve(nodes, parts, paths)
    ensures r.Found? ==>
      && r.node in nodes && r.node.nctype !in {Dataset, Dimension} && r.node in paths && paths[r.node] != []
      && var path := if |paths[r.node]| == 1 then paths[r.node] else paths[r.node][1..];
        |segments| <= |path| && forall i :: 0 <= i < |segments| ==> segments[i].name == path[|path| - |segments| + i].ocname
  {
    r := Search(nodes, segments, parts, paths);
    if r.Found? {
      NamesAtEnd(nodes, segments, parts, paths);
    }
  }

  method Search(nodes: seq<CDFnode>, segments: seq<DCEsegment>, ghost parts: seq<Part>, ghost paths: map<CDFnode, seq<CDFnode>>)
    returns (r: Match)
    requires segments != [] && HasParts(segments, parts) && HavePaths(nodes, paths)
    ensures r == Resolve(nodes, parts, paths)
  {
    var matches := CollectMatches(nodes, segments, parts, paths);
    CandidatesHavePaths(nodes, parts, paths);
    if matches == [] {
      r := NoMatch;
    } else if |matches| == 1 {
      r := Found(matches[0]);
    } else {
      forall n | n in matches
        ensures n in paths && PathOf(paths[n], n)
      {
        CandidatesAre(nodes, parts, paths, n);
      }
      r := PickShortest(matches, paths, Lengths(matches, paths));
    }
  }

  // The names of the segments are those at the end of the path.
  lemma NamesAtEnd(nodes: seq<CDFnode>, segments: seq<DCEsegment>, parts: seq<Part>, paths: map<CDFnode, seq<CDFnode>>)
    requires Resolve(nodes, parts, paths).Found? && HasParts(segments, parts)
    ensures var n := Resolve(nodes, parts, paths).node;
      && n in nodes && n.nctype !in {Dataset, Dimension} && n in paths && paths[n] != []
      && var path := if |paths[n]| == 1 then paths[n] else paths[n][1..];
        |segments| <= |path| && forall i :: 0 <= i < |segments| ==> segments[i].name == path[|path| - |segments| + i].ocname
  {
    FoundMeans(nodes, parts, paths);
    assert forall i :: 0 <= i < |parts| ==> parts[i] == Part(segments[i].name, segments[i].rank);
  }

  /** A resolved name has the segments as a suffix of its path, and no matching path is shorter. */
  lemma ResolvedIsShortest(nodes: seq<CDFnode>, parts: seq<Part>, paths: map<CDFnode, seq<CDFnode>>)
    requires Resolve(nodes, parts, paths).Found?
    ensures var node := Resolve(nodes, parts, paths).node;
      && node in nodes && Candidate(node, parts, paths)
      && forall n :: n in nodes && Candidate(n, parts, paths) ==> |Named(paths[node])| <= |Named(paths[n])|
  {
    var matches, ls := Candidates(nodes, parts, paths), PathLengths(nodes, parts, paths);
    var node := Resolve(nodes, parts, paths).node;
    CandidatesHavePaths(nodes, parts, paths);
    ScanIsFirstMin(ls);
    CandidatesAre(nodes, parts, paths, node);
    forall n | n in nodes && Candidate(n, parts, paths)
      ensures |Named(paths[node])| <= |Named(paths[n])|
    {
      CandidatesAre(nodes, parts, paths, n);
      var j :| 0 <= j < |matches| && matches[j] == n;
      assert ls[Scan(ls).0] <= ls[j];
    }
  }

  lemma NoMatchIffNone(nodes: seq<CDFnode>, parts: seq<Part>, paths: map<CDFnode, seq<CDFnode>>)
    ensures Resolve(nodes, parts, paths).NoMatch? <==> forall n :: n in nodes ==> !Candidate(n, parts, paths)
  {
    var matches := Candidates(nodes, parts, paths);
    if matches == [] {
      forall n | n in nodes
        ensures !Candidate(n, parts, paths)
      {
        CandidatesAre(nodes, parts, paths, n);
      }
    } else {
      CandidatesAre(nodes, parts, paths, matches[0]);
    }
  }

  // The path of a node below the dataset; the dataset itself keeps its own.
  lemma BelowDataset(path: seq<CDFnode>)
    requires path != []
    ensures Named(path) == (if |path| == 1 then path else path[1..]) != []
    ensures Named(path)[|Named(path)| - 1] == path[|path| - 1]
  {
  }

  /** What is found is no dataset and no dimension, and its path ends with the names asked for. */
  lemma FoundMeans(nodes: seq<CDFnode>, parts: seq<Part>, paths: map<CDFnode, seq<CDFnode>>)
    requires Resolve(nodes, parts, paths).Found?
    ensures var n := Resolve(nodes, parts, paths).node;
      && n in nodes && n.nctype !in {Dataset, Dimension} && n in paths && paths[n] != []
      && var path := if |paths[n]| == 1 then paths[n] else paths[n][1..];
        && |parts| <= |path|
        && forall i :: 0 <= i < |parts| ==>
             var m, rank := path[|path| - |parts| + i], parts[i].rank;
             parts[i].name == m.ocname && (rank == 0 || (if m.nctype == Sequence then rank == 1 || rank == |m.dimset0| + 1 else rank == |m.dimset0|))
  {
    var n := Resolve(nodes, parts, paths).node;
    ResolvedIsShortest(nodes, parts, paths);
    SuffixMeans(Named(paths[n]), parts);
  }

  /** A node whose name no other node has is found by that name, whatever it is: sequence, structure, grid or variable. */
  lemma UniqueNameIsFound(nodes: seq<CDFnode>, paths: map<CDFnode, seq<CDFnode>>, n: CDFnode)
    requires NoRepeats(nodes) && n in nodes && n.nctype !in {Dataset, Dimension}
    requires n in paths && paths[n] != [] && paths[n][|paths[n]| - 1] == n
    requires forall m :: m in nodes && m in paths && m.nctype !in {Dataset, Dimension} ==> paths[m] != [] && paths[m][|paths[m]| - 1] == m
    requires forall m :: m in nodes && m != n ==> m.ocname != n.ocname
    ensures Resolve(nodes, [Part(n.ocname, 0)], paths) == Found(n)
  {
    var parts := [Part(n.ocname, 0)];
    BelowDataset(paths[n]);
    var path := Named(paths[n]);
    assert PartMatches(path[|path| - 1], parts[0]);
    assert IsSuffix(path, parts) && Candidate(n, parts, paths);
    forall m | m in nodes && m != n
      ensures !Candidate(m, parts, paths)
    {
      if Candidate(m, parts, paths) {
        BelowDataset(paths[m]);
        SuffixEnds(Named(paths[m]), parts);
      }
    }
    UniqueShortestIsFound(nodes, parts, paths, n);
  }

  // The names of all nodes on a path below the dataset, without slices.
  function FullName(path: seq<CDFnode>): (r: seq<Part>)
    requires path != []
    ensures |path| == 1 ==> r == [Part(path[0].ocname, 0)]
    ensures |path| > 1 ==> |r| == |path| - 1 && forall i :: 0 <= i < |r| ==> r[i] == Part(path[i + 1].ocname, 0)
  {
    var names := Named(path);
    seq(|names|, i requires 0 <= i < |names| => Part(names[i].ocname, 0))
  }

  /** The full name of a node is never without a match. */
  lemma FullNameMatches(nodes: seq<CDFnode>, paths: map<CDFnode, seq<CDFnode>>, n: CDFnode)
    requires n in nodes && n.nctype !in {Dataset, Dimension} && n in paths && paths[n] != []
    ensures !Resolve(nodes, FullName(paths[n]), paths).NoMatch?
  {
    NoMatchIffNone(nodes, FullName(paths[n]), paths);
    var path, parts := Named(paths[n]), FullName(paths[n]);
    assert |parts| == |path|;
    forall i | 0 <= i < |parts|
      ensures PartMatches(path[|path| - |parts| + i], parts[i])
    {
      assert path[i] == if |paths[n]| == 1 then paths[n][i] else paths[n][i + 1];
    }
    SelectableIff(n);
    assert Candidate(n, parts, paths);
  }

  /**
  Ambiguity is reported exactly when the shortest path is shared, except that a tie of the first
  candidate with one other goes unnoticed.
  */
  lemma AmbiguousIff(nodes: seq<CDFnode>, parts: seq<Part>, paths: map<CDFnode, seq<CDFnode>>, k: nat)
    requires var ls := PathLengths(nodes, parts, paths); IsMin(ls, k)
    ensures var ls := PathLengths(nodes, parts, paths);
      Resolve(nodes, parts, paths).Ambiguous? <==> multiset(ls)[ls[k]] > (if ls[0] == ls[k] then 2 else 1)
  {
    TiesAre(PathLengths(nodes, parts, paths), PathLengths(nodes, parts, paths)[k]);
    var ls := PathLengths(nodes, parts, paths);
    ScanIsFirstMin(ls);
    assert ls[Scan(ls).0] == ls[k];
  }

  /** Two candidates with paths of the same length: the first is taken. */
  lemma TwoWayTieIsAccepted(a: CDFnode, b: CDFnode, parts: seq<Part>, paths: map<CDFnode, seq<CDFnode>>)
    requires Candidate(a, parts, paths) && Candidate(b, parts, paths) && |Named(paths[a])| == |Named(paths[b])|
    ensures Resolve([a, b], parts, paths) == Found(a)
  {
    var nodes := [a, b];
    assert nodes[..1] == [a] && [a][..0] == [];
    assert Candidates([a], parts, paths) == [a];
    assert Candidates(nodes, parts, paths) == [a, b];
    var ls := PathLengths(nodes, parts, paths);
    assert |ls| == 2 && ls[..1] == [ls[0]] && ls[0] == ls[1];
    assert Scan([ls[0]]) == (0, 0);
    assert Scan(ls) == (0, 1);
  }

  lemma {:induction false} OneTie(ls: seq<nat>, k: nat)
    requires k < |ls| && forall j :: 0 <= j < |ls| && j != k ==> ls[j] != ls[k]
    ensures Ties(ls, ls[k]) == 1
  {
    var last := |ls| - 1;
    if k == last {
      NoTies(ls[..last], ls[k]);
    } else {
      OneTie(ls[..last], k);
    }
  }

  lemma {:induction false} CandidatesOnce(nodes: seq<CDFnode>, parts: seq<Part>, paths: map<CDFnode, seq<CDFnode>>)
    requires NoRepeats(nodes)
    ensures var c := Candidates(nodes, parts, paths); forall i, j :: 0 <= i < j < |c| ==> c[i] != c[j]
  {
    if nodes != [] {
      CandidatesOnce(nodes[..|nodes| - 1], parts, paths);
      CandidatesAre(nodes[..|nodes| - 1], parts, paths, nodes[|nodes| - 1]);
    }
  }

  /** A candidate whose path is shorter than that of every other candidate is found. */
  lemma UniqueShortestIsFound(nodes: seq<CDFnode>, parts: seq<Part>, paths: map<CDFnode, seq<CDFnode>>, n: CDFnode)
    requires NoRepeats(nodes)
    requires n in nodes && Candidate(n, parts, paths)
    requires forall m :: m in nodes && m != n && Candidate(m, parts, paths) ==> |Named(paths[n])| < |Named(paths[m])|
    ensures Resolve(nodes, parts, paths) == Found(n)
  {
    var matches, ls := Candidates(nodes, parts, paths), PathLengths(nodes, parts, paths);
    CandidatesHavePaths(nodes, parts, paths);
    CandidatesOnce(nodes, parts, paths);
    CandidatesAre(nodes, parts, paths, n);
    var k :| 0 <= k < |matches| && matches[k] == n;
    forall j | 0 <= j < |matches| && j != k
      ensures ls[k] < ls[j]
    {
      CandidatesAre(nodes, parts, paths, matches[j]);
      assert matches[j] != n;
    }
    OneTie(ls, k);
    ScanIsFirstMin(ls);
    assert Scan(ls).0 == k;
  }

  // ---------- Completing the path ----------

  /** completesegments: the full path, node by node, ending with the caller's own segments. */
  method CompleteSegments(fullpath: seq<CDFnode>, segments: seq<DCEsegment>) returns (r: seq<DCEsegment>)
    requires |segments| <= |fullpath| && forall n :: n in fullpath ==> n.Rank() <= NC_MAX_VAR_DIMS
    requires forall i, j :: 0 <= i < j < |segments| ==> segments[i] != segments[j]
    modifies segments`annotation
    ensures |r| == |fullpath| && r[|fullpath| - |segments|..] == segments
    ensures forall i :: 0 <= i < |r| ==> r[i].annotation == fullpath[i]
    ensures forall i :: 0 <= i < |fullpath| - |segments| ==>
      fresh(r[i]) && r[i].name == fullpath[i].ocname && r[i].rank == fullpath[i].Rank()
  {
    var delta := |fullpath| - |segments|;
    r := segments;
    var i := 0;
    while i < delta
      invariant 0 <= i <= delta && |r| == |segments| + i && r[i..] == segments
      invariant forall k :: 0 <= k < i ==>
        fresh(r[k]) && r[k].annotation == fullpath[k] && r[k].name == fullpath[k].ocname && r[k].rank == fullpath[k].Rank()
    {
      var node := fullpath[i];
      var seg := new DCEsegment(node.ocname, node, node.Rank());
      r := r[..i] + [seg] + r[i..];
      i := i + 1;
    }
    assert forall k :: delta <= k < |r| ==> r[k] == segments[k - delta];
    while i < |r|
      invariant delta <= i <= |r|
      invariant forall k :: 0 <= k < i ==> r[k].annotation == fullpath[k]
      invariant forall k :: 0 <= k < delta ==> r[k].rank == fullpath[k].Rank()
    {
      r[i].annotation := fullpath[i];
      i := i + 1;
    }
  }

  /** Resolving and completing: the segments spell out the path of the node that was found. */
  method Qualify(nodes: seq<CDFnode>, segments: seq<DCEsegment>, ghost parts: seq<Part>, ghost paths: map<CDFnode, seq<CDFnode>>)
    returns (m: Match, r: seq<DCEsegment>)
    requires segments != [] && HasParts(segments, parts) && HavePaths(nodes, paths)
    requires forall i, j :: 0 <= i < j < |segments| ==> segments[i] != segments[j]
    requires forall n, p :: n in nodes && n in paths && p in paths[n] ==> p.Rank() <= NC_MAX_VAR_DIMS
    modifies segments`annotation
    ensures m == Resolve(nodes, parts, paths)
    ensures !m.Found? ==> r == segments
    ensures m.Found? ==>
      && m.node in paths && paths[m.node] != []
      && (var path := if |paths[m.node]| == 1 then paths[m.node] else paths[m.node][1..];
          && |segments| <= |r| == |path| && r[|r| - |segments|..] == segments
          && forall i :: 0 <= i < |r| ==> r[i].annotation == path[i] && r[i].name == path[i].ocname)
  {
    m := MatchPartialName(nodes, segments, parts, paths);
    r := segments;
    if m.Found? {
      ResolvedIsShortest(nodes, parts, paths);
      r := CompletePath(m.node, segments, parts, paths[m.node]);
    }
  }

  // From the node found to the segments for its whole path.
  method CompletePath(node: CDFnode, segments: seq<DCEsegment>, ghost parts: seq<Part>, ghost full: seq<CDFnode>) returns (r: seq<DCEsegment>)
    requires HasParts(segments, parts) && PathOf(full, node) && IsSuffix(Named(full), parts)
    requires forall i, j :: 0 <= i < j < |segments| ==> segments[i] != segments[j]
    requires forall n :: n in full ==> n.Rank() <= NC_MAX_VAR_DIMS
    modifies segments`annotation
    ensures var path := if |full| == 1 then full else full[1..];
      && |segments| <= |r| == |path| && r[|r| - |segments|..] == segments
      && forall i :: 0 <= i < |r| ==> r[i].annotation == path[i] && r[i].name == path[i].ocname
  {
    var fullpath := CollectNodePath(node, false, full);
    assert forall n :: n in fullpath ==> n in full;
    r := CompleteNamed(fullpath, segments, parts);
  }

  // completesegments for segments that match the end of the path: all names are those of the path.
  method CompleteNamed(fullpath: seq<CDFnode>, segments: seq<DCEsegment>, ghost parts: seq<Part>) returns (r: seq<DCEsegment>)
    requires HasParts(segments, parts) && IsSuffix(fullpath, parts) && forall n :: n in fullpath ==> n.Rank() <= NC_MAX_VAR_DIMS
    requires forall i, j :: 0 <= i < j < |segments| ==> segments[i] != segments[j]
    modifies segments`annotation
    ensures |segments| <= |r| == |fullpath| && r[|r| - |segments|..] == segments
    ensures forall i :: 0 <= i < |r| ==> r[i].annotation == fullpath[i] && r[i].name == fullpath[i].ocname
  {
    r := CompleteSegments(fullpath, segments);
    var delta := |r| - |segments|;
    forall i | delta <= i < |r|
      ensures r[i].name == fullpath[i].ocname
    {
      assert r[i] == r[delta..][i - delta];
      assert PartMatches(fullpath[|fullpath| - |parts| + (i - delta)], parts[i - delta]);
    }
  }

  // The parts of the completed segments.
  function Completed(path: seq<CDFnode>, parts: seq<Part>): (r: seq<Part>)
    requires |parts| <= |path|
  {
    seq(|path| - |parts|, i requires 0 <= i < |path| - |parts| => Part(path[i].ocname, path[i].Rank())) + parts
  }

  /**
  The path still matches its completed segments exactly when none of the added ones is a sequence of
  rank two or more: a sequence is matched with one dimension less than its segment has.
  */
  lemma CompletedIsSuffixIff(path: seq<CDFnode>, parts: seq<Part>)
    requires IsSuffix(path, parts)
    ensures IsSuffix(path, Completed(path, parts)) <==> LowRankSequences(path[..|path| - |parts|])
  {
    var all := Completed(path, parts);
    var delta := |path| - |parts|;
    if LowRankSequences(path[..delta]) {
      forall i | 0 <= i < |path|
        ensures PartMatches(path[|path| - |all| + i], all[i])
      {
        CompletedPartMatches(path, parts, i);
      }
    }
    if IsSuffix(path, all) {
      forall i | 0 <= i < delta && path[..delta][i].nctype == Sequence
        ensures path[..delta][i].Rank() <= 1
      {
        assert PartMatches(path[|path| - |all| + i], all[i]);
        CompletedPartMatches(path, parts, i);
      }
    }
  }

  lemma CompletedPartMatches(path: seq<CDFnode>, parts: seq<Part>, i: nat)
    requires IsSuffix(path, parts) && i < |path|
    ensures PartMatches(path[i], Completed(path, parts)[i]) <==>
      i >= |path| - |parts| || path[i].nctype != Sequence || path[i].Rank() <= 1
  {
    var delta := |path| - |parts|;
    if i >= delta {
      assert PartMatches(path[|path| - |parts| + (i - delta)], parts[i - delta]);
    }
  }

  /** So a node below a sequence of rank two no longer matches its own completed segments. */
  lemma DeepSequenceIsUnmatched(outer: CDFnode, leaf: CDFnode)
    requires outer.nctype == Sequence && outer.Rank() >= 2
    ensures var path, parts := [outer, leaf], [Part(leaf.ocname, 0)];
      IsSuffix(path, parts) && !IsSuffix(path, Completed(path, parts))
  {
    var path, parts := [outer, leaf], [Part(leaf.ocname, 0)];
    CompletedIsSuffixIff(path, parts);
    assert path[..1][0] == outer;
  }

  predicate LowRankSequences(path: seq<CDFnode>) {
    forall i :: 0 <= i < |path| && path[i].nctype == Sequence ==> path[i].Rank() <= 1
  }

  lemma SameNames(path: seq<CDFnode>, other: seq<CDFnode>, parts: seq<Part>)
    requires IsSuffix(path, parts) && IsSuffix(other, Completed(path, parts))
    ensures |other| >= |path|
    ensures |other| == |path| ==> forall i :: 0 <= i < |path| ==> other[i].ocname == path[i].ocname
  {
    var all := Completed(path, parts);
    var delta := |path| - |parts|;
    forall i | 0 <= i < |path|
      ensures other[|other| - |all| + i].ocname == path[i].ocname
    {
      assert PartMatches(other[|other| - |all| + i], all[i]);
      if i >= delta {
        assert PartMatches(path[|path| - |parts| + (i - delta)], parts[i - delta]);
      }
    }
  }

  // The path of the node found.
  ghost function FoundPath(nodes: seq<CDFnode>, parts: seq<Part>, paths: map<CDFnode, seq<CDFnode>>): (r: seq<CDFnode>)
    requires Resolve(nodes, parts, paths).Found?
    ensures Resolve(nodes, parts, paths).node in paths && IsSuffix(r, parts)
  {
    ResolvedIsShortest(nodes, parts, paths);
    Named(paths[Resolve(nodes, parts, paths).node])
  }

  /**
  Resolving the completed segments again leads back to the same names, if it is not ambiguous and no
  added segment is for a sequence of rank two or more.
  */
  lemma ResolvesAgain(nodes: seq<CDFnode>, parts: seq<Part>, paths: map<CDFnode, seq<CDFnode>>)
    requires Resolve(nodes, parts, paths).Found?
    requires var path := FoundPath(nodes, parts, paths); LowRankSequences(path[..|path| - |parts|])
    ensures var path := FoundPath(nodes, parts, paths);
      var again := Resolve(nodes, Completed(path, parts), paths);
      again.Ambiguous? ||
      (again.Found? &&
       var other := FoundPath(nodes, Completed(path, parts), paths);
       |other| == |path| && forall i :: 0 <= i < |path| ==> other[i].ocname == path[i].ocname)
  {
    var node, path := Resolve(nodes, parts, paths).node, FoundPath(nodes, parts, paths);
    var all := Completed(path, parts);
    CompletedIsSuffixIff(path, parts);
    ResolvedIsShortest(nodes, parts, paths);
    assert Candidate(node, all, paths);
    NoMatchIffNone(nodes, all, paths);
    if Resolve(nodes, all, paths).Found? {
      NoneShorter(nodes, all, paths, node);
      SameNames(path, FoundPath(nodes, all, paths), parts);
    }
  }

  lemma NoneShorter(nodes: seq<CDFnode>, parts: seq<Part>, paths: map<CDFnode, seq<CDFnode>>, n: CDFnode)
    requires Resolve(nodes, parts, paths).Found? && n in nodes && Candidate(n, parts, paths)
    ensures |FoundPath(nodes, parts, paths)| <= |Named(paths[n])|
  {
    ResolvedIsShortest(nodes, parts, paths);
  }
}
