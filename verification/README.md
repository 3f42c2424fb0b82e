# A verified model of the netCDF DAP2 client

This project models the hard core of the DAP2 client in netCDF-C (`libdap2`), and the growable
buffers of `include/netcdf_vutils.h`, in Dafny 4.11, and proves what the code does on all inputs.
`dafny verify dfyconfig.toml` checks everything.

A DAP2 client opens a remote dataset through a URL that may restrict it.  It keeps two trees of
nodes: the full description of the dataset, and the description of what the URL makes visible.
Requests for parts of a variable become `[first:stride:last]` slices, are merged with those of the
URL, and are answered from a cache or by a fetch.

## How the model is laid out

| file | what it models |
|---|---|
| `Arithmetic.dfy`, `Wrappers.dfy` | a few facts about products and quotients; `Option` |
| `CdfTree.dfy` | tree nodes with `container` and `subnodes` pointers, and the ghost `Forest` that describes their shape |
| `Restruct.dfy`, `Placement.dfy`, `RestructReach.dfy` | repair of a returned tree against a pattern tree, where each node goes, and how far the search for a stray field reaches |
| `MapNodes.dfy` | linking every constrained node to its unconstrained twin |
| `SequenceCheck.dfy` | marking usable sequences |
| `Dimsets.dfy` | inherited dimension lists |
| `VarNodes.dfy`, `VarNames.dfy` | order of the variables, unification of duplicates, uniqueness of names |
| `Slices.dfy`, `RowMajor.dfy`, `Projections.dfy` | slice algebra, row-major reads of any rank, the in-place operations on projections |
| `PartialNames.dfy`, `FixProjections.dfy` | resolving partial names, cleaning up a list of projections |
| `Odometer.dfy`, `Extract.dfy`, `FrontReads.dfy` | walking over fetched data |
| `Selections.dfy`, `MoveTo.dfy`, `FieldIndex.dfy` | the walk from the root of a response through dimensioned structures into the caller's memory, and the fields it moves to |
| `Cache.dfy`, `Prefetch.dfy` | the cache, and the choice of what to prefetch |
| `Answers.dfy`, `GetVara.dfy` | what each way of answering a request leaves in memory, and a whole request end to end |
| `VUtils.dfy`, `Convert.dfy` | growable string and list, integer conversion |

Code that changes things in place is modelled by classes and methods with loops; each is proved
against a function or predicate on values, and the laws are proved about those.  The pointer tree is
described by a ghost `Forest`, with `Linked` saying that the pointers agree with it.

## What was found

Where the code differs from its comments, the model follows the code.

- `libdap2/cdf.c:529` looks at as many fields of a grid as the grid has siblings, not at all of
  them.  For every pattern, each tree that fits is accepted if and only if every field of every grid
  is reached: it has a matching namesake beside its grid, or matches a field within the bound of some
  grid there (`RestructReach.AcceptsAllThatFitIff`).  No grid having more fields than siblings is
  enough, but not needed.
- Two fields of one grid that come back alone are repaired to two structures of the same name, and
  the child count asserted at `libdap2/cdf.c:677` can then fail (`MapNodes.TwoStrayFieldsPanic`).  It
  fails if and only if the tree came back crowded: some node with more children than its namesake in
  the pattern (`MapNodes.PanicsIffCrowded`).
- The error of a slice composition is dropped at `libdap2/dceconstraints.c:286`.  The merged
  slice is right if and only if the request starts inside what the URL selects
  (`Projections.MergeSelectsIff`).
- For a variable inside a dimensioned structure, extract is run once per instance
  (`libdap2/getvara.c:533-553`), and where it copies the front of unconverted data it does not move
  the memory pointer (`libdap2/getvara.c:870-876`): each instance overwrites the one before.  On the
  tree of `ncdap_test/testdata3/synth3.dds` asking for `S1[0:1].v1[0:1]` leaves the elements of the
  second structure where those of the first belong (`Answers.InstancesOverwrite`).  Over all data and
  all earlier contents of memory the walk is right if and only if the pointer moves, or there is one
  instance and its front is what is selected (`MoveTo.WalkIff`).
- With `NCF_WHOLEVAR` only the last segment loses its slices (`libdap2/dceconstraints.c:909-919`), so
  the instances of its containers are cut by the server and sought again at their old indices: the
  request fails unless its slices of the containers start at 0 without gaps, and
  `S1[1].v1` is refused (`Answers.SecondInstanceIsRefused`).  With selections in the URL the response
  is not marked whole either (`libdap2/cache.c:421-433`), and the walk copies the front of the field
  (`Answers.WholeVarUnderSelectionsFails`).
- For each way of answering a request, `Answers.SoundIff` gives the exact condition under which the
  answer is right for all data: from the cache, always; for a fetched part, if the field has no
  dimensions, or the types need converting, or the part counts as whole, or one instance is asked for;
  for a fetched field, if moreover the containers are taken from the front, and a single instance may
  also be a leading run of the field.
- `libdap2/constraints.c:299-315` does not count the first candidate, so a tie of two with the first
  is accepted (`PartialNames.AmbiguousIff`, `PartialNames.TwoWayTieIsAccepted`).
- `libdap2/constraints.c:573` makes every container remove itself, so containers are never replaced
  by their fields as the comment says (`FixProjections.CoveredIff`).
- The whole-slice test is not met by a dimension of size 1 with a stride above 1, which also selects
  everything (`Slices.WholeMeansAll`).
- Segments added by completesegments carry the rank of their node, but matching takes one off for a
  sequence: a path matches its own completed segments if and only if none of the added ones is a
  sequence of rank 2 or more (`PartialNames.CompletedIsSuffixIff`).  This does no harm as the code
  stands: names are resolved once (`libdap2/ncd2dispatch.c:542`), before segments are completed
  (`libdap2/ncd2dispatch.c:550`), and the ranks are then overwritten (`libdap2/constraints.c:155`).
- All fetches carry the selections of the URL, so cached and fresh data agree without the rule that
  nothing inside a sequence is prefetched; that rule is proved on its own in `Prefetch`.

## Model

| member | source | states |
|---|---|---|
| `CdfTree.MatchIsEquivalence` | libdap2/cdf.c:1231-1262 | simplenodematch, without the Columbia flag: same name, rank and kind, a grid counting as a structure, and for variables the same element type; an equivalence relation |
| `CdfTree.LinkedMutually` | libdap2/cdf.c:570-618 | in a linked shape every inner node is listed by its container, and every listed child points back |
| `Restruct.RestructR` | libdap2/cdf.c:482-545 | the recursive walk succeeds exactly when every node fits, and returns the repairs in order |
| `Restruct.FindStrayField` | libdap2/cdf.c:525-541 | the field found is at the first place of the first grid below the parent that holds a match within the coded bound; null exactly when no grid does |
| `Restruct.StructWrap` | libdap2/cdf.c:570-618 | the new virtual structure takes the node's place in the parent, holds just the node, and is recorded |
| `Restruct.RepairGrids` | libdap2/cdf.c:549-568 | applying the list leaves the pointers describing the wrapped shape, with one recorded structure per repair |
| `Restruct.Restruct` | libdap2/cdf.c:433-468 | success exactly when the tree was done before or fits; on success the tree that rewriting during the search gives, links intact, and the node list extended by the new structures in order; otherwise nothing changes |
| `Restruct.RestructuredEmbeds` | libdap2/cdf.c:433-618 | with dimensionless grids of atomic fields, the repaired tree embeds in the pattern: every node matches a child of its parent's match |
| `Restruct.RepairedTreeEmbeds` | libdap2/cdf.c:482-618 | the same for any list of siblings |
| `Restruct.DeferredEqualsImmediate` | libdap2/cdf.c:482-568 | applying the collected repairs one after the other gives the tree that searching and rewriting at once gives, with the same structures in the same order; both refuse the same trees |
| `Restruct.RestructuredKeeps` | libdap2/cdf.c:482-618 | the atomic leaves keep their preorder sequence |
| `Restruct.WrapKeepsLinks` | libdap2/cdf.c:570-618 | one repair keeps container and subnodes consistent on the whole tree |
| `Restruct.SecondWalkIsClean` | libdap2/cdf.c:482-545 | with distinct sibling names, a walk over the repaired tree finds nothing to repair |
| `Restruct.RestructTwice` | libdap2/cdf.c:433-469 | the same for the whole tree: a second restruct accepts and repairs nothing |
| `Placement.PlacedIff` | libdap2/cdf.c:482-545 | a tree is accepted if and only if every node matches the first sibling of its name in the pattern, with all that is below it, or a field of some grid beside it |
| `Placement.WrappedAtFirst` | libdap2/cdf.c:525-568 | exactly the nodes that do not match their namesake are wrapped, each in a structure named after the first grid with a matching field |
| `Placement.FindsFirstNamed` | libdap2/cdf.c:499-505 | the search by name ends at the first sibling of that name |
| `Placement.FindsFirstField` | libdap2/cdf.c:525-541 | the search of the grids ends at the first grid with a match and the first match in it |
| `Placement.PartIsAccepted` | libdap2/cdf.c:482-545 | with distinct sibling names, any part of the pattern in any order is accepted and left as it is |
| `Placement.WrappedLinks` | libdap2/cdf.c:570-618 | a wrapped node is the only child of its wrapper, which stands in its place |
| `RestructReach.AcceptsAllThatFitIff` | libdap2/cdf.c:525-541 | for every pattern: the coded bound accepts every tree that fits, if and only if every field of every grid is reached |
| `RestructReach.UnreachedIsRefused` | libdap2/cdf.c:525-541 | if some field is not reached, there is a tree that fits and is refused, and so is every tree of matching nodes in its shape |
| `RestructReach.WideReachesAll` | libdap2/cdf.c:525-541 | a pattern in which no grid has more fields than siblings reaches every field |
| `RestructReach.WideIsEnough` | libdap2/cdf.c:525-541 | on such patterns the bound makes no difference to the repairs |
| `RestructReach.CodedAcceptsLess` | libdap2/cdf.c:525-541 | the bound never makes restruct accept more |
| `RestructReach.LoneMapIsRefused` | libdap2/cdf.c:525-541 | a lone grid with an array and a map: any node matching the map, returned alone, is refused |
| `MapNodes.MapNodes` | libdap2/cdf.c:628-692 | NC_EINVAL exactly when the roots differ, a panic exactly when some child count is too large, otherwise the basenode of every node of the tree |
| `MapNodes.MapNodesR` | libdap2/cdf.c:642-704 | the assignments of the recursion, in order, or the failed assertion |
| `MapNodes.Unmap` | libdap2/cdf.c:710-719 | every basenode of the tree is cleared |
| `MapNodes.MappedTree` | libdap2/cdf.c:628-704 | in an embedded tree every node has a basenode of the same name, rank, kind (a grid for a structure) and, for a variable, element type, and basenode commutes with container |
| `MapNodes.LastMatchWins` | libdap2/cdf.c:654-674 | of several siblings that match a node, the last one stays its basenode; without any it has none |
| `MapNodes.PathsAgree` | libdap2/cdf.c:628-704 | the path of a node and that of its basenode carry the same names |
| `MapNodes.NeverPanics` | libdap2/cdf.c:676-677 | with distinct sibling names on both sides the child-count assertion always holds |
| `MapNodes.PanicsIffCrowded` | libdap2/cdf.c:676-677 | after the repairs the assertion fails if and only if the returned tree was crowded: more children than the namesake in the pattern, somewhere |
| `MapNodes.MapPanicsIffCrowded` | libdap2/ncd2dispatch.c:2140-2165 | the same for mapnodes after restruct on whole trees |
| `MapNodes.RestructThenMap` | libdap2/ncd2dispatch.c:2140-2165 | after restruct, mapnodes finds a twin for every node, synthesized structures included |
| `MapNodes.TwoStrayFieldsPanic` | libdap2/cdf.c:676-677 | two stray fields of one grid, as nodes of their own that match the pattern's: the repaired tree fails the assertion |
| `SequenceCheck.SequenceCheckR` | libdap2/cdf.c:342-384 | the result of the walk and both fields of every node below |
| `SequenceCheck.SequenceCheck` | libdap2/cdf.c:333-384 | usesequence is set exactly on usable sequences; every reached variable records its innermost sequence, other nodes keep their value |
| `SequenceCheck.MarkedIffUsable` | libdap2/cdf.c:342-384 | marked if and only if it and all ancestors are dimensionless, no ancestor is a sequence, and a variable below is reachable without crossing a sequence |
| `SequenceCheck.RecordsInnermost` | libdap2/cdf.c:350-373 | what is recorded is the last sequence on the path, or nothing if none |
| `SequenceCheck.UsableMeans` | libdap2/cdf.c:342-384 | usable, by the nodes on paths: a sequence, nothing of rank one or more down to it, no sequence above it, and a variable below it with no other sequence on the way |
| `SequenceCheck.ReachedMeans` | libdap2/cdf.c:348-350 | the walk reaches the end of a path if and only if each node of rank one or more on it has a sequence above it |
| `Dimsets.CloneDimset` | libdap2/cdf.c:766-795 | new, flagged, distinct clones owned by the variable, all recorded in the node list |
| `Dimsets.DefineDimsetTrans` | libdap2/cdf.c:851-925 | for every node reached: flagged clones of the container's list followed by exactly dimset0, with the sizes on the path from the root; the node list grows by exactly the clones |
| `Dimsets.DefineDimsets` | libdap2/cdf.c:797-973 | for every node reached: dimsetplus is dimset0, then the string dimension, then the sequence dimension, where there are such; dimsetall is flagged clones of the container's list followed by dimsetplus |
| `Dimsets.PassesCompared` | libdap2/cdf.c:797-877 | below nodes without pseudo-dimensions, dimsetall has the sizes of dimsettrans, then those of the node's own string and sequence dimensions |
| `Dimsets.AlongPath` | libdap2/cdf.c:824-877 | sizes are the root-to-node concatenation of the nodes' own sizes |
| `Dimsets.FromContainer` | libdap2/cdf.c:824-877 | inherited entries are clones of the container's entries, own entries are not cloned, every clone is recorded |
| `Dimsets.MadeLength` | libdap2/cdf.c:766-795 | how many clones a tree needs |
| `VarNodes.ComputeVarNodes` | libdap2/cdf.c:87-147 | the list is extended by the three groups in order |
| `VarNodes.OrderedIsPermutation` | libdap2/cdf.c:87-147 | every variable occurs as often as in the tree, except that with NCF_NCDAP grid maps that are not at top level are left out |
| `VarNodes.OrderedIsStable` | libdap2/cdf.c:87-147 | the order is by group and, within a group, that of the tree |
| `VarNodes.ListedAre` | libdap2/cdf.c:87-147 | each atomic node is listed as often as in the tree, but with NCF_NCDAP no field of a grid except its first; nothing else is |
| `VarNodes.ListedInOrder` | libdap2/cdf.c:87-147 | children of the dataset come first, then fields of grids, then the others, each in the order of the tree |
| `VarNodes.GridFields` | libdap2/daputil.c:572-599 | the first field of a grid is its array, and all others are its maps |
| `VarNames.Unify` | libdap2/cdf.c:276-308 | basevar becomes the next later variable with the same full name and sizes |
| `VarNames.VerifyUnique` | libdap2/cdf.c:310-321 | the final pass succeeds exactly when unmarked variables have different names |
| `VarNames.ComputeVarNames` | libdap2/cdf.c:276-321 | accepted in NC3 mode exactly when equal names come with equal sizes, otherwise exactly when all names differ |
| `VarNames.UnmarkedAreLast` | libdap2/cdf.c:276-308 | the unmarked variables are the last of their kind |
| `VarNames.LastNamesDifferIff` | libdap2/cdf.c:276-321 | the last of their kind have different names if and only if equal names come with equal sizes |
| `VarNames.BaseIsNextSame` | libdap2/cdf.c:276-308 | basevar, by names and dimension sizes of the variables themselves |
| `VarNames.AcceptedMeans` | libdap2/cdf.c:276-321 | the two conditions for acceptance, by names and dimension sizes of the variables themselves |
| `Slices.CountIsSelected` | libdap2/dceconstraints.c:194-204 | the count field is the number of positions selected |
| `Slices.IndicesAre` | libdap2/dceconstraints.c:185-210 | the positions of a slice are first, first + stride and so on, all of them up to last |
| `Slices.BuildSelects` | libdap2/constraints.c:418-430 | clamped or not, the slice selects exactly start + k*stride for k below count; last is clamped to the declared size, which stays |
| `Slices.ShiftSelects` | libdap2/constraints.c:803-813 | a shifted slice is [0:1:count-1] of the same declared size and selects the first count positions; shifting is idempotent |
| `Slices.ComposeSelects` | libdap2/dceconstraints.c:185-210 | a composition selects what the second slice picks from the selection of the first, and declares the larger size |
| `Slices.ComposeFails` | libdap2/dceconstraints.c:185-210 | composition fails if and only if it would select nothing |
| `Slices.WholeSelectsAll` | libdap2/dceconstraints.c:898-907 | a slice made whole selects every position of its dimension |
| `Slices.WholeMeansAll` | libdap2/dceconstraints.c:876-883 | the whole-slice test means every position is selected, both ways but for a size-1 dimension with a larger stride |
| `RowMajor.ReadAt` | libdap2/getvara.c:841-850 | element by element, a read is the row-major strided read |
| `RowMajor.LastMovesFastest` | libdap2/dapodom.c:101-112 | offsets are row-major: the last dimension moves fastest |
| `RowMajor.ReadOfRead` | libdap2/constraints.c:749-800 | reading from what was read is reading the composed selection |
| `Projections.BuildVaraProjection` | libdap2/constraints.c:385-448 | each segment gets the slices for its part of the flat argument arrays |
| `Projections.BuildRequest` | libdap2/constraints.c:385-448 | from the path of a variable and flat arguments to the slices of the request |
| `Projections.SegmentsLineUp` | libdap2/constraints.c:411-433 | concatenated, the segments' slices are those built from the flat arrays |
| `Projections.VaraReads` | libdap2/constraints.c:385-448 | element `at` of an access is the element at start + at*stride of the variable |
| `Projections.SlicesReadAt` | libdap2/getvara.c:841-850 | element `at` of what slices read is the element at first + at*stride |
| `Projections.InBoundsMeans` | libdap2/getvara.c:189-202 | an access is in bounds if and only if strides and counts are positive and every position asked for lies in its dimension |
| `Projections.ShiftProjection` | libdap2/constraints.c:815-841 | every slice of every segment is shifted, nothing else |
| `Projections.FetchThenShifted` | libdap2/constraints.c:802-841 | fetching with a projection and reading with its shifted form is the direct strided read, for any rank |
| `Projections.MergeSegment` | libdap2/dceconstraints.c:272-295 | common slices are composed, or left when that fails, extra ones copied, and the rank is the larger one |
| `Projections.MergeSelectsIff` | libdap2/dceconstraints.c:272-295 | a merged slice selects the composition if and only if the request starts inside the selection of the first |
| `Projections.MergedRead` | libdap2/constraints.c:755-800 | reading with merged projections is reading the request from what the URL selects |
| `Projections.Var2Projection` | libdap2/constraints.c:690-748 | one new segment per node of the path, with its name and a whole slice [0:1:n-1] for each dimension of the unconstrained size n |
| `PartialNames.CollectNodePath` | libdap2/daputil.c:347-357 | the nodes from the root, or from below the dataset, down to the node |
| `CdfTree.PathToIsPath` | libdap2/daputil.c:347-357 | the path down the shape is the chain of containers |
| `PartialNames.MatchSuffix` | libdap2/constraints.c:338-379 | true exactly when the names are those at the end of the path, and each rank that is given is that of its node, or for a sequence 1 or one more |
| `PartialNames.MatchPartialName` | libdap2/constraints.c:235-335 | what is found is a node of the list, no dataset or dimension, whose path ends with the names asked for; which one is what `Resolve` describes |
| `PartialNames.FoundMeans` | libdap2/constraints.c:235-379 | names and ranks of the segments against the end of the path of the node found |
| `PartialNames.UniqueNameIsFound` | libdap2/constraints.c:235-335 | a node of any kind but dataset and dimension whose name no other node has is found by that name |
| `PartialNames.FullNameMatches` | libdap2/constraints.c:235-335 | the full name of a node, without slices, is never without a match |
| `PartialNames.ResolvedIsShortest` | libdap2/constraints.c:235-335 | a resolved node has the segments as a suffix of its path, and no matching path is shorter |
| `PartialNames.UniqueShortestIsFound` | libdap2/constraints.c:235-335 | a candidate shorter than all others is found |
| `PartialNames.NoMatchIffNone` | libdap2/constraints.c:265-291 | no match is reported exactly when there is no candidate |
| `PartialNames.AmbiguousIff` | libdap2/constraints.c:296-323 | ambiguity is reported if and only if more than one candidate is shortest, not counting the first |
| `PartialNames.TwoWayTieIsAccepted` | libdap2/constraints.c:296-323 | a tie of two goes to the first |
| `PartialNames.CompleteSegments` | libdap2/constraints.c:178-200 | exactly the full path, annotated node by node, with the caller's segments as its end |
| `PartialNames.Qualify` | libdap2/constraints.c:54-136 | resolving and completing: names and annotations are those of the whole path below the dataset, node by node |
| `PartialNames.CompletedIsSuffixIff` | libdap2/constraints.c:178-379 | a path matches its own completed segments if and only if no added one is a sequence of rank 2 or more |
| `PartialNames.DeepSequenceIsUnmatched` | libdap2/constraints.c:178-379 | a node below a sequence of rank 2 or more does not match its completed segments |
| `PartialNames.ResolvesAgain` | libdap2/constraints.c:178-335 | otherwise resolving the completed segments again leads to the same names, or is ambiguous |
| `FixProjections.DapFixProjections` | libdap2/constraints.c:531-636 | what is left, in order: all function calls, and each first projection of a node that is atomic or a dimension; no container reaches the expansion loop |
| `FixProjections.FixedIsSublist` | libdap2/constraints.c:531-636 | the result is an order-preserving sublist |
| `FixProjections.FunctionsStay` | libdap2/constraints.c:543-622 | every function projection stays |
| `FixProjections.VariablesStay` | libdap2/constraints.c:543-590 | of the projections of a variable exactly the first stays, and only if it is a leaf |
| `FixProjections.CoveredIff` | libdap2/constraints.c:566-622 | something below a container is projected afterwards if and only if a node below it that is atomic or a dimension was before |
| `FixProjections.FixedTwice` | libdap2/constraints.c:531-636 | cleaning up twice changes nothing more |
| `Odometer.Dapodometer.FromSegment` | libdap2/dapodom.c:20-44 | starts at the first position of the slices |
| `Odometer.Dapodometer.More` | libdap2/dapodom.c:120-124 | true exactly while positions are left |
| `Odometer.Dapodometer.Next` | libdap2/dapodom.c:150-161 | one more position, in row-major order; false at the end |
| `Extract.SafeIndex` | libdap2/dceconstraints.c:974-986 | the leftmost place from which all slices are whole |
| `Extract.ChunkAt` | libdap2/getvara.c:821-833 | a chunk below the safe index is a contiguous run of the data |
| `Extract.ReadByOdometer` | libdap2/getvara.c:821-851 | chunk by chunk, the walk reads what the slices select |
| `Extract.ExtractData` | libdap2/getvara.c:745-880 | what is stored and how far the memory pointer moves, on every path |
| `FrontReads.FrontIsReadIff` | libdap2/getvara.c:870-876 | copying the front is right for all data if and only if the slices select a leading run |
| `Cache.NCcache.IsCached` | libdap2/cache.c:29-92 | the prefetch node, else the latest whole-variable node with the variable, which becomes the most recently used |
| `Cache.NCcache.Insert` | libdap2/cache.c:294-321 | drops nodes from the front, none too many, until the others leave room for the new one and are few enough, appends it, and keeps the size sum, the limits and the order of use |
| `Cache.NCcache.Trim` | libdap2/cache.c:294-315 | evicts from the least recently used end, and no more than needed |
| `Cache.LongestFitIsUnique` | libdap2/cache.c:294-315 | the limits and the new node determine what is evicted |
| `Cache.LongestFitMeans` | libdap2/cache.c:294-315 | the nodes kept leave room and are few enough, and with one more they would not |
| `Cache.HitIsUsable` | libdap2/cache.c:40-81 | a hit lists the variable and is the prefetch or a whole-variable node; a miss means there is none |
| `Cache.HitMoves` | libdap2/cache.c:40-86 | the prefetch answers first and nothing moves; otherwise the latest whole-variable node with the variable answers and goes to the end of the list |
| `Cache.MoveToEndKeepsOrder` | libdap2/cache.c:72-81 | a hit keeps the list ordered by last use |
| `Cache.InsertKeepsOrder` | libdap2/cache.c:294-321 | an insertion keeps the list ordered by last use |
| `Cache.LastUseIsLatest` | libdap2/cache.c:57-81 | last use is the greatest time of an insertion or hit |
| `Prefetch.DapInSequence` | libdap2/daputil.c:539-547 | true exactly for the dataset and for nodes with a sequence above them |
| `Prefetch.MarkPrefetch` | libdap2/cache.c:444-482 | exactly the atomic variables outside sequences whose element count is within the limit are marked, if prefetching is on |
| `Prefetch.TwinsShareSequences` | libdap2/cache.c:126-140 | lying in a sequence carries over between a node and its basenode |
| `Prefetch.PrefetchedOutsideSequences` | libdap2/cache.c:126-140 | a variable whose basenode is eligible is atomic and outside sequences in the constrained tree |
| `Prefetch.MarkedOutsideSequences` | libdap2/cache.c:126-140 | a variable whose basenode is marked is atomic and outside sequences in the constrained tree |
| `GetVara.DapClient.PrefetchData` | libdap2/cache.c:101-186 | the prefetch node lists exactly the variables marked through basenode that the URL does not project, and holds their full data; none, no node |
| `GetVara.DapClient.PrefetchHoldsNoRows` | libdap2/cache.c:126-140 | no variable taken into the prefetch lies in a sequence |
| `FieldIndex.FindField` | libdap2/getvara.c:707-716 | the first place of the field among the subnodes, or -1 |
| `FieldIndex.MoveToField` | libdap2/getvara.c:643-666 | an error exactly when the node is not listed; otherwise its index and depth, and for a virtual node its index plus that of the node inside it, one level further down |
| `FieldIndex.StepTakesReturnedField` | libdap2/getvara.c:643-666 | on any path of a repaired tree, the step to a node that was the i-th child of its container takes field i: for a wrapped node the index of the wrapper plus its index inside |
| `FieldIndex.RestructedTakesReturnedField` | libdap2/getvara.c:643-666 | so after restruct the walk reaches the fields that the server returned |
| `Selections.PositionAt` | libdap2/dapodom.c:150-161 | the k-th position of an odometer over all dimensions is the one whose digits have row-major offset k |
| `Selections.InsideIffSelects` | oc2/ocdata.c:132-134 | all positions are valid indices if and only if the slices fit the array |
| `Selections.ReadIsCatReads` | libdap2/getvara.c:533-553 | a read through all dimensions is, for each position of the first ones in order, a read through the others |
| `Selections.PositionsCross` | libdap2/getvara.c:533-553 | the positions of nested structures: for each of the outer ones, all of the inner ones |
| `MoveTo.MovingPointer` | libdap2/getvara.c:812-820 | with a pointer that moves, the pieces come to lie side by side |
| `MoveTo.StayingPointer` | libdap2/getvara.c:870-876 | with a pointer that stays, only the last piece is left |
| `MoveTo.InstanceAt` | oc2/ocdata.c:114-149 | the instance at an index, unless the index is beyond the array |
| `MoveTo.Movetor` | libdap2/getvara.c:478-612 | through any number of dimensioned and scalar containers: every instance's piece is put into memory in order, unless some index is beyond the response, which fails |
| `MoveTo.Moveto` | libdap2/getvara.c:448-476 | the same from the root of the response and the start of memory |
| `MoveTo.OutsSizes` | libdap2/getvara.c:533-553 | as many pieces as positions in the containers, all of one size, together of the size of the request |
| `MoveTo.CatOfOuts` | libdap2/getvara.c:533-553 | side by side, the pieces are what the slices select, converted |
| `MoveTo.WalkedLast` | libdap2/getvara.c:870-876 | without a moving pointer the last instance lies at the start and the rest of memory is as before |
| `MoveTo.WalkIff` | libdap2/getvara.c:478-880 | over all data and all earlier contents of memory, the walk leaves what is selected if and only if the pointer moves, or one instance is visited and its selection is a leading run |
| `GetVara.CheckArguments` | libdap2/getvara.c:189-202 | accepted exactly when every stride is at least 1 and every last position lies in its dimension |
| `Answers.RequestIsStridedRead` | libdap2/constraints.c:385-448 | accepted arguments make a valid request, which asks for the elements at start + at*stride of the visible variable |
| `Answers.VisibleAt` | libdap2/constraints.c:755-800 | element `at` of the visible variable is the element at first + at*stride of the URL's slices, or the same one if it is not projected |
| `Answers.MarksIff` | libdap2/cache.c:407-433 | a response counts as whole if and only if there are no selections and the request takes all of the visible variable, which the URL takes from 0 in steps of 1 |
| `Answers.RefusedIff` | libdap2/getvara.c:315-347 | with NCF_WHOLEVAR a request is refused if and only if its slices of the containers, merged with those of the URL, do not take the front |
| `Answers.TakesFrontMeans` | libdap2/dceconstraints.c:909-919 | taking the front, in terms of start, count, stride and the URL's slices |
| `Answers.UsableReads` | libdap2/cache.c:29-92 | data that may be cached gives the same elements as a direct read |
| `Answers.WholeFetchIsUsable` | libdap2/cache.c:407-433 | a fetch that passes the whole-variable test, of a part or of a whole field, can serve every later request |
| `Answers.RestrictReads` | libdap2/constraints.c:755-800 | the merged projection reads from the server what the request means |
| `Answers.ShiftedWalk` | libdap2/getvara.c:349-384 | the walk over a fetched part leaves all of it, or its last instance |
| `Answers.FieldWalk` | libdap2/getvara.c:315-347 | the walk over a fetched field leaves what is wanted, or the front of the last instance |
| `Answers.FieldWalkable` | libdap2/dceconstraints.c:909-919 | a fetched field is walked to the end if and only if the slices of the containers take the front without gaps |
| `Answers.SoundIff` | libdap2/getvara.c:270-415 | for each way of answering: right over all data and all earlier contents of memory if and only if the request is sound, a condition on its slices, the types and the settings |
| `Answers.SoundAnswer` | libdap2/getvara.c:270-415 | a sound request gets what it asks for, converted |
| `Answers.InstancesOverwrite` | ncdap_test/testdata3/synth3.dds:1-5 | asking for S1[0:1].v1[0:1] leaves S1[1].v1[0:1] in the first two places, and the other two as they were |
| `Answers.SecondInstanceIsRefused` | ncdap_test/testdata3/synth3.dds:1-5 | with NCF_WHOLEVAR, asking for S1[1].v1 is refused |
| `Answers.FrontIsAnswered` | libdap2/getvara.c:315-347 | a whole variable without containers, fetched under selections: the answer is its front |
| `Answers.WholeVarUnderSelectionsFails` | libdap2/getvara.c:315-347 | asking for the last element then gives the first one |
| `GetVara.DapClient.FetchPart` | libdap2/getvara.c:349-384 | fetch the part, cache it, walk it with the shifted request: the answer of that way |
| `GetVara.DapClient.FetchVar` | libdap2/getvara.c:315-347 | fetch the field in the requested instances, cache it, walk it with the request: the answer of that way, or none |
| `GetVara.DapClient.ReadCached` | libdap2/getvara.c:272-280 | a walk over a cached whole variable gives the answer |
| `GetVara.DapClient.GetVar` | libdap2/getvara.c:90-415 | refused when out of bounds; otherwise the answer of the way taken, which is the strided read for a sound request; without NCF_WHOLEVAR every request in bounds is answered |
| `GetVara.DapClient.ServedMeans` | libdap2/getvara.c:270-415 | what GetVar ensures, in full: a variable in the cache gets the strided read and nothing is fetched; otherwise the latest response is new, and holds the elements asked for, or with NCF_WHOLEVAR all of the field in the requested instances, answered if and only if these take the front |
| `GetVara.DapClient.Run` | libdap2/getvara.c:90-425 | over any run of requests and prefetches, each request gets the answer of a way that its arguments, the settings and the last prefetch allow |
| `GetVara.DapClient.AnsweredInRun` | libdap2/getvara.c:90-425 | at any place in a run, a request in bounds is answered without NCF_WHOLEVAR, and gets the strided read if the prefetch holds its variable |
| `GetVara.DapClient.LastPrefetchDecides` | libdap2/cache.c:101-186 | what the prefetch holds is decided by the last prefetch before |
| `GetVara.DapClient.TrustedInRun` | libdap2/getvara.c:90-425 | a request that is sound in every way allowed gets the strided read, whatever came before it |
| `VUtils.VString.SetLength` | include/netcdf_vutils.h:344-356 | the new length, with what both lengths have in common kept, nul-terminated |
| `VUtils.VString.Append` | include/netcdf_vutils.h:221-239 | appends across any number of expansions and stays nul-terminated with room to spare |
| `VUtils.VString.Insert` | include/netcdf_vutils.h:258-305 | inserts at a position up to the length |
| `VUtils.VString.Remove` | include/netcdf_vutils.h:309-330 | removes at a position up to the length |
| `VUtils.VString.InsertAndRemove` | include/netcdf_vutils.h:258-330 | inserting and removing a nonempty block restores the contents |
| `VUtils.InsertThenRemove` | include/netcdf_vutils.h:258-330 | the same law on sequences |
| `VUtils.VList.Push` | include/netcdf_vutils.h:94-128 | appends; over all pushes at most two elements are copied for each |
| `VUtils.VList.First` | include/netcdf_vutils.h:131-142 | takes the first element off |
| `Convert.DapConvert` | libdap2/dapcvt.c:36-217 | exactly the bytes of the converted elements, nothing else; an error exactly when there is an element and no arm, that is, for strings |
| `Convert.ConvertedElements` | libdap2/dapcvt.c:76-213 | element i is the source element wrapped to the new type |
| `Convert.ConvertedAt` | libdap2/dapcvt.c:76-213 | the same in bytes: where element i is read and written |
| `Convert.TypeRanges` | libdap2/daputil.c:138-155 | the range of each of the nine integer types, in both signednesses of char |
| `Convert.LowBytesFirst` | libdap2/dapcvt.c:76-213 | byte i of a value counts 256^i |
| `Convert.ConvertAndReturn` | libdap2/dapcvt.c:76-213 | converting a buffer to a type at least as wide and back restores every byte |
| `Convert.WrapInRange` | libdap2/dapcvt.c:76-82 | the result is in range and congruent modulo 2^width |
| `Convert.WrapIsUnique` | libdap2/dapcvt.c:76-82 | no other value is |
| `Convert.WidenAndReturn` | libdap2/dapcvt.c:76-213 | widening and returning is the identity |
| `Convert.BitsKept` | libdap2/dapcvt.c:76-213 | the low bytes are kept; same width keeps all bits |
| `Convert.Value.CvtInt2Int` | libdap2/dapcvt.c:398-429 | agrees with the arms of dapconvert that start from NC_INT64 |

## Left out

- Network and OC calls, allocation failure, freeing and logging: a fetch is a fixed function from a
  variable and slices to data, under the selections of the URL.
- The Columbia flag of simplenodematch, which makes it no equivalence.
- The unconstrainable case (FETCHWHOLE) of nc3d_getvarx and prefetchdata.
- String and sequence pseudo-dimensions in a request (removepseudodims, extractstring), and the walk
  through the records of sequences: `GetVara` handles atomic variables in structures and grids.
- MoveTo.Movetor: memory is a value with the place for the next element, not written in place, and
  what it holds after a failed walk is bounded but not described.
- MoveTo.Apply: a conversion is one function on elements; which types need one (conversionrequired)
  is a parameter.
- Restruct.Restruct: assumes a pattern whose nodes are not those of the tree; the embedding assumes
  DAP2's rule that grids have no dimensions of their own and atomic fields.
- Restruct.FindIn: is called only for a node that its container lists, so the -1 is not modelled.
- Dimsets.CloneDimset: the tree that records clones is a parameter, where the code finds it through
  the container of the dimension.
- VarNames.ComputeVarNames: takes the full names as already assigned; building them is not modelled.
- PartialNames.Qualify: handles one projection; the loop over all of them, which stops at the first
  error, and qualifyprojectionsizes are not modelled.
- FixProjections.DapFixProjections: takes the entries as different objects; slicematch, which only
  logs, is left out.
- GetVara.DapClient.GetVar: missing arguments are not filled in; the prefetch it starts when there is
  none yet is an operation of its own.
- Extract.ExtractData: works on elements, so sizes in bytes are counted in elements.
- Wrap-around of size_t arithmetic: integers are unbounded, and counts are at least 1.
- VUtils.VString.Insert: not for positions past the end, where the code moves a negative length; nor
  for strings set by vssetcontents, which cannot grow.
- vlistinsert and vlistremove, whose assertions and counts contradict each other.
- Convert.DapConvert: the floating-point arms; buffers do not overlap.
- The constraint parser, buildcdftree, name legalisation, attribute conversion and dapmerge.
- NClist itself: lists are sequences.
