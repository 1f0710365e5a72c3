# Idle, verified

Idle is a C++ component framework. A system is a tree of services: a service owns an ordered
list of parts, each part is an import or an export and owns an ordered list of child services,
and usages link an import to an export across the tree. This project models the parts of Idle
whose correctness cannot be read off one function, and proves it for every system, every input
or every run.

- **Walking the tree without a stack** (`ServiceTree`, `Walks`, `Traversal`, `Postorder`,
  `ClusterRanges`, `Iterators`). The iterators of `iterators.cpp` keep one service pointer and
  find the next one from parent and neighbour links. They are proved against the recursive
  preorder and postorder of the tree, with the exact conditions under which the postorder walk
  and `clusters(x)` end.
- **Dependency graphs** (`GraphModel`, `Enumeration`, `Vertices`, `Duality`, `EdgeWalks`,
  `EdgeDuality`, `NodeGraph`, `ServiceGraph`, `ClusterGraph`, `EdgeQuotients`,
  `OuterIterators`). Each node kind has separate code for first edge, next edge and degree, in
  both directions. The debug asserts of `init_graph` and the duality of the two directions are
  stated for what the code enumerates; where a weak-only or strong-only filter breaks one, the
  exact condition is proved.
- **Reference counting** (`RefCount`, `Handles`, `HandleRuns`). The control block as a step
  machine over any number of threads, and the handle operations as heap objects.
- **Sorted indexes** (`CombSort`, `FlatSets`, `EnumIndex`). Comb sort, binary search, the flat
  set and the enum name and value index built on them.
- **Store** (`Store`). Row locks, data and restarts of the key value store.
- **Properties** (`Values`, `ScopedKeys`, `Properties`). Merging objects into nested tables,
  dotted keys into them, and the generations published by reload and commit.
- **Guids** (`Guids`, `GuidLookup`). Allocation over init and destroy, packing, and lookup.
- **Source polish** (`Polish`, `PolishLaws`, `PolishSurvival`). The three rewriting passes, as
  methods and as functions.

`Sequences` holds the list vocabulary. `dafny verify dfyconfig.toml` checks everything.

## How the model reads the code

- A service is named by its path: the root, or a child of an owner at a part and an index. The
  parent pointer is the owner, neighbours are the next index or the next part. The root is the
  child of one of its own parts (`rootParent`).
- `WellLinked` is the well-formedness the source maintains: every usage is in the list of the
  one export and the one import that it names, and no list holds it twice.
- Graph flags are modelled in full. `Misstep` names the one situation where the code reads a
  usage list without its filter: `begin` on an import and `advance` from the last child take
  the first usage although its kind is filtered out (`lib/idle/core/graph.cpp:462-466` and
  `572-576`). `assert` only aborts in debug builds, so the model goes on as a release build does.
- `Properties::changed` is documented as a comparison with the previous generation
  (`include/idle/service/properties.hpp:67`). The code compares a commit behind a reload with
  what the reload replaced, and a reload behind a commit with the source that pushes went to.
  The model follows the code, `ComparedWithPredecessorIff` states when the two agree, and
  `CommitBehindReload` and `ReloadBehindCommit` are inputs where they do not.
- A start that fails leaves its empty source in place, which the next start asserts not to find
  (`lib/idle/service/properties.cpp:335`). The model starts again as a release build does.
- 32 bit counters (`RefCount`), 16 bit high guids and 40 bit low guids (`Guids`) wrap explicitly.
- The gap of comb sort is a `double` division in the source and a division of reals here, with
  the same constant, rounded down.
- Existing files, timers firing and file contents are parameters; SQLite tables are maps.

## Model

| member | source | states |
|---|---|---|
| `Iterators.NextChildOfParts` | lib/idle/core/iterators.cpp:39-59 | the loop over parts finds the first child in scope, skipping kinds that are not iterated |
| `Iterators.NextParentOrNeighbour` | lib/idle/core/iterators.cpp:82-94 | the climbing loop ends and finds what recursion over the owners finds |
| `ServiceTree.PreorderChain` | lib/idle/core/iterators.cpp:82-106 | for every service and iteration scope, repeated steps visit exactly the recursive preorder below it and then stand where next_parent_or_neighbour leads |
| `Traversal.ListingMember` | lib/idle/core/iterators.cpp:96-106 | the recursive preorder below a service contains exactly the services reachable through parts in scope |
| `Traversal.TransitiveServicesComplete` | lib/idle/core/iterators.cpp:108-115 | from the root the walk visits every service exactly once, in recursive preorder, and ends |
| `Iterators.TransitiveServices` | lib/idle/core/iterators.cpp:108-115 | iterating transitive_services(root) yields that list |
| `Iterators.TransitiveServiceIterator.Increment` | lib/idle/core/iterators.cpp:96-110 | one increment moves to the service behind the current one in the list of all services, or to the end |
| `Postorder.PostorderEndsExactly` | lib/idle/core/iterators.cpp:123-162 | the postorder walk ends if and only if no part behind the root's parent part has children; then it is the recursive postorder, a permutation of all services; otherwise it re-enters a visited service for ever |
| `Iterators.PostorderServiceIterator.Increment` | lib/idle/core/iterators.cpp:123-146 | one increment, with its descent loop, is the postorder successor |
| `Iterators.PostorderServices` | lib/idle/core/iterators.cpp:148-162 | under that condition iterating yields the recursive postorder |
| `Iterators.ClusterHeadOf` | lib/idle/core/detail/service_impl.cpp:85-92 | the last of the cluster parents is what climbing while the parent is an import reaches |
| `Traversal.ClusterMembersRange` | lib/idle/core/iterators.cpp:164-175 | from a head, the range visits exactly the services with that head, once each, and meets its precomputed end directly behind the last and never before |
| `Traversal.ClusterMembersSuffix` | lib/idle/core/iterators.cpp:168-175 | from any member, the range is the matching suffix of its cluster's members |
| `Iterators.ClusterMembers` | lib/idle/core/iterators.cpp:164-175 | iterating cluster_members(x) yields that suffix and stops at the sentinel |
| `Traversal.ClustersComplete` | lib/idle/core/iterators.cpp:181-196 | clusters(root) visits every cluster head exactly once and ends |
| `Iterators.Clusters` | lib/idle/core/iterators.cpp:181-196 | iterating clusters(root), with the skipping loop, yields the heads |
| `ClusterRanges.ClustersEndExactly` | lib/idle/core/iterators.cpp:181-196 | for every service x, clusters(x) reaches its end if and only if that end is a cluster head or does not exist; then it visits x and exactly the heads below it, and the end is none of them |
| `Traversal.ClusterPartition` | lib/idle/core/iterators.cpp:164-196 | the members of all clusters, head by head, are a permutation of all services without repetition |
| `Enumeration.NodeEnumeration` | lib/idle/core/graph.cpp:307-706 | for every node kind, direction and flag set, begin and advance visit a list written without them: neighbours by tree position, then the usages, with at most one usage too many |
| `Enumeration.DegreeIsDeclared` | lib/idle/core/graph.cpp:354-706 | degree counts the declared neighbours, for every flag set |
| `Enumeration.EnumerationMeetsDegree` | lib/idle/core/graph.cpp:453-469 | the number of edges visited equals the degree if and only if the node does not read its usage list unfiltered |
| `Enumeration.UniformFlagsNeverMisstep` | include/idle/core/graph.hpp:94-101 | with both usage kinds kept or both filtered, that never happens |
| `NodeGraph.PartialFilterBreaksDegree` | lib/idle/core/graph.cpp:462-466 | a concrete system and strong-only filter where the enumeration and the degree of an import differ |
| `NodeGraph.PartialFilterBreaksDuality` | lib/idle/core/graph.cpp:462-466 | on that system the enumerated out-edges and in-edges are not the same |
| `Vertices.VerticesComplete` | lib/idle/core/graph.cpp:141-201 | node_iterator visits every service, part and usage exactly once and ends |
| `NodeGraph.NodeIterator.Increment` | lib/idle/core/graph.cpp:149-201 | one increment moves to the vertex behind the current one in the list of all vertices, or to the end |
| `Duality.DeclaredMember` | lib/idle/core/graph.cpp:307-706 | a node is a declared neighbour exactly if a link relation holds that is written once for both directions, on the bits of the flags and the fields of the tree and the usages |
| `EdgeDuality.VisitedSplit` | lib/idle/core/graph.cpp:307-706 | a node enumerates its declared neighbours, each once, and at most one stray: a usage read without its filter |
| `EdgeDuality.VisitedCount` | lib/idle/core/graph.cpp:307-706 | every enumeration lists a node once if that relation holds or it is the stray, and otherwise not at all |
| `EdgeDuality.NoFilterLinks` | include/idle/core/graph.hpp:74-101 | with the default flags every parent, part and usage link of the system is enumerated exactly once from either end, and nothing else |
| `EdgeDuality.EdgesOnce` | lib/idle/core/graph.cpp:893-907 | over different vertices no edge is enumerated twice |
| `EdgeDuality.EdgeSeenFromBothEnds` | lib/idle/core/graph.cpp:307-706 | for every flag set, an edge is enumerated at most once from its source and at most once from its target, and from both or neither if and only if it is a stray of neither |
| `EdgeDuality.InOutDuality` | lib/idle/core/graph.cpp:877-911 | over all vertices the enumerated out-edges and in-edges are the same edges if and only if no vertex reads its usage list unfiltered, so always with uniform usage flags |
| `EdgeDuality.DegreesAndEdges` | lib/idle/core/graph.cpp:822-843 | for every flag set in-degrees and out-degrees have the same sum, and edges() has that many edges, none twice, plus one for each stray |
| `EdgeWalks.NodeEdgesWalk` | lib/idle/core/graph.cpp:707-731 | first_edge_of and advance_edge walk the edges of one node |
| `EdgeWalks.EdgesWalk` | lib/idle/core/graph.cpp:733-784 | advancing, or jumping to the next node with an edge, walks the edges of a list of nodes one after the other |
| `EdgeWalks.MisstepsCount` | lib/idle/core/graph.cpp:733-742 | the edges visited over a list of nodes are the declared ones plus one for each unfiltered read |
| `NodeGraph.FirstEdgeInRange` | lib/idle/core/graph.cpp:733-742 | the search loop finds the first edge of the nodes ahead |
| `NodeGraph.EdgeIterator.Increment` | lib/idle/core/graph.cpp:767-784 | one increment moves to the next edge in the order of all vertices |
| `NodeGraph.Edges` | lib/idle/core/graph.cpp:881-891 | iterating edges(graph) lists the out-edges of all vertices in vertex order |
| `NodeGraph.InitGraph` | lib/idle/core/graph.cpp:808-845 | the counters of init_graph: the three totals agree for every flag set, and each assert that compares an enumeration with a degree holds exactly if no node reads unfiltered, so always with uniform usage flags |
| `ServiceGraph.InnerNodesWalk` | lib/idle/core/graph.cpp:917-969 | inner_nodes visits a service, its imports, its exports, and ends |
| `ServiceGraph.OuterEdgesWalk` | lib/idle/core/graph.cpp:971-1023 | the outer edge iterators walk the edges of a list of services |
| `OuterIterators.AdvanceOuterEdge` | lib/idle/core/graph.cpp:991-1006 | the next edge at the same service, searching the remaining inner nodes |
| `OuterIterators.FirstOuterEdgeInRange` | lib/idle/core/graph.cpp:980-989 | the loop over services finds the first edge ahead |
| `OuterIterators.ServiceEdgeIterator.Increment` | lib/idle/core/graph.cpp:1010-1023 | one increment moves to the next edge over all services |
| `OuterIterators.DegreeOfService` | lib/idle/core/graph.cpp:1111-1138 | the counting loop sums the degrees of the inner nodes |
| `EdgeQuotients.CrossPermutes` | lib/idle/core/graph.cpp:1052-1094 | replacing each export-to-usage edge by the usage-to-import edge turns the enumerated out-edges of all services into a permutation of the enumerated in-edges, exactly if it does so with the strays |
| `ServiceGraph.ProjectedEnds` | lib/idle/core/graph.cpp:1052-1094 | source and target of every linked edge: a child and the owner of its import, the owner of an export and its child, a service and itself for the edges inside it, and for a usage, from either half, the owner of what is used and the owner of what uses it |
| `EdgeQuotients.ServiceQuotient` | lib/idle/core/graph.cpp:1043-1138 | for every flag set, the enumerated out-edges and in-edges project through source and target to the same multiset of service pairs if and only if both halves of a usage are kept, or neither, or no usage passes the filter, and the strays of the two directions project to the same pairs; uniform usage flags have no strays |
| `ServiceGraph.NearEndIsService` | lib/idle/core/graph.cpp:1052-1094 | every out-edge enumerated at a service has it as source, every in-edge as target |
| `ServiceGraph.ServiceDegreeExactly` | lib/idle/core/graph.cpp:822-832 | the edges enumerated at a service, in either direction, are as many as its degree if and only if none of its inner nodes reads unfiltered |
| `ServiceGraph.ServiceGraphTotals` | lib/idle/core/graph.cpp:808-845 | for the service graph, in-degrees and out-degrees have the same sum if and only if both halves of a usage are kept, or neither, or no usage passes the filter; edges() has as many edges if and only if no node reads unfiltered |
| `OuterIterators.ClusterEdgeIterator.Increment` | lib/idle/core/graph.cpp:1161-1190 | one increment moves to the next edge of the cluster that the edge starts in |
| `OuterIterators.DegreeOfCluster` | lib/idle/core/graph.cpp:1273-1311 | the nested counting loops sum the degrees over the cluster's members |
| `ClusterGraph.ClusterEdgesWalk` | lib/idle/core/graph.cpp:1161-1190 | the cluster edge iterators visit the edges of each member in turn and end |
| `ClusterGraph.ClusterEdgesPermuteServiceEdges` | lib/idle/core/graph.cpp:1251-1271 | the edges collected cluster by cluster are a permutation of edges(), which walks services instead |
| `ClusterGraph.ClusterDegreeSums` | lib/idle/core/graph.cpp:1273-1311 | degrees summed over the cluster heads equal degrees summed over all services |
| `ClusterGraph.ClusterDegreeExactly` | lib/idle/core/graph.cpp:822-832 | the edges enumerated at a cluster, in either direction, are as many as its degree if and only if no inner node of a member reads unfiltered |
| `ClusterGraph.ClusterGraphTotals` | lib/idle/core/graph.cpp:808-845 | the same exact conditions for the sums over the cluster heads, against each other and against edges(), which walks services |
| `EdgeQuotients.ClusterQuotient` | lib/idle/core/graph.cpp:1207-1311 | the edges enumerated cluster by cluster in the two directions project to the same multiset of pairs of cluster heads under the same exact condition |
| `ClusterGraph.NearEndIsHead` | lib/idle/core/graph.cpp:1207-1249 | every edge enumerated at a cluster projects to its head at the near end |
| `RefCount.StepKeepsInv` | include/idle/core/detail/ref_base.hpp:554-606 | every atomic operation of every thread keeps the invariant that ties counters, handles, pending releases and callbacks |
| `RefCount.SafeOverEveryRun` | include/idle/core/detail/ref_base.hpp:538-618 | over every interleaving: strong counts strong handles, weak counts weak handles plus one until the last strong release is done, on_destruct at most once and only without strong handles, on_deallocate at most once, after it, and only without any handle |
| `RefCount.StrongStaysZero` | include/idle/core/detail/ref_base.hpp:562-575 | a strong count of zero stays zero over every continuation |
| `RefCount.NothingTouchedAfterFree` | include/idle/core/detail/ref_base.hpp:579-606 | after on_deallocate no step is possible, and each callback happens in its one place |
| `RefCount.ThreadsFrame` | include/idle/core/detail/ref_base.hpp:554-606 | a step changes no other thread |
| `RefCount.HandlesFrame` | include/idle/core/detail/ref_base.hpp:554-606 | a step changes no handle but the one it names, and logs only its own callback |
| `RefCount.LockBegins` | include/idle/core/detail/ref_base.hpp:562-575 | a lock goes on to the compare-exchange exactly if a strong handle exists, with the count it saw, and otherwise changes nothing |
| `RefCount.CompareExchangeOutcome` | include/idle/core/detail/ref_base.hpp:564-570 | every outcome of the compare-exchange: a counted handle if the count is as it was seen, failure without strong handles, and otherwise another round |
| `RefCount.UndisturbedLock` | include/idle/core/detail/ref_base.hpp:562-575 | over every run, a lock that nobody disturbs takes two steps and yields a handle exactly if a strong one existed |
| `RefCount.LockSucceedsIffStrongExists` | include/idle/core/detail/ref_base.hpp:562-575 | the compare-exchange that decides a lock yields a strong handle exactly if one existed at that moment |
| `RefCount.LastRelease` | include/idle/core/detail/ref_base.hpp:579-606 | releasing the last strong handle, step by step: destruction, the weak count given back, and the block freed if no weak handle is left |
| `RefCount.OtherRelease` | include/idle/core/detail/ref_base.hpp:579-606 | any other release of either kind gives one count back and does nothing else |
| `RefCount.NothingLeaks` | include/idle/core/detail/ref_base.hpp:579-606 | with all handles gone and all threads done, both callbacks have happened |
| `RefCount.ReleaseNeverStuck` | include/idle/core/detail/ref_base.hpp:579-606 | without handles, some thread can always take the next step towards freeing the block |
| `RefCount.WrapBreaksTheCount` | include/idle/core/detail/ref_base.hpp:616-617 | the bound of 2^32 - 1 handles is exact: copying a live handle once more makes the counter read zero |
| `Handles.ReassignedBalance` | include/idle/core/detail/ref_base.hpp:89-97 | assigning a block keeps every counter equal to the handles that point at it if and only if it is not the self-assignment of the handle that holds the last count |
| `Handles.Handle.Assign` | include/idle/core/detail/ref_base.hpp:89-97 | the same for the method that releases first and acquires then |
| `Handles.Handle.CopyFrom` | include/idle/core/detail/ref_base.hpp:73-76 | copy assignment, also to a weak handle from a strong one, points both at one block and keeps the balance if and only if it is not the self-assignment of a handle that holds the last count |
| `Handles.Handle.MoveFrom` | include/idle/core/detail/ref_base.hpp:77-83 | move assignment hands the block over, empties the source and keeps the balance |
| `Handles.Handle.Swap` | include/idle/core/detail/ref_base.hpp:133-139 | swap exchanges the two blocks, also of a handle with itself, and changes no counter |
| `Handles.Handle.Reset` | include/idle/core/detail/ref_base.hpp:99-103 | reset and destruction release the count and keep the balance |
| `Handles.Handle.Duplicate` | include/idle/core/detail/ref_base.hpp:57-65 | copy construction yields a counted handle on the same block |
| `Handles.Handle.Lock` | include/idle/core/detail/ref_base.hpp:158-164 | a weak lock yields a strong handle on the block exactly if a strong handle points at it |
| `HandleRuns.Program.Run` | include/idle/core/detail/ref_base.hpp:48-169 | over every sequence of these operations, each counter of each block is the number of handles that point at it |
| `CombSort.Sort` | include/idle/core/detail/algorithm.hpp:49-78 | ends, with a sorted permutation, for every strict order and pairwise distinct keys |
| `CombSort.SwapRemovesInversion` | include/idle/core/detail/algorithm.hpp:70-75 | exchanging an inverted pair at any distance strictly lowers the number of inversions |
| `CombSort.PassProgress` | include/idle/core/detail/algorithm.hpp:66-76 | a pass at any gap over distinct keys lowers the number of inversions if it exchanges anything and never raises it |
| `CombSort.GapShrinks` | include/idle/core/detail/algorithm.hpp:59-62 | a gap of two or more gets smaller and never becomes zero |
| `CombSort.EndsIffDistinct` | include/idle/core/detail/algorithm.hpp:54-77 | the outer loop comes to an end if and only if no two keys are equal; with equal keys it goes on after any number of rounds |
| `CombSort.ShrinkGapMeans` | include/idle/core/detail/algorithm.hpp:61 | the new gap is the old one divided by 1.247330950103979, rounded down |
| `FlatSets.LowerBound` | include/idle/core/util/algorithm.hpp:41-59 | the binary search finds the boundary of a partitioned range |
| `FlatSets.FindFirst` | include/idle/core/util/algorithm.hpp:62-72 | finds an element that is neither before nor behind the value, or proves that there is none |
| `FlatSets.ByKeyIsStrictWeak` | include/idle/core/util/flat_set.hpp:36-48 | comparing by a key is an order that the set accepts |
| `FlatSets.FlatSet.Insert` | include/idle/core/util/flat_set.hpp:95-112 | for every strict weak order: the value is added exactly if no equivalent one is there, the order stays strict, and the flag and position tell which |
| `FlatSets.FlatSet.Erase` | include/idle/core/util/flat_set.hpp:133-144 | exactly the equivalent element goes, and the count tells whether there was one |
| `FlatSets.FlatSet.Find` | include/idle/core/util/flat_set.hpp:122-127 | finds the position of an equivalent element exactly if there is one |
| `FlatSets.FlatSet.Contains` | include/idle/core/util/flat_set.hpp:146-149 | tells whether an equivalent element is there |
| `EnumIndex.InfoOf` | include/idle/core/detail/enumerate_impl.hpp:94-116 | the counts are the sizes of the entries and the packed characters, and the continuity flag is set exactly if no enumerator follows a gap at a non-negative value |
| `EnumIndex.Expand` | include/idle/core/detail/enumerate_impl.hpp:118-157 | the filled arrays are the packed names with terminators and one entry for each present enumerator |
| `EnumIndex.NameRecovered` | include/idle/core/detail/enumerate_impl.hpp:130-153 | each offset and length stays inside the character array, yields exactly the transformed name of its enumerator and is followed by a line feed; the array ends with a null |
| `EnumIndex.DenseIff` | include/idle/core/detail/enumerate_impl.hpp:155-156 | an enum is dense exactly if it starts at zero and its enumerators are the first positions |
| `EnumIndex.ExpandedDistinct` | include/idle/core/util/enum_map.hpp:70-110 | different enumerators give an enum whose names and values can be indexed |
| `EnumIndex.DenseValues` | include/idle/core/detail/enumerate_impl.hpp:155-156 | in a dense enum entry k holds the value of index k |
| `EnumIndex.StringOrder` | include/idle/core/util/string_view.hpp:106-121 | the comparison of string views is a strict total order |
| `EnumIndex.StringLessMeans` | include/idle/core/util/string_view.hpp:106-121 | a shorter string comes first, and among equally long ones the first differing character decides |
| `EnumIndex.NameIndex` | include/idle/core/util/enum_map.hpp:101-110 | the index list is a permutation of all indexes sorted by name |
| `EnumIndex.ValueIndex` | include/idle/core/util/enum_map.hpp:70-81 | for a sparse enum, a permutation of all indexes sorted by value |
| `EnumIndex.Find` | include/idle/core/util/enum_map.hpp:164-179 | returns an index exactly if an enumerator has that name, and then that enumerator's |
| `EnumIndex.FoundIffEnumerator` | include/idle/core/util/enum_map.hpp:164-179 | a name is found exactly if it is the transformed name of an enumerator, and then at that one |
| `EnumIndex.SparseName` | include/idle/core/util/enum_map.hpp:130-142 | the name of the enumerator with that value |
| `EnumIndex.FindInvertsName` | include/idle/core/util/enum_map.hpp:164-179 | finding the name of an enumerator gives its index back |
| `EnumIndex.DenseLookupExactly` | include/idle/core/util/enum_map.hpp:122-126 | the direct lookup agrees with the sorted one on every value if and only if the trait maps each index to itself |
| `EnumIndex.MaskMissesFirst` | include/idle/core/util/enumerate.hpp:88-103 | with enum_mask the direct lookup misses the first enumerator |
| `Store.DefaultStore.AcquireLocked` | lib/idle/service/store.cpp:310-327 | the unbounded loop ends within two rounds, with the lowest free row of the key or a new row |
| `Store.DefaultStore.TryLock` | lib/idle/service/store.cpp:291-308 | locks the lowest free row of the key, or nothing if there is none |
| `Store.DefaultStore.CreateKeyWithName` | lib/idle/service/store.cpp:262-288 | the key of the name, new only if the name is new |
| `Store.DefaultStore.Get` | lib/idle/service/store.cpp:329-355 | the acquired id and the data of its row |
| `Store.DefaultStore.Update` | lib/idle/service/store.cpp:357-369 | overwrites the data of the row and nothing else |
| `Store.DefaultStore.Set` | lib/idle/service/store.cpp:371-397 | overwrites the data of the row and unlocks it |
| `Store.DefaultStore.Start` | lib/idle/service/store.cpp:73-97 | a restart forgets all locks and keeps all rows |
| `Store.RunKeepsNames` | lib/idle/service/store.cpp:99-105 | over every run, restarts included, a name keeps its key |
| `Store.GetsShareRows` | lib/idle/service/store.cpp:107-126 | over every run, the rows of a name are those that its gets handed out; the next get hands out one of them exactly if one is not held |
| `Store.GetIsExclusive` | lib/idle/service/store.cpp:107-114 | over every run, a get never hands out a row that somebody holds; a restart ends all holding |
| `Store.KeptIdHandedOutTwice` | lib/idle/service/store.cpp:94 | after a restart the next get of a key hands out its lowest row, so an id kept over the restart names the same row as a new one |
| `Store.GetHandsOutLastWrite` | lib/idle/service/store.cpp:329-397 | over every run, a get hands out the data that the run last wrote to that row, and none if it never did |
| `Store.GetReadsBackLastWrite` | lib/idle/service/store.cpp:329-397 | by name, over every run and restart: a name that never had two holders at a time always gets the same row and reads back the last value written through any id that its gets handed out, and nothing if none was |
| `Store.RowsEqualPeak` | lib/idle/service/store.cpp:310-327 | over every run, a name has as many rows as were ever held at the same time for it |
| `ScopedKeys.SegmentsOfDotted` | include/idle/core/util/span.hpp:216-228 | splitting at dots undoes joining with dots |
| `ScopedKeys.SegmentsStopAtEmpty` | lib/idle/service/properties.cpp:203-205 | an empty segment ends the path, whatever follows |
| `ScopedKeys.AdvanceScope` | lib/idle/service/properties.cpp:214-229 | the const walk is the lookup along the segments of the key |
| `ScopedKeys.OpenScope` | lib/idle/service/properties.cpp:200-213 | the mutable walk, as a loop that leaves a reference into the root, opens exactly the path of the key, and writing through the reference is storing at the key |
| `ScopedKeys.SameNode` | lib/idle/service/properties.cpp:200-229 | whatever is assigned through such a reference, the const walk along its path finds that node |
| `ScopedKeys.OpenedFound` | lib/idle/service/properties.cpp:200-213 | after the mutable walk the const walk finds a node on that path, a table, and the same one if it was a table before |
| `ScopedKeys.OpenedFrame` | lib/idle/service/properties.cpp:200-213 | the mutable walk leaves every incomparable path as it was, even where scalars become tables |
| `ScopedKeys.OpenedTwice` | lib/idle/service/properties.cpp:200-213 | repeating the mutable walk changes nothing |
| `ScopedKeys.OpenedUnchangedIff` | lib/idle/service/properties.cpp:200-213 | the mutable walk changes nothing if and only if the path leads to a table already, or is empty |
| `Values.WriteUnchangedIff` | lib/idle/service/external/toml11/serialize.cpp:40-150 | writing an object merges it: it changes nothing if and only if the value holds every field and element of the object already |
| `Values.UntouchedIff` | lib/idle/service/external/toml11/serialize.cpp:81-92 | a path reads the same after every write of an object if and only if no part of the object is written at it, above it or below it |
| `Values.CollapsesIff` | lib/idle/service/external/toml11/serialize.cpp:47-131 | for every two objects, writing both amounts to writing the last one, whatever was there, if and only if the last one covers the first |
| `ScopedKeys.StoredReadsBack` | lib/idle/service/properties.cpp:156-171 | every field of an object, at any depth, reads back below the key it was written to |
| `ScopedKeys.StoredFrame` | lib/idle/service/properties.cpp:156-162 | writing a key leaves every incomparable key as it was |
| `ScopedKeys.StoredKeepsRest` | lib/idle/service/properties.cpp:156-162 | below the key, everything that the object does not name keeps its value |
| `ScopedKeys.LastWriteWinsIff` | lib/idle/service/properties.cpp:156-162 | two writes to a key amount to the last one, whatever the configuration holds, if and only if the last object covers the first |
| `ScopedKeys.StoredUnchangedIff` | lib/idle/service/properties.cpp:156-162 | a write changes nothing if and only if the key leads to a table that holds the object already |
| `ScopedKeys.StoredKeepsRoot` | lib/idle/service/properties.cpp:156-162 | writing keeps the root of a configuration a table, or empty |
| `Properties.Source.Serialize` | lib/idle/service/properties.cpp:156-162 | opening the scope in place and writing through the reference is the recursive merge at the key |
| `Properties.Source.Clone` | lib/idle/service/properties.cpp:173-175 | a new source with the same value |
| `Properties.Generation.Changed` | lib/idle/service/properties.cpp:181-197 | true exactly if the two sources differ at the key, absence included |
| `Properties.ReloadableProperties.Push` | lib/idle/service/properties.cpp:285-301 | merges the object into the current source and schedules a commit exactly if none is pending |
| `Properties.ReloadableProperties.Commit` | lib/idle/service/properties.cpp:484-501 | publishes a fresh clone of the current source under the next number, with no commit pending afterwards |
| `Properties.ReloadableProperties.ReadFromFile` | lib/idle/service/properties.cpp:441-462 | publishes the new current source itself under the next number, or changes nothing if the file cannot be opened |
| `Properties.ReloadableProperties.OnFileChanged` | lib/idle/service/properties.cpp:384-401 | ignores exactly one change after a write back, otherwise reloads; behind a commit the reload is compared with the source pushes went to, which holds the committed values exactly if the pushes since left them, so in particular without a push |
| `Properties.ReloadableProperties.CreateGeneration` | lib/idle/service/properties.cpp:404-439 | generation numbers go up by one |
| `Properties.ReloadableProperties.Start` | lib/idle/service/properties.cpp:332-354 | starts with a fresh source and generation zero, or fails if the file cannot be opened and leaves an empty source behind |
| `Properties.ReloadableProperties.Stop` | lib/idle/service/properties.cpp:356-372 | drops the epoch, both sources and the pending commit; published generations remain |
| `Properties.ReloadableProperties.Run` | lib/idle/service/properties.cpp:285-501 | over every run of start, push, timer, file change and stop: a commit is pending iff there are changes, at most one, numbers are consecutive from each start, nothing published is withdrawn, and neither side of a comparison changes again, except the data of the one generation that shares the current source |
| `Properties.ComparedWithPredecessorIff` | lib/idle/service/properties.cpp:441-501 | every generation is compared with the data of its predecessor if and only if both came from a commit or both from the file; otherwise with what the reload replaced, or with the source that was being written |
| `Properties.CommitBehindReload` | lib/idle/service/properties.cpp:492-495 | an input where a commit reports a key as changed that has the value of the generation before |
| `Properties.ReloadBehindCommit` | lib/idle/service/properties.cpp:456-461 | an input where a reload does not report a key that differs from the generation before |
| `Guids.UnpackPack` | include/idle/core/guid.hpp:93-96 | fromValue undoes value on every guid, inside 64 bits |
| `Guids.PackUnpack` | include/idle/core/guid.hpp:132-135 | value undoes fromValue on every 64 bit value |
| `Guids.Layout` | include/idle/core/guid.hpp:132-135 | where the fields lie: the low guid in the lowest 40 bits, the high guid in the next 16, the ordinal in the topmost 8 |
| `Guids.IdRecycler.Allocate` | lib/idle/core/detail/context/context_impl.cpp:135-145 | the greatest recycled id, or else the counter, and never an id in use; the counter cannot overflow while one of the ids below 2^40 - 1 is free |
| `Guids.IdRecycler.Recycle` | lib/idle/core/detail/context/context_impl.cpp:147-158 | exactly this id stops being in use, however far the counter shrinks |
| `Guids.StepKeepsInv` | lib/idle/core/service.cpp:266-294 | init of a head, init of a member and destroy keep low guids unique over clusters and high guids unique inside them |
| `Guids.GuidsInjective` | lib/idle/core/guid.cpp:37-44 | in every such state different live services and parts have different guids |
| `Guids.GuidFields` | lib/idle/core/guid.cpp:37-44 | the low part is the one under which the registry holds the cluster head, the high part the one that init handed out, the parts of a service have the ordinals one, two, three and so on, and every field fits its bits |
| `Guids.PartOffset` | lib/idle/core/service.cpp:153-159 | counting from the front of the part list gives the index plus one |
| `Guids.GuidOfPart` | lib/idle/core/guid.cpp:41-44 | the guid of a part is put together from its owner and the counted offset |
| `Guids.StepKeepsGuids` | lib/idle/core/service.cpp:266-415 | while a service lives, its guid and those of its parts stay as they are |
| `Guids.HighsCountInits` | lib/idle/core/service.cpp:280-293 | over every run, the next member of a cluster gets one more than the number of members initialized since its head was |
| `Guids.OwnerAndCluster` | lib/idle/core/guid.cpp:37-44 | the owner and cluster of a guid are the guids of the owning service and of its live cluster head |
| `Guids.GuidsUniqueOverEveryRun` | lib/idle/core/service.cpp:266-415 | over every run of inits and destroys with fewer than 2^16 inits in a cluster and fewer than 255 parts in a service, Guid::of is injective on everything alive |
| `Guids.LowRecycledAfterMembers` | lib/idle/core/service.cpp:389-395 | over every run, when a low guid is recycled no member of its cluster is alive |
| `Guids.HighWrapCollides` | lib/idle/core/service.cpp:266-268 | the bound on inits is exact: the next member after 2^16 - 1 collides with its head |
| `Guids.Context.InitSelf` | lib/idle/core/service.cpp:276-294 | a member takes the next high guid of its cluster, a head an unused low guid under which it is registered |
| `Guids.Context.Destroy` | lib/idle/core/service.cpp:336-415 | destroys exactly the live services at and below the given one, children first, recycles their low guids, and leaves all other guids as they were |
| `GuidLookup.Lookup` | lib/idle/core/detail/context/context_impl.cpp:79-103 | finds the live service with the guid exactly if there is one; part guids find nothing; the tree may hold services that are not alive outside the searched cluster |
| `Polish.FindFirstInLines` | tools/polish/main.cpp:600-621 | the search loop, with and without stopping at the first text, finds what the recursive search finds |
| `Polish.FindMeans` | tools/polish/main.cpp:600-621 | that search finds the first line whose first text is the given one, or none has it |
| `PolishLaws.StrippedMeans` | tools/polish/main.cpp:606 | only blanks are skipped in front of a text, and all of them |
| `PolishLaws.TrimMeans` | tools/polish/main.cpp:683-689 | trimming removes all white space at both ends and nothing else |
| `Polish.Document.ApplyLicense` | tools/polish/main.cpp:665-730 | the license pass in place computes the pass function and its verdict |
| `Polish.Document.ApplyGuard` | tools/polish/main.cpp:732-809 | the include guard pass in place computes the pass function and its verdict |
| `PolishLaws.GuardPassWrites` | tools/polish/main.cpp:760-808 | the text that the guard pass writes: a file without guards is wrapped in `#ifndef`, `#define` and `#endif` of the name, behind its leading comment if it has one; otherwise exactly the three found lines are replaced by them |
| `PolishLaws.GuardPassGuards` | tools/polish/main.cpp:760-808 | after a fix the first `#ifndef` asks for the macro that the next line defines, and the last `#endif` names it |
| `Polish.Document.ApplyNewline` | tools/polish/main.cpp:623-652 | the newline pass in place computes the pass function and its verdict |
| `PolishLaws.NewlinePassWrites` | tools/polish/main.cpp:623-652 | a file that is not empty then begins and ends with an empty line, and at most these two lines are added |
| `PolishLaws.LicenseOutcome` | tools/polish/main.cpp:665-730 | after the license pass the license stands behind nothing but blank lines, or the leading comment has no end |
| `PolishLaws.PassReports` | tools/polish/main.cpp:326-335 | every pass reports a fix exactly if it changed the lines |
| `Polish.Document.Apply` | tools/polish/main.cpp:326-335 | the loop over the passes, and the number of passes that fixed something |
| `PolishLaws.GuardTwice` | tools/polish/main.cpp:732-809 | a second guard pass fixes nothing, whatever the file |
| `PolishLaws.PolishedTwice` | tools/polish/main.cpp:326-335 | for every file and every block comment license, polishing a polished file reports zero fixes and changes no line |
| `PolishLaws.SampleLicenseIsValid` | doc/license.cpp:1-23 | a license of the form that the repository has meets the conditions on licenses |
| `PolishSurvival.PolishedKeepsLines` | tools/polish/main.cpp:665-809 | every line outside the license block survives polishing unchanged and in order, except that found guards may lose the first #ifndef, the first #define and the last #endif |

## Left out

- `ServiceImpl`, the scheduler, the garbage collector, strands, timers and threads: the service lifecycle is modelled for guids only.
- The tree is a value: attaching and detaching services, intrusive lists and pointer aliasing are not modelled, and a walk sees a tree that does not change.
- The iterator classes behind `parent_services` and `cluster_parent_services`, `IndexedDependencyGraph`, graph printing and Graphviz output: they would only add easy members.
- Edge iterators of a single service are covered by `OuterIterators.AdvanceOuterEdge`; they have no class of their own.
- Iterators.PostorderServices: requires that no part behind the root's parent part has children, because otherwise the walk does not end; `PostorderEndsExactly` proves that this is the exact condition.
- Memory orderings weaker than sequential consistency, the `on_unique` notification, `release`, manual `increment` and `decrement`, and the object pointer beside the block.
- HandleRuns.Program.Run: counters do not wrap on the heap; `RefCount` models the wrap. Assignments of a handle to itself are skipped, because they may free the block of a last handle; `CopyFrom` gives the exact condition. A strong handle is never assigned from a weak one, as in the source.
- CombSort.Sort: keys must be pairwise distinct, because with equal keys the loop never ends, as `EndsIffDistinct` proves. Rounding of the `double` gap division is not modelled.
- `MutableFlatSet` and its unsorted insertion; lookups in a flat set by a value of another type, for which `FlatSets.FindFirst` states what the search finds.
- EnumIndex.SparseName: requires that an enumerator has the value, as the assert in the source does.
- Storing an empty buffer binds a null pointer, which SQLite may store as NULL; the model keeps an empty blob. Expiry, checksum and temporary columns are unused by the modelled queries.
- Store.GetIsExclusive: a restart ends all holding in the model, because the code deletes all locks; `KeptIdHandedOutTwice` shows what happens to an id that a client keeps nevertheless.
- Store.GetReadsBackLastWrite: holds for keys that never had two holders at a time, because a key with several rows hands out any free one; `GetHandsOutLastWrite` covers every row of every key.
- TOML parsing and printing, reflection, the debounce timer, writing the file back and its errors, exceptions from a failed parse.
- ScopedKeys.OpenScope: the reference is the list of tables above a value, not a pointer; `SameNode` states that it is the node on its path. A root that is neither empty nor a table would make the library throw; files are tables, and `StoredKeepsRoot` proves that writing keeps it so.
- Comments in the configuration; objects whose base class repeats the name of a field; the names that enumerations are written with.
- Service init: only the guid part; listeners, interfaces and the creation of children by parts are not modelled. Collections and dynamically attached services appear only as children.
- GuidLookup.Lookup: requires that the members of the searched cluster are alive, because the code asks each of them for its guid, which dereferences the cluster.
- PolishLaws.PolishedTwice: the license is a block comment, opens with `/*`, only its last line starts with `*/`, and no line of it is a guard directive.
- The derivation of guard names from paths, license files for CMake sources, trimming of empty lines, include header generation, clang-format and file access in the polish tool.
- Plugins, process groups, commands, arguments, logging facades, reflection and the command processor.
