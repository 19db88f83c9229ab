# Dependency-graph latency service, modelled in Dafny

The Java service reads a file of edge records such as `AB10` ("B depends on A, with an average
latency of 10"). It builds a graph of `GraphNode` objects keyed by name and answers two queries:

- the summed latency along a literal path of names;
- the number of walks from one name to another within (or exactly at) a hop bound, counted
  breadth first.

This project models that core:

- `wrappers.dfy`: `Option` stands in for Java's `null`, and `Result` for a thrown exception.
- `graph_tuple.dfy`: the `GraphTuple` record.
- `graph_file_reader.dfy` (module `GraphFileReader`): validating and parsing one record, the
  loop over all records, and the record format's inverse (`FormatRecord`).
- `graph_node.dfy` (module `GraphNodes`): the `GraphNode` class with its mutable adjacency map. It
  also relates a name -> node map to the value graph it denotes (`View`), and defines closedness
  (`WellFormed`).
- `graph_views.dfy` (module `GraphViews`): the graph as a value (`name -> child -> latency`). It
  holds walks, walk latencies and the walk counts `Walks`/`SumWalks`, and proves that these counts
  are the sizes of the sets of walk sequences they describe.
- `graph_service_impl.dfy` (module `GraphServiceImpl`): two-pass assembly of the name -> node map,
  proved to denote `GraphOf(tuples)`. That is one entry per name, and the last latency given for
  each (parent, child) pair.
- `graph_service.dfy` (module `GraphService`): the variant that returns the first tuple's parent
  node, including its self-loop corner case.
- `traverse_service.dfy` (module `Traversal`): the `TraverseService` class. It covers lazy
  one-time initialisation, `AverageLatencyOfPath` (proved equal to `PathLatency`) and
  `FindNumberOfPossibleTraces` (proved equal to `Traces`, which `TracesCountWalks` shows is the
  number of walks the query describes).

The breadth-first count is proved with two measures:

- a count measure: hits so far plus the walks still to be discovered from the queue equals the
  answer;
- a size measure, which proves termination on cyclic graphs: the total number of entries that
  will still be dequeued.

## Model

| member | source | states |
|---|---|---|
| `GraphFileReader.ParseLatency` | src/main/java/org/example/details/GraphFileReader.java:30 | the number parse succeeds exactly when every character is a decimal digit and the value is at most 2^31-1; the result is that value, otherwise a NumberFormat error |
| `GraphFileReader.ParseRecord` | src/main/java/org/example/details/GraphFileReader.java:24-31 | a record is malformed exactly when it is null, shorter than three characters or its third character is not a digit; it parses exactly when its tail is a digit string within the int range; then parent and child are its first and second character and the latency is the tail's decimal value |
| `GraphFileReader.FormatRecord` | src/main/java/org/example/details/GraphFileReader.java:27-31 | the inverse of the record format: two names followed by a canonical (no leading zero) decimal latency |
| `GraphFileReader.DecimalStringCanonical` | src/main/java/org/example/details/GraphFileReader.java:30 | writing a number in decimal gives a canonical digit string |
| `GraphFileReader.DecimalRoundTrip` | src/main/java/org/example/details/GraphFileReader.java:30 | reading back the decimal digits of n gives n |
| `GraphFileReader.DecimalCanonicalRoundTrip` | src/main/java/org/example/details/GraphFileReader.java:30 | writing the value of a canonical digit string gives the string back |
| `GraphFileReader.LeadingZero` | src/main/java/org/example/details/GraphFileReader.java:30 | a leading zero does not change the value of a digit string |
| `GraphFileReader.RecordRoundTrip` | src/main/java/org/example/details/GraphFileReader.java:24-31 | parsing a formatted tuple gives the tuple back |
| `GraphFileReader.RecordCanonical` | src/main/java/org/example/details/GraphFileReader.java:24-31 | a record whose latency has no leading zero is exactly the formatted form of the tuple it parses to |
| `GraphFileReader.GetGraphTuplesForFile` | src/main/java/org/example/details/GraphFileReader.java:20-35 | succeeds exactly when every record parses, returning one tuple per record in order; otherwise fails with the error of the first failing record |
| `GraphFileReader.ExampleTwoDigitLatency` | src/test/java/org/example/details/GraphFileReaderTest.java:46-59 | `AB10` is the edge A -> B with latency 10 |
| `GraphFileReader.ExampleFourDigitLatency` | src/test/java/org/example/details/GraphFileReaderTest.java:73-92 | `CA1200` is the edge C -> A with latency 1200 |
| `GraphFileReader.ExampleNameTooLong` | src/test/java/org/example/details/GraphFileReaderTest.java:61-71 | `AAB1` is malformed |
| `GraphFileReader.ExampleLatencyNotANumber` | src/main/java/org/example/details/GraphFileReader.java:30 | `AB1x` passes the format check but fails the number parse |
| `GraphFileReader.ExampleLeadingZero` | src/main/java/org/example/details/GraphFileReader.java:30 | `AB010` and `AB10` parse to the same tuple |
| `GraphNodes.GraphNode.Latencies` | src/main/java/org/example/core/graph/GraphNode.java:13-16 | the latency map has exactly the dependent names as keys |
| `GraphNodes.GraphNode.constructor` | src/main/java/org/example/core/graph/GraphNode.java:18-21 | a new node has the given name and no dependents |
| `GraphNodes.GraphNode.AddDependentNode` | src/main/java/org/example/core/graph/GraphNode.java:23-25 | puts (or overwrites) the entry under the dependent's name only; the count grows by one exactly when the name was new |
| `GraphNodes.GraphNode.GetDependentTreeNodeByName` | src/main/java/org/example/core/graph/GraphNode.java:27-29 | None (null) exactly for a name that is not a dependent; otherwise the entry with that edge's latency |
| `GraphNodes.GraphNode.DependentNodeCount` | src/main/java/org/example/core/graph/GraphNode.java:31-33 | the number of distinct dependent names |
| `GraphNodes.RegisterNew` | src/main/java/org/example/core/graph/GraphServiceImpl.java:21 | putting a new node under a name keeps every node blank and stored under its own name |
| `GraphNodes.RegisterIfAbsent` | src/main/java/org/example/core/graph/GraphServiceImpl.java:20-21 | the name becomes a key; existing entries are kept; an absent name gets a new node |
| `GraphNodes.View` | src/main/java/org/example/core/graph/GraphNode.java:13-16 | the value graph denoted by a name -> node map has the same names |
| `GraphNodes.ViewClosed` | src/main/java/org/example/core/graph/GraphNode.java:13-16 | in a closed map a node's dependents are the view's children and are all registered |
| `GraphNodes.ViewEdge` | src/main/java/org/example/core/graph/GraphNode.java:27-29 | an edge of the view is exactly a dependent entry, whose target is the node registered under the child's name and whose latency is the edge's |
| `GraphNodes.NodesUnchanged` | src/main/java/org/example/core/traverse/TraverseService.java:24-26 | blankness, closedness and the view of a map depend only on its nodes |
| `GraphServiceImpl.NamesMember` | src/main/java/org/example/core/graph/GraphServiceImpl.java:19-24 | a name is registered exactly when some tuple names it as parent or child |
| `GraphServiceImpl.TupleNames` | src/main/java/org/example/core/graph/GraphServiceImpl.java:26 | both names of every tuple are registered before wiring |
| `GraphServiceImpl.NamesPrefix` | src/main/java/org/example/core/graph/GraphServiceImpl.java:19-24 | the names of a prefix of the tuples are among all names |
| `GraphServiceImpl.NamesSnoc` | src/main/java/org/example/core/graph/GraphServiceImpl.java:19-24 | one more tuple adds exactly its two names |
| `GraphServiceImpl.AdjacencyKeys` | src/main/java/org/example/core/graph/GraphServiceImpl.java:25-27 | a node's dependents are exactly the child names listed for it |
| `GraphServiceImpl.AdjacencyLastWins` | src/main/java/org/example/core/graph/GraphServiceImpl.java:25-27 | for a repeated (parent, child) pair the last tuple's latency is the one stored |
| `GraphServiceImpl.GraphOfClosed` | src/main/java/org/example/core/graph/GraphServiceImpl.java:16-29 | every child of the assembled graph is itself a registered name |
| `GraphServiceImpl.WiredAdjacency` | src/main/java/org/example/core/graph/GraphServiceImpl.java:25-27 | the wired entries of a node have the adjacency's keys, each pointing at the registered child with the adjacency's latency |
| `GraphServiceImpl.WiredStep` | src/main/java/org/example/core/graph/GraphServiceImpl.java:26 | wiring one tuple changes only its parent's entry under its child's name |
| `GraphServiceImpl.WiredClosed` | src/main/java/org/example/core/graph/GraphServiceImpl.java:25-27 | a fully wired map is closed and its latencies are the tuples' adjacency |
| `GraphServiceImpl.ViewIsGraphOf` | src/main/java/org/example/core/graph/GraphServiceImpl.java:16-29 | a map holding exactly the tuples' names with their adjacency denotes GraphOf(tuples) |
| `GraphServiceImpl.WireEdges` | src/main/java/org/example/core/graph/GraphServiceImpl.java:25-27 | the second pass leaves the map closed, each node holding its parent's adjacency from the tuples |
| `GraphServiceImpl.ConstructGraphFromFile` | src/main/java/org/example/core/graph/GraphServiceImpl.java:16-29 | the keys are exactly the tuples' names, all nodes are new, the map is closed and denotes GraphOf(tuples) |
| `GraphService.RegisterFirst` | src/main/java/org/example/core/graph/GraphService.java:20-23 | the first tuple registers a new root and a new child node; for a self-loop the child replaces the root in the map |
| `GraphService.RegisterNodes` | src/main/java/org/example/core/graph/GraphService.java:19-30 | the first pass registers exactly the tuples' names with new blank nodes and keeps the first parent's node as root |
| `GraphService.ConstructTreeNodeFromFile` | src/main/java/org/example/core/graph/GraphService.java:15-35 | returns null exactly for no tuples; otherwise a new node named after the first parent, which is the registered node carrying GraphOf's adjacency, except for a first self-loop, where it has no edges |
| `GraphViews.PathPrefix` | src/main/java/org/example/core/traverse/TraverseService.java:39-52 | a prefix of a walk is a walk |
| `GraphViews.PathCons` | src/main/java/org/example/core/traverse/TraverseService.java:83-92 | a walk of two or more names is a first edge followed by a walk |
| `GraphViews.PathExtend` | src/main/java/org/example/core/traverse/TraverseService.java:47-50 | following one more edge extends a walk and adds that edge's latency |
| `GraphViews.NotPath` | src/main/java/org/example/core/traverse/TraverseService.java:45-46 | a missing edge between consecutive names breaks a walk |
| `GraphViews.LatencyAppend` | src/main/java/org/example/core/traverse/TraverseService.java:39-53 | joining two walks at a shared name gives a walk whose latency is the sum of both |
| `GraphViews.SumWalksRemove` | src/main/java/org/example/core/traverse/TraverseService.java:83 | the walk count over a set of dependents does not depend on the order they are visited in |
| `GraphViews.ExactAtMostWalks` | src/main/java/org/example/core/traverse/TraverseService.java:80 | counting walks of exactly k hops never exceeds counting those of at most k hops |
| `GraphViews.ExactAtMostSum` | src/main/java/org/example/core/traverse/TraverseService.java:80 | the same, summed over a set of dependents |
| `GraphViews.PrefixedMember` | src/main/java/org/example/core/traverse/TraverseService.java:89-91 | a sequence is in the prefixed set exactly when it starts with the name and its tail is in the set |
| `GraphViews.WalkSetMember` | src/main/java/org/example/core/traverse/TraverseService.java:76-93 | the walk set of u holds exactly the walks from u with the hop count and end the query asks for |
| `GraphViews.SumWalkSetMember` | src/main/java/org/example/core/traverse/TraverseService.java:76-93 | the walk set over a set of names holds exactly the counted walks starting at one of them |
| `GraphViews.PrefixedSize` | src/main/java/org/example/core/traverse/TraverseService.java:89-91 | putting a name in front of every sequence of a set keeps its size |
| `GraphViews.PrefixedSplit` | src/main/java/org/example/core/traverse/TraverseService.java:79-91 | the one-name walk and the longer walks from a name are disjoint, so their sizes add |
| `GraphViews.NoEmptyWalk` | src/main/java/org/example/core/traverse/TraverseService.java:76-93 | every counted walk names at least its start |
| `GraphViews.WalkSetSplit` | src/main/java/org/example/core/traverse/TraverseService.java:79-91 | the walks from u are the counted one-name walk plus one walk per tail |
| `GraphViews.WalkSetSize` | src/main/java/org/example/core/traverse/TraverseService.java:76-93 | Walks(u, k) is the number of walk sequences it describes |
| `GraphViews.SumWalkSetSize` | src/main/java/org/example/core/traverse/TraverseService.java:76-93 | SumWalks over a set of names is the number of walk sequences it describes |
| `GraphViews.WalksCountsWalkSequences` | src/main/java/org/example/core/traverse/TraverseService.java:56-62 | Walks counts exactly the walks from u with the requested hop count and end |
| `Traversal.FirstKnown` | src/main/java/org/example/core/traverse/TraverseService.java:40-42 | the index of the first name the graph knows lies within the path |
| `Traversal.FirstKnownIsFirst` | src/main/java/org/example/core/traverse/TraverseService.java:40-42 | every name before that index is unknown, so a failed lookup leaves the start unset |
| `Traversal.StartWalk` | src/main/java/org/example/core/traverse/TraverseService.java:40-42 | the first known name starts the walk with latency 0 |
| `Traversal.SkipUnknown` | src/main/java/org/example/core/traverse/TraverseService.java:40-42 | an unknown name before the start is skipped |
| `Traversal.ExtendWalk` | src/main/java/org/example/core/traverse/TraverseService.java:47-50 | following an edge to the next name extends the scanned walk by its latency |
| `Traversal.BreakWalk` | src/main/java/org/example/core/traverse/TraverseService.java:44-46 | a missing edge after the start makes the query NoTraceFound |
| `Traversal.FinishWalk` | src/main/java/org/example/core/traverse/TraverseService.java:53 | a scan that reaches the end returns the walk's latency, or 0 when no name is known |
| `Traversal.LatencyStep` | src/main/java/org/example/core/traverse/TraverseService.java:43-50 | on the object graph: a missing dependent means NoTraceFound; otherwise the entry's target is the registered node and the walk extends by the entry's latency |
| `Traversal.TraceSetMember` | src/main/java/org/example/core/traverse/TraverseService.java:56-62 | a sequence is a trace exactly when it is a walk from start to end of at least one hop and of the requested hop count |
| `Traversal.TracesCountWalks` | src/main/java/org/example/core/traverse/TraverseService.java:56-62 | Traces is the number of walks from start to end with 1..maxHops hops (exactly maxHops when exact); the zero-hop walk never counts |
| `Traversal.ExactTracesAtMost` | src/main/java/org/example/core/traverse/TraverseService.java:80 | the exact-hop count never exceeds the at-most count |
| `Traversal.TrackedPop` | src/main/java/org/example/core/traverse/TraverseService.java:77 | polling keeps every queue entry a registered node within maxHops + 1 hops |
| `Traversal.TrackedPush` | src/main/java/org/example/core/traverse/TraverseService.java:91 | so does enqueuing such an entry |
| `Traversal.QueueAppend` | src/main/java/org/example/core/traverse/TraverseService.java:91 | enqueuing an entry adds its share to the queue's count and size |
| `Traversal.ExpandEntry` | src/main/java/org/example/core/traverse/TraverseService.java:78-92 | an entry within maxHops is a hit exactly under the source's condition, and the rest of its share moves to its dependents |
| `Traversal.DropEntry` | src/main/java/org/example/core/traverse/TraverseService.java:78 | an entry beyond maxHops counts nothing and enqueues nothing |
| `Traversal.EnqueueChild` | src/main/java/org/example/core/traverse/TraverseService.java:83-92 | enqueuing one dependent at one more hop moves its share out of the pending dependents |
| `Traversal.EnqueueStep` | src/main/java/org/example/core/traverse/TraverseService.java:83-92 | one inner iteration keeps queue plus pending count and size unchanged |
| `Traversal.Dequeue` | src/main/java/org/example/core/traverse/TraverseService.java:77-82 | the polled entry's node is registered under its name, and the queue's count and size split into hit, rest of queue and its dependents |
| `Traversal.Enqueue` | src/main/java/org/example/core/traverse/TraverseService.java:89-91 | the copied dependent entry at one more hop keeps the queue tracked and moves the dependent's share into the queue |
| `Traversal.TraverseService.constructor` | src/main/java/org/example/core/traverse/TraverseService.java:13-15 | a new service has no map and has assembled nothing |
| `Traversal.TraverseService.InitGraph` | src/main/java/org/example/core/traverse/TraverseService.java:23-27 | the first call assembles the map once (GraphOf(tuples)); later calls leave it and the assembly count unchanged |
| `Traversal.TraverseService.AverageLatencyOfPath` | src/main/java/org/example/core/traverse/TraverseService.java:35-54 | 0 for an empty path, without reading the map; otherwise PathLatency: from the first known name on, the summed latency of the path if it is a walk, NoTraceFound otherwise |
| `Traversal.TraverseService.FindNumberOfPossibleTraces` | src/main/java/org/example/core/traverse/TraverseService.java:63-96 | InvalidInput for a null name or maxHops < 1, checked before the map is read (so also on a service that was never initialised); otherwise Traces, the number of walks from start to end of 1..maxHops hops (exactly maxHops when asked) |
| `Traversal.SimpleGraph` | src/test/java/org/example/core/traverse/TraverseServiceTest.java:173-183 | the test graph A -4-> B -6-> C has exactly the names A, B, C |
| `Traversal.ExampleSimplePathLatency` | src/test/java/org/example/core/traverse/TraverseServiceTest.java:70-77 | A -> B -> C has latency 10 |
| `Traversal.ExampleSimpleNoTrace` | src/test/java/org/example/core/traverse/TraverseServiceTest.java:80-85 | A -> B -> D is NoTraceFound |
| `Traversal.ExampleSimpleTraces` | src/test/java/org/example/core/traverse/TraverseServiceTest.java:154-171 | one walk from A to C within 3 hops, none of exactly 3 |

## Left out

- File I/O: `readFileContentAsList` (reading the file and splitting it at ", ") is not modelled. `GetGraphTuplesForFile` takes the list of records (None for a null entry) instead of a file name.
- The `GraphReader` interface and its Mockito stand-ins: the assembly methods take the tuple list directly, and `InitGraph` takes the tuples instead of a file path.
- `Main.java` (console dialog and printing) is not part of this model.
- `findLatencyForPaths` and `findShortestLatencyForPath` are called by the traversal tests but have no implementation in the source, so they are not modelled.
- Empty record list: the code returns an empty list, and `GetGraphTuplesForFile` follows the code. The test `test_getGraphTuplesForFile_emptyList_exception` expects a MalformedInputFormatException instead.
- GraphFileReader.IsDigit: only ASCII digits count as digits. Java's `Character.isDigit` and `Integer.valueOf` also accept other Unicode decimal digits.
- GraphFileReader.ParseRecord: a record is read as a sequence of Unicode code points, while Java's `length`, `charAt` and `substring` count UTF-16 code units. The two differ when a name position holds a character outside the Basic Multilingual Plane: the model reads `"\U{1F600}B10"` as parent "\U{1F600}", child "B", latency 10, where Java sees `B` as the third character and reports a malformed record.
- Traversal.TraverseService.AverageLatencyOfPath: the latency sum is an unbounded integer. The Java `int` sum wraps around past 2^31-1.
- Traversal.TraverseService.FindNumberOfPossibleTraces: the hit counter and the hop count are unbounded integers, with no 32-bit wrap-around.
- Hop counters: TraverseService uses a hops field, a copy constructor and `getDependentNodes`, which the shown `GraphNode.java` does not declare. The model keeps them in a `Frontier(node, hops)` value per queue entry, with the node shared by reference, as the copy constructor's comment describes. The `setHops(0)` side effect on the registered start node is therefore not modelled.
- Null lookups: `AverageLatencyOfPath` on a non-empty path, and `FindNumberOfPossibleTraces` once both names are given and maxHops >= 1, require an initialised map, where Java throws NullPointerException. In the same case `FindNumberOfPossibleTraces` also requires the start name to be registered, where Java throws NullPointerException at `gn.setHops(0)`. An empty path and the InvalidInput cases need no map. Null path entries are not modelled; path names are plain strings.
- GraphNodes.GraphNode.GetName: has no contract; it returns the immutable `name` field.
- Iteration order: the BFS takes the pending dependents in an arbitrary order, chosen by `:|`. `HashMap` order is unspecified, and `SumWalksRemove` shows that the count does not depend on it.
- Mockito call counting is modelled only as the ghost counter `constructCalls` of `InitGraph`.
