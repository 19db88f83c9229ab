/**
 * The traversal engine: one-time lazy initialisation of the name -> node map, the latency of a
 * literal path, and the breadth-first count of walks of bounded or exact hop length.
 */
module Traversal {
  import opened Wrappers
  import opened GraphTuples
  import opened GraphViews
  import opened GraphNodes
  import opened GraphServiceImpl

  datatype TraverseError = NoTraceFound | InvalidInput

  // ---------------------------------------------------------------------------------------------
  // Literal path latency

  /**
   * The index of the first name of `path` that the graph knows (|path| if none): names before it
   * are skipped, because a failed lookup leaves the start unresolved.
   */
  function FirstKnown(g: Graph, path: seq<string>): (s: nat)
    ensures s <= |path|
    ensures s < |path| ==> path[s] in g
  {
    if path == [] || path[0] in g then 0 else 1 + FirstKnown(g, path[1..])
  }

  /** FirstKnown is the index of the first name the graph knows, |path| when it knows none. */
  lemma {:induction false} FirstKnownIsFirst(g: Graph, path: seq<string>)
    ensures forall i :: 0 <= i < FirstKnown(g, path) ==> path[i] !in g
  {
    if path != [] && path[0] !in g {
      FirstKnownIsFirst(g, path[1..]);
      forall i | 1 <= i < FirstKnown(g, path)
        ensures path[i] !in g
      {
        assert path[i] == path[1..][i - 1];
      }
    }
  }

  /**
   * The result of averageLatencyOfPath: from the first known name on, the path must be a walk of
   * the graph; then the answer is the sum of its edge latencies, otherwise NoTraceFound.
   */
  function PathLatency(g: Graph, path: seq<string>): (r: Result<int, TraverseError>)
  {
    var s := FirstKnown(g, path);
    if IsPath(g, path[s..]) then Success(Latency(g, path[s..])) else Failure(NoTraceFound)
  }

  /**
   * The names path[FirstKnown..i] form a walk with total latency `lat`: what a left-to-right
   * scan has established after reading i names once the start was found.
   */
  predicate WalkedTo(g: Graph, path: seq<string>, i: nat, lat: int)
  {
    var s := FirstKnown(g, path);
    && s < i <= |path|
    && IsPath(g, path[s..i])
    && lat == Latency(g, path[s..i])
  }

  /** The first known name starts the walk, with latency 0. */
  lemma StartWalk(g: Graph, path: seq<string>, i: nat)
    requires i <= FirstKnown(g, path) && i < |path| && path[i] in g
    ensures i == FirstKnown(g, path)
    ensures WalkedTo(g, path, i + 1, 0)
  {
    FirstKnownIsFirst(g, path);
    assert path[i..i + 1] == [path[i]];
  }

  /** A name the graph does not know, before the first known one, is skipped. */
  lemma SkipUnknown(g: Graph, path: seq<string>, i: nat)
    requires i <= FirstKnown(g, path) && i < |path| && path[i] !in g
    ensures i + 1 <= FirstKnown(g, path)
  {
  }

  /** An edge to the next name extends the walk and adds its latency. */
  lemma ExtendWalk(g: Graph, path: seq<string>, i: nat, lat: int)
    requires WalkedTo(g, path, i, lat) && i < |path|
    requires HasEdge(g, path[i - 1], path[i])
    ensures WalkedTo(g, path, i + 1, lat + g[path[i - 1]][path[i]])
  {
    var s := FirstKnown(g, path);
    assert path[s..i + 1] == path[s..i] + [path[i]];
    PathExtend(g, path[s..i], path[i]);
  }

  /** A missing edge after the start makes the whole query fail. */
  lemma BreakWalk(g: Graph, path: seq<string>, i: nat)
    requires FirstKnown(g, path) < i < |path|
    requires !HasEdge(g, path[i - 1], path[i])
    ensures PathLatency(g, path) == Failure(NoTraceFound)
  {
    var s := FirstKnown(g, path);
    assert path[s..][i - 1 - s] == path[i - 1] && path[s..][i - s] == path[i];
    NotPath(g, path[s..], i - 1 - s);
  }

  /** A scan that reaches the end returns the latency it has summed (0 when no name is known). */
  lemma FinishWalk(g: Graph, path: seq<string>, lat: int)
    requires WalkedTo(g, path, |path|, lat) || (FirstKnown(g, path) == |path| && lat == 0)
    ensures PathLatency(g, path) == Success(lat)
  {
    var s := FirstKnown(g, path);
    if s == |path| {
      assert path[s..] == [];
    } else {
      assert path[s..|path|] == path[s..];
    }
  }

  /** The scan's step on the object graph: follow the edge to path[i], or fail when there is none. */
  lemma LatencyStep(m: map<string, GraphNode>, path: seq<string>, i: nat, lat: int)
    requires WellFormed(m) && 0 < i < |path| && path[i - 1] in m
    requires WalkedTo(View(m), path, i, lat)
    ensures path[i] !in m[path[i - 1]].dependentNodes ==> PathLatency(View(m), path) == Failure(NoTraceFound)
    ensures path[i] in m[path[i - 1]].dependentNodes ==>
              var e := m[path[i - 1]].dependentNodes[path[i]];
              && path[i] in m
              && e.target == m[path[i]]
              && WalkedTo(View(m), path, i + 1, lat + e.latency)
  {
    ViewEdge(m, path[i - 1], path[i]);
    if path[i] in m[path[i - 1]].dependentNodes {
      ExtendWalk(View(m), path, i, lat);
    } else {
      BreakWalk(View(m), path, i);
    }
  }

  // ---------------------------------------------------------------------------------------------
  // Walk counting

  /**
   * The number of walks start = v0 -> ... -> vk = end with 1 <= k <= maxHops (or k == maxHops
   * when `exact`): a first hop to some dependent c of start, then a walk of maxHops - 1 hops
   * (at most, or exactly) from c.
   */
  ghost function Traces(g: Graph, start: string, end: string, maxHops: nat, exact: bool): (n: nat)
    requires maxHops >= 1
  {
    SumWalks(g, Query(Some(end), exact), Children(g, start), maxHops - 1)
  }

  /** `w` is a walk from start to end with at least one hop and the hop count the query asks for. */
  predicate IsTrace(g: Graph, w: seq<string>, start: string, end: string, maxHops: nat, exact: bool)
  {
    && |w| >= 2
    && w[0] == start
    && w[|w| - 1] == end
    && IsPath(g, w)
    && (if exact then |w| - 1 == maxHops else |w| - 1 <= maxHops)
  }

  ghost function TraceSet(g: Graph, start: string, end: string, maxHops: nat, exact: bool): (walks: set<seq<string>>)
    requires maxHops >= 1
  {
    Prefixed(start, SumWalkSet(g, Query(Some(end), exact), Children(g, start), maxHops - 1))
  }

  lemma {:induction false} TraceSetMember(g: Graph, start: string, end: string, maxHops: nat, exact: bool, w: seq<string>)
    requires maxHops >= 1
    ensures w in TraceSet(g, start, end, maxHops, exact) <==> IsTrace(g, w, start, end, maxHops, exact)
  {
    var q := Query(Some(end), exact);
    var cs := Children(g, start);
    PrefixedMember(start, SumWalkSet(g, q, cs, maxHops - 1), w);
    if |w| >= 2 {
      SumWalkSetMember(g, q, cs, maxHops - 1, w[1..]);
      PathCons(g, w);
    } else if |w| == 1 {
      SumWalkSetMember(g, q, cs, maxHops - 1, w[1..]);
    }
  }

  /**
   * Traces counts exactly the walks from start to end of 1..maxHops hops (maxHops hops when
   * `exact`); the zero-hop walk [start] is never among them, even when start == end.
   */
  lemma TracesCountWalks(g: Graph, start: string, end: string, maxHops: nat, exact: bool)
    requires maxHops >= 1
    ensures |TraceSet(g, start, end, maxHops, exact)| == Traces(g, start, end, maxHops, exact)
    ensures forall w :: w in TraceSet(g, start, end, maxHops, exact) <==>
                        IsTrace(g, w, start, end, maxHops, exact)
  {
    var q := Query(Some(end), exact);
    var cs := Children(g, start);
    SumWalkSetSize(g, q, cs, maxHops - 1);
    PrefixedSize(start, SumWalkSet(g, q, cs, maxHops - 1));
    forall w
      ensures w in TraceSet(g, start, end, maxHops, exact) <==> IsTrace(g, w, start, end, maxHops, exact)
    {
      TraceSetMember(g, start, end, maxHops, exact, w);
    }
  }

  /** Asking for exactly maxHops hops never counts more than asking for at most maxHops. */
  lemma ExactTracesAtMost(g: Graph, start: string, end: string, maxHops: nat)
    requires maxHops >= 1
    ensures Traces(g, start, end, maxHops, true) <= Traces(g, start, end, maxHops, false)
  {
    ExactAtMostSum(g, Some(end), Children(g, start), maxHops - 1);
  }

  /**
   * A frontier entry: a dependent reached by some walk, with that walk's hop count. Being a
   * value, each enqueued entry carries its own hop count while sharing the node (and so its
   * adjacency) by reference.
   */
  datatype Frontier = Frontier(node: GraphNode, hops: nat)

  /** An entry names a node of the map (under its own name) and has at most maxHops + 1 hops. */
  ghost predicate Tracked(m: map<string, GraphNode>, e: Frontier, maxHops: nat)
  {
    e.node.name in m && m[e.node.name] == e.node && e.hops <= maxHops + 1
  }

  ghost predicate AllTracked(m: map<string, GraphNode>, q: seq<Frontier>, maxHops: nat)
  {
    forall i :: 0 <= i < |q| ==> Tracked(m, q[i], maxHops)
  }

  lemma TrackedPop(m: map<string, GraphNode>, q: seq<Frontier>, maxHops: nat)
    requires AllTracked(m, q, maxHops) && q != []
    ensures Tracked(m, q[0], maxHops) && AllTracked(m, q[1..], maxHops)
  {
    assert forall i :: 0 <= i < |q| - 1 ==> q[1..][i] == q[i + 1];
  }

  lemma TrackedPush(m: map<string, GraphNode>, q: seq<Frontier>, e: Frontier, maxHops: nat)
    requires AllTracked(m, q, maxHops) && Tracked(m, e, maxHops)
    ensures AllTracked(m, q + [e], maxHops)
  {
    assert forall i :: 0 <= i < |q| ==> (q + [e])[i] == q[i];
  }

  /** How much the walks still to be found from entry (u, h) add to the count. */
  ghost function EntryCount(g: Graph, end: string, maxHops: nat, exact: bool, u: string, h: nat): (n: nat)
    requires maxHops >= 1
  {
    if h > maxHops then 0
    else if h == 0 then Traces(g, u, end, maxHops, exact)
    else Walks(g, Query(Some(end), exact), u, maxHops - h)
  }

  ghost function QueueCount(g: Graph, end: string, maxHops: nat, exact: bool, q: seq<Frontier>): (n: nat)
    requires maxHops >= 1
  {
    if q == [] then 0
    else EntryCount(g, end, maxHops, exact, q[0].node.name, q[0].hops) + QueueCount(g, end, maxHops, exact, q[1..])
  }

  /** How many entries the processing of entry (u, h) dequeues in all, itself included. */
  ghost function EntrySize(g: Graph, maxHops: nat, u: string, h: nat): (n: nat)
  {
    if h > maxHops + 1 then 0 else Walks(g, Query(None, false), u, maxHops + 1 - h)
  }

  ghost function QueueSize(g: Graph, maxHops: nat, q: seq<Frontier>): (n: nat)
  {
    if q == [] then 0 else EntrySize(g, maxHops, q[0].node.name, q[0].hops) + QueueSize(g, maxHops, q[1..])
  }

  lemma {:induction false} QueueAppend(g: Graph, end: string, maxHops: nat, exact: bool, q: seq<Frontier>, e: Frontier)
    requires maxHops >= 1
    ensures QueueCount(g, end, maxHops, exact, q + [e]) ==
              QueueCount(g, end, maxHops, exact, q) + EntryCount(g, end, maxHops, exact, e.node.name, e.hops)
    ensures QueueSize(g, maxHops, q + [e]) == QueueSize(g, maxHops, q) + EntrySize(g, maxHops, e.node.name, e.hops)
  {
    if q != [] {
      assert (q + [e])[1..] == q[1..] + [e];
      QueueAppend(g, end, maxHops, exact, q[1..], e);
    }
  }

  /** What the dependents still to be enqueued from an entry with h hops will add to the count. */
  ghost function PendingCount(g: Graph, end: string, maxHops: nat, exact: bool, h: nat, pending: set<string>): (n: nat)
  {
    if h < maxHops then SumWalks(g, Query(Some(end), exact), pending, maxHops - h - 1) else 0
  }

  /** How many entries the dependents still to be enqueued from an entry with h hops will dequeue. */
  ghost function PendingSize(g: Graph, maxHops: nat, h: nat, pending: set<string>): (n: nat)
  {
    if h <= maxHops then SumWalks(g, Query(None, false), pending, maxHops - h) else 0
  }

  /**
   * Dequeuing an entry (u, h) with h <= maxHops: it is a hit or not, and the rest of its count and
   * of its size moves to its dependents.
   */
  lemma ExpandEntry(g: Graph, end: string, maxHops: nat, exact: bool, u: string, h: nat)
    requires maxHops >= 1 && h <= maxHops
    ensures EntryCount(g, end, maxHops, exact, u, h) ==
              (if u == end && h > 0 && (if exact then h == maxHops else h <= maxHops) then 1 else 0)
              + PendingCount(g, end, maxHops, exact, h, Children(g, u))
    ensures EntrySize(g, maxHops, u, h) == 1 + PendingSize(g, maxHops, h, Children(g, u))
  {
  }

  /** Dequeuing an entry beyond maxHops adds nothing and enqueues nothing. */
  lemma DropEntry(g: Graph, end: string, maxHops: nat, exact: bool, u: string, h: nat)
    requires maxHops >= 1 && h == maxHops + 1
    ensures EntryCount(g, end, maxHops, exact, u, h) == 0
    ensures EntrySize(g, maxHops, u, h) == 1
  {
  }

  /** Enqueuing dependent c at h + 1 hops moves its share of the pending count into the queue. */
  lemma EnqueueChild(g: Graph, end: string, maxHops: nat, exact: bool, h: nat, pending: set<string>, c: string)
    requires maxHops >= 1 && h <= maxHops && c in pending
    ensures PendingCount(g, end, maxHops, exact, h, pending) ==
              EntryCount(g, end, maxHops, exact, c, h + 1) + PendingCount(g, end, maxHops, exact, h, pending - {c})
    ensures PendingSize(g, maxHops, h, pending) ==
              EntrySize(g, maxHops, c, h + 1) + PendingSize(g, maxHops, h, pending - {c})
  {
    if h < maxHops {
      SumWalksRemove(g, Query(Some(end), exact), pending, maxHops - h - 1, c);
    }
    SumWalksRemove(g, Query(None, false), pending, maxHops - h, c);
  }

  /** One iteration of the inner loop: the count and the size move from `pending` to the queue. */
  lemma EnqueueStep(g: Graph, end: string, maxHops: nat, exact: bool, h: nat,
                    q: seq<Frontier>, pending: set<string>, e: Frontier)
    requires maxHops >= 1 && h <= maxHops && e.node.name in pending && e.hops == h + 1
    ensures QueueCount(g, end, maxHops, exact, q + [e]) + PendingCount(g, end, maxHops, exact, h, pending - {e.node.name})
            == QueueCount(g, end, maxHops, exact, q) + PendingCount(g, end, maxHops, exact, h, pending)
    ensures QueueSize(g, maxHops, q + [e]) + PendingSize(g, maxHops, h, pending - {e.node.name})
            == QueueSize(g, maxHops, q) + PendingSize(g, maxHops, h, pending)
  {
    EnqueueChild(g, end, maxHops, exact, h, pending, e.node.name);
    QueueAppend(g, end, maxHops, exact, q, e);
  }

  /**
   * Dequeuing the front entry of a queue over a well-formed map: its node is the one registered
   * under its name, and its count and size split into its own share and its dependents' shares.
   */
  lemma Dequeue(m: map<string, GraphNode>, end: string, maxHops: nat, exact: bool, q: seq<Frontier>)
    requires WellFormed(m) && maxHops >= 1 && AllTracked(m, q, maxHops) && q != []
    ensures AllTracked(m, q[1..], maxHops)
    ensures q[0].node.name in m && m[q[0].node.name] == q[0].node
    ensures q[0].hops <= maxHops ==>
              && QueueCount(View(m), end, maxHops, exact, q) ==
                   (if q[0].node.name == end && q[0].hops > 0
                       && (if exact then q[0].hops == maxHops else q[0].hops <= maxHops) then 1 else 0)
                   + QueueCount(View(m), end, maxHops, exact, q[1..])
                   + PendingCount(View(m), end, maxHops, exact, q[0].hops, q[0].node.dependentNodes.Keys)
              && QueueSize(View(m), maxHops, q) ==
                   1 + QueueSize(View(m), maxHops, q[1..])
                   + PendingSize(View(m), maxHops, q[0].hops, q[0].node.dependentNodes.Keys)
    ensures q[0].hops > maxHops ==>
              && QueueCount(View(m), end, maxHops, exact, q) == QueueCount(View(m), end, maxHops, exact, q[1..])
              && QueueSize(View(m), maxHops, q) == 1 + QueueSize(View(m), maxHops, q[1..])
  {
    TrackedPop(m, q, maxHops);
    var u, h := q[0].node.name, q[0].hops;
    ViewClosed(m, u);
    if h <= maxHops {
      ExpandEntry(View(m), end, maxHops, exact, u, h);
    } else {
      DropEntry(View(m), end, maxHops, exact, u, h);
    }
  }

  /**
   * Enqueuing dependent c of the node registered under u, at h + 1 hops: the queue stays
   * tracked and c's share of the pending count and size moves into the queue.
   */
  lemma Enqueue(m: map<string, GraphNode>, end: string, maxHops: nat, exact: bool, u: string, h: nat,
                q: seq<Frontier>, pending: set<string>, c: string, e: Frontier)
    requires WellFormed(m) && maxHops >= 1 && h <= maxHops && AllTracked(m, q, maxHops)
    requires u in m && c in m[u].dependentNodes && c in pending
    requires e.node == m[u].dependentNodes[c].target && e.hops == h + 1
    ensures AllTracked(m, q + [e], maxHops)
    ensures QueueCount(View(m), end, maxHops, exact, q + [e])
            + PendingCount(View(m), end, maxHops, exact, h, pending - {c})
            == QueueCount(View(m), end, maxHops, exact, q) + PendingCount(View(m), end, maxHops, exact, h, pending)
    ensures QueueSize(View(m), maxHops, q + [e])
            + PendingSize(View(m), maxHops, h, pending - {c})
            == QueueSize(View(m), maxHops, q) + PendingSize(View(m), maxHops, h, pending)
  {
    ViewEdge(m, u, c);
    TrackedPush(m, q, e, maxHops);
    EnqueueStep(View(m), end, maxHops, exact, h, q, pending, e);
  }

  // ---------------------------------------------------------------------------------------------

  class TraverseService {
    /** The name -> node map; None until the first initGraph. */
    var lookupMap: Option<map<string, GraphNode>>
    /** How many times the graph has been assembled. */
    ghost var constructCalls: nat

    /** Once set, the map is closed and every node is stored under its own name. */
    ghost predicate Valid()
      reads this, if lookupMap.Some? then lookupMap.value.Values else {}
    {
      lookupMap.Some? ==> WellFormed(lookupMap.value)
    }

    constructor ()
      ensures Valid()
      ensures lookupMap == None && constructCalls == 0
    {
      lookupMap := None;
      constructCalls := 0;
    }

    /**
     * Builds the map from the tuples only when it is not set yet; afterwards every call leaves it
     * as it is and assembles nothing. Either way the service is ready for queries afterwards.
     */
    method InitGraph(tuples: seq<GraphTuple>)
      requires Valid()
      modifies this
      ensures lookupMap.Some? && WellFormed(lookupMap.value)
      ensures old(lookupMap).Some? ==>
                lookupMap == old(lookupMap) && constructCalls == old(constructCalls)
      ensures old(lookupMap).None? ==>
                && lookupMap.value.Keys == Names(tuples)
                && View(lookupMap.value) == GraphOf(tuples)
                && constructCalls == old(constructCalls) + 1
    {
      if lookupMap.None? {
        var m := ConstructGraphFromFile(tuples);
        label Built:
        lookupMap := Some(m);
        constructCalls := constructCalls + 1;
        NodesUnchanged@Built(m);
      }
    }

    /**
     * The sum (not the average) of the edge latencies along the path, or NoTraceFound when,
     * from the first known name on, some next name is not a dependent of the current node.
     */
    method AverageLatencyOfPath(path: seq<string>) returns (r: Result<int, TraverseError>)
      requires path != [] ==> lookupMap.Some? && WellFormed(lookupMap.value)
      ensures path == [] ==> r == Success(0)
      ensures path != [] ==> r == PathLatency(View(lookupMap.value), path)
    {
      var startingNode: Option<GraphNode> := None;
      var currentNode: Option<GraphNode> := None;
      var averageLatency := 0;
      for i := 0 to |path|
        invariant startingNode.None? ==> averageLatency == 0
        invariant startingNode.None? && path != [] ==> i <= FirstKnown(View(lookupMap.value), path)
        invariant startingNode.Some? ==>
                    && 0 < i
                    && currentNode.Some?
                    && path[i - 1] in lookupMap.value
                    && currentNode.value == lookupMap.value[path[i - 1]]
                    && WalkedTo(View(lookupMap.value), path, i, averageLatency)
      {
        var m := lookupMap.value;
        var p := path[i];
        if startingNode.None? {
          if p in m {
            StartWalk(View(m), path, i);
            startingNode := Some(m[p]);
            currentNode := startingNode;
          } else {
            SkipUnknown(View(m), path, i);
          }
        } else {
          LatencyStep(m, path, i, averageLatency);
          var childNode := currentNode.value.GetDependentTreeNodeByName(p);
          if childNode.None? {
            return Failure(NoTraceFound);
          }
          assert childNode.value == m[path[i - 1]].dependentNodes[p];
          averageLatency := averageLatency + childNode.value.latency;
          currentNode := Some(childNode.value.target);
        }
      }
      if path != [] {
        FinishWalk(View(lookupMap.value), path, averageLatency);
      }
      return Success(averageLatency);
    }

    /**
     * Counts the walks from startNode to endNode of 1..maxHops hops (exactly maxHops when
     * onlyExactHops), breadth first over a queue of frontier entries. InvalidInput for a missing
     * name or maxHops < 1, before any traversal.
     */
    method FindNumberOfPossibleTraces(startNode: Option<string>, endNode: Option<string>, maxHops: int, onlyExactHops: bool)
      returns (r: Result<nat, TraverseError>)
      requires startNode.Some? && endNode.Some? && maxHops >= 1 ==>
                 lookupMap.Some? && WellFormed(lookupMap.value) && startNode.value in lookupMap.value
      ensures startNode.None? || endNode.None? || maxHops < 1 ==> r == Failure(InvalidInput)
      ensures startNode.Some? && endNode.Some? && maxHops >= 1 ==>
                r == Success(Traces(View(lookupMap.value), startNode.value, endNode.value, maxHops, onlyExactHops))
    {
      if startNode.None? || endNode.None? {
        return Failure(InvalidInput);
      }
      if maxHops < 1 {
        return Failure(InvalidInput);
      }
      var m := lookupMap.value;
      var end := endNode.value;
      ghost var g := View(m);
      var gn := m[startNode.value];
      var possiblePaths: nat := 0;
      var nodeQueue := [Frontier(gn, 0)];
      while nodeQueue != []
        invariant WellFormed(m) && View(m) == g
        invariant AllTracked(m, nodeQueue, maxHops)
        invariant possiblePaths + QueueCount(g, end, maxHops, onlyExactHops, nodeQueue) == Traces(g, startNode.value, end, maxHops, onlyExactHops)
        decreases QueueSize(g, maxHops, nodeQueue)
      {
        ghost var sizeBefore := QueueSize(g, maxHops, nodeQueue);
        Dequeue(m, end, maxHops, onlyExactHops, nodeQueue);
        var currentNode := nodeQueue[0];
        nodeQueue := nodeQueue[1..];
        if currentNode.hops <= maxHops {
          if currentNode.node.name == end && currentNode.hops > 0
             && (if onlyExactHops then currentNode.hops == maxHops else currentNode.hops <= maxHops)
          {
            possiblePaths := possiblePaths + 1;
          }
          var pending := currentNode.node.dependentNodes.Keys;
          while pending != {}
            invariant WellFormed(m) && View(m) == g
            invariant pending <= currentNode.node.dependentNodes.Keys
            invariant m[currentNode.node.name] == currentNode.node
            invariant AllTracked(m, nodeQueue, maxHops)
            invariant possiblePaths + QueueCount(g, end, maxHops, onlyExactHops, nodeQueue)
                      + PendingCount(g, end, maxHops, onlyExactHops, currentNode.hops, pending) == Traces(g, startNode.value, end, maxHops, onlyExactHops)
            invariant QueueSize(g, maxHops, nodeQueue)
                      + PendingSize(g, maxHops, currentNode.hops, pending) < sizeBefore
            decreases pending
          {
            var c :| c in pending;
            var childNode := currentNode.node.dependentNodes[c];
            var newChildNode := Frontier(childNode.target, currentNode.hops + 1);
            Enqueue(m, end, maxHops, onlyExactHops, currentNode.node.name, currentNode.hops,
                    nodeQueue, pending, c, newChildNode);
            nodeQueue := nodeQueue + [newChildNode];
            pending := pending - {c};
          }
        }
      }
      return Success(possiblePaths);
    }
  }

  // ---------------------------------------------------------------------------------------------
  // The small graph A -4-> B -6-> C

  function SimpleGraph(): (g: Graph)
    ensures g.Keys == {"A", "B", "C"}
  {
    map["A" := map["B" := 4], "B" := map["C" := 6], "C" := map[]]
  }

  /** A -> B -> C has latency 4 + 6. */
  lemma ExampleSimplePathLatency()
    ensures PathLatency(SimpleGraph(), ["A", "B", "C"]) == Success(10)
  {
    var g, p := SimpleGraph(), ["A", "B", "C"];
    assert FirstKnown(g, p) == 0;
    assert p[0..] == p && p[..2] == ["A", "B"] && ["A", "B"][..1] == ["A"];
  }

  /** B has no dependent D, so A -> B -> D is no trace. */
  lemma ExampleSimpleNoTrace()
    ensures PathLatency(SimpleGraph(), ["A", "B", "D"]) == Failure(NoTraceFound)
  {
    var g, p := SimpleGraph(), ["A", "B", "D"];
    assert FirstKnown(g, p) == 0;
    assert p[0..] == p;
    NotPath(g, p, 1);
  }

  /** From A to C there is one walk of at most 3 hops (A -> B -> C) and none of exactly 3. */
  lemma ExampleSimpleTraces()
    ensures Traces(SimpleGraph(), "A", "C", 3, false) == 1
    ensures Traces(SimpleGraph(), "A", "C", 3, true) == 0
  {
    var g := SimpleGraph();
    assert Children(g, "A") == {"B"} && Children(g, "B") == {"C"} && Children(g, "C") == {};
    assert Pick({"B"}) == "B" && Pick({"C"}) == "C";
    assert {"B"} - {"B"} == {} && {"C"} - {"C"} == {};
    forall exact: bool
      ensures Walks(g, Query(Some("C"), exact), "C", 1) == (if exact then 0 else 1)
      ensures Walks(g, Query(Some("C"), exact), "B", 2) == (if exact then 0 else 1)
    {
    }
  }
}
