/**
 * Graph assembly: two passes over the edge tuples. The first registers a node for every parent
 * and child name, the second wires every edge into its parent node.
 */
module GraphServiceImpl {
  import opened GraphTuples
  import opened GraphViews
  import opened GraphNodes

  /** Every parent and child name mentioned by the tuples. */
  function Names(ts: seq<GraphTuple>): (names: set<string>)
  {
    if ts == [] then {}
    else Names(ts[..|ts| - 1]) + {ts[|ts| - 1].parentName, ts[|ts| - 1].childName}
  }

  lemma {:induction false} NamesMember(ts: seq<GraphTuple>, u: string)
    ensures u in Names(ts) <==>
              exists i :: 0 <= i < |ts| && (ts[i].parentName == u || ts[i].childName == u)
  {
    if ts != [] {
      var ts' := ts[..|ts| - 1];
      NamesMember(ts', u);
      if u in Names(ts') {
        var i :| 0 <= i < |ts'| && (ts'[i].parentName == u || ts'[i].childName == u);
        assert ts[i] == ts'[i];
      }
      if exists i :: 0 <= i < |ts| && (ts[i].parentName == u || ts[i].childName == u) {
        var i :| 0 <= i < |ts| && (ts[i].parentName == u || ts[i].childName == u);
        if i < |ts'| {
          assert ts'[i] == ts[i];
        }
      }
    }
  }

  lemma {:induction false} TupleNames(ts: seq<GraphTuple>, i: nat)
    requires i < |ts|
    ensures ts[i].parentName in Names(ts) && ts[i].childName in Names(ts)
  {
    if i < |ts| - 1 {
      TupleNames(ts[..|ts| - 1], i);
    }
  }

  lemma {:induction false} NamesPrefix(ts: seq<GraphTuple>, n: nat)
    requires n <= |ts|
    ensures Names(ts[..n]) <= Names(ts)
  {
    if n < |ts| {
      assert ts[..|ts| - 1][..n] == ts[..n];
      NamesPrefix(ts[..|ts| - 1], n);
    } else {
      assert ts[..n] == ts;
    }
  }

  /** Taking one more tuple adds its two names. */
  lemma NamesSnoc(ts: seq<GraphTuple>, i: nat)
    requires i < |ts|
    ensures Names(ts[..i + 1]) == Names(ts[..i]) + {ts[i].parentName, ts[i].childName}
  {
    assert ts[..i + 1][..i] == ts[..i];
  }

  /** The distinct child names listed for the parent `u`. */
  function ChildNames(ts: seq<GraphTuple>, u: string): (cs: set<string>)
  {
    set i | 0 <= i < |ts| && ts[i].parentName == u :: ts[i].childName
  }

  /**
   * The adjacency of `u` once the tuples are wired in order: a later tuple with the same
   * (parent, child) pair overwrites the latency of an earlier one.
   */
  function Adjacency(ts: seq<GraphTuple>, u: string): (adj: map<string, int>)
  {
    if ts == [] then map[]
    else
      var t := ts[|ts| - 1];
      var a := Adjacency(ts[..|ts| - 1], u);
      if t.parentName == u then a[t.childName := t.latency] else a
  }

  /** A node's children are exactly the child names listed for it (so its dependent count is their number). */
  lemma {:induction false} AdjacencyKeys(ts: seq<GraphTuple>, u: string)
    ensures Adjacency(ts, u).Keys == ChildNames(ts, u)
  {
    if ts != [] {
      var ts' := ts[..|ts| - 1];
      AdjacencyKeys(ts', u);
      var t := ts[|ts| - 1];
      forall c | c in ChildNames(ts, u)
        ensures c in Adjacency(ts, u)
      {
        var i :| 0 <= i < |ts| && ts[i].parentName == u && ts[i].childName == c;
        if i < |ts'| {
          assert ts'[i] == ts[i];
          assert c in ChildNames(ts', u);
        }
      }
      forall c | c in Adjacency(ts, u)
        ensures c in ChildNames(ts, u)
      {
        if c in Adjacency(ts', u) {
          var i :| 0 <= i < |ts'| && ts'[i].parentName == u && ts'[i].childName == c;
          assert ts[i] == ts'[i];
        } else {
          assert ts[|ts| - 1].parentName == u && ts[|ts| - 1].childName == c;
        }
      }
    }
  }

  /** The latency stored for a (parent, child) pair is that of the last tuple with that pair. */
  lemma {:induction false} AdjacencyLastWins(ts: seq<GraphTuple>, i: nat)
    requires i < |ts|
    requires forall j :: i < j < |ts| ==>
               ts[j].parentName != ts[i].parentName || ts[j].childName != ts[i].childName
    ensures ts[i].childName in Adjacency(ts, ts[i].parentName)
    ensures Adjacency(ts, ts[i].parentName)[ts[i].childName] == ts[i].latency
  {
    if i < |ts| - 1 {
      var ts' := ts[..|ts| - 1];
      assert ts'[i] == ts[i];
      forall j | i < j < |ts'|
        ensures ts'[j].parentName != ts'[i].parentName || ts'[j].childName != ts'[i].childName
      {
        assert ts'[j] == ts[j];
      }
      AdjacencyLastWins(ts', i);
    }
  }

  /** The graph value the tuples describe: one entry per name, with its wired adjacency. */
  function GraphOf(ts: seq<GraphTuple>): (g: Graph)
  {
    map u | u in Names(ts) :: Adjacency(ts, u)
  }

  /** Every edge of GraphOf(ts) leads to a registered name (cycles are allowed). */
  lemma GraphOfClosed(ts: seq<GraphTuple>, u: string)
    requires u in GraphOf(ts)
    ensures GraphOf(ts)[u].Keys <= GraphOf(ts).Keys
  {
    AdjacencyKeys(ts, u);
    forall c | c in ChildNames(ts, u)
      ensures c in Names(ts)
    {
      var i :| 0 <= i < |ts| && ts[i].parentName == u && ts[i].childName == c;
      NamesMember(ts, c);
    }
  }

  /**
   * The adjacency entries of `u` once the tuples are wired in order into the nodes of `m`:
   * each edge points at the node registered under the child's name.
   */
  function Wired(m: map<string, GraphNode>, ts: seq<GraphTuple>, u: string): (edges: map<string, Edge>)
    requires Names(ts) <= m.Keys
  {
    if ts == [] then map[]
    else
      var t := ts[|ts| - 1];
      var w := Wired(m, ts[..|ts| - 1], u);
      if t.parentName == u then w[t.childName := Edge(m[t.childName], t.latency)] else w
  }

  lemma {:induction false} WiredAdjacency(m: map<string, GraphNode>, ts: seq<GraphTuple>, u: string)
    requires Names(ts) <= m.Keys
    ensures Wired(m, ts, u).Keys == Adjacency(ts, u).Keys
    ensures forall c :: c in Wired(m, ts, u) ==>
              c in m && Wired(m, ts, u)[c] == Edge(m[c], Adjacency(ts, u)[c])
  {
    if ts != [] {
      WiredAdjacency(m, ts[..|ts| - 1], u);
    }
  }

  /** Wiring tuple i changes only the entries of its parent, under its child's name. */
  lemma WiredStep(m: map<string, GraphNode>, ts: seq<GraphTuple>, i: nat)
    requires i < |ts| && Names(ts[..i + 1]) <= m.Keys
    ensures Names(ts[..i]) <= m.Keys
    ensures forall u :: Wired(m, ts[..i + 1], u) ==
              if ts[i].parentName == u
              then Wired(m, ts[..i], u)[ts[i].childName := Edge(m[ts[i].childName], ts[i].latency)]
              else Wired(m, ts[..i], u)
  {
    assert ts[..i + 1][..i] == ts[..i];
    NamesPrefix(ts[..i + 1], i);
  }

  /** Nodes wired from all tuples form a closed map whose latencies are the tuples' adjacency. */
  lemma WiredClosed(m: map<string, GraphNode>, ts: seq<GraphTuple>)
    requires Names(ts) <= m.Keys
    requires forall u :: u in m ==> m[u].name == u
    requires forall u :: u in m ==> m[u].dependentNodes == Wired(m, ts, u)
    ensures WellFormed(m)
    ensures forall u :: u in m ==> m[u].Latencies() == Adjacency(ts, u)
  {
    forall u | u in m
      ensures m[u].Latencies() == Adjacency(ts, u)
      ensures forall c :: c in m[u].dependentNodes ==> c in m && m[u].dependentNodes[c].target == m[c]
    {
      WiredAdjacency(m, ts, u);
    }
  }

  /** A map registering exactly the tuples' names, each with the tuples' adjacency, denotes GraphOf. */
  lemma ViewIsGraphOf(m: map<string, GraphNode>, ts: seq<GraphTuple>)
    requires m.Keys == Names(ts)
    requires forall u :: u in m ==> m[u].Latencies() == Adjacency(ts, u)
    ensures View(m) == GraphOf(ts)
  {
  }

  /**
   * The second pass: wire each tuple's edge into the node registered under its parent name,
   * pointing at the node registered under its child name.
   */
  method WireEdges(lookupMap: map<string, GraphNode>, tuples: seq<GraphTuple>)
    requires Names(tuples) <= lookupMap.Keys
    requires Blank(lookupMap)
    modifies lookupMap.Values
    ensures WellFormed(lookupMap)
    ensures forall u :: u in lookupMap ==> lookupMap[u].Latencies() == Adjacency(tuples, u)
  {
    for i := 0 to |tuples|
      invariant Names(tuples[..i]) <= lookupMap.Keys
      invariant forall u :: u in lookupMap ==> lookupMap[u].dependentNodes == Wired(lookupMap, tuples[..i], u)
    {
      var t := tuples[i];
      TupleNames(tuples, i);
      NamesPrefix(tuples, i + 1);
      WiredStep(lookupMap, tuples, i);
      var parent, child := lookupMap[t.parentName], lookupMap[t.childName];
      parent.AddDependentNode(child, t.latency);
    }
    assert tuples[..|tuples|] == tuples;
    WiredClosed(lookupMap, tuples);
  }

  /**
   * Builds the name -> node map. Its keys are exactly the names in the tuples, it is closed
   * under edges, and it denotes GraphOf(tuples).
   */
  method ConstructGraphFromFile(tuples: seq<GraphTuple>) returns (lookupMap: map<string, GraphNode>)
    ensures lookupMap.Keys == Names(tuples)
    ensures forall u :: u in lookupMap ==> fresh(lookupMap[u])
    ensures WellFormed(lookupMap)
    ensures View(lookupMap) == GraphOf(tuples)
  {
    lookupMap := map[];
    for i := 0 to |tuples|
      invariant lookupMap.Keys == Names(tuples[..i])
      invariant forall u :: u in lookupMap ==> fresh(lookupMap[u])
      invariant Blank(lookupMap)
    {
      var t := tuples[i];
      NamesSnoc(tuples, i);
      lookupMap := RegisterIfAbsent(lookupMap, t.parentName);
      lookupMap := RegisterIfAbsent(lookupMap, t.childName);
    }
    assert tuples[..|tuples|] == tuples;
    WireEdges(lookupMap, tuples);
    ViewIsGraphOf(lookupMap, tuples);
  }
}
