/**
 * A node of the dependency graph: a name that never changes and a map from child name to the
 * dependent node and the latency of the edge to it.
 */
module GraphNodes {
  import opened Wrappers
  import opened GraphViews

  /** An adjacency entry: the dependent node and the latency of the edge to it. */
  datatype Edge = Edge(target: GraphNode, latency: int)

  class GraphNode {
    const name: string
    var dependentNodes: map<string, Edge>

    /** The latencies of the outgoing edges, keyed by child name. */
    function Latencies(): (l: map<string, int>)
      reads this
      ensures l.Keys == dependentNodes.Keys
    {
      map c | c in dependentNodes :: dependentNodes[c].latency
    }

    /** A new node has the given name and no dependents. */
    constructor (name: string)
      ensures this.name == name
      ensures dependentNodes == map[]
    {
      this.name := name;
      dependentNodes := map[];
    }

    /**
     * Adds (or, for a child name already present, overwrites) the edge to `dependentNode`.
     * Only the entry under the dependent's name changes.
     */
    method AddDependentNode(dependentNode: GraphNode, averageTime: int)
      modifies this
      ensures dependentNodes == old(dependentNodes)[dependentNode.name := Edge(dependentNode, averageTime)]
      ensures GetDependentTreeNodeByName(dependentNode.name) == Some(Edge(dependentNode, averageTime))
      ensures forall n :: n != dependentNode.name ==>
                GetDependentTreeNodeByName(n) == old(GetDependentTreeNodeByName(n))
      ensures DependentNodeCount() ==
                old(DependentNodeCount()) + if dependentNode.name in old(dependentNodes) then 0 else 1
    {
      dependentNodes := dependentNodes[dependentNode.name := Edge(dependentNode, averageTime)];
    }

    /** The edge to the child called `name`, or None (Java: null) when there is none. */
    function GetDependentTreeNodeByName(name: string): (r: Option<Edge>)
      reads this
      ensures r.None? <==> name !in Latencies()
      ensures r.Some? ==> r.value.latency == Latencies()[name]
    {
      if name in dependentNodes then Some(dependentNodes[name]) else None
    }

    /** The number of distinct child names. */
    function DependentNodeCount(): (r: nat)
      reads this
      ensures r == |Latencies().Keys|
    {
      |dependentNodes|
    }

    function GetName(): string
    {
      name
    }
  }

  /**
   * The name -> node map is closed: each node is stored under its own name, and every edge leads
   * to the node stored under the child's name.
   */
  ghost predicate WellFormed(m: map<string, GraphNode>)
    reads m.Values
  {
    forall u :: u in m ==>
      && m[u].name == u
      && forall c :: c in m[u].dependentNodes ==> c in m && m[u].dependentNodes[c].target == m[c]
  }

  /** Every node is stored under its own name and has no dependents yet. */
  ghost predicate Blank(m: map<string, GraphNode>)
    reads m.Values
  {
    forall u :: u in m ==> m[u].name == u && m[u].dependentNodes == map[]
  }

  lemma BlankAdd(m: map<string, GraphNode>, u: string, node: GraphNode)
    requires Blank(m) && node.name == u && node.dependentNodes == map[]
    ensures Blank(m[u := node])
  {
  }

  /** Registers a new node, with no dependents, under `name` (replacing any node already there). */
  method RegisterNew(m: map<string, GraphNode>, name: string) returns (m': map<string, GraphNode>, node: GraphNode)
    requires Blank(m)
    ensures fresh(node) && node.name == name && node.dependentNodes == map[]
    ensures m' == m[name := node] && Blank(m')
  {
    node := new GraphNode(name);
    BlankAdd(m, name, node);
    m' := m[name := node];
  }

  /** Registers a new node under `name` unless one is registered there already. */
  method RegisterIfAbsent(m: map<string, GraphNode>, name: string) returns (m': map<string, GraphNode>)
    requires Blank(m)
    ensures m'.Keys == m.Keys + {name}
    ensures forall u :: u in m ==> m'[u] == m[u]
    ensures name !in m ==> fresh(m'[name])
    ensures Blank(m')
  {
    m' := m;
    if name !in m {
      var node;
      m', node := RegisterNew(m, name);
    }
  }

  /** The graph value that a name -> node map denotes. */
  ghost function View(m: map<string, GraphNode>): (g: Graph)
    reads m.Values
    ensures g.Keys == m.Keys
  {
    map u | u in m :: m[u].Latencies()
  }

  /** In a well-formed map, the view is closed under edges and its children are the node's keys. */
  lemma ViewClosed(m: map<string, GraphNode>, u: string)
    requires WellFormed(m) && u in m
    ensures Children(View(m), u) == m[u].dependentNodes.Keys
    ensures Children(View(m), u) <= View(m).Keys
  {
  }

  /** Blankness, closedness and the view of a map depend on nothing but its nodes. */
  twostate lemma NodesUnchanged(m: map<string, GraphNode>)
    requires forall u :: u in m ==> unchanged(m[u])
    ensures old(Blank(m)) ==> Blank(m)
    ensures old(WellFormed(m)) ==> WellFormed(m)
    ensures old(View(m)) == View(m)
  {
  }

  /** An edge of the view is an entry of the node's map, leading to the node stored under its name. */
  lemma ViewEdge(m: map<string, GraphNode>, u: string, c: string)
    requires WellFormed(m) && u in m
    ensures HasEdge(View(m), u, c) <==> c in m[u].dependentNodes
    ensures c in m[u].dependentNodes ==>
              && c in m
              && m[c].name == c
              && m[u].dependentNodes[c].target == m[c]
              && View(m)[u][c] == m[u].dependentNodes[c].latency
  {
  }
}
