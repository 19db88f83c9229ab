/**
 * The tree-node variant of graph assembly: the same two passes as GraphServiceImpl, but it
 * returns the node created for the first tuple's parent rather than the name -> node map.
 */
module GraphService {
  import opened Wrappers
  import opened GraphTuples
  import opened GraphNodes
  import opened GraphServiceImpl

  /**
   * The first tuple registers a new node for its parent, which becomes the root, and then a new
   * node for its child; for a self-loop the second replaces the root in the map.
   */
  method RegisterFirst(t: GraphTuple) returns (m: map<string, GraphNode>, root: GraphNode)
    ensures m.Keys == {t.parentName, t.childName}
    ensures forall u :: u in m ==> fresh(m[u])
    ensures Blank(m)
    ensures fresh(root) && root.name == t.parentName && root.dependentNodes == map[]
    ensures t.parentName != t.childName ==> m[t.parentName] == root
    ensures t.parentName == t.childName ==> root !in m.Values
  {
    var child;
    m, root := RegisterNew(map[], t.parentName);
    m, child := RegisterNew(m, t.childName);
  }

  /**
   * The first pass: a node for every name, the first tuple's parent node kept as the root.
   */
  method RegisterNodes(tuples: seq<GraphTuple>) returns (lookupMap: map<string, GraphNode>, graphNode: Option<GraphNode>)
    ensures lookupMap.Keys == Names(tuples)
    ensures forall u :: u in lookupMap ==> fresh(lookupMap[u])
    ensures Blank(lookupMap)
    ensures graphNode.None? <==> tuples == []
    ensures graphNode.Some? ==>
              && fresh(graphNode.value)
              && graphNode.value.name == tuples[0].parentName
              && graphNode.value.dependentNodes == map[]
              && tuples[0].parentName in lookupMap
    ensures graphNode.Some? && tuples[0].parentName != tuples[0].childName ==>
              lookupMap[tuples[0].parentName] == graphNode.value
    ensures graphNode.Some? && tuples[0].parentName == tuples[0].childName ==>
              graphNode.value !in lookupMap.Values
  {
    lookupMap, graphNode := map[], None;
    for i := 0 to |tuples|
      invariant lookupMap.Keys == Names(tuples[..i])
      invariant forall u :: u in lookupMap ==> fresh(lookupMap[u])
      invariant Blank(lookupMap)
      invariant graphNode.None? <==> i == 0
      invariant graphNode.Some? ==>
                  && fresh(graphNode.value)
                  && graphNode.value.name == tuples[0].parentName
                  && graphNode.value.dependentNodes == map[]
      invariant graphNode.Some? ==> tuples[0].parentName in lookupMap
      invariant graphNode.Some? && tuples[0].parentName != tuples[0].childName ==>
                  lookupMap[tuples[0].parentName] == graphNode.value
      invariant graphNode.Some? && tuples[0].parentName == tuples[0].childName ==>
                  graphNode.value !in lookupMap.Values
    {
      var t := tuples[i];
      NamesSnoc(tuples, i);
      if graphNode.None? {
        var root;
        lookupMap, root := RegisterFirst(t);
        graphNode := Some(root);
      } else {
        lookupMap := RegisterIfAbsent(lookupMap, t.parentName);
        lookupMap := RegisterIfAbsent(lookupMap, t.childName);
      }
    }
    assert tuples[..|tuples|] == tuples;
  }

  /**
   * Returns the node created for the first tuple's parent (None, Java's null, for no tuples).
   * The internal name -> node map is returned as the ghost `registry`. When the first tuple is
   * a self-loop, registering its child replaces the root in the map, so the root is left
   * without edges.
   */
  method ConstructTreeNodeFromFile(tuples: seq<GraphTuple>)
    returns (root: Option<GraphNode>, ghost registry: map<string, GraphNode>)
    ensures root.None? <==> tuples == []
    ensures registry.Keys == Names(tuples)
    ensures forall u :: u in registry ==> fresh(registry[u])
    ensures WellFormed(registry)
    ensures View(registry) == GraphOf(tuples)
    ensures root.Some? ==> fresh(root.value) && root.value.name == tuples[0].parentName
    ensures root.Some? ==> tuples[0].parentName in registry
    ensures root.Some? && tuples[0].parentName != tuples[0].childName ==>
              && root.value == registry[tuples[0].parentName]
              && root.value.Latencies() == GraphOf(tuples)[tuples[0].parentName]
    ensures root.Some? && tuples[0].parentName == tuples[0].childName ==>
              root.value !in registry.Values && root.value.dependentNodes == map[]
  {
    var lookupMap, graphNode := RegisterNodes(tuples);
    WireEdges(lookupMap, tuples);
    ViewIsGraphOf(lookupMap, tuples);
    root, registry := graphNode, lookupMap;
  }
}
