/** The correlation graph: stored nodes, edges in the order they were added, and two breadth-first searches
    over them. */
module CorrelationGraph {
  import opened GraphSearch
  import opened GraphTraversal
  import opened GraphDepth

  class CorrelationGraph {
    var nodes: map<string, Node>
    var edges: seq<Edge>
    var edgeCounter: nat

    /** Nodes are stored under their own id; edge ids count up from one in the order of adding. */
    ghost predicate Valid()
      reads this
    {
      && Named(nodes)
      && edgeCounter == |edges| && forall i :: 0 <= i < |edges| ==> edges[i].id == i + 1
    }

    constructor ()
      ensures Valid() && nodes == map[] && edges == []
    {
      nodes, edges, edgeCounter := map[], [], 0;
    }

    method AddNode(id: string, nodeLabel: string, nodeType: string) returns (node: Node)
      requires Valid()
      modifies this`nodes
      ensures Valid() && node == Node(id, nodeLabel, nodeType) && nodes == old(nodes)[id := node]
    {
      node := Node(id, nodeLabel, nodeType);
      nodes := nodes[id := node];
    }

    method AddEdge(source: string, target: string, edgeType: string) returns (edge: Edge)
      requires Valid()
      modifies this`edges, this`edgeCounter
      ensures Valid() && edges == old(edges) + [edge]
      ensures edge.source == source && edge.target == target && edge.edgeType == edgeType
      ensures forall e :: e in old(edges) ==> e.id != edge.id
    {
      edgeCounter := edgeCounter + 1;
      edge := Edge(edgeCounter, source, target, edgeType);
      edges := edges + [edge];
    }

    method Clear()
      modifies this
      ensures Valid() && nodes == map[] && edges == []
    {
      nodes, edges, edgeCounter := map[], [], 0;
    }

    /** The search ends on every graph, and its answer is a shortest walk if there is any. */
    method FindPath(fromId: string, toId: string) returns (path: seq<Edge>)
      ensures ShortestWalk(edges, fromId, toId, path)
    {
      hide *;
      var visited: set<string> := {};
      var queue: seq<Entry> := [(fromId, [])];
      SearchStart(edges, fromId, toId);
      while queue != []
        invariant SearchState(edges, fromId, toId, visited, queue)
        decreases |Names(edges, fromId) - visited|, |queue|
      {
        var front := queue[0];
        var current := front.0;
        path := front.1;
        if current == toId {
          FrontIsShortest(edges, fromId, toId, visited, queue);
          return;
        }
        if current in visited {
          DropStep(edges, fromId, toId, visited, queue);
          queue := queue[1..];
          continue;
        }
        FrontIsName(edges, fromId, toId, visited, queue);
        VisitedGrows(edges, fromId, visited, current);
        GrowStep(edges, fromId, toId, visited, queue);
        visited := visited + {current};
        var more := ExpandPath(edges, current, path, visited);
        queue := queue[1..] + more;
      }
      SearchFails(edges, fromId, toId, visited);
      return [];
    }

    /** The limit on the depth also limits the number of nodes returned: they are the nearest ones within the depth. */
    method TraverseFrom(nodeId: string, maxDepth: int) returns (result: seq<Node>)
      ensures Traversed(edges, nodeId, nodes, maxDepth, result)
      ensures TraversedWithin(edges, nodeId, nodes, maxDepth, result)
    {
      hide *;
      var visited: set<string> := {};
      result := [];
      var queue: seq<Visit> := [(nodeId, 0)];
      TraverseStart(edges, nodeId, nodes, maxDepth);
      OrderStart(edges, nodeId, maxDepth);
      DepthStart(edges, nodeId, maxDepth);
      NothingFirst(edges, nodeId, nodes);
      while queue != [] && |result| < maxDepth
        invariant TraverseState(edges, nodeId, nodes, maxDepth, visited, queue, result)
        invariant OrderState(edges, nodeId, maxDepth, visited, queue) && NearestFirst(edges, nodeId, nodes, result)
        invariant DepthState(edges, nodeId, maxDepth, visited, queue)
        decreases |Names(edges, nodeId) - visited|, |queue|
      {
        var (current, depth) := queue[0];
        if current in visited || depth > maxDepth {
          SkipStep(edges, nodeId, nodes, maxDepth, visited, queue, result);
          DepthSkip(edges, nodeId, maxDepth, visited, queue);
          OrderSkip(edges, nodeId, maxDepth, visited, queue);
          queue := queue[1..];
          continue;
        }
        VisitIsName(edges, nodeId, nodes, maxDepth, visited, queue, result);
        VisitedGrows(edges, nodeId, visited, current);
        VisitStep(edges, nodeId, nodes, maxDepth, visited, queue, result);
        DepthVisit(edges, nodeId, maxDepth, visited, queue);
        OrderVisit(edges, nodeId, maxDepth, visited, queue);
        if current in nodes {
          TraverseLists(edges, nodeId, nodes, maxDepth, visited, queue, result);
          FrontIsNearest(edges, nodeId, nodes, maxDepth, visited, queue, result);
          NearestGrows(edges, nodeId, nodes, result, nodes[current]);
        }
        visited := visited + {current};
        if current in nodes {
          result := result + [nodes[current]];
        }
        var more := ExpandVisit(edges, current, depth, visited);
        queue := queue[1..] + more;
      }
      TraverseEnd(edges, nodeId, nodes, maxDepth, visited, queue, result);
      TraverseLists(edges, nodeId, nodes, maxDepth, visited, queue, result);
      AtMostDepth(edges, nodeId, nodes, maxDepth, result);
      DepthEnd(edges, nodeId, nodes, maxDepth, visited, queue, result);
    }
  }
}
