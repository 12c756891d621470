/** What the depth test of the traversal does: exactly the stored nodes within the depth are met. */
module GraphDepth {
  import opened FiniteSets
  import opened GraphSearch
  import opened GraphTraversal
  import opened RawImage

  /** `v` can be reached in at most `most` steps. */
  ghost predicate WithinSteps(edges: seq<Edge>, start: string, v: string, most: int)
  {
    exists path :: Reaches(edges, start, path, v) && |path| <= most
  }

  ghost function Near(edges: seq<Edge>, start: string, most: int): set<string>
  {
    set v | v in Names(edges, start) && WithinSteps(edges, start, v, most)
  }

  /** The nearest stored nodes within the depth, each once: all of them, or as many as the limit allows. */
  ghost predicate TraversedWithin(edges: seq<Edge>, start: string, nodes: map<string, Node>, maxDepth: int,
                                  result: seq<Node>)
  {
    var stored := Near(edges, start, maxDepth) * nodes.Keys;
    && |result| == Min(Max(0, maxDepth), |stored|)
    && (exists met :: met <= stored && Lists(result, met, nodes))
    && (|stored| <= maxDepth ==> Lists(result, stored, nodes))
    && NearestFirst(edges, start, nodes, result)
  }

  /** Only nodes within the depth are visited, and once nothing within it waits, all of them are. */
  ghost predicate DepthState(edges: seq<Edge>, start: string, maxDepth: int, visited: set<string>, queue: seq<Visit>)
  {
    && (forall v :: v in visited ==> v in Names(edges, start) && WithinSteps(edges, start, v, maxDepth))
    && (queue == [] || queue[0].1 > maxDepth ==> AllMet(edges, start, maxDepth, visited))
  }

  ghost predicate AllMet(edges: seq<Edge>, start: string, maxDepth: int, visited: set<string>)
  {
    forall path, v :: Reaches(edges, start, path, v) && |path| <= maxDepth ==> v in visited
  }

  lemma DepthStart(edges: seq<Edge>, start: string, maxDepth: int)
    ensures DepthState(edges, start, maxDepth, {}, [(start, 0)])
  {}

  /** Where the levels stand once the front has been dealt with says what has been met. */
  lemma LevelMeets(edges: seq<Edge>, start: string, maxDepth: int, visited: set<string>, queue: seq<Visit>)
    requires LevelState(edges, start, visited, queue) && (queue == [] || queue[0].1 > maxDepth)
    ensures AllMet(edges, start, maxDepth, visited)
  {
    hide Reaches;
    forall path, v | Reaches(edges, start, path, v) && |path| <= maxDepth ensures v in visited {
      if queue == [] { ReachedVisited(edges, start, visited, path, v); }
    }
  }

  lemma DepthSkip(edges: seq<Edge>, start: string, maxDepth: int, visited: set<string>, queue: seq<Visit>)
    requires OrderState(edges, start, maxDepth, visited, queue) && queue != []
    requires queue[0].0 in visited || queue[0].1 > maxDepth
    requires DepthState(edges, start, maxDepth, visited, queue)
    ensures DepthState(edges, start, maxDepth, visited, queue[1..])
  {
    hide LevelState, AllMet, WithinSteps;
    if queue[0].1 <= maxDepth {
      LevelStep(edges, start, visited, queue, visited, []);
      assert queue[1..] + [] == queue[1..];
      if queue[1..] == [] || queue[1..][0].1 > maxDepth { LevelMeets(edges, start, maxDepth, visited, queue[1..]); }
    }
  }

  lemma DepthVisit(edges: seq<Edge>, start: string, maxDepth: int, visited: set<string>, queue: seq<Visit>)
    requires OrderState(edges, start, maxDepth, visited, queue) && queue != []
    requires queue[0].0 !in visited && queue[0].1 <= maxDepth && queue[0].0 in Names(edges, start)
    requires DepthState(edges, start, maxDepth, visited, queue)
    ensures var (current, depth) := queue[0];
      DepthState(edges, start, maxDepth, visited + {current},
                 queue[1..] + NextVisits(edges, |edges|, current, depth, visited + {current}))
  {
    hide AllMet, WithinSteps, NextVisits, Names;
    var (current, depth) := queue[0];
    var visited' := visited + {current};
    var more := NextVisits(edges, |edges|, current, depth, visited');
    FrontWithin(edges, start, maxDepth, visited, queue);
    LevelStep(edges, start, visited, queue, visited', more);
    hide LevelState;
    var grown := queue[1..] + more;
    if grown == [] || grown[0].1 > maxDepth { LevelMeets(edges, start, maxDepth, visited', grown); }
  }

  lemma FrontWithin(edges: seq<Edge>, start: string, maxDepth: int, visited: set<string>, queue: seq<Visit>)
    requires queue != [] && LevelState(edges, start, visited, queue) && queue[0].1 <= maxDepth
    ensures WithinSteps(edges, start, queue[0].0, maxDepth)
  {
    assert queue[0] in queue && AtDepth(edges, start, queue[0].0, queue[0].1);
  }

  lemma DepthEnd(edges: seq<Edge>, start: string, nodes: map<string, Node>, maxDepth: int, visited: set<string>,
                 queue: seq<Visit>, result: seq<Node>)
    requires DepthState(edges, start, maxDepth, visited, queue) && (queue == [] || |result| >= maxDepth)
    requires Lists(result, visited, nodes) && |result| <= Max(0, maxDepth) && NearestFirst(edges, start, nodes, result)
    ensures TraversedWithin(edges, start, nodes, maxDepth, result)
  {
    hide Lists, NearestFirst, Names;
    var near, met := Near(edges, start, maxDepth), visited * nodes.Keys;
    var stored := near * nodes.Keys;
    assert met <= stored;
    if queue == [] {
      forall v | v in near ensures v in visited {
        var path :| Reaches(edges, start, path, v) && |path| <= maxDepth;
      }
      assert met == stored;
    }
    hide WithinSteps, AllMet, Near;
    ListsStored(result, visited, nodes);
    SubsetSize(met, stored);
  }

  lemma AtMostDepth(edges: seq<Edge>, start: string, nodes: map<string, Node>, maxDepth: int, result: seq<Node>)
    requires Traversed(edges, start, nodes, maxDepth, result)
    ensures |result| <= Max(0, maxDepth)
  {}

  /** Names that are not stored make no difference to a listing. */
  lemma ListsStored(result: seq<Node>, names: set<string>, nodes: map<string, Node>)
    requires Lists(result, names, nodes)
    ensures |result| == |names * nodes.Keys| && Lists(result, names * nodes.Keys, nodes)
  {
    var stored := names * nodes.Keys;
    assert stored * nodes.Keys == stored;
    forall n | n in result ensures ListedAs(n, stored, nodes) {
      assert ListedAs(n, names, nodes);
      var v :| v in names && v in nodes && nodes[v] == n;
      assert v in stored;
    }
  }
}
