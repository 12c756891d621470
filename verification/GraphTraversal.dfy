/** Traversal of the correlation graph: the component of a node, in order of distance. */
module GraphTraversal {
  import opened FiniteSets
  import opened GraphSearch
  import opened RawImage

  /** `v` can be reached from `start` without stepping onto the empty name, which the search takes for no neighbour. */
  ghost predicate Reaches(edges: seq<Edge>, start: string, path: seq<Edge>, v: string)
    decreases |path|
  {
    if path == [] then start == v
    else
      var last := path[|path| - 1];
      v != "" && last in edges && Touches(last, v) && Reaches(edges, start, path[..|path| - 1], Other(last, v))
  }

  /** None of the names behind the first is empty. */
  predicate NoneEmpty(stops: seq<string>) { forall i :: 0 < i < |stops| ==> stops[i] != "" }

  lemma NoneEmptyMore(stops: seq<string>, v: string)
    requires stops != []
    ensures NoneEmpty(stops + [v]) <==> NoneEmpty(stops) && v != ""
  {
    assert (stops + [v])[|stops|] == v;
    if NoneEmpty(stops + [v]) {
      forall i | 0 < i < |stops| ensures stops[i] != "" { assert (stops + [v])[i] == stops[i]; }
    }
  }

  lemma {:induction false} StopsOf(edges: seq<Edge>, start: string, path: seq<Edge>, v: string)
    returns (stops: seq<string>)
    requires Reaches(edges, start, path, v)
    ensures Passes(edges, stops, path) && stops[0] == start && stops[|path|] == v && NoneEmpty(stops)
    decreases |path|
  {
    if path == [] {
      stops := [v];
    } else {
      hide Passes, Touches, Other, NoneEmpty;
      var n := |path| - 1;
      assert path == path[..n] + [path[n]];
      stops := StopsOf(edges, start, path[..n], Other(path[n], v));
      PassesMore(edges, stops, path[..n], path[n], v);
      PassesLength(edges, stops, path[..n]);
      NoneEmptyMore(stops, v);
      stops := stops + [v];
    }
  }

  lemma {:induction false} StopsReach(edges: seq<Edge>, stops: seq<string>, path: seq<Edge>)
    requires Passes(edges, stops, path) && NoneEmpty(stops)
    ensures Reaches(edges, stops[0], path, stops[|path|])
    decreases |path|
  {
    if path == [] {
    } else {
      hide Passes, Touches, Other, NoneEmpty;
      var n := |path| - 1;
      PassesLength(edges, stops, path);
      PassesLess(edges, stops, path);
      assert stops == stops[..n + 1] + [stops[n + 1]];
      NoneEmptyMore(stops[..n + 1], stops[n + 1]);
      StopsReach(edges, stops[..n + 1], path[..n]);
    }
  }

  /** The same walk by the names it passes: it is one that never steps onto the empty name. */
  lemma ReachesIff(edges: seq<Edge>, start: string, path: seq<Edge>, v: string)
    ensures Reaches(edges, start, path, v) <==>
      exists stops :: Passes(edges, stops, path) && stops[0] == start && stops[|path|] == v && NoneEmpty(stops)
  {
    hide Reaches, NoneEmpty;
    if Reaches(edges, start, path, v) {
      var stops := StopsOf(edges, start, path, v);
    }
    if stops :| Passes(edges, stops, path) && stops[0] == start && stops[|path|] == v && NoneEmpty(stops) {
      StopsReach(edges, stops, path);
    }
  }

  ghost predicate InComponent(edges: seq<Edge>, start: string, v: string)
  {
    exists path :: Reaches(edges, start, path, v)
  }

  ghost function Component(edges: seq<Edge>, start: string): set<string>
  {
    set v | v in Names(edges, start) && InComponent(edges, start, v)
  }

  lemma ComponentStep(edges: seq<Edge>, start: string, u: string, e: Edge)
    requires u in Component(edges, start) && e in edges && Touches(e, u) && Other(e, u) != ""
    ensures Other(e, u) in Component(edges, start)
  {
    var path :| Reaches(edges, start, path, u);
    assert (path + [e])[..|path|] == path;
    assert Reaches(edges, start, path + [e], Other(e, u));
  }

  lemma StartInComponent(edges: seq<Edge>, start: string)
    ensures start in Component(edges, start)
  {
    assert Reaches(edges, start, [], start);
  }

  type Visit = (string, int)

  function NextVisits(edges: seq<Edge>, n: nat, current: string, depth: int, visited: set<string>): seq<Visit>
    requires n <= |edges|
  {
    if n == 0 then []
    else (
      var rest := NextVisits(edges, n - 1, current, depth, visited);
      var e := edges[n - 1];
      if Touches(e, current) && Other(e, current) != "" && Other(e, current) !in visited
      then rest + [(Other(e, current), depth + 1)] else rest
    )
  }

  lemma {:induction false} NextVisitsSound(edges: seq<Edge>, n: nat, current: string, depth: int,
                                           visited: set<string>, start: string)
    requires n <= |edges| && current in Component(edges, start)
    ensures forall q :: q in NextVisits(edges, n, current, depth, visited) ==>
      q.0 in Component(edges, start) && q.1 == depth + 1
  {
    hide Component;
    if n == 0 {
    } else {
      NextVisitsSound(edges, n - 1, current, depth, visited, start);
      var e := edges[n - 1];
      if Touches(e, current) && Other(e, current) != "" { ComponentStep(edges, start, current, e); }
    }
  }

  lemma {:induction false} NextVisitsComplete(edges: seq<Edge>, n: nat, current: string, depth: int,
                                              visited: set<string>, i: nat)
    requires i < n <= |edges| && Touches(edges[i], current) && Other(edges[i], current) != ""
      && Other(edges[i], current) !in visited
    ensures (Other(edges[i], current), depth + 1) in NextVisits(edges, n, current, depth, visited)
  {
    if i >= n - 1 {
    } else {
      NextVisitsComplete(edges, n - 1, current, depth, visited, i);
    }
  }

  ghost predicate AwaitsVisit(queue: seq<Visit>, v: string) { exists i :: 0 <= i < |queue| && queue[i].0 == v }

  ghost predicate VisitsClosed(edges: seq<Edge>, start: string, visited: set<string>, queue: seq<Visit>)
  {
    && (start in visited || AwaitsVisit(queue, start))
    && forall e, u :: e in edges && u in visited && Touches(e, u) && Other(e, u) != "" ==>
         Other(e, u) in visited || AwaitsVisit(queue, Other(e, u))
  }

  /** The depth cut-off cannot bite: the component is small enough, or every node met is counted. */
  ghost predicate DepthHarmless(edges: seq<Edge>, start: string, nodes: map<string, Node>, maxDepth: int)
  {
    |Component(edges, start)| <= maxDepth || Component(edges, start) <= nodes.Keys
  }

  ghost predicate TraverseState(edges: seq<Edge>, start: string, nodes: map<string, Node>, maxDepth: int,
                                visited: set<string>, queue: seq<Visit>, result: seq<Node>)
  {
    && visited <= Component(edges, start)
    && (forall q :: q in queue ==> q.0 in Component(edges, start) && q.1 <= |visited|)
    && Lists(result, visited, nodes)
    && (DepthHarmless(edges, start, nodes, maxDepth) ==> VisitsClosed(edges, start, visited, queue))
    && |result| <= Max(0, maxDepth)
  }

  /** `result` lists the stored nodes among `names`, each once. */
  ghost predicate Lists(result: seq<Node>, names: set<string>, nodes: map<string, Node>)
  {
    && |result| == |names * nodes.Keys|
    && (forall n :: n in result ==> ListedAs(n, names, nodes))
    && (forall v :: v in names && v in nodes ==> nodes[v] in result)
    && (Named(nodes) ==> forall i, j :: 0 <= i < j < |result| ==> result[i] != result[j])
  }

  /** Every node is stored under its own id. */
  ghost predicate Named(nodes: map<string, Node>)
  {
    forall id :: id in nodes ==> nodes[id].id == id
  }

  ghost predicate ListedAs(n: Node, names: set<string>, nodes: map<string, Node>)
  {
    exists v :: v in names && v in nodes && nodes[v] == n
  }

  lemma TraverseStart(edges: seq<Edge>, start: string, nodes: map<string, Node>, maxDepth: int)
    ensures TraverseState(edges, start, nodes, maxDepth, {}, [(start, 0)], [])
  {
    StartInComponent(edges, start);
    var queue: seq<Visit> := [(start, 0)];
    assert queue[0] == (start, 0) && AwaitsVisit(queue, start);
    assert {} * nodes.Keys == {};
  }

  lemma ListsMore(result: seq<Node>, names: set<string>, nodes: map<string, Node>, v: string)
    requires Lists(result, names, nodes) && v !in names
    ensures Lists(if v in nodes then result + [nodes[v]] else result, names + {v}, nodes)
  {
    if v in nodes {
      ListsOneMore(result, names, nodes, v);
    } else {
      assert (names + {v}) * nodes.Keys == names * nodes.Keys;
      forall n | n in result
        ensures ListedAs(n, names + {v}, nodes)
      {
        ListedStill(n, names, nodes, v);
      }
    }
  }

  lemma ListsOneMore(result: seq<Node>, names: set<string>, nodes: map<string, Node>, v: string)
    requires Lists(result, names, nodes) && v !in names && v in nodes
    ensures Lists(result + [nodes[v]], names + {v}, nodes)
  {
    hide ListedAs, Named;
    var more := result + [nodes[v]];
    assert (names + {v}) * nodes.Keys == names * nodes.Keys + {v};
    assert more[|result|] == nodes[v];
    assert forall n :: n in more <==> n in result || n == nodes[v];
    AsItself(names + {v}, nodes, v);
    forall n | n in result
      ensures ListedAs(n, names + {v}, nodes)
    {
      ListedStill(n, names, nodes, v);
    }
    if Named(nodes) {
      forall i, j | 0 <= i < j < |more|
        ensures more[i] != more[j]
      {
        assert more[i] == result[i] && result[i] in result;
        if j == |result| { NotListed(result[i], names, nodes, v); }
      }
    }
  }

  lemma AsItself(names: set<string>, nodes: map<string, Node>, v: string)
    requires v in names && v in nodes
    ensures ListedAs(nodes[v], names, nodes)
  {}

  lemma NotListed(n: Node, names: set<string>, nodes: map<string, Node>, v: string)
    requires Named(nodes) && ListedAs(n, names, nodes) && v !in names && v in nodes
    ensures n != nodes[v]
  {}

  lemma ListedStill(n: Node, names: set<string>, nodes: map<string, Node>, v: string)
    requires ListedAs(n, names, nodes)
    ensures ListedAs(n, names + {v}, nodes)
  {}

  /** An unvisited node at the front is within depth, as long as the result is not full. */
  lemma FrontWithinDepth(edges: seq<Edge>, start: string, nodes: map<string, Node>, maxDepth: int,
                         visited: set<string>, queue: seq<Visit>, result: seq<Node>)
    requires TraverseState(edges, start, nodes, maxDepth, visited, queue, result)
    requires queue != [] && queue[0].0 !in visited && |result| < maxDepth
      && DepthHarmless(edges, start, nodes, maxDepth)
    ensures queue[0].1 <= maxDepth
  {
    hide Component, VisitsClosed;
    assert queue[0] in queue;
    SubsetSize(visited, Component(edges, start));
    if Component(edges, start) <= nodes.Keys {
      assert visited * nodes.Keys == visited;
    }
  }

  lemma SkipStep(edges: seq<Edge>, start: string, nodes: map<string, Node>, maxDepth: int,
                 visited: set<string>, queue: seq<Visit>, result: seq<Node>)
    requires TraverseState(edges, start, nodes, maxDepth, visited, queue, result) && queue != [] && |result| < maxDepth
    requires queue[0].0 in visited || queue[0].1 > maxDepth
    ensures TraverseState(edges, start, nodes, maxDepth, visited, queue[1..], result)
  {
    hide Component, Lists;
    if DepthHarmless(edges, start, nodes, maxDepth) {
      if queue[0].0 !in visited {
        FrontWithinDepth(edges, start, nodes, maxDepth, visited, queue, result);
      }
      hide DepthHarmless;
      forall v | AwaitsVisit(queue, v) && v !in visited
        ensures AwaitsVisit(queue[1..], v)
      {
        var i :| 0 <= i < |queue| && queue[i].0 == v;
        assert i > 0 && queue[1..][i - 1] == queue[i];
      }
    }
  }

  lemma VisitStep(edges: seq<Edge>, start: string, nodes: map<string, Node>, maxDepth: int,
                  visited: set<string>, queue: seq<Visit>, result: seq<Node>)
    requires TraverseState(edges, start, nodes, maxDepth, visited, queue, result) && queue != [] && |result| < maxDepth
    requires queue[0].0 !in visited
    ensures var (current, depth) := queue[0];
      TraverseState(edges, start, nodes, maxDepth, visited + {current},
                    queue[1..] + NextVisits(edges, |edges|, current, depth, visited + {current}),
                    if current in nodes then result + [nodes[current]] else result)
  {
    hide Component, Lists, DepthHarmless;
    var (current, depth) := queue[0];
    var visited' := visited + {current};
    var more := NextVisits(edges, |edges|, current, depth, visited');
    assert queue[0] in queue;
    NextVisitsSound(edges, |edges|, current, depth, visited', start);
    ListsMore(result, visited, nodes, current);
    assert |visited'| == |visited| + 1;
    forall q | q in queue[1..] + more
      ensures q.0 in Component(edges, start) && q.1 <= |visited'|
    {
      assert q in queue || q in more;
    }
    if DepthHarmless(edges, start, nodes, maxDepth) {
      VisitClosed(edges, start, visited, queue, more);
    }
  }

  lemma VisitClosed(edges: seq<Edge>, start: string, visited: set<string>, queue: seq<Visit>, more: seq<Visit>)
    requires VisitsClosed(edges, start, visited, queue) && queue != []
    requires more == NextVisits(edges, |edges|, queue[0].0, queue[0].1, visited + {queue[0].0})
    ensures VisitsClosed(edges, start, visited + {queue[0].0}, queue[1..] + more)
  {
    hide AwaitsVisit, NextVisits;
    var (current, depth) := queue[0];
    var visited' := visited + {current};
    forall v | AwaitsVisit(queue, v) && v !in visited' ensures AwaitsVisit(queue[1..] + more, v) {
      StillAwaits(queue, more, v);
    }
    forall e | e in edges && Touches(e, current) && Other(e, current) != "" && Other(e, current) !in visited'
      ensures AwaitsVisit(queue[1..] + more, Other(e, current))
    {
      NeighbourAwaits(edges, visited', queue, more, e);
    }
  }

  lemma StillAwaits(queue: seq<Visit>, more: seq<Visit>, v: string)
    requires queue != [] && AwaitsVisit(queue, v) && v != queue[0].0
    ensures AwaitsVisit(queue[1..] + more, v)
  {
    var i :| 0 <= i < |queue| && queue[i].0 == v;
    assert i > 0 && (queue[1..] + more)[i - 1] == queue[i];
  }

  lemma NeighbourAwaits(edges: seq<Edge>, visited: set<string>, queue: seq<Visit>, more: seq<Visit>, e: Edge)
    requires queue != [] && more == NextVisits(edges, |edges|, queue[0].0, queue[0].1, visited)
    requires e in edges && Touches(e, queue[0].0) && Other(e, queue[0].0) != "" && Other(e, queue[0].0) !in visited
    ensures AwaitsVisit(queue[1..] + more, Other(e, queue[0].0))
  {
    hide NextVisits;
    var (current, depth) := queue[0];
    var k :| 0 <= k < |edges| && edges[k] == e;
    NextVisitsComplete(edges, |edges|, current, depth, visited, k);
    var j :| 0 <= j < |more| && more[j] == (Other(e, current), depth + 1);
    assert (queue[1..] + more)[|queue| - 1 + j] == more[j];
  }

  /** Closed under neighbours, the visited nodes are the component. */
  lemma {:induction false} ReachedVisited(edges: seq<Edge>, start: string, visited: set<string>, path: seq<Edge>,
                                          v: string)
    requires VisitsClosed(edges, start, visited, []) && Reaches(edges, start, path, v)
    ensures v in visited
    decreases |path|
  {
    assert !AwaitsVisit([], v) && !AwaitsVisit([], start);
    if path == [] {
    } else {
      var last := path[|path| - 1];
      var u := Other(last, v);
      ReachedVisited(edges, start, visited, path[..|path| - 1], u);
      assert Touches(last, u) && Other(last, u) == v;
    }
  }

  // ---- nearest nodes first ----

  ghost predicate AtDepth(edges: seq<Edge>, start: string, v: string, d: int)
  {
    exists path :: Reaches(edges, start, path, v) && |path| == d
  }

  ghost predicate DepthsAscend(queue: seq<Visit>) { forall i, j :: 0 <= i < j < |queue| ==> queue[i].1 <= queue[j].1 }

  /** Visits wait at depths at which their nodes can be reached, no two more than one step apart. */
  ghost predicate VisitsSound(edges: seq<Edge>, start: string, queue: seq<Visit>)
  {
    && DepthsAscend(queue)
    && (forall q :: q in queue ==> AtDepth(edges, start, q.0, q.1) && q.1 <= queue[0].1 + 1)
  }

  ghost predicate VisitedBelow(edges: seq<Edge>, start: string, visited: set<string>, d: int)
  {
    forall path, v :: Reaches(edges, start, path, v) && |path| < d ==> v in visited
  }

  ghost predicate VisitedOrWaiting(edges: seq<Edge>, start: string, visited: set<string>, queue: seq<Visit>, d: int)
  {
    forall path, v :: Reaches(edges, start, path, v) && |path| == d ==> v in visited || (v, d) in queue
  }

  /** Everything nearer than the front is visited; everything as near as the front is visited or waits. */
  ghost predicate LevelState(edges: seq<Edge>, start: string, visited: set<string>, queue: seq<Visit>)
  {
    && VisitsSound(edges, start, queue) && VisitsClosed(edges, start, visited, queue)
    && (queue != [] ==> VisitedBelow(edges, start, visited, queue[0].1)
                        && VisitedOrWaiting(edges, start, visited, queue, queue[0].1))
  }

  /** As long as the depth test has dropped nothing but visited nodes.  Once it does, it drops all that is left. */
  ghost predicate OrderState(edges: seq<Edge>, start: string, maxDepth: int, visited: set<string>, queue: seq<Visit>)
  {
    DepthsAscend(queue) && (queue != [] && queue[0].1 <= maxDepth ==> LevelState(edges, start, visited, queue))
  }

  lemma OrderStart(edges: seq<Edge>, start: string, maxDepth: int)
    ensures OrderState(edges, start, maxDepth, {}, [(start, 0)])
  {
    var queue: seq<Visit> := [(start, 0)];
    assert Reaches(edges, start, [], start) && queue[0] == (start, 0) && AwaitsVisit(queue, start);
  }

  lemma {:induction false} NextVisitsDepth(edges: seq<Edge>, n: nat, current: string, depth: int, visited: set<string>,
                                           start: string)
    requires n <= |edges| && AtDepth(edges, start, current, depth)
    ensures forall q :: q in NextVisits(edges, n, current, depth, visited) ==>
      q.1 == depth + 1 && AtDepth(edges, start, q.0, q.1)
  {
    hide AtDepth;
    if n == 0 {
    } else {
      NextVisitsDepth(edges, n - 1, current, depth, visited, start);
      var e := edges[n - 1];
      if Touches(e, current) && Other(e, current) != "" { DepthStep(edges, start, current, depth, e); }
    }
  }

  lemma DepthStep(edges: seq<Edge>, start: string, u: string, depth: int, e: Edge)
    requires AtDepth(edges, start, u, depth) && e in edges && Touches(e, u) && Other(e, u) != ""
    ensures AtDepth(edges, start, Other(e, u), depth + 1)
  {
    var path :| Reaches(edges, start, path, u) && |path| == depth;
    assert (path + [e])[..|path|] == path;
    assert Reaches(edges, start, path + [e], Other(e, u)) && |path + [e]| == depth + 1;
  }

  /** The front was visited before and nothing new waits, or it is visited now and its neighbours wait. */
  ghost predicate Taken(edges: seq<Edge>, visited: set<string>, queue: seq<Visit>, visited': set<string>,
                        more: seq<Visit>)
    requires queue != []
  {
    var (current, depth) := queue[0];
    || (current in visited && visited' == visited && more == [])
    || (current !in visited && visited' == visited + {current}
      && more == NextVisits(edges, |edges|, current, depth, visited'))
  }

  lemma MoreIsNext(edges: seq<Edge>, start: string, visited: set<string>, queue: seq<Visit>,
                   visited': set<string>, more: seq<Visit>)
    requires queue != [] && VisitsSound(edges, start, queue) && Taken(edges, visited, queue, visited', more)
    ensures visited <= visited' && queue[0].0 in visited'
    ensures forall q :: q in more ==> q.1 == queue[0].1 + 1 && AtDepth(edges, start, q.0, q.1)
  {
    hide AtDepth, NextVisits;
    var (current, depth) := queue[0];
    assert queue[0] in queue;
    NextVisitsDepth(edges, |edges|, current, depth, visited', start);
  }

  lemma TakenQueue(edges: seq<Edge>, start: string, queue: seq<Visit>, more: seq<Visit>)
    requires queue != [] && VisitsSound(edges, start, queue)
    requires forall q :: q in more ==> q.1 == queue[0].1 + 1 && AtDepth(edges, start, q.0, q.1)
    ensures VisitsSound(edges, start, queue[1..] + more)
  {
    hide AtDepth;
    var grown := queue[1..] + more;
    forall i, j | 0 <= i < j < |grown| ensures grown[i].1 <= grown[j].1 {
      assert if i < |queue| - 1 then grown[i] == queue[i + 1] else grown[i] in more;
      assert if j < |queue| - 1 then grown[j] == queue[j + 1] else grown[j] in more;
      if i < |queue| - 1 { assert queue[i + 1] in queue; }
    }
    forall q | q in grown ensures AtDepth(edges, start, q.0, q.1) && q.1 <= grown[0].1 + 1 {
      assert q in queue || q in more;
      assert |queue| > 1 ==> grown[0] == queue[1] && queue[0].1 <= queue[1].1;
      assert |queue| == 1 ==> grown[0] in more;
    }
  }

  lemma TakenClosed(edges: seq<Edge>, start: string, visited: set<string>, queue: seq<Visit>,
                    visited': set<string>, more: seq<Visit>)
    requires queue != [] && VisitsClosed(edges, start, visited, queue) && Taken(edges, visited, queue, visited', more)
    ensures VisitsClosed(edges, start, visited', queue[1..] + more)
  {
    if queue[0].0 in visited {
      assert queue[1..] + more == queue[1..];
      VisitedDropped(edges, start, visited, queue);
    } else {
      VisitClosed(edges, start, visited, queue, more);
    }
  }

  lemma VisitedDropped(edges: seq<Edge>, start: string, visited: set<string>, queue: seq<Visit>)
    requires queue != [] && VisitsClosed(edges, start, visited, queue) && queue[0].0 in visited
    ensures VisitsClosed(edges, start, visited, queue[1..])
  {
    forall v | AwaitsVisit(queue, v) && v !in visited ensures AwaitsVisit(queue[1..], v) {
      var i :| 0 <= i < |queue| && queue[i].0 == v;
      assert i > 0 && queue[1..][i - 1] == queue[i];
    }
  }

  /** One step further is known once the level of the front is used up. */
  lemma NextDepth(edges: seq<Edge>, start: string, visited: set<string>, queue: seq<Visit>, d: nat)
    requires VisitsClosed(edges, start, visited, queue) && forall i :: 0 <= i < |queue| ==> queue[i].1 == d + 1
    requires VisitedBelow(edges, start, visited, d + 1)
    ensures VisitedOrWaiting(edges, start, visited, queue, d + 1)
  {
    forall path, v | Reaches(edges, start, path, v) && |path| == d + 1 ensures v in visited || (v, d + 1) in queue {
      var e, init := path[d], path[..d];
      var u := Other(e, v);
      assert Reaches(edges, start, init, u) && u in visited;
      assert Touches(e, u) && Other(e, u) == v;
      if v !in visited {
        var i :| 0 <= i < |queue| && queue[i].0 == v;
        assert queue[i] == (v, d + 1);
      }
    }
  }

  lemma LevelStep(edges: seq<Edge>, start: string, visited: set<string>, queue: seq<Visit>,
                  visited': set<string>, more: seq<Visit>)
    requires queue != [] && LevelState(edges, start, visited, queue) && Taken(edges, visited, queue, visited', more)
    ensures LevelState(edges, start, visited', queue[1..] + more)
  {
    hide Taken, AtDepth, VisitsClosed, VisitsSound, Reaches;
    var grown, d := queue[1..] + more, queue[0].1;
    MoreIsNext(edges, start, visited, queue, visited', more);
    TakenQueue(edges, start, queue, more);
    TakenClosed(edges, start, visited, queue, visited', more);
    if grown != [] {
      if |queue| > 1 && queue[1].1 == d {
        assert grown[0] == queue[1];
        SameDepth(edges, start, visited, queue, visited', grown, d);
      } else {
        DepthIsNatural(edges, start, queue);
        OnlyNext(edges, start, queue, more);
        LevelDone(edges, start, visited, queue, visited', d);
        NextDepth(edges, start, visited', grown, d);
      }
    }
  }

  lemma DepthIsNatural(edges: seq<Edge>, start: string, queue: seq<Visit>)
    requires queue != [] && VisitsSound(edges, start, queue)
    ensures queue[0].1 >= 0
  {
    hide Reaches;
    assert queue[0] in queue;
  }

  lemma SameDepth(edges: seq<Edge>, start: string, visited: set<string>, queue: seq<Visit>,
                  visited': set<string>, grown: seq<Visit>, d: int)
    requires queue != [] && visited <= visited' && queue[0].0 in visited' && queue[1..] <= grown
    requires VisitedBelow(edges, start, visited, d) && VisitedOrWaiting(edges, start, visited, queue, d)
    ensures VisitedBelow(edges, start, visited', d) && VisitedOrWaiting(edges, start, visited', grown, d)
  {
    hide Reaches;
    forall path, v | Reaches(edges, start, path, v) && |path| == d ensures v in visited' || (v, d) in grown {
      if v !in visited' {
        var i :| 0 <= i < |queue| && queue[i] == (v, d);
        assert i > 0 && grown[i - 1] == queue[1..][i - 1] == queue[i];
      }
    }
  }

  lemma OnlyNext(edges: seq<Edge>, start: string, queue: seq<Visit>, more: seq<Visit>)
    requires queue != [] && VisitsSound(edges, start, queue) && (|queue| > 1 ==> queue[1].1 != queue[0].1)
    requires forall q :: q in more ==> q.1 == queue[0].1 + 1
    ensures forall i :: 0 <= i < |queue[1..] + more| ==> (queue[1..] + more)[i].1 == queue[0].1 + 1
    ensures forall i :: 0 < i < |queue| ==> queue[i].1 == queue[0].1 + 1
  {
    hide AtDepth;
    forall i | 0 < i < |queue| ensures queue[i].1 == queue[0].1 + 1 {
      assert queue[i] in queue && queue[0].1 <= queue[1].1 <= queue[i].1;
    }
    var grown := queue[1..] + more;
    forall i | 0 <= i < |grown| ensures grown[i].1 == queue[0].1 + 1 {
      assert if i < |queue| - 1 then grown[i] == queue[i + 1] else grown[i] in more;
    }
  }

  lemma LevelDone(edges: seq<Edge>, start: string, visited: set<string>, queue: seq<Visit>, visited': set<string>,
                  d: int)
    requires queue != [] && visited <= visited' && queue[0].0 in visited'
    requires forall i :: 0 < i < |queue| ==> queue[i].1 == d + 1
    requires VisitedBelow(edges, start, visited, d) && VisitedOrWaiting(edges, start, visited, queue, d)
    ensures VisitedBelow(edges, start, visited', d + 1)
  {
    hide Reaches;
    forall path, v | Reaches(edges, start, path, v) && |path| < d + 1 ensures v in visited' {
      if |path| == d && v !in visited {
        var i :| 0 <= i < |queue| && queue[i] == (v, d);
        assert i == 0;
      }
    }
  }

  lemma OrderSkip(edges: seq<Edge>, start: string, maxDepth: int, visited: set<string>, queue: seq<Visit>)
    requires OrderState(edges, start, maxDepth, visited, queue) && queue != []
    requires queue[0].0 in visited || queue[0].1 > maxDepth
    ensures OrderState(edges, start, maxDepth, visited, queue[1..])
  {
    hide LevelState;
    forall i, j | 0 <= i < j < |queue| - 1 ensures queue[1..][i].1 <= queue[1..][j].1 {
      assert queue[1..][i] == queue[i + 1] && queue[1..][j] == queue[j + 1];
    }
    if queue[0].1 <= maxDepth {
      LevelStep(edges, start, visited, queue, visited, []);
      assert queue[1..] + [] == queue[1..];
    }
  }

  lemma OrderVisit(edges: seq<Edge>, start: string, maxDepth: int, visited: set<string>, queue: seq<Visit>)
    requires OrderState(edges, start, maxDepth, visited, queue) && queue != []
    requires queue[0].0 !in visited && queue[0].1 <= maxDepth
    ensures var (current, depth) := queue[0];
      OrderState(edges, start, maxDepth, visited + {current},
                 queue[1..] + NextVisits(edges, |edges|, current, depth, visited + {current}))
  {
    hide VisitsClosed, VisitedBelow, VisitedOrWaiting, NextVisits, AtDepth;
    var (current, depth) := queue[0];
    LevelStep(edges, start, visited, queue, visited + {current},
              NextVisits(edges, |edges|, current, depth, visited + {current}));
  }

  /** `v` is stored, can be reached in `d` steps, and no stored node that is not among `before` can be reached in
      fewer. */
  ghost predicate Nearest(edges: seq<Edge>, start: string, nodes: map<string, Node>, before: seq<Node>, v: string,
                          d: int)
  {
    && v in nodes && AtDepth(edges, start, v, d)
    && forall path, u :: Reaches(edges, start, path, u) && u in nodes && nodes[u] !in before ==> d <= |path|
  }

  ghost predicate NearestNode(edges: seq<Edge>, start: string, nodes: map<string, Node>, before: seq<Node>, n: Node)
  {
    exists v, d :: Nearest(edges, start, nodes, before, v, d) && nodes[v] == n
  }

  /** Every node of `result` is a nearest one of those not listed before it. */
  ghost predicate NearestFirst(edges: seq<Edge>, start: string, nodes: map<string, Node>, result: seq<Node>)
  {
    forall i :: 0 <= i < |result| ==> NearestNode(edges, start, nodes, result[..i], result[i])
  }

  lemma FrontIsNearest(edges: seq<Edge>, start: string, nodes: map<string, Node>, maxDepth: int,
                       visited: set<string>, queue: seq<Visit>, result: seq<Node>)
    requires OrderState(edges, start, maxDepth, visited, queue) && queue != [] && queue[0].1 <= maxDepth
    requires queue[0].0 in nodes && Lists(result, visited, nodes)
    ensures NearestNode(edges, start, nodes, result, nodes[queue[0].0])
  {
    hide Reaches, VisitsClosed, AtDepth, Named, ListedAs, VisitedOrWaiting, DepthsAscend;
    assert queue[0] in queue;
    assert Nearest(edges, start, nodes, result, queue[0].0, queue[0].1);
  }

  lemma NearestGrows(edges: seq<Edge>, start: string, nodes: map<string, Node>, result: seq<Node>, n: Node)
    requires NearestFirst(edges, start, nodes, result) && NearestNode(edges, start, nodes, result, n)
    ensures NearestFirst(edges, start, nodes, result + [n])
  {
    hide NearestNode;
    var more := result + [n];
    forall i | 0 <= i < |more| ensures NearestNode(edges, start, nodes, more[..i], more[i]) {
      if i < |result| {
        assert more[..i] == result[..i] && more[i] == result[i];
      } else {
        assert more[..i] == result;
      }
    }
  }

  /** What a traversal returns. */
  ghost predicate Traversed(edges: seq<Edge>, start: string, nodes: map<string, Node>, maxDepth: int, result: seq<Node>)
  {
    && |result| <= Max(0, maxDepth)
    && (exists met :: met <= Component(edges, start) && Lists(result, met, nodes))
    && (|Component(edges, start)| <= maxDepth ==> Lists(result, Component(edges, start), nodes))
    && (Component(edges, start) <= nodes.Keys ==> |result| == Min(Max(0, maxDepth), |Component(edges, start)|))
    && NearestFirst(edges, start, nodes, result)
  }

  lemma TraverseEnd(edges: seq<Edge>, start: string, nodes: map<string, Node>, maxDepth: int,
                    visited: set<string>, queue: seq<Visit>, result: seq<Node>)
    requires TraverseState(edges, start, nodes, maxDepth, visited, queue, result)
    requires queue == [] || |result| >= maxDepth
    requires NearestFirst(edges, start, nodes, result)
    ensures Traversed(edges, start, nodes, maxDepth, result)
  {
    hide NearestFirst;
    hide Component, VisitsClosed, Lists, Named;
    var all := Component(edges, start);
    if queue == [] && DepthHarmless(edges, start, nodes, maxDepth) {
      AllVisited(edges, start, visited);
    }
    StartInComponent(edges, start);
    SubsetSize(visited, all);
    SubsetSize(visited * nodes.Keys, visited);
    ListsSize(result, visited, nodes);
    if all <= nodes.Keys {
      assert visited * nodes.Keys == visited;
    }
  }

  lemma ListsSize(result: seq<Node>, names: set<string>, nodes: map<string, Node>)
    requires Lists(result, names, nodes)
    ensures |result| == |names * nodes.Keys|
  {}

  lemma AllVisited(edges: seq<Edge>, start: string, visited: set<string>)
    requires VisitsClosed(edges, start, visited, []) && visited <= Component(edges, start)
    ensures visited == Component(edges, start)
  {
    forall v | v in Component(edges, start)
      ensures v in visited
    {
      var path :| Reaches(edges, start, path, v);
      ReachedVisited(edges, start, visited, path, v);
    }
  }

  lemma VisitIsName(edges: seq<Edge>, start: string, nodes: map<string, Node>, maxDepth: int,
                    visited: set<string>, queue: seq<Visit>, result: seq<Node>)
    requires TraverseState(edges, start, nodes, maxDepth, visited, queue, result) && queue != []
    ensures queue[0].0 in Names(edges, start) && visited <= Names(edges, start)
  {
    assert queue[0] in queue;
  }

  lemma NothingFirst(edges: seq<Edge>, start: string, nodes: map<string, Node>)
    ensures NearestFirst(edges, start, nodes, [])
  {}

  lemma TraverseLists(edges: seq<Edge>, start: string, nodes: map<string, Node>, maxDepth: int,
                      visited: set<string>, queue: seq<Visit>, result: seq<Node>)
    ensures TraverseState(edges, start, nodes, maxDepth, visited, queue, result) ==> Lists(result, visited, nodes)
  {}

  /** The inner loop of `traverse_from`. */
  method ExpandVisit(edges: seq<Edge>, current: string, depth: int, visited: set<string>) returns (more: seq<Visit>)
    ensures more == NextVisits(edges, |edges|, current, depth, visited)
  {
    more := [];
    for i := 0 to |edges|
      invariant more == NextVisits(edges, i, current, depth, visited)
    {
      var edge := edges[i];
      var neighbor := None;
      if edge.source == current {
        neighbor := Some(edge.target);
      } else if edge.target == current {
        neighbor := Some(edge.source);
      }
      if neighbor.Some? && neighbor.value != "" && neighbor.value !in visited {
        more := more + [(neighbor.value, depth + 1)];
      }
    }
  }
}
