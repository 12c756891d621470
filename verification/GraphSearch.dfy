/** Shortest paths in the correlation graph: walks along edges in either direction, and the invariant of a breadth-first
    search that carries whole walks in its queue. */
module GraphSearch {
  import opened RawImage

  datatype Node = Node(id: string, nodeLabel: string, nodeType: string)

  datatype Edge = Edge(id: nat, source: string, target: string, edgeType: string)

  predicate Touches(e: Edge, v: string) { e.source == v || e.target == v }

  /** The far end of an edge seen from `v`. */
  function Other(e: Edge, v: string): string { if e.source == v then e.target else e.source }

  /** `path` leads from `start` to `v` along edges of the graph, in either direction. */
  ghost predicate Walk(edges: seq<Edge>, start: string, path: seq<Edge>, v: string)
    decreases |path|
  {
    if path == [] then start == v
    else
      var last := path[|path| - 1];
      last in edges && Touches(last, v) && Walk(edges, start, path[..|path| - 1], Other(last, v))
  }

  lemma WalkOn(edges: seq<Edge>, start: string, path: seq<Edge>, u: string, e: Edge)
    requires Walk(edges, start, path, u) && e in edges && Touches(e, u)
    ensures Walk(edges, start, path + [e], Other(e, u))
  {
    assert (path + [e])[..|path|] == path;
  }

  /** The edge joins `u` and `v`, whichever way it points. */
  predicate Joins(e: Edge, u: string, v: string)
  {
    (e.source == u && e.target == v) || (e.source == v && e.target == u)
  }

  /** `stops` are the names a path passes: each edge joins two neighbouring ones. */
  ghost predicate Passes(edges: seq<Edge>, stops: seq<string>, path: seq<Edge>)
  {
    && |stops| == |path| + 1
    && forall i :: 0 <= i < |path| ==> path[i] in edges && Joins(path[i], stops[i], stops[i + 1])
  }

  lemma PassesMore(edges: seq<Edge>, stops: seq<string>, path: seq<Edge>, e: Edge, v: string)
    requires Passes(edges, stops, path) && e in edges && Touches(e, v) && stops[|path|] == Other(e, v)
    ensures Passes(edges, stops + [v], path + [e])
  {
    var longer, p := stops + [v], path + [e];
    forall i | 0 <= i < |p|
      ensures p[i] in edges && Joins(p[i], longer[i], longer[i + 1])
    {
      if i < |path| { assert path[i] in edges && Joins(path[i], stops[i], stops[i + 1]); }
    }
  }

  lemma PassesLess(edges: seq<Edge>, stops: seq<string>, path: seq<Edge>)
    requires Passes(edges, stops, path) && path != []
    ensures var n := |path| - 1;
      && Passes(edges, stops[..n + 1], path[..n])
      && path[n] in edges && Touches(path[n], stops[n + 1]) && stops[n] == Other(path[n], stops[n + 1])
  {
    var n := |path| - 1;
    assert Joins(path[n], stops[n], stops[n + 1]);
    forall i | 0 <= i < n
      ensures path[..n][i] in edges && Joins(path[..n][i], stops[..n + 1][i], stops[..n + 1][i + 1])
    {
      assert path[i] in edges && Joins(path[i], stops[i], stops[i + 1]);
    }
  }

  /** A walk is a path of edges along a sequence of names from `start` to `v`. */
  lemma {:induction false} WalkIff(edges: seq<Edge>, start: string, path: seq<Edge>, v: string)
    ensures Walk(edges, start, path, v)
       <==> exists stops :: Passes(edges, stops, path) && stops[0] == start && stops[|path|] == v
    decreases |path|
  {
    if path == [] {
      if start == v { assert Passes(edges, [v], path); }
    } else {
      hide Passes, Touches, Other;
      var n := |path| - 1;
      var last, init := path[n], path[..n];
      assert path == init + [last];
      WalkIff(edges, start, init, Other(last, v));
      if Walk(edges, start, path, v) {
        var stops :| Passes(edges, stops, init) && stops[0] == start && stops[n] == Other(last, v);
        PassesMore(edges, stops, init, last, v);
        PassesLength(edges, stops, init);
        assert (stops + [v])[0] == start && (stops + [v])[n + 1] == v;
      }
      if stops :| Passes(edges, stops, path) && stops[0] == start && stops[n + 1] == v {
        PassesLess(edges, stops, path);
        PassesLength(edges, stops, path);
        assert stops[..n + 1][0] == start && stops[..n + 1][n] == Other(last, v);
      }
    }
  }

  lemma PassesLength(edges: seq<Edge>, stops: seq<string>, path: seq<Edge>)
    requires Passes(edges, stops, path)
    ensures |stops| == |path| + 1
  {}

  /** Every name a search can meet. */
  function Names(edges: seq<Edge>, start: string): set<string>
  {
    {start} + (set e | e in edges :: e.source) + (set e | e in edges :: e.target)
  }

  type Entry = (string, seq<Edge>)

  /** What the inner loop of `find_path` appends for the first `n` edges. */
  function Neighbours(edges: seq<Edge>, n: nat, current: string, path: seq<Edge>, visited: set<string>): seq<Entry>
    requires n <= |edges|
  {
    if n == 0 then []
    else (
      var rest := Neighbours(edges, n - 1, current, path, visited);
      var e := edges[n - 1];
      if Touches(e, current) && Other(e, current) !in visited
      then rest + [(Other(e, current), path + [e])] else rest
    )
  }

  lemma {:induction false} NeighboursSound(edges: seq<Edge>, n: nat, current: string, path: seq<Edge>,
                                           visited: set<string>, start: string)
    requires n <= |edges| && Walk(edges, start, path, current)
    ensures forall q :: q in Neighbours(edges, n, current, path, visited) ==>
      |q.1| == |path| + 1 && Walk(edges, start, q.1, q.0) && q.0 in Names(edges, start)
  {
    hide Walk, Names;
    if n == 0 {
    } else {
      NeighboursSound(edges, n - 1, current, path, visited, start);
      var e := edges[n - 1];
      if Touches(e, current) {
        OtherIsName(edges, start, e, current);
        WalkOn(edges, start, path, current, e);
      }
    }
  }

  lemma OtherIsName(edges: seq<Edge>, start: string, e: Edge, v: string)
    requires e in edges
    ensures Other(e, v) in Names(edges, start)
  {}

  lemma {:induction false} NeighboursComplete(edges: seq<Edge>, n: nat, current: string, path: seq<Edge>,
                                              visited: set<string>, i: nat)
    requires i < n <= |edges| && Touches(edges[i], current) && Other(edges[i], current) !in visited
    ensures (Other(edges[i], current), path + [edges[i]]) in Neighbours(edges, n, current, path, visited)
  {
    if i >= n - 1 {
    } else {
      NeighboursComplete(edges, n - 1, current, path, visited, i);
    }
  }

  // ---- the search invariant ----

  ghost predicate Queued(queue: seq<Entry>, v: string) { exists i :: 0 <= i < |queue| && queue[i].0 == v }

  ghost predicate QueuedAt(queue: seq<Entry>, v: string, d: nat)
  {
    exists i :: 0 <= i < |queue| && queue[i].0 == v && |queue[i].1| == d
  }

  /** Queue entries are walks, shortest first, no two more than one step apart in length. */
  ghost predicate QueueSound(edges: seq<Edge>, start: string, queue: seq<Entry>)
  {
    && (forall q :: q in queue ==> Walk(edges, start, q.1, q.0) && q.0 in Names(edges, start))
    && (forall i, j :: 0 <= i < j < |queue| ==> |queue[i].1| <= |queue[j].1|)
    && (forall i :: 0 <= i < |queue| ==> |queue[i].1| <= |queue[0].1| + 1)
  }

  /** The neighbours of a visited node are visited or waiting. */
  ghost predicate Closed(edges: seq<Edge>, visited: set<string>, queue: seq<Entry>)
  {
    forall e, u :: e in edges && u in visited && Touches(e, u) ==> Other(e, u) in visited || Queued(queue, Other(e, u))
  }

  /** Every walk of fewer than `d` edges ends in a visited node. */
  ghost predicate ReachedWithin(edges: seq<Edge>, start: string, visited: set<string>, d: nat)
  {
    forall path, v :: Walk(edges, start, path, v) && |path| < d ==> v in visited
  }

  /** Every walk of exactly `d` edges ends in a visited node or one waiting at that distance. */
  ghost predicate WaitingAt(edges: seq<Edge>, start: string, visited: set<string>, queue: seq<Entry>, d: nat)
  {
    forall path, v :: Walk(edges, start, path, v) && |path| == d ==> v in visited || QueuedAt(queue, v, d)
  }

  ghost predicate SearchState(edges: seq<Edge>, start: string, goal: string, visited: set<string>, queue: seq<Entry>)
  {
    && QueueSound(edges, start, queue)
    && visited <= Names(edges, start) && goal !in visited
    && Closed(edges, visited, queue)
    && (start in visited || Queued(queue, start))
    && (queue != [] ==>
          ReachedWithin(edges, start, visited, |queue[0].1|) && WaitingAt(edges, start, visited, queue, |queue[0].1|))
  }

  lemma SearchStart(edges: seq<Edge>, start: string, goal: string)
    ensures SearchState(edges, start, goal, {}, [(start, [])])
  {
    var queue: seq<Entry> := [(start, [])];
    assert queue[0] == (start, []) && Queued(queue, start) && QueuedAt(queue, start, 0);
  }

  /** `path` is a shortest walk from `start` to `goal`, or empty where there is none. */
  ghost predicate ShortestWalk(edges: seq<Edge>, start: string, goal: string, path: seq<Edge>)
  {
    if exists p :: Walk(edges, start, p, goal)
    then Walk(edges, start, path, goal) && forall p :: Walk(edges, start, p, goal) ==> |path| <= |p|
    else path == []
  }

  /** The front of the queue is reached by no shorter walk. */
  lemma FrontIsShortest(edges: seq<Edge>, start: string, goal: string, visited: set<string>, queue: seq<Entry>)
    requires SearchState(edges, start, goal, visited, queue) && queue != [] && queue[0].0 == goal
    ensures ShortestWalk(edges, start, goal, queue[0].1)
  {
    hide Closed, QueuedAt;
    assert forall path :: Walk(edges, start, path, goal) ==> |queue[0].1| <= |path|;
  }

  /** Once the level of the front is used up, everything one step further is known. */
  lemma NextLevel(edges: seq<Edge>, start: string, visited: set<string>, queue: seq<Entry>, d: nat)
    requires Closed(edges, visited, queue) && forall i :: 0 <= i < |queue| ==> |queue[i].1| == d + 1
    requires ReachedWithin(edges, start, visited, d + 1)
    ensures WaitingAt(edges, start, visited, queue, d + 1)
  {
    forall path, v | Walk(edges, start, path, v) && |path| == d + 1
      ensures v in visited || QueuedAt(queue, v, d + 1)
    {
      var e, init := path[d], path[..d];
      var u := Other(e, v);
      assert Walk(edges, start, init, u) && u in visited;
      assert Touches(e, u) && Other(e, u) == v;
      if v !in visited {
        var i :| 0 <= i < |queue| && queue[i].0 == v;
        assert |queue[i].1| == d + 1;
      }
    }
  }

  /** The front is dropped when its node was visited before; else its node is visited and its neighbours wait. */
  ghost predicate Dealt(edges: seq<Edge>, visited: set<string>, queue: seq<Entry>, visited': set<string>,
                        more: seq<Entry>)
    requires queue != []
  {
    var (current, path) := queue[0];
    || (current in visited && visited' == visited && more == [])
    || (current !in visited && visited' == visited + {current}
      && more == Neighbours(edges, |edges|, current, path, visited'))
  }

  /** Dealing with the front keeps the search invariant. */
  lemma SearchStep(edges: seq<Edge>, start: string, goal: string, visited: set<string>, queue: seq<Entry>,
                   visited': set<string>, more: seq<Entry>)
    requires SearchState(edges, start, goal, visited, queue) && queue != [] && queue[0].0 != goal
    requires Dealt(edges, visited, queue, visited', more)
    ensures SearchState(edges, start, goal, visited', queue[1..] + more)
  {
    hide SearchState, Dealt;
    var grown := queue[1..] + more;
    StepQueue(edges, start, goal, visited, queue, visited', more);
    StepClosed(edges, start, goal, visited, queue, visited', more);
    StepLevels(edges, start, goal, visited, queue, visited', more);
    StepRest(edges, start, goal, visited, queue, visited', more);
    assert SearchState(edges, start, goal, visited', grown) by { Assemble(edges, start, goal, visited', grown); }
  }

  lemma Assemble(edges: seq<Edge>, start: string, goal: string, visited: set<string>, queue: seq<Entry>)
    requires QueueSound(edges, start, queue) && visited <= Names(edges, start) && goal !in visited
    requires Closed(edges, visited, queue) && (start in visited || Queued(queue, start))
    requires queue != [] ==>
      ReachedWithin(edges, start, visited, |queue[0].1|) && WaitingAt(edges, start, visited, queue, |queue[0].1|)
    ensures SearchState(edges, start, goal, visited, queue)
  {}

  lemma StepQueue(edges: seq<Edge>, start: string, goal: string, visited: set<string>, queue: seq<Entry>,
                  visited': set<string>, more: seq<Entry>)
    requires SearchState(edges, start, goal, visited, queue) && queue != []
      && Dealt(edges, visited, queue, visited', more)
    ensures QueueSound(edges, start, queue[1..] + more)
    ensures forall q :: q in more ==> |q.1| == |queue[0].1| + 1
  {
    hide Closed, ReachedWithin, WaitingAt, Names, Walk, Neighbours, Queued;
    var (current, path) := queue[0];
    assert queue[0] in queue;
    NeighboursSound(edges, |edges|, current, path, visited', start);
    var grown := queue[1..] + more;
    forall i | 0 <= i < |grown|
      ensures grown[i] in queue || grown[i] in more
    {}
    forall i, j | 0 <= i < j < |grown|
      ensures |grown[i].1| <= |grown[j].1|
    {
      if j < |queue| - 1 {
        assert grown[i] == queue[i + 1] && grown[j] == queue[j + 1];
      } else {
        assert grown[j] in more;
        assert i < |queue| - 1 ==> grown[i] == queue[i + 1];
        assert i >= |queue| - 1 ==> grown[i] in more;
      }
    }
    forall i | 0 <= i < |grown|
      ensures |grown[i].1| <= |grown[0].1| + 1
    {
      assert |queue| > 1 ==> grown[0] == queue[1] && |queue[0].1| <= |queue[1].1|;
      assert |queue| == 1 ==> grown[0] in more;
      assert i < |queue| - 1 ==> grown[i] == queue[i + 1];
      assert i >= |queue| - 1 ==> grown[i] in more;
    }
  }

  lemma StepClosed(edges: seq<Edge>, start: string, goal: string, visited: set<string>, queue: seq<Entry>,
                   visited': set<string>, more: seq<Entry>)
    requires SearchState(edges, start, goal, visited, queue) && queue != []
      && Dealt(edges, visited, queue, visited', more)
    ensures Closed(edges, visited', queue[1..] + more)
  {
    hide QueueSound, ReachedWithin, WaitingAt, Names, Walk, Neighbours;
    var (current, path) := queue[0];
    var grown := queue[1..] + more;
    forall e, u | e in edges && u in visited' && Touches(e, u)
      ensures Other(e, u) in visited' || Queued(grown, Other(e, u))
    {
      var w := Other(e, u);
      if w !in visited' {
        if u in visited {
          var i :| 0 <= i < |queue| && queue[i].0 == w;
          assert i > 0 && grown[i - 1] == queue[i];
        } else {
          var k :| 0 <= k < |edges| && edges[k] == e;
          NeighboursComplete(edges, |edges|, current, path, visited', k);
          var j :| 0 <= j < |more| && more[j] == (w, path + [e]);
          assert grown[|queue| - 1 + j] == more[j];
        }
      }
    }
  }

  lemma StepRest(edges: seq<Edge>, start: string, goal: string, visited: set<string>, queue: seq<Entry>,
                 visited': set<string>, more: seq<Entry>)
    requires SearchState(edges, start, goal, visited, queue) && queue != [] && queue[0].0 != goal
    requires Dealt(edges, visited, queue, visited', more)
    ensures visited' <= Names(edges, start) && goal !in visited'
    ensures start in visited' || Queued(queue[1..] + more, start)
  {
    hide Closed, ReachedWithin, WaitingAt, Walk, Neighbours, Names;
    var grown := queue[1..] + more;
    assert queue[0] in queue;
    if start !in visited' {
      var i :| 0 <= i < |queue| && queue[i].0 == start;
      assert i > 0 && grown[i - 1] == queue[i];
    }
  }

  /** Walks as long as the front of what is left end in visited nodes or waiting ones. */
  lemma StepLevels(edges: seq<Edge>, start: string, goal: string, visited: set<string>, queue: seq<Entry>,
                   visited': set<string>, more: seq<Entry>)
    requires SearchState(edges, start, goal, visited, queue) && queue != []
      && Dealt(edges, visited, queue, visited', more)
    ensures var grown := queue[1..] + more;
      grown != [] ==>
        ReachedWithin(edges, start, visited', |grown[0].1|) && WaitingAt(edges, start, visited', grown, |grown[0].1|)
  {
    hide Walk, Neighbours, Names, Closed;
    var grown, d := queue[1..] + more, |queue[0].1|;
    StepQueue(edges, start, goal, visited, queue, visited', more);
    StepClosed(edges, start, goal, visited, queue, visited', more);
    if grown != [] {
      if |queue| > 1 && |queue[1].1| == d {
        assert grown[0] == queue[1];
        SameLevel(edges, start, visited, queue, visited', grown, d);
      } else {
        assert forall i :: 0 <= i < |grown| ==> |grown[i].1| == d + 1 by { AllNext(queue, more, d); }
        forall path, v | Walk(edges, start, path, v) && |path| < d + 1
          ensures v in visited'
        {
          if |path| == d && v !in visited {
            var i :| 0 <= i < |queue| && queue[i].0 == v && |queue[i].1| == d;
            assert i == 0;
          }
        }
        NextLevel(edges, start, visited', grown, d);
      }
    }
  }

  lemma SameLevel(edges: seq<Edge>, start: string, visited: set<string>, queue: seq<Entry>,
                  visited': set<string>, grown: seq<Entry>, d: nat)
    requires queue != [] && visited <= visited' && queue[0].0 in visited' && queue[1..] <= grown
    requires ReachedWithin(edges, start, visited, d) && WaitingAt(edges, start, visited, queue, d)
    ensures ReachedWithin(edges, start, visited', d) && WaitingAt(edges, start, visited', grown, d)
  {
    hide Walk;
    forall path, v | Walk(edges, start, path, v) && |path| == d
      ensures v in visited' || QueuedAt(grown, v, d)
    {
      if v !in visited' {
        var i :| 0 <= i < |queue| && queue[i].0 == v && |queue[i].1| == d;
        assert i > 0 && grown[i - 1] == queue[1..][i - 1] == queue[i];
      }
    }
  }

  lemma AllNext(queue: seq<Entry>, more: seq<Entry>, d: nat)
    requires queue != [] && |queue[0].1| == d
    requires forall i, j :: 0 <= i < j < |queue| ==> |queue[i].1| <= |queue[j].1|
    requires forall i :: 0 <= i < |queue| ==> |queue[i].1| <= d + 1
    requires |queue| > 1 ==> |queue[1].1| != d
    requires forall q :: q in more ==> |q.1| == d + 1
    ensures forall i :: 0 <= i < |queue[1..] + more| ==> |(queue[1..] + more)[i].1| == d + 1
    ensures forall i :: 0 < i < |queue| ==> |queue[i].1| == d + 1
  {
    forall i | 0 < i < |queue|
      ensures |queue[i].1| == d + 1
    {
      assert |queue[1].1| <= |queue[i].1|;
    }
  }

  /** With nothing waiting, the visited nodes are all there is to reach. */
  lemma {:induction false} Exhausted(edges: seq<Edge>, start: string, visited: set<string>, path: seq<Edge>, v: string)
    requires Closed(edges, visited, []) && start in visited && Walk(edges, start, path, v)
    ensures v in visited
    decreases |path|
  {
    if path == [] {
    } else {
      var last := path[|path| - 1];
      var u := Other(last, v);
      Exhausted(edges, start, visited, path[..|path| - 1], u);
      assert Touches(last, u) && Other(last, u) == v && !Queued([], v);
    }
  }

  lemma SearchFails(edges: seq<Edge>, start: string, goal: string, visited: set<string>)
    requires SearchState(edges, start, goal, visited, [])
    ensures ShortestWalk(edges, start, goal, [])
  {
    hide Closed, Walk;
    assert !Queued([], start);
    forall path ensures !Walk(edges, start, path, goal) {
      if Walk(edges, start, path, goal) { Exhausted(edges, start, visited, path, goal); }
    }
  }

  lemma VisitedGrows(edges: seq<Edge>, start: string, visited: set<string>, v: string)
    requires visited <= Names(edges, start) && v in Names(edges, start) && v !in visited
    ensures |Names(edges, start) - (visited + {v})| < |Names(edges, start) - visited|
  {
    var names := Names(edges, start);
    hide Names;
    assert names - visited == (names - (visited + {v})) + {v};
  }

  lemma FrontIsName(edges: seq<Edge>, start: string, goal: string, visited: set<string>, queue: seq<Entry>)
    requires SearchState(edges, start, goal, visited, queue) && queue != []
    ensures queue[0].0 in Names(edges, start) && visited <= Names(edges, start)
  {
    assert queue[0] in queue;
  }
  lemma DropStep(edges: seq<Edge>, start: string, goal: string, visited: set<string>, queue: seq<Entry>)
    requires SearchState(edges, start, goal, visited, queue) && queue != [] && queue[0].0 != goal
      && queue[0].0 in visited
    ensures SearchState(edges, start, goal, visited, queue[1..])
  {
    hide SearchState;
    SearchStep(edges, start, goal, visited, queue, visited, []);
    assert queue[1..] + [] == queue[1..];
  }

  lemma GrowStep(edges: seq<Edge>, start: string, goal: string, visited: set<string>, queue: seq<Entry>)
    requires SearchState(edges, start, goal, visited, queue) && queue != [] && queue[0].0 != goal
      && queue[0].0 !in visited
    ensures var (current, path) := queue[0];
      SearchState(edges, start, goal, visited + {current},
                  queue[1..] + Neighbours(edges, |edges|, current, path, visited + {current}))
  {
    hide SearchState;
    var (current, path) := queue[0];
    SearchStep(edges, start, goal, visited, queue, visited + {current},
               Neighbours(edges, |edges|, current, path, visited + {current}));
  }

  /** The inner loop of `find_path` over the edge table. */
  method ExpandPath(edges: seq<Edge>, current: string, path: seq<Edge>, visited: set<string>) returns (more: seq<Entry>)
    requires current in visited
    ensures more == Neighbours(edges, |edges|, current, path, visited)
  {
    more := [];
    for i := 0 to |edges|
      invariant more == Neighbours(edges, i, current, path, visited)
    {
      var edge := edges[i];
      if edge.source == current && edge.target !in visited {
        more := more + [(edge.target, path + [edge])];
      } else if edge.target == current && edge.source !in visited {
        more := more + [(edge.source, path + [edge])];
      }
    }
  }
}
