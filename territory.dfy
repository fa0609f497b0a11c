/**
 * The two breadth-first searches over a player's territory, stated over
 * the grid size and the set of cells the player owns, with the paths they
 * follow and the facts that make them terminate.
 */
module Territory {
  import opened Boards

  /** All cells of an n x n grid. */
  function Grid(n: int): (g: set<Position>)
    ensures forall p :: p in g <==> InBounds(n, p)
  {
    var g := set r, c | 0 <= r < n && 0 <= c < n :: Position(r, c);
    assert forall p :: InBounds(n, p) ==> p in g by {
      forall p | InBounds(n, p)
        ensures p in g
      {
        assert p == Position(p.row, p.col);
      }
    }
    g
  }

  predicate OnGrid(n: int, owned: set<Position>) {
    forall p :: p in owned ==> InBounds(n, p)
  }

  /** A walk whose every step moves to a neighbouring owned cell (the first cell is unconstrained). */
  ghost predicate IsOwnedPath(owned: set<Position>, path: seq<Position>) {
    |path| >= 1 &&
    forall i :: 1 <= i < |path| ==> Chebyshev(path[i - 1], path[i]) == 1 && path[i] in owned
  }

  /** target can be reached from start by steps between neighbouring owned cells. */
  ghost predicate Linked(owned: set<Position>, start: Position, target: Position) {
    exists path :: IsOwnedPath(owned, path) && path[0] == start && path[|path| - 1] == target
  }

  lemma LinkedRefl(owned: set<Position>, start: Position)
    ensures Linked(owned, start, start)
  {
    assert IsOwnedPath(owned, [start]);
  }

  lemma LinkedStep(owned: set<Position>, start: Position, mid: Position, next: Position)
    requires Linked(owned, start, mid) && Chebyshev(mid, next) == 1 && next in owned
    ensures Linked(owned, start, next)
  {
    var path :| IsOwnedPath(owned, path) && path[0] == start && path[|path| - 1] == mid;
    assert IsOwnedPath(owned, path + [next]);
    assert (path + [next])[0] == start;
  }

  /** A cell other than the start is linked to it only through a final owned step. */
  lemma LinkedIsOwned(owned: set<Position>, start: Position, target: Position)
    requires Linked(owned, start, target) && target != start
    ensures target in owned
  {
    var path :| IsOwnedPath(owned, path) && path[0] == start && path[|path| - 1] == target;
    assert |path| >= 2;
  }

  /** The positions of s, in order, that are not yet visited and are owned. */
  function Unvisited(s: seq<Position>, visited: set<Position>, owned: set<Position>): (r: seq<Position>)
    ensures forall q :: q in r <==> q in s && q !in visited && q in owned
  {
    if s == [] then []
    else
      var last := s[|s| - 1];
      assert forall q :: q in s <==> q in s[..|s| - 1] || q == last;
      Unvisited(s[..|s| - 1], visited, owned) + (if last !in visited && last in owned then [last] else [])
  }

  lemma UnvisitedSnoc(s: seq<Position>, x: Position, visited: set<Position>, owned: set<Position>)
    ensures Unvisited(s + [x], visited, owned) ==
      Unvisited(s, visited, owned) + (if x !in visited && x in owned then [x] else [])
  {
    assert (s + [x])[..|s|] == s;
  }

  /** What one visit of current appends to the queue: its owned neighbours not visited once current is. */
  function Expand(n: int, owned: set<Position>, current: Position, visited: set<Position>): (r: seq<Position>)
    ensures forall q :: q in r <==>
      InBounds(n, q) && Chebyshev(current, q) == 1 && q !in visited && q != current && q in owned
  {
    Unvisited(Neighbors(n, current), visited + {current}, owned)
  }

  /** Every queued cell is the start or on the grid. */
  predicate QueueOk(n: int, start: Position, queue: seq<Position>) {
    forall q :: q in queue ==> q == start || InBounds(n, q)
  }

  /** Every cell a search may hold. */
  ghost function Universe(n: int, start: Position): set<Position> {
    Grid(n) + {start}
  }

  /** How many queue entries are already visited. */
  ghost function CountIn(queue: seq<Position>, visited: set<Position>): nat {
    if queue == [] then 0
    else (if queue[0] in visited then 1 else 0) + CountIn(queue[1..], visited)
  }

  lemma {:induction false} CountInAppend(a: seq<Position>, c: seq<Position>, visited: set<Position>)
    requires forall q :: q in c ==> q !in visited
    ensures CountIn(a + c, visited) == CountIn(a, visited)
  {
    if a == [] {
      if c != [] {
        assert c[0] in c;
        CountInAppend([], c[1..], visited);
        assert [] + c == c && [] + c[1..] == c[1..];
      }
    } else {
      assert (a + c)[1..] == a[1..] + c;
      CountInAppend(a[1..], c, visited);
    }
  }

  /**
   * One step of either search keeps the queue on the grid, and either
   * visits a new cell of the universe or (dequeuing a visited cell) lowers
   * the count of visited entries in the queue.
   */
  lemma StepFacts(n: int, owned: set<Position>, start: Position, queue: seq<Position>, visited: set<Position>)
    requires queue != [] && QueueOk(n, start, queue)
    ensures QueueOk(n, start, queue[1..] + Expand(n, owned, queue[0], visited))
    ensures queue[0] in visited ==>
      visited + {queue[0]} == visited &&
      CountIn(queue[1..] + Expand(n, owned, queue[0], visited), visited) < CountIn(queue, visited)
    ensures queue[0] !in visited ==>
      |Universe(n, start) - (visited + {queue[0]})| < |Universe(n, start) - visited|
  {
    StepKeepsQueue(n, owned, start, queue, visited);
    if queue[0] in visited {
      StepRevisit(n, owned, queue, visited);
    } else {
      StepVisit(n, start, queue[0], visited);
    }
  }

  lemma StepKeepsQueue(n: int, owned: set<Position>, start: Position, queue: seq<Position>, visited: set<Position>)
    requires queue != [] && QueueOk(n, start, queue)
    ensures QueueOk(n, start, queue[1..] + Expand(n, owned, queue[0], visited))
  {
    var rest := queue[1..] + Expand(n, owned, queue[0], visited);
    forall q | q in rest
      ensures q == start || InBounds(n, q)
    {
      if q in queue[1..] {
        assert q in queue;
      }
    }
  }

  lemma StepRevisit(n: int, owned: set<Position>, queue: seq<Position>, visited: set<Position>)
    requires queue != [] && queue[0] in visited
    ensures visited + {queue[0]} == visited
    ensures CountIn(queue[1..] + Expand(n, owned, queue[0], visited), visited) < CountIn(queue, visited)
  {
    var next := Expand(n, owned, queue[0], visited);
    CountInAppend(queue[1..], next, visited);
  }

  lemma StepVisit(n: int, start: Position, current: Position, visited: set<Position>)
    requires current !in visited && (current == start || InBounds(n, current))
    ensures |Universe(n, start) - (visited + {current})| < |Universe(n, start) - visited|
  {
    var u := Universe(n, start);
    assert current in u;
    assert u - (visited + {current}) == (u - visited) - {current};
  }

  // ---------------------------------------------------------------------
  // The search of IsConnectedToBase: marks a cell visited when it is
  // dequeued, does not skip a cell dequeued twice, and answers true as
  // soon as the target is dequeued.

  function ConnLoop(n: int, owned: set<Position>, start: Position, target: Position,
                    queue: seq<Position>, visited: set<Position>): bool
    requires QueueOk(n, start, queue)
    decreases |Universe(n, start) - visited|, CountIn(queue, visited)
  {
    if queue == [] then false
    else if queue[0] == target then true
    else
      StepFacts(n, owned, start, queue, visited);
      ConnLoop(n, owned, start, target, queue[1..] + Expand(n, owned, queue[0], visited), visited + {queue[0]})
  }

  /** One dequeue of the connectivity search. */
  lemma ConnLoopStep(n: int, owned: set<Position>, start: Position, target: Position,
                     queue: seq<Position>, visited: set<Position>)
    requires QueueOk(n, start, queue) && queue != [] && queue[0] != target
    ensures QueueOk(n, start, queue[1..] + Expand(n, owned, queue[0], visited))
    ensures ConnLoop(n, owned, start, target, queue, visited) ==
      ConnLoop(n, owned, start, target, queue[1..] + Expand(n, owned, queue[0], visited), visited + {queue[0]})
  {
    StepFacts(n, owned, start, queue, visited);
  }

  /** Every cell the search reports is linked to the start, when every queued cell is. */
  lemma {:induction false} ConnLoopSound(n: int, owned: set<Position>, start: Position, target: Position,
                                         queue: seq<Position>, visited: set<Position>)
    requires QueueOk(n, start, queue)
    requires forall q :: q in queue ==> Linked(owned, start, q)
    requires ConnLoop(n, owned, start, target, queue, visited)
    ensures Linked(owned, start, target)
    decreases |Universe(n, start) - visited|, CountIn(queue, visited)
  {
    var current := queue[0];
    if current != target {
      var next := Expand(n, owned, current, visited);
      forall q | q in next
        ensures Linked(owned, start, q)
      {
        LinkedStep(owned, start, current, q);
      }
      assert forall q :: q in queue[1..] ==> q in queue;
      StepFacts(n, owned, start, queue, visited);
      ConnLoopSound(n, owned, start, target, queue[1..] + next, visited + {current});
    }
  }

  /** Every owned neighbour of a visited cell is visited or still queued. */
  ghost predicate Closed(n: int, owned: set<Position>, queue: seq<Position>, visited: set<Position>) {
    forall w, m :: w in visited && m in Neighbors(n, w) && m in owned ==> m in visited || m in queue
  }

  lemma ClosedStep(n: int, owned: set<Position>, queue: seq<Position>, visited: set<Position>)
    requires queue != [] && Closed(n, owned, queue, visited)
    ensures Closed(n, owned, queue[1..] + Expand(n, owned, queue[0], visited), visited + {queue[0]})
  {
    var current := queue[0];
    var v := visited + {current};
    var rest := queue[1..] + Expand(n, owned, current, visited);
    forall w, m | w in v && m in Neighbors(n, w) && m in owned
      ensures m in v || m in rest
    {
      if w != current && m !in visited {
        assert m in queue;
        assert queue == [current] + queue[1..];
        assert m == current || m in queue[1..];
      }
    }
  }

  /** A set closed under owned steps that holds the start holds every cell linked to the start. */
  lemma {:induction false} ClosedHoldsLinked(n: int, owned: set<Position>, start: Position, target: Position,
                                             visited: set<Position>)
    requires OnGrid(n, owned) && Closed(n, owned, [], visited) && start in visited
    requires Linked(owned, start, target)
    ensures target in visited
  {
    var path :| IsOwnedPath(owned, path) && path[0] == start && path[|path| - 1] == target;
    var i := 0;
    while i < |path| - 1
      invariant 0 <= i < |path|
      invariant path[i] in visited
    {
      ClosedStepIn(n, owned, visited, path[i], path[i + 1]);
      i := i + 1;
    }
  }

  lemma ClosedStepIn(n: int, owned: set<Position>, visited: set<Position>, w: Position, m: Position)
    requires OnGrid(n, owned) && Closed(n, owned, [], visited)
    requires w in visited && Chebyshev(w, m) == 1 && m in owned
    ensures m in visited
  {
    assert m in Neighbors(n, w);
  }

  /** The search finds every cell linked to the start that it has not already passed. */
  lemma {:induction false} ConnLoopComplete(n: int, owned: set<Position>, start: Position, target: Position,
                                            queue: seq<Position>, visited: set<Position>)
    requires OnGrid(n, owned) && QueueOk(n, start, queue)
    requires Closed(n, owned, queue, visited)
    requires start in visited || start in queue
    requires target !in visited
    requires Linked(owned, start, target)
    ensures ConnLoop(n, owned, start, target, queue, visited)
    decreases |Universe(n, start) - visited|, CountIn(queue, visited)
  {
    if queue == [] {
      ClosedHoldsLinked(n, owned, start, target, visited);
    } else if queue[0] != target {
      var current := queue[0];
      assert queue == [current] + queue[1..];
      StepFacts(n, owned, start, queue, visited);
      ClosedStep(n, owned, queue, visited);
      ConnLoopComplete(n, owned, start, target, queue[1..] + Expand(n, owned, current, visited), visited + {current});
    }
  }

  /** The search from start alone answers true exactly for the cells linked to start. */
  lemma ConnLoopMeaning(n: int, owned: set<Position>, start: Position, target: Position)
    requires OnGrid(n, owned)
    ensures ConnLoop(n, owned, start, target, [start], {}) <==> Linked(owned, start, target)
  {
    LinkedRefl(owned, start);
    if ConnLoop(n, owned, start, target, [start], {}) {
      ConnLoopSound(n, owned, start, target, [start], {});
    }
    if Linked(owned, start, target) {
      ConnLoopComplete(n, owned, start, target, [start], {});
    }
  }

  // ---------------------------------------------------------------------
  // The search of GetReachableCells: skips a cell dequeued a second time
  // and lists the cells in the order it visits them.

  function ReachLoop(n: int, owned: set<Position>, start: Position,
                     queue: seq<Position>, visited: set<Position>, reach: seq<Position>): (r: seq<Position>)
    requires QueueOk(n, start, queue)
    ensures |reach| <= |r| && r[..|reach|] == reach
    decreases |Universe(n, start) - visited|, |queue|
  {
    if queue == [] then reach
    else if queue[0] in visited then
      QueueTail(n, start, queue);
      ReachLoop(n, owned, start, queue[1..], visited, reach)
    else
      StepFacts(n, owned, start, queue, visited);
      var r := ReachLoop(n, owned, start, queue[1..] + Expand(n, owned, queue[0], visited),
                         visited + {queue[0]}, reach + [queue[0]]);
      PrefixOfPrefix(r, reach, queue[0]);
      r
  }

  lemma QueueTail(n: int, start: Position, queue: seq<Position>)
    requires queue != [] && QueueOk(n, start, queue)
    ensures QueueOk(n, start, queue[1..])
  {
    assert forall q :: q in queue[1..] ==> q in queue;
  }

  lemma PrefixOfPrefix<T>(r: seq<T>, a: seq<T>, x: T)
    requires |a| + 1 <= |r| && r[..|a| + 1] == a + [x]
    ensures r[..|a|] == a
  {
    assert r[..|a|] == r[..|a| + 1][..|a|];
  }

  /** One dequeue of the reachability search. */
  lemma ReachLoopStep(n: int, owned: set<Position>, start: Position,
                      queue: seq<Position>, visited: set<Position>, reach: seq<Position>)
    requires QueueOk(n, start, queue) && queue != []
    ensures QueueOk(n, start, queue[1..]) && QueueOk(n, start, queue[1..] + Expand(n, owned, queue[0], visited))
    ensures queue[0] in visited ==>
      ReachLoop(n, owned, start, queue, visited, reach) == ReachLoop(n, owned, start, queue[1..], visited, reach)
    ensures queue[0] !in visited ==>
      ReachLoop(n, owned, start, queue, visited, reach) ==
      ReachLoop(n, owned, start, queue[1..] + Expand(n, owned, queue[0], visited), visited + {queue[0]}, reach + [queue[0]])
  {
    assert forall q :: q in queue[1..] ==> q in queue;
    StepFacts(n, owned, start, queue, visited);
  }

  /** What the reachability search keeps true from one dequeue to the next. */
  ghost predicate SearchInv(n: int, owned: set<Position>, start: Position,
                            queue: seq<Position>, visited: set<Position>, reach: seq<Position>) {
    && OnGrid(n, owned) && QueueOk(n, start, queue)
    && AllLinked(owned, start, queue) && AllLinked(owned, start, reach)
    && Distinct(reach) && Lists(reach, visited)
    && Closed(n, owned, queue, visited)
    && (start in visited || start in queue)
  }

  ghost predicate AllLinked(owned: set<Position>, start: Position, s: seq<Position>) {
    forall q :: q in s ==> Linked(owned, start, q)
  }

  /** The cells of reach are exactly the visited cells. */
  ghost predicate Lists(reach: seq<Position>, visited: set<Position>) {
    forall q :: q in reach <==> q in visited
  }

  lemma {:induction false} ReachLoopInvariant(n: int, owned: set<Position>, start: Position,
                                              queue: seq<Position>, visited: set<Position>, reach: seq<Position>)
    requires SearchInv(n, owned, start, queue, visited, reach)
    ensures var r := ReachLoop(n, owned, start, queue, visited, reach);
      Distinct(r) && forall q :: q in r <==> Linked(owned, start, q)
    decreases |Universe(n, start) - visited|, |queue|
  {
    if queue == [] {
      SearchDone(n, owned, start, visited, reach);
    } else {
      var current := queue[0];
      ReachLoopStep(n, owned, start, queue, visited, reach);
      StepFacts(n, owned, start, queue, visited);
      if current in visited {
        RevisitKeeps(n, owned, start, queue, visited, reach);
        ReachLoopInvariant(n, owned, start, queue[1..], visited, reach);
      } else {
        VisitKeeps(n, owned, start, queue, visited, reach);
        ReachLoopInvariant(n, owned, start, queue[1..] + Expand(n, owned, current, visited),
                           visited + {current}, reach + [current]);
      }
    }
  }

  lemma SearchDone(n: int, owned: set<Position>, start: Position, visited: set<Position>, reach: seq<Position>)
    requires SearchInv(n, owned, start, [], visited, reach)
    ensures forall q :: q in reach <==> Linked(owned, start, q)
  {
    forall q | Linked(owned, start, q)
      ensures q in reach
    {
      ClosedHoldsLinked(n, owned, start, q, visited);
    }
  }

  lemma RevisitKeeps(n: int, owned: set<Position>, start: Position,
                     queue: seq<Position>, visited: set<Position>, reach: seq<Position>)
    requires SearchInv(n, owned, start, queue, visited, reach) && queue != [] && queue[0] in visited
    ensures SearchInv(n, owned, start, queue[1..], visited, reach)
  {
    assert queue == [queue[0]] + queue[1..];
    assert forall q :: q in queue[1..] ==> q in queue;
  }

  lemma VisitKeeps(n: int, owned: set<Position>, start: Position,
                   queue: seq<Position>, visited: set<Position>, reach: seq<Position>)
    requires SearchInv(n, owned, start, queue, visited, reach) && queue != [] && queue[0] !in visited
    ensures SearchInv(n, owned, start, queue[1..] + Expand(n, owned, queue[0], visited),
                      visited + {queue[0]}, reach + [queue[0]])
  {
    var current := queue[0];
    QueueLinkedStep(n, owned, start, queue, visited);
    ReachLinkedStep(owned, start, queue, reach);
    DistinctSnoc(reach, current);
    ListsSnoc(reach, visited, current);
    StepKeepsQueue(n, owned, start, queue, visited);
    ClosedStep(n, owned, queue, visited);
    assert start in visited + {current} || start in queue[1..] + Expand(n, owned, current, visited) by {
      assert queue == [current] + queue[1..];
    }
  }

  lemma QueueLinkedStep(n: int, owned: set<Position>, start: Position, queue: seq<Position>, visited: set<Position>)
    requires queue != [] && AllLinked(owned, start, queue)
    ensures AllLinked(owned, start, queue[1..] + Expand(n, owned, queue[0], visited))
  {
    var current := queue[0];
    var next := Expand(n, owned, current, visited);
    assert Linked(owned, start, current);
    forall q | q in queue[1..] + next
      ensures Linked(owned, start, q)
    {
      if q in next {
        LinkedStep(owned, start, current, q);
      } else {
        assert q in queue;
      }
    }
  }

  lemma ReachLinkedStep(owned: set<Position>, start: Position, queue: seq<Position>, reach: seq<Position>)
    requires queue != [] && AllLinked(owned, start, queue) && AllLinked(owned, start, reach)
    ensures AllLinked(owned, start, reach + [queue[0]])
  {
    assert Linked(owned, start, queue[0]);
  }

  lemma ListsSnoc(reach: seq<Position>, visited: set<Position>, x: Position)
    requires Lists(reach, visited)
    ensures Lists(reach + [x], visited + {x})
  {
  }

  lemma DistinctSnoc<T>(s: seq<T>, x: T)
    requires Distinct(s) && x !in s
    ensures Distinct(s + [x])
  {
  }

  /** The search from start lists start first, no cell twice, and exactly the cells linked to start. */
  lemma ReachLoopMeaning(n: int, owned: set<Position>, start: Position)
    requires OnGrid(n, owned)
    ensures var r := ReachLoop(n, owned, start, [start], {}, []);
      r != [] && r[0] == start && Distinct(r) && forall q :: q in r <==> Linked(owned, start, q)
  {
    LinkedRefl(owned, start);
    assert SearchInv(n, owned, start, [start], {}, []);
    ReachLoopInvariant(n, owned, start, [start], {}, []);
    ReachLoopStartsWith(n, owned, start);
  }

  lemma ReachLoopStartsWith(n: int, owned: set<Position>, start: Position)
    ensures var r := ReachLoop(n, owned, start, [start], {}, []); r != [] && r[0] == start
  {
    ReachLoopFirst(n, owned, start, [start], {}, []);
  }

  /** Dequeuing an unvisited cell appends it to the listing. */
  lemma ReachLoopFirst(n: int, owned: set<Position>, start: Position,
                       queue: seq<Position>, visited: set<Position>, reach: seq<Position>)
    requires QueueOk(n, start, queue) && queue != [] && queue[0] !in visited
    ensures var r := ReachLoop(n, owned, start, queue, visited, reach); |reach| < |r| && r[|reach|] == queue[0]
  {
    StepFacts(n, owned, start, queue, visited);
    var r1 := ReachLoop(n, owned, start, queue[1..] + Expand(n, owned, queue[0], visited),
                        visited + {queue[0]}, reach + [queue[0]]);
    assert r1[..|reach| + 1] == reach + [queue[0]];
    assert r1[|reach|] == r1[..|reach| + 1][|reach|];
  }

}
