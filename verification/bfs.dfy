/** Breadth-first search: a FIFO queue, a set of discovered cells marked
    before they are enqueued, and a predecessor link written on discovery. */
module Bfs {
  import opened GridModel
  import opened Paths

  /** The bookkeeping of a BFS run between two pops. `depth` is a ghost
      record of how many steps from the start each discovered cell was found. */
  ghost predicate Discovered(g: Grid, start: Coord, queue: seq<Coord>, seen: set<Coord>,
                             visitedNodes: seq<Coord>, parent: map<Coord, Coord>, depth: map<Coord, nat>)
  {
    // every cell is enqueued at most once: recorded cells followed by the
    // queue are exactly the enqueued cells, in order
    && NoDuplicates(visitedNodes + queue)
    && (forall x :: x in seen <==> x in visitedNodes || x in queue)
    && (forall x :: x in seen ==> InBounds(g, x))
    && (forall x :: x in depth <==> x in seen)
    && start in seen && depth[start] == 0
    && IsParentTree(g, start, parent, depth, seen)
    && (forall x {:trigger parent[x]} :: x in parent ==> depth[x] == depth[parent[x]] + 1)
  }

  /** The queue holds depths in non-decreasing order, none more than one
      above the head. */
  ghost predicate QueueLayered(queue: seq<Coord>, depth: map<Coord, nat>)
    requires forall x :: x in queue ==> x in depth
  {
    && (forall i, j :: 0 <= i <= j < |queue| ==> depth[queue[i]] <= depth[queue[j]])
    && (|queue| > 0 ==> forall i :: 0 <= i < |queue| ==> depth[queue[i]] <= depth[queue[0]] + 1)
  }

  /** Recorded cells are no deeper than the head of the queue. */
  ghost predicate RecordedNotDeeper(visitedNodes: seq<Coord>, queue: seq<Coord>, depth: map<Coord, nat>)
    requires forall x :: x in visitedNodes || x in queue ==> x in depth
  {
    |queue| > 0 ==> forall i :: 0 <= i < |visitedNodes| ==> depth[visitedNodes[i]] <= depth[queue[0]]
  }

  /** Every neighbour of a recorded cell is discovered, at most one deeper. */
  ghost predicate RecordedExpanded(g: Grid, visitedNodes: seq<Coord>, seen: set<Coord>, depth: map<Coord, nat>)
    requires forall x :: x in visitedNodes ==> x in depth
    requires forall x :: x in seen ==> x in depth
  {
    forall e, n :: e in visitedNodes && Step(g, e, n) ==> n in seen && depth[n] <= depth[e] + 1
  }

  /** Every walk from the start of at most `h` steps ends at a cell
      discovered no deeper than the walk is long, where `h` is the depth at
      the head of the queue. */
  ghost predicate LayersComplete(g: Grid, start: Coord, queue: seq<Coord>, seen: set<Coord>, depth: map<Coord, nat>)
    requires forall x :: x in queue ==> x in depth
    requires forall x :: x in seen ==> x in depth
  {
    |queue| > 0 ==> forall w :: IsWalk(g, w) && w[0] == start && |w| <= depth[queue[0]] + 1 ==>
                      w[|w| - 1] in seen && depth[w[|w| - 1]] <= |w| - 1
  }

  /** The breadth-first layering that makes the returned path a shortest one. */
  ghost predicate Layered(g: Grid, start: Coord, queue: seq<Coord>, seen: set<Coord>,
                          visitedNodes: seq<Coord>, depth: map<Coord, nat>)
    requires forall x :: x in visitedNodes || x in queue ==> x in depth
    requires forall x :: x in seen ==> x in depth
  {
    && QueueLayered(queue, depth)
    && RecordedNotDeeper(visitedNodes, queue, depth)
    && RecordedExpanded(g, visitedNodes, seen, depth)
    && LayersComplete(g, start, queue, seen, depth)
  }

  ghost predicate BfsInv(g: Grid, start: Coord, queue: seq<Coord>, seen: set<Coord>,
                         visitedNodes: seq<Coord>, parent: map<Coord, Coord>, depth: map<Coord, nat>)
  {
    && Discovered(g, start, queue, seen, visitedNodes, parent, depth)
    && Layered(g, start, queue, seen, visitedNodes, depth)
  }

  /** Popping the head of the queue and enqueueing its undiscovered
      neighbours keeps every cell enqueued at most once. */
  lemma EnqueueOnce(queue: seq<Coord>, seen: set<Coord>, visitedNodes: seq<Coord>, newCells: seq<Coord>)
    requires NoDuplicates(visitedNodes + queue) && NoDuplicates(newCells)
    requires forall x :: x in seen <==> x in visitedNodes || x in queue
    requires forall x :: x in newCells ==> x !in seen
    requires |queue| > 0
    ensures NoDuplicates((visitedNodes + [queue[0]]) + (queue[1..] + newCells))
    ensures forall x :: x in seen + Elems(newCells) <==> x in visitedNodes + [queue[0]] || x in queue[1..] + newCells
  {
    PopPush(visitedNodes, queue, newCells);
    assert forall x :: x in visitedNodes + queue ==> x !in newCells by {
      forall x | x in visitedNodes + queue
        ensures x !in newCells
      {
        assert x in seen;
      }
    }
    NoDuplicatesAppend(visitedNodes + queue, newCells);
    assert queue == [queue[0]] + queue[1..];
  }

  /** Linking the new cells to the popped one keeps the parent tree, with
      every link one deeper than its target. */
  lemma RelinkOneDeeper(g: Grid, start: Coord, seen: set<Coord>, parent: map<Coord, Coord>, depth: map<Coord, nat>,
                        cur: Coord, upd: set<Coord>, parent': map<Coord, Coord>, depth': map<Coord, nat>)
    requires IsParentTree(g, start, parent, depth, seen)
    requires forall x {:trigger parent[x]} :: x in parent ==> depth[x] == depth[parent[x]] + 1
    requires cur in seen
    requires forall n :: n in upd ==> Step(g, cur, n) && n !in seen
    requires parent' == LinkAll(parent, upd, cur) && depth' == RankAll(depth, upd, depth[cur] + 1)
    ensures IsParentTree(g, start, parent', depth', seen + upd)
    ensures forall x {:trigger parent'[x]} :: x in parent' ==> depth'[x] == depth'[parent'[x]] + 1
  {
    ParentTreeRelink(g, start, parent, depth, seen, cur, upd, depth[cur] + 1);
    forall x | x in parent'
      ensures depth'[x] == depth'[parent'[x]] + 1
    {
      if x in upd {
        assert parent'[x] == cur && depth'[x] == depth[cur] + 1;
      } else {
        assert parent'[x] == parent[x] && depth'[x] == depth[x];
      }
    }
  }

  /** Popping the head of the queue, recording it and enqueueing its
      undiscovered neighbours keeps the bookkeeping. */
  lemma ExpandKeepsDiscovered(g: Grid, start: Coord, queue: seq<Coord>, seen: set<Coord>,
                              visitedNodes: seq<Coord>, parent: map<Coord, Coord>, depth: map<Coord, nat>,
                              cur: Coord, newCells: seq<Coord>,
                              queue': seq<Coord>, seen': set<Coord>, visited': seq<Coord>,
                              parent': map<Coord, Coord>, depth': map<Coord, nat>)
    requires Discovered(g, start, queue, seen, visitedNodes, parent, depth)
    requires |queue| > 0 && cur == queue[0]
    requires newCells == Undiscovered(Neighbors(g, cur), seen)
    requires queue' == queue[1..] + newCells && seen' == seen + Elems(newCells) && visited' == visitedNodes + [cur]
    requires parent' == LinkAll(parent, Elems(newCells), cur)
    requires depth' == RankAll(depth, Elems(newCells), depth[cur] + 1)
    ensures Discovered(g, start, queue', seen', visited', parent', depth')
  {
    UndiscoveredNeighborsDistinct(g, cur, seen);
    EnqueueOnce(queue, seen, visitedNodes, newCells);
    RelinkOneDeeper(g, start, seen, parent, depth, cur, Elems(newCells), parent', depth');
  }

  lemma QueueLayeredStep(queue: seq<Coord>, newCells: seq<Coord>, depth: map<Coord, nat>, depth': map<Coord, nat>, m: nat)
    requires |queue| > 0
    requires forall x :: x in queue ==> x in depth && x in depth' && depth'[x] == depth[x]
    requires QueueLayered(queue, depth) && depth[queue[0]] == m
    requires forall x :: x in newCells ==> x in depth' && depth'[x] == m + 1
    ensures forall x :: x in queue[1..] + newCells ==> x in depth' && m <= depth'[x] <= m + 1
    ensures QueueLayered(queue[1..] + newCells, depth')
  {
    var q := queue[1..] + newCells;
    forall x | x in q
      ensures x in depth' && m <= depth'[x] <= m + 1
    {
      if x !in newCells {
        var i :| 1 <= i < |queue| && queue[i] == x;
      }
    }
    forall i, j | 0 <= i <= j < |q|
      ensures depth'[q[i]] <= depth'[q[j]]
    {
      if j >= |queue| - 1 {
        assert q[j] in newCells;
        assert q[i] in q;
      } else {
        assert q[i] == queue[i + 1] && q[j] == queue[j + 1];
      }
    }
    if |q| > 0 {
      assert q[0] in q;
      forall i | 0 <= i < |q|
        ensures depth'[q[i]] <= depth'[q[0]] + 1
      {
        assert q[i] in q;
      }
    }
  }

  lemma RecordedNotDeeperStep(queue: seq<Coord>, visitedNodes: seq<Coord>, depth: map<Coord, nat>,
                              queue': seq<Coord>, depth': map<Coord, nat>, m: nat)
    requires |queue| > 0
    requires forall x :: x in visitedNodes || x in queue ==> x in depth && x in depth' && depth'[x] == depth[x]
    requires RecordedNotDeeper(visitedNodes, queue, depth) && depth[queue[0]] == m
    requires forall x :: x in queue' ==> x in depth' && m <= depth'[x]
    ensures RecordedNotDeeper(visitedNodes + [queue[0]], queue', depth')
  {
    var visited' := visitedNodes + [queue[0]];
    if |queue'| > 0 {
      assert queue'[0] in queue';
      forall i | 0 <= i < |visited'|
        ensures depth'[visited'[i]] <= depth'[queue'[0]]
      {
        if i < |visitedNodes| {
          assert visited'[i] == visitedNodes[i];
        }
      }
    }
  }

  lemma RecordedExpandedStep(g: Grid, queue: seq<Coord>, seen: set<Coord>, visitedNodes: seq<Coord>,
                             depth: map<Coord, nat>, cur: Coord, newCells: seq<Coord>, depth': map<Coord, nat>)
    requires forall x :: x in seen <==> x in visitedNodes || x in queue
    requires forall x :: x in seen ==> x in depth && x in depth' && depth'[x] == depth[x]
    requires |queue| > 0 && cur == queue[0]
    requires QueueLayered(queue, depth) && RecordedNotDeeper(visitedNodes, queue, depth)
    requires RecordedExpanded(g, visitedNodes, seen, depth)
    requires forall n :: n in newCells <==> Step(g, cur, n) && n !in seen
    requires forall n :: n in newCells ==> n in depth' && depth'[n] == depth[cur] + 1
    ensures RecordedExpanded(g, visitedNodes + [cur], seen + Elems(newCells), depth')
  {
    forall e, n | e in visitedNodes + [cur] && Step(g, e, n)
      ensures n in seen + Elems(newCells) && depth'[n] <= depth'[e] + 1
    {
      if e == cur && n !in newCells {
        assert n in seen;
        if n in visitedNodes {
          var i :| 0 <= i < |visitedNodes| && visitedNodes[i] == n;
        } else {
          var i :| 0 <= i < |queue| && queue[i] == n;
        }
      }
    }
  }

  lemma LayersCompleteStep(g: Grid, start: Coord, queue': seq<Coord>, seen': set<Coord>, visited': seq<Coord>,
                           depth': map<Coord, nat>, m: nat)
    requires forall x :: x in seen' <==> x in visited' || x in queue'
    requires forall x :: x in seen' <==> x in depth'
    requires start in seen' && depth'[start] == 0
    requires forall x :: x in queue' ==> m <= depth'[x] <= m + 1
    requires QueueLayered(queue', depth')
    requires forall w :: IsWalk(g, w) && w[0] == start && |w| <= m + 1 ==>
               w[|w| - 1] in seen' && depth'[w[|w| - 1]] <= |w| - 1
    requires RecordedExpanded(g, visited', seen', depth')
    ensures LayersComplete(g, start, queue', seen', depth')
  {
    if |queue'| > 0 {
      var h := depth'[queue'[0]];
      assert queue'[0] in queue';
      forall w | IsWalk(g, w) && w[0] == start && |w| <= h + 1
        ensures w[|w| - 1] in seen' && depth'[w[|w| - 1]] <= |w| - 1
      {
        if |w| > m + 1 {
          forall y | y in queue'
            ensures m < depth'[y]
          {
            var i :| 0 <= i < |queue'| && queue'[i] == y;
          }
          LayerStep(g, start, queue', seen', visited', depth', w, m);
        }
      }
    }
  }

  /** Popping the head of the queue, recording it and enqueueing its
      undiscovered neighbours keeps the invariant. */
  lemma ExpandKeepsInv(g: Grid, start: Coord, queue: seq<Coord>, seen: set<Coord>,
                       visitedNodes: seq<Coord>, parent: map<Coord, Coord>, depth: map<Coord, nat>,
                       cur: Coord, newCells: seq<Coord>,
                       queue': seq<Coord>, seen': set<Coord>, visited': seq<Coord>,
                       parent': map<Coord, Coord>, depth': map<Coord, nat>)
    requires BfsInv(g, start, queue, seen, visitedNodes, parent, depth)
    requires |queue| > 0 && cur == queue[0]
    requires newCells == Undiscovered(Neighbors(g, cur), seen)
    requires queue' == queue[1..] + newCells && seen' == seen + Elems(newCells) && visited' == visitedNodes + [cur]
    requires parent' == LinkAll(parent, Elems(newCells), cur)
    requires depth' == RankAll(depth, Elems(newCells), depth[cur] + 1)
    ensures BfsInv(g, start, queue', seen', visited', parent', depth')
  {
    ExpandKeepsDiscovered(g, start, queue, seen, visitedNodes, parent, depth, cur, newCells,
                          queue', seen', visited', parent', depth');
    ExpandKeepsLayered(g, start, queue, seen, visitedNodes, depth, cur, newCells, queue', seen', visited', depth');
  }

  /** Popping the head of the queue, recording it and enqueueing its
      undiscovered neighbours keeps the layering. */
  lemma ExpandKeepsLayered(g: Grid, start: Coord, queue: seq<Coord>, seen: set<Coord>,
                           visitedNodes: seq<Coord>, depth: map<Coord, nat>,
                           cur: Coord, newCells: seq<Coord>,
                           queue': seq<Coord>, seen': set<Coord>, visited': seq<Coord>, depth': map<Coord, nat>)
    requires forall x :: x in seen <==> x in visitedNodes || x in queue
    requires forall x :: x in depth <==> x in seen
    requires start in seen && depth[start] == 0
    requires Layered(g, start, queue, seen, visitedNodes, depth)
    requires |queue| > 0 && cur == queue[0]
    requires forall n :: n in newCells <==> Step(g, cur, n) && n !in seen
    requires queue' == queue[1..] + newCells && seen' == seen + Elems(newCells) && visited' == visitedNodes + [cur]
    requires forall x :: x in seen' <==> x in visited' || x in queue'
    requires depth' == RankAll(depth, Elems(newCells), depth[cur] + 1)
    ensures Layered(g, start, queue', seen', visited', depth')
  {
    assert cur in queue;
    var m := depth[cur];
    assert forall x :: x in seen ==> x !in Elems(newCells);
    QueueLayeredStep(queue, newCells, depth, depth', m);
    RecordedNotDeeperStep(queue, visitedNodes, depth, queue', depth', m);
    RecordedExpandedStep(g, queue, seen, visitedNodes, depth, cur, newCells, depth');
    LayersCompleteStep(g, start, queue', seen', visited', depth', m);
  }

  /** The key step of the layering argument: once every queued cell is
      deeper than m, a walk of m + 1 steps ends one step after a walk of m
      steps, whose last cell is then a recorded cell. */
  lemma LayerStep(g: Grid, start: Coord, queue: seq<Coord>, seen: set<Coord>,
                  visitedNodes: seq<Coord>, depth: map<Coord, nat>, w: seq<Coord>, m: nat)
    requires forall y :: y in seen <==> y in visitedNodes || y in queue
    requires forall y :: y in depth <==> y in seen
    requires forall y :: y in queue ==> m < depth[y]
    requires forall v :: IsWalk(g, v) && v[0] == start && |v| <= m + 1 ==>
               v[|v| - 1] in seen && depth[v[|v| - 1]] <= |v| - 1
    requires RecordedExpanded(g, visitedNodes, seen, depth)
    requires IsWalk(g, w) && w[0] == start && |w| == m + 2
    ensures w[|w| - 1] in seen && depth[w[|w| - 1]] <= m + 1
  {
    WalkDropLast(g, w);
    var v := w[..|w| - 1];
    assert v[|v| - 1] == w[|w| - 2];
    assert w[|w| - 2] !in queue;
  }

  /** When the end reaches the head of the queue, the path back through the
      predecessor links is a shortest walk from the start. */
  lemma FoundEndIsShortest(g: Grid, start: Coord, end: Coord, queue: seq<Coord>, seen: set<Coord>,
                           visitedNodes: seq<Coord>, parent: map<Coord, Coord>, depth: map<Coord, nat>,
                           path: seq<Coord>)
    requires InBounds(g, start)
    requires BfsInv(g, start, queue, seen, visitedNodes, parent, depth)
    requires |queue| > 0 && queue[0] == end
    requires path == ReconstructPath(parent, depth, end)
    ensures IsWalkFrom(g, path, start, end) && NoDuplicates(path)
    ensures IsShortestWalk(g, path, start, end)
    ensures NoDuplicates(visitedNodes)
  {
    assert end in queue;
    TreePathIsWalk(g, start, parent, depth, seen, end);
    TreePathLength(g, start, parent, depth, seen, end);
    assert forall v :: IsWalkFrom(g, v, start, end) ==> |path| <= |v|;
    NoDuplicatesPrefix(visitedNodes, queue);
  }

  /** When the end reaches the head of the queue, every cell nearer to the
      start than the end has been recorded, and no recorded cell is farther:
      recorded cells are no deeper than the head, and a cell less deep than
      the head is no longer queued. */
  lemma FoundEndRecordsLayers(g: Grid, start: Coord, end: Coord, queue: seq<Coord>, seen: set<Coord>,
                              visitedNodes: seq<Coord>, parent: map<Coord, Coord>, depth: map<Coord, nat>,
                              r: SearchResult)
    requires InBounds(g, start)
    requires BfsInv(g, start, queue, seen, visitedNodes, parent, depth)
    requires |queue| > 0 && queue[0] == end
    requires r == SearchResult(ReconstructPath(parent, depth, end), visitedNodes)
    ensures RecordsNearer(g, start, r) && RecordsWithin(g, start, r)
  {
    assert end in queue;
    TreePathLength(g, start, parent, depth, seen, end);
    forall w | IsWalk(g, w) && w[0] == start && |w| < |r.path|
      ensures w[|w| - 1] in visitedNodes
    {
      var x := w[|w| - 1];
      assert x in seen && depth[x] < depth[end];
    }
    forall x | x in visitedNodes
      ensures exists w :: IsWalkFrom(g, w, start, x) && |w| <= |r.path|
    {
      var i :| 0 <= i < |visitedNodes| && visitedNodes[i] == x;
      assert depth[x] <= depth[end];
      TreePathWithin(g, start, parent, depth, seen, x, |r.path|);
    }
  }

  /** When the queue runs dry, the recorded cells are exactly the cells
      reachable from the start. */
  lemma DrainedRecordsReachable(g: Grid, start: Coord, queue: seq<Coord>, seen: set<Coord>,
                                visitedNodes: seq<Coord>, parent: map<Coord, Coord>, depth: map<Coord, nat>)
    requires BfsInv(g, start, queue, seen, visitedNodes, parent, depth)
    requires queue == []
    ensures NoDuplicates(visitedNodes)
    ensures forall x :: x in visitedNodes <==> Reachable(g, start, x)
  {
    TreeReachable(g, start, parent, depth, seen);
    NoDuplicatesPrefix(visitedNodes, queue);
    forall x | Reachable(g, start, x)
      ensures x in visitedNodes
    {
      ClosedSetHoldsReachable(g, start, Elems(visitedNodes), x);
    }
  }

  /** Everything the search loop keeps between two pops: the invariant,
      the end never recorded, the start recorded first, and the visit
      callback seeing every recorded cell after the start. */
  ghost predicate Running(g: Grid, start: Coord, end: Coord, queue: seq<Coord>, seen: set<Coord>,
                          visitedNodes: seq<Coord>, parent: map<Coord, Coord>, depth: map<Coord, nat>,
                          trace: seq<Coord>)
  {
    && InBounds(g, start)
    && BfsInv(g, start, queue, seen, visitedNodes, parent, depth)
    && end !in visitedNodes
    && (visitedNodes == [] ==> queue == [start])
    && (|visitedNodes| > 0 ==> visitedNodes[0] == start && start != end)
    && trace == (if visitedNodes == [] then [] else visitedNodes[1..])
  }

  /** One round of the loop, when the head of the queue is not the end,
      keeps it running and leaves fewer cells undiscovered or a shorter
      queue. */
  lemma ExpandKeepsRunning(g: Grid, start: Coord, end: Coord, queue: seq<Coord>, seen: set<Coord>,
                           visitedNodes: seq<Coord>, parent: map<Coord, Coord>, depth: map<Coord, nat>,
                           trace: seq<Coord>, cur: Coord, newCells: seq<Coord>,
                           queue': seq<Coord>, seen': set<Coord>, visited': seq<Coord>,
                           parent': map<Coord, Coord>, depth': map<Coord, nat>, trace': seq<Coord>)
    requires Running(g, start, end, queue, seen, visitedNodes, parent, depth, trace)
    requires |queue| > 0 && cur == queue[0] && cur != end
    requires newCells == Undiscovered(Neighbors(g, cur), seen)
    requires queue' == queue[1..] + newCells && seen' == seen + Elems(newCells)
    requires visited' == visitedNodes + [cur] && trace' == (if cur != start then trace + [cur] else trace)
    requires parent' == LinkAll(parent, Elems(newCells), cur)
    requires depth' == RankAll(depth, Elems(newCells), depth[cur] + 1)
    ensures Running(g, start, end, queue', seen', visited', parent', depth', trace')
  {
    ExpandKeepsInv(g, start, queue, seen, visitedNodes, parent, depth, cur, newCells,
                   queue', seen', visited', parent', depth');
    RecordStep(start, end, queue, visitedNodes, trace, cur, visited', trace');
    RunningIntro(g, start, end, queue', seen', visited', parent', depth', trace');
  }

  lemma RunningIntro(g: Grid, start: Coord, end: Coord, queue: seq<Coord>, seen: set<Coord>,
                     visitedNodes: seq<Coord>, parent: map<Coord, Coord>, depth: map<Coord, nat>,
                     trace: seq<Coord>)
    requires InBounds(g, start)
    requires BfsInv(g, start, queue, seen, visitedNodes, parent, depth)
    requires end !in visitedNodes
    requires visitedNodes == [] ==> queue == [start]
    requires |visitedNodes| > 0 ==> visitedNodes[0] == start && start != end
    requires trace == (if visitedNodes == [] then [] else visitedNodes[1..])
    ensures Running(g, start, end, queue, seen, visitedNodes, parent, depth, trace)
  {
  }

  /** Recording a popped cell other than the end keeps the start first
      and the visit callback one cell behind the record. */
  lemma RecordStep(start: Coord, end: Coord, queue: seq<Coord>, visitedNodes: seq<Coord>, trace: seq<Coord>,
                   cur: Coord, visited': seq<Coord>, trace': seq<Coord>)
    requires NoDuplicates(visitedNodes + queue)
    requires end !in visitedNodes
    requires visitedNodes == [] ==> queue == [start]
    requires |visitedNodes| > 0 ==> visitedNodes[0] == start && start != end
    requires trace == (if visitedNodes == [] then [] else visitedNodes[1..])
    requires |queue| > 0 && cur == queue[0] && cur != end
    requires visited' == visitedNodes + [cur] && trace' == (if cur != start then trace + [cur] else trace)
    ensures end !in visited' && |visited'| > 0 && visited'[0] == start && start != end
    ensures trace' == visited'[1..]
  {
    if visitedNodes != [] {
      PoppedAfterStart(visitedNodes, queue, start);
      TailAppend(visitedNodes, cur);
    }
  }

  /** A cell popped after the start is not the start again. */
  lemma PoppedAfterStart(visitedNodes: seq<Coord>, queue: seq<Coord>, start: Coord)
    requires NoDuplicates(visitedNodes + queue)
    requires |visitedNodes| > 0 && visitedNodes[0] == start && |queue| > 0
    ensures queue[0] != start
  {
    assert (visitedNodes + queue)[0] == start;
    assert (visitedNodes + queue)[|visitedNodes|] == queue[0];
  }

  /** Returning the path to the end when the end reaches the head of the
      queue keeps every promise of a search result, and the path is a
      shortest one. */
  lemma FoundEndReports(g: Grid, start: Coord, end: Coord, queue: seq<Coord>, seen: set<Coord>,
                        visitedNodes: seq<Coord>, parent: map<Coord, Coord>, depth: map<Coord, nat>,
                        trace: seq<Coord>, r: SearchResult)
    requires Running(g, start, end, queue, seen, visitedNodes, parent, depth, trace)
    requires |queue| > 0 && queue[0] == end
    requires r == SearchResult(ReconstructPath(parent, depth, end), visitedNodes)
    ensures RecordsVisits(g, start, end, r, trace)
    ensures ReportsPath(g, start, end, r)
    ensures IsShortestWalk(g, r.path, start, end)
  {
    FoundEndIsShortest(g, start, end, queue, seen, visitedNodes, parent, depth, r.path);
    TreeReachable(g, start, parent, depth, seen);
  }

  /** Returning no path when the queue runs dry keeps every promise of a
      search result. */
  lemma DrainedReports(g: Grid, start: Coord, end: Coord, queue: seq<Coord>, seen: set<Coord>,
                       visitedNodes: seq<Coord>, parent: map<Coord, Coord>, depth: map<Coord, nat>,
                       trace: seq<Coord>, r: SearchResult)
    requires Running(g, start, end, queue, seen, visitedNodes, parent, depth, trace)
    requires queue == [] && r == SearchResult([], visitedNodes)
    ensures RecordsVisits(g, start, end, r, trace)
    ensures ReportsPath(g, start, end, r)
  {
    DrainedRecordsReachable(g, start, queue, seen, visitedNodes, parent, depth);
  }

  /** A round of the loop either discovers a cell, leaving fewer cells
      undiscovered, or discovers none and shortens the queue. */
  lemma ExpandShrinks(g: Grid, queue: seq<Coord>, seen: set<Coord>, cur: Coord, newCells: seq<Coord>,
                      queue': seq<Coord>, seen': set<Coord>)
    requires |queue| > 0 && cur == queue[0]
    requires newCells == Undiscovered(Neighbors(g, cur), seen)
    requires queue' == queue[1..] + newCells && seen' == seen + Elems(newCells)
    ensures AllCells(g) - seen' < AllCells(g) - seen || (seen' == seen && |queue'| < |queue|)
  {
    if newCells != [] {
      var n := newCells[0];
      assert Step(g, cur, n);
      assert n in AllCells(g) - seen;
      assert n !in AllCells(g) - seen';
    } else {
      assert seen' == seen;
    }
  }

  /** Breadth-first search from `start` for `end`. `trace` is the sequence
      of cells handed to the visit callback. */
  method Bfs(g: Grid, start: Coord, end: Coord) returns (r: SearchResult, trace: seq<Coord>)
    requires InBounds(g, start)
    ensures RecordsVisits(g, start, end, r, trace)
    ensures ReportsPath(g, start, end, r)
    ensures r.path != [] ==> IsShortestWalk(g, r.path, start, end)
    ensures RecordsNearer(g, start, r) && RecordsWithin(g, start, r)
  {
    var queue := [start];
    var seen := {start};
    var visitedNodes: seq<Coord> := [];
    var parent: map<Coord, Coord> := map[];
    ghost var depth: map<Coord, nat> := map[start := 0];
    trace := [];
    assert Running(g, start, end, queue, seen, visitedNodes, parent, depth, trace);

    while |queue| > 0
      invariant Running(g, start, end, queue, seen, visitedNodes, parent, depth, trace)
      decreases AllCells(g) - seen, |queue|
    {
      var current := queue[0];
      if current == end {
        var path := ReconstructPath(parent, depth, current);
        r := SearchResult(path, visitedNodes);
        FoundEndReports(g, start, end, queue, seen, visitedNodes, parent, depth, trace, r);
        FoundEndRecordsLayers(g, start, end, queue, seen, visitedNodes, parent, depth, r);
        return;
      }
      ghost var queue0, seen0, visited0, parent0, depth0, trace0 := queue, seen, visitedNodes, parent, depth, trace;
      var newCells := Undiscovered(Neighbors(g, current), seen);
      if current != start {
        trace := trace + [current];
      }
      visitedNodes := visitedNodes + [current];
      queue := queue[1..] + newCells;
      seen := seen + Elems(newCells);
      parent := LinkAll(parent, Elems(newCells), current);
      depth := RankAll(depth, Elems(newCells), depth0[current] + 1);
      ExpandKeepsRunning(g, start, end, queue0, seen0, visited0, parent0, depth0, trace0, current, newCells,
                         queue, seen, visitedNodes, parent, depth, trace);
      ExpandShrinks(g, queue0, seen0, current, newCells, queue, seen);
    }

    r := SearchResult([], visitedNodes);
    DrainedReports(g, start, end, queue, seen, visitedNodes, parent, depth, trace, r);
  }
}
