/** Dijkstra's search with unit step costs: every grid cell starts
    unvisited, the next cell to expand is found by a row-major scan for the
    least finite tentative distance, and neighbours still unvisited are
    relaxed. A cell absent from the distance map has infinite distance. */
module Dijkstra {
  import opened GridModel
  import opened Paths

  /** `a` comes strictly before `b` in the row-major scan order. */
  predicate ScanBefore(a: Coord, b: Coord) {
    a.row < b.row || (a.row == b.row && a.col < b.col)
  }

  /** `c` is the cell the scan settles on: an unvisited cell of least finite
      distance, and the first such cell in scan order. */
  ghost predicate IsFirstMin(g: Grid, unvisited: set<Coord>, dist: map<Coord, nat>, c: Coord) {
    && InBounds(g, c) && c in unvisited && c in dist
    && forall x :: InBounds(g, x) && x in unvisited && x in dist ==>
         dist[c] <= dist[x] && (ScanBefore(x, c) ==> dist[c] < dist[x])
  }

  /** At most one cell is the first minimum. */
  lemma FirstMinUnique(g: Grid, unvisited: set<Coord>, dist: map<Coord, nat>, a: Coord, b: Coord)
    requires IsFirstMin(g, unvisited, dist, a) && IsFirstMin(g, unvisited, dist, b)
    ensures a == b
  {
    assert dist[a] == dist[b];
    assert !ScanBefore(a, b) && !ScanBefore(b, a);
  }

  /** What the scan has established once it has passed every cell before
      `pos`: `sel` is the first minimum among them, or none of them is an
      unvisited cell of finite distance. */
  ghost predicate Scanned(g: Grid, unvisited: set<Coord>, dist: map<Coord, nat>, sel: Option<Coord>, pos: Coord) {
    && (sel.None? ==> forall x :: InBounds(g, x) && ScanBefore(x, pos) && x in unvisited ==> x !in dist)
    && (sel.Some? ==>
          && InBounds(g, sel.value) && ScanBefore(sel.value, pos)
          && sel.value in unvisited && sel.value in dist
          && forall x :: InBounds(g, x) && ScanBefore(x, pos) && x in unvisited && x in dist ==>
               dist[sel.value] <= dist[x] && (ScanBefore(x, sel.value) ==> dist[sel.value] < dist[x]))
  }

  /** The selection scan: walks the grid row by row and keeps the first cell
      whose finite distance is strictly below the best so far. `None` is the
      source's "no cell, or only infinite distances left". */
  method SelectMin(g: Grid, unvisited: set<Coord>, dist: map<Coord, nat>) returns (sel: Option<Coord>)
    ensures sel.Some? ==> IsFirstMin(g, unvisited, dist, sel.value)
    ensures sel.None? ==> forall x :: InBounds(g, x) && x in unvisited ==> x !in dist
  {
    sel := None;
    var r := 0;
    while r < |g|
      invariant 0 <= r <= |g|
      invariant Scanned(g, unvisited, dist, sel, Coord(r, 0))
    {
      var c := 0;
      while c < Cols(g)
        invariant 0 <= c <= Cols(g)
        invariant Scanned(g, unvisited, dist, sel, Coord(r, c))
      {
        var here := Coord(r, c);
        if here in unvisited && here in dist && (sel.None? || dist[here] < dist[sel.value]) {
          sel := Some(here);
        }
        c := c + 1;
      }
      r := r + 1;
    }
  }

  /** Whether relaxing `n` to the distance `nd` is an improvement: `n` is
      still unvisited and its tentative distance is infinite or larger. */
  predicate Improves(n: Coord, unvisited: set<Coord>, dist: map<Coord, nat>, nd: nat) {
    n in unvisited && (n !in dist || nd < dist[n])
  }

  /** The cells of `ns` that relaxing to `nd` improves. */
  function Improved(ns: seq<Coord>, unvisited: set<Coord>, dist: map<Coord, nat>, nd: nat): (upd: set<Coord>)
    ensures forall n :: n in upd <==> n in ns && Improves(n, unvisited, dist, nd)
  {
    set n | n in ns && Improves(n, unvisited, dist, nd)
  }

  /** Tentative distances and predecessor links. */
  datatype Tentative = Tentative(dist: map<Coord, nat>, parent: map<Coord, Coord>)

  /** The relaxation loop over the neighbours of `cur`, one neighbour at a
      time in list order: an improved neighbour gets distance `nd` and
      predecessor `cur`. Its outcome is the same as improving every cell of
      `Improved` at once. It never raises or forgets a tentative distance,
      and it changes a predecessor link only where it strictly lowered the
      distance, so a tie keeps the earlier predecessor. */
  function Relax(ns: seq<Coord>, unvisited: set<Coord>, dist: map<Coord, nat>, parent: map<Coord, Coord>,
                 cur: Coord, nd: nat): (t: Tentative)
    ensures t.dist == RankAll(dist, Improved(ns, unvisited, dist, nd), nd)
    ensures t.parent == LinkAll(parent, Improved(ns, unvisited, dist, nd), cur)
    ensures forall x :: x in dist ==> x in t.dist && t.dist[x] <= dist[x]
    ensures forall x :: x in t.parent && (x !in parent || t.parent[x] != parent[x]) ==>
              x in ns && x in unvisited && (x !in dist || nd < dist[x]) && t.parent[x] == cur && t.dist[x] == nd
    decreases |ns|
  {
    if ns == [] then
      Tentative(dist, parent)
    else
      var n := ns[0];
      if Improves(n, unvisited, dist, nd) then
        var t := Relax(ns[1..], unvisited, dist[n := nd], parent[n := cur], cur, nd);
        RelaxImprovesHead(ns, unvisited, dist, parent, cur, nd);
        t
      else
        var t := Relax(ns[1..], unvisited, dist, parent, cur, nd);
        RelaxSkipsHead(ns, unvisited, dist, parent, cur, nd);
        t
  }

  lemma RelaxImprovesHead(ns: seq<Coord>, unvisited: set<Coord>, dist: map<Coord, nat>, parent: map<Coord, Coord>,
                          cur: Coord, nd: nat)
    requires |ns| > 0 && Improves(ns[0], unvisited, dist, nd)
    ensures RankAll(dist[ns[0] := nd], Improved(ns[1..], unvisited, dist[ns[0] := nd], nd), nd)
         == RankAll(dist, Improved(ns, unvisited, dist, nd), nd)
    ensures LinkAll(parent[ns[0] := cur], Improved(ns[1..], unvisited, dist[ns[0] := nd], nd), cur)
         == LinkAll(parent, Improved(ns, unvisited, dist, nd), cur)
  {
    var n := ns[0];
    var upd := Improved(ns, unvisited, dist, nd);
    var upd' := Improved(ns[1..], unvisited, dist[n := nd], nd);
    ImprovedAfterHead(ns, unvisited, dist, nd);
    RankAllAbsorbs(dist, n, upd', nd);
    LinkAllAbsorbs(parent, n, upd', cur);
  }

  /** Once the head is improved, the rest of the list improves the other
      cells the whole list would. */
  lemma ImprovedAfterHead(ns: seq<Coord>, unvisited: set<Coord>, dist: map<Coord, nat>, nd: nat)
    requires |ns| > 0 && Improves(ns[0], unvisited, dist, nd)
    ensures Improved(ns, unvisited, dist, nd) == Improved(ns[1..], unvisited, dist[ns[0] := nd], nd) + {ns[0]}
  {
    assert forall x :: x in ns <==> x == ns[0] || x in ns[1..] by {
      assert ns == [ns[0]] + ns[1..];
    }
  }

  lemma RelaxSkipsHead(ns: seq<Coord>, unvisited: set<Coord>, dist: map<Coord, nat>, parent: map<Coord, Coord>,
                       cur: Coord, nd: nat)
    requires |ns| > 0 && !Improves(ns[0], unvisited, dist, nd)
    ensures Improved(ns[1..], unvisited, dist, nd) == Improved(ns, unvisited, dist, nd)
  {
    assert forall x :: x in ns <==> x == ns[0] || x in ns[1..] by {
      assert ns == [ns[0]] + ns[1..];
    }
  }

  /** The bookkeeping of a Dijkstra run between two selections: the
      expanded cells, listed once each, are exactly the grid cells no longer
      unvisited; finite distances belong to reachable cells, only the start
      has distance zero, and every expanded cell has a finite distance. */
  ghost predicate Settled(g: Grid, start: Coord, unvisited: set<Coord>, dist: map<Coord, nat>, visitedNodes: seq<Coord>)
  {
    && NoDuplicates(visitedNodes)
    && (forall x :: x in unvisited <==> InBounds(g, x) && x !in visitedNodes)
    && start in dist && dist[start] == 0
    && (forall x :: x in dist && x != start ==> dist[x] > 0)
    && (forall x :: x in dist ==> InBounds(g, x) && Reachable(g, start, x))
    && (forall x :: x in visitedNodes ==> x in dist)
  }

  /** The predecessor links form a tree over the cells of finite distance,
      every link leaves an expanded cell, and every neighbour of an expanded
      cell has a finite distance. */
  ghost predicate Linked(g: Grid, start: Coord, dist: map<Coord, nat>, parent: map<Coord, Coord>, visitedNodes: seq<Coord>)
  {
    && IsParentTree(g, start, parent, dist, dist.Keys)
    && (forall c {:trigger parent[c]} :: c in parent ==> parent[c] in visitedNodes)
    && (forall e, n :: e in visitedNodes && Step(g, e, n) ==> n in dist)
  }

  ghost predicate DijkstraInv(g: Grid, start: Coord, unvisited: set<Coord>, dist: map<Coord, nat>,
                              parent: map<Coord, Coord>, visitedNodes: seq<Coord>)
  {
    Settled(g, start, unvisited, dist, visitedNodes) && Linked(g, start, dist, parent, visitedNodes)
  }

  /** Expanding the selected cell keeps the bookkeeping. */
  lemma ExpandKeepsInv(g: Grid, start: Coord, unvisited: set<Coord>, dist: map<Coord, nat>,
                       parent: map<Coord, Coord>, visitedNodes: seq<Coord>, cur: Coord, upd: set<Coord>)
    requires DijkstraInv(g, start, unvisited, dist, parent, visitedNodes)
    requires IsFirstMin(g, unvisited, dist, cur)
    requires upd == Improved(Neighbors(g, cur), unvisited - {cur}, dist, dist[cur] + 1)
    ensures DijkstraInv(g, start, unvisited - {cur}, RankAll(dist, upd, dist[cur] + 1),
                        LinkAll(parent, upd, cur), visitedNodes + [cur])
  {
    assert start !in upd && cur !in upd;
    ExpandKeepsSettled(g, start, unvisited, dist, visitedNodes, cur, upd);
    RelinkKeepsTree(g, start, dist, parent, visitedNodes, cur, upd, dist[cur] + 1);
    RelaxCoversNeighbors(g, unvisited, dist, visitedNodes, cur, dist[cur] + 1);
  }

  lemma ExpandKeepsSettled(g: Grid, start: Coord, unvisited: set<Coord>, dist: map<Coord, nat>,
                           visitedNodes: seq<Coord>, cur: Coord, upd: set<Coord>)
    requires Settled(g, start, unvisited, dist, visitedNodes)
    requires cur in unvisited && cur in dist && start !in upd
    requires forall n :: n in upd ==> Step(g, cur, n)
    ensures Settled(g, start, unvisited - {cur}, RankAll(dist, upd, dist[cur] + 1), visitedNodes + [cur])
  {
    var dist' := RankAll(dist, upd, dist[cur] + 1);
    assert cur !in visitedNodes;
    NoDuplicatesAppend(visitedNodes, [cur]);
    ReachableNeighbors(g, start, cur, upd);
    assert forall x :: x in dist' && x != start ==> dist'[x] > 0;
  }

  /** Linking the improved cells to the expanded one keeps the parent tree
      over the cells of finite distance, with every link leaving an
      expanded cell. */
  lemma RelinkKeepsTree(g: Grid, start: Coord, dist: map<Coord, nat>, parent: map<Coord, Coord>,
                        visitedNodes: seq<Coord>, cur: Coord, upd: set<Coord>, nd: nat)
    requires IsParentTree(g, start, parent, dist, dist.Keys)
    requires forall c {:trigger parent[c]} :: c in parent ==> parent[c] in visitedNodes
    requires cur in dist && nd == dist[cur] + 1 && cur !in upd && start !in upd
    requires forall n :: n in upd ==> Step(g, cur, n) && n !in visitedNodes
    ensures IsParentTree(g, start, LinkAll(parent, upd, cur), RankAll(dist, upd, nd), RankAll(dist, upd, nd).Keys)
    ensures forall c {:trigger LinkAll(parent, upd, cur)[c]} :: c in LinkAll(parent, upd, cur) ==>
              LinkAll(parent, upd, cur)[c] in visitedNodes + [cur]
  {
    var parent' := LinkAll(parent, upd, cur);
    ParentTreeRelink(g, start, parent, dist, dist.Keys, cur, upd, nd);
    assert RankAll(dist, upd, nd).Keys == dist.Keys + upd;
    forall c {:trigger parent'[c]} | c in parent'
      ensures parent'[c] in visitedNodes + [cur]
    {
      if c !in upd {
        assert parent'[c] == parent[c];
      }
    }
  }

  /** After expanding `cur`, each of its neighbours has a finite distance:
      it had one already, or it is unvisited and the relaxation gave it one. */
  lemma RelaxCoversNeighbors(g: Grid, unvisited: set<Coord>, dist: map<Coord, nat>,
                             visitedNodes: seq<Coord>, cur: Coord, nd: nat)
    requires forall x :: x in unvisited <==> InBounds(g, x) && x !in visitedNodes
    requires forall e, n :: e in visitedNodes && Step(g, e, n) ==> n in dist
    requires forall x :: x in visitedNodes ==> x in dist
    requires cur in unvisited
    ensures forall e, n :: e in visitedNodes + [cur] && Step(g, e, n) ==>
              n in RankAll(dist, Improved(Neighbors(g, cur), unvisited - {cur}, dist, nd), nd)
  {
    var upd := Improved(Neighbors(g, cur), unvisited - {cur}, dist, nd);
    forall e, n | e in visitedNodes + [cur] && Step(g, e, n)
      ensures n in RankAll(dist, upd, nd)
    {
      if e == cur && n !in dist {
        assert n in Neighbors(g, cur);
        assert n != cur;
      }
    }
  }

  /** The facts that make the distances exact: no walk beats the distance
      of an expanded cell; an unexpanded neighbour of an expanded cell is at
      most one further; and every link adds exactly one to the distance. */
  ghost predicate Optimal(g: Grid, start: Coord, dist: map<Coord, nat>, parent: map<Coord, Coord>, visitedNodes: seq<Coord>)
  {
    && (forall x :: x in visitedNodes ==> x in dist && DistanceAtLeast(g, start, x, dist[x]))
    && (forall e, n :: e in visitedNodes && Step(g, e, n) && n !in visitedNodes ==>
          e in dist && n in dist && dist[n] <= dist[e] + 1)
    && (forall x {:trigger parent[x]} :: x in parent ==> x in dist && parent[x] in dist && dist[x] == dist[parent[x]] + 1)
  }

  /** The selected cell's distance is exact: no walk from the start reaches
      it in fewer steps. */
  lemma SelectedIsOptimal(g: Grid, start: Coord, unvisited: set<Coord>, dist: map<Coord, nat>,
                          parent: map<Coord, Coord>, visitedNodes: seq<Coord>, cur: Coord)
    requires InBounds(g, start)
    requires Settled(g, start, unvisited, dist, visitedNodes)
    requires Optimal(g, start, dist, parent, visitedNodes)
    requires IsFirstMin(g, unvisited, dist, cur)
    ensures DistanceAtLeast(g, start, cur, dist[cur])
  {
    forall v | IsWalkFrom(g, v, start, cur)
      ensures dist[cur] < |v|
    {
      var p := UnvisitedCrossing(g, start, unvisited, dist, parent, visitedNodes, v);
    }
  }

  /** Every walk from the start to a cell not yet expanded passes an
      unexpanded cell whose tentative distance is below the walk's length. */
  lemma UnvisitedCrossing(g: Grid, start: Coord, unvisited: set<Coord>, dist: map<Coord, nat>,
                          parent: map<Coord, Coord>, visitedNodes: seq<Coord>, v: seq<Coord>) returns (p: Coord)
    requires InBounds(g, start)
    requires Settled(g, start, unvisited, dist, visitedNodes)
    requires Optimal(g, start, dist, parent, visitedNodes)
    requires IsWalk(g, v) && v[0] == start && v[|v| - 1] !in visitedNodes
    ensures InBounds(g, p) && p in unvisited && p in dist && dist[p] < |v|
  {
    var settled := Elems(visitedNodes);
    forall e, n | e in settled && Step(g, e, n) && n !in settled
      ensures n in unvisited && n in dist && dist[n] <= dist[e] + 1
    {
    }
    var j := CrossingBound(g, start, settled, unvisited, dist, v);
    p := v[j];
  }

  /** Distances are settled in non-decreasing order: every expanded cell's
      distance is at most `level`, the distance of the last expansion, and
      every unexpanded finite distance is at least `level`. */
  ghost predicate SettledBelow(unvisited: set<Coord>, dist: map<Coord, nat>, visitedNodes: seq<Coord>, level: nat) {
    && (forall x :: x in visitedNodes ==> x in dist && dist[x] <= level)
    && (forall x :: x in unvisited && x in dist ==> level <= dist[x])
  }

  /** Expanding the first least cell raises the level to its distance: its
      neighbours are lowered to one more than that, never below it. */
  lemma ExpandKeepsLevel(g: Grid, unvisited: set<Coord>, dist: map<Coord, nat>, visitedNodes: seq<Coord>,
                         level: nat, cur: Coord, upd: set<Coord>, dist': map<Coord, nat>)
    requires SettledBelow(unvisited, dist, visitedNodes, level)
    requires forall x :: x in unvisited ==> InBounds(g, x) && x !in visitedNodes
    requires IsFirstMin(g, unvisited, dist, cur)
    requires forall x :: x in upd ==> x in unvisited && x != cur
    requires dist' == RankAll(dist, upd, dist[cur] + 1)
    ensures SettledBelow(unvisited - {cur}, dist', visitedNodes + [cur], dist[cur])
  {
    forall x | x in visitedNodes + [cur]
      ensures x in dist' && dist'[x] <= dist[cur]
    {
      if x != cur {
        assert x in visitedNodes && x !in upd;
      }
    }
  }

  lemma ExpandKeepsOptimal(g: Grid, start: Coord, unvisited: set<Coord>, dist: map<Coord, nat>,
                           parent: map<Coord, Coord>, visitedNodes: seq<Coord>, cur: Coord, upd: set<Coord>,
                           dist': map<Coord, nat>, parent': map<Coord, Coord>, visited': seq<Coord>)
    requires Settled(g, start, unvisited, dist, visitedNodes)
    requires Optimal(g, start, dist, parent, visitedNodes)
    requires (forall c {:trigger parent[c]} :: c in parent ==> parent[c] in visitedNodes)
    requires cur in unvisited && cur in dist && DistanceAtLeast(g, start, cur, dist[cur])
    requires upd == Improved(Neighbors(g, cur), unvisited - {cur}, dist, dist[cur] + 1)
    requires dist' == RankAll(dist, upd, dist[cur] + 1) && parent' == LinkAll(parent, upd, cur)
    requires visited' == visitedNodes + [cur]
    ensures Optimal(g, start, dist', parent', visited')
  {
    assert forall x :: x in visited' ==> x !in upd;
    ExpandKeepsFrontier(g, unvisited, dist, visitedNodes, cur, Neighbors(g, cur), upd, dist', visited');
    RelinkAddsOne(dist, parent, Elems(visitedNodes), cur, upd, dist', parent');
  }

  /** After the expansion, an unexpanded neighbour of an expanded cell is
      still at most one further than it. `ns` holds the neighbours of the
      expanded cell. */
  lemma ExpandKeepsFrontier(g: Grid, unvisited: set<Coord>, dist: map<Coord, nat>,
                            visitedNodes: seq<Coord>, cur: Coord, ns: seq<Coord>, upd: set<Coord>,
                            dist': map<Coord, nat>, visited': seq<Coord>)
    requires forall x :: x in unvisited <==> InBounds(g, x) && x !in visitedNodes
    requires forall e, n :: e in visitedNodes && Step(g, e, n) && n !in visitedNodes ==>
               e in dist && n in dist && dist[n] <= dist[e] + 1
    requires cur in unvisited && cur in dist
    requires forall n :: Step(g, cur, n) ==> n in ns
    requires upd == Improved(ns, unvisited - {cur}, dist, dist[cur] + 1)
    requires dist' == RankAll(dist, upd, dist[cur] + 1)
    requires visited' == visitedNodes + [cur]
    requires forall x :: x in visited' ==> x !in upd
    ensures forall e, n :: e in visited' && Step(g, e, n) && n !in visited' ==>
              e in dist' && n in dist' && dist'[n] <= dist'[e] + 1
  {
    forall e, n | e in visited' && Step(g, e, n) && n !in visited'
      ensures e in dist' && n in dist' && dist'[n] <= dist'[e] + 1
    {
      assert n in unvisited - {cur};
      if e == cur {
        NeighborAtMostOneFurther(unvisited - {cur}, dist, ns, dist[cur] + 1, upd, dist', n);
      } else {
        FrontierPair(unvisited - {cur}, dist, ns, dist[cur] + 1, upd, dist', e, n);
      }
    }
  }

  /** An unvisited cell that was at most one further than an expanded cell
      stays so: the expansion can only lower its distance. */
  lemma FrontierPair(unvisited: set<Coord>, dist: map<Coord, nat>, ns: seq<Coord>, nd: nat,
                     upd: set<Coord>, dist': map<Coord, nat>, e: Coord, n: Coord)
    requires upd == Improved(ns, unvisited, dist, nd) && dist' == RankAll(dist, upd, nd)
    requires e in dist && e !in upd && n in dist && dist[n] <= dist[e] + 1
    ensures e in dist' && n in dist' && dist'[n] <= dist'[e] + 1
  {
    if n in upd {
      assert Improves(n, unvisited, dist, nd);
    }
  }

  /** After relaxing to `nd`, an unvisited neighbour has distance at most `nd`. */
  lemma NeighborAtMostOneFurther(unvisited: set<Coord>, dist: map<Coord, nat>, ns: seq<Coord>, nd: nat,
                                 upd: set<Coord>, dist': map<Coord, nat>, n: Coord)
    requires upd == Improved(ns, unvisited, dist, nd) && dist' == RankAll(dist, upd, nd)
    requires n in ns && n in unvisited
    ensures n in dist' && dist'[n] <= nd
  {
    if n !in upd {
      assert !Improves(n, unvisited, dist, nd);
    }
  }

  /** When the end is selected, the path back from it is a shortest walk. */
  lemma FoundEndIsShortest(g: Grid, start: Coord, end: Coord, unvisited: set<Coord>, dist: map<Coord, nat>,
                           parent: map<Coord, Coord>, visitedNodes: seq<Coord>)
    requires InBounds(g, start)
    requires DijkstraInv(g, start, unvisited, dist, parent, visitedNodes)
    requires Optimal(g, start, dist, parent, visitedNodes)
    requires IsFirstMin(g, unvisited, dist, end)
    ensures IsShortestWalk(g, ReconstructPath(parent, dist, end), start, end)
  {
    SelectedIsOptimal(g, start, unvisited, dist, parent, visitedNodes, end);
    ShortestTreePath(g, start, parent, dist, dist.Keys, end);
  }

  /** When the scan finds nothing, the expanded cells are exactly the cells
      reachable from the start. */
  lemma ExhaustedRecordsReachable(g: Grid, start: Coord, unvisited: set<Coord>, dist: map<Coord, nat>,
                                  parent: map<Coord, Coord>, visitedNodes: seq<Coord>)
    requires DijkstraInv(g, start, unvisited, dist, parent, visitedNodes)
    requires forall x :: InBounds(g, x) && x in unvisited ==> x !in dist
    ensures forall x :: x in visitedNodes <==> Reachable(g, start, x)
  {
    assert start in visitedNodes;
    forall y, n | y in Elems(visitedNodes) && Step(g, y, n)
      ensures n in Elems(visitedNodes)
    {
      assert n in dist;
    }
    forall x | Reachable(g, start, x)
      ensures x in visitedNodes
    {
      ClosedSetHoldsReachable(g, start, Elems(visitedNodes), x);
    }
  }

  /** The first selection is the start, the only cell at distance zero. */
  lemma FirstSelectionIsStart(g: Grid, start: Coord, unvisited: set<Coord>, dist: map<Coord, nat>,
                              visitedNodes: seq<Coord>, cur: Coord)
    requires Settled(g, start, unvisited, dist, visitedNodes)
    requires visitedNodes == []
    requires IsFirstMin(g, unvisited, dist, cur)
    ensures cur == start
  {
    assert dist[cur] <= dist[start];
  }

  /** The path back from any cell of finite distance is a walk from the
      start without repeated cells. */
  lemma FoundPath(g: Grid, start: Coord, dist: map<Coord, nat>, parent: map<Coord, Coord>,
                  visitedNodes: seq<Coord>, c: Coord, path: seq<Coord>)
    requires Linked(g, start, dist, parent, visitedNodes)
    requires InBounds(g, start)
    requires c in dist && path == ReconstructPath(parent, dist, c)
    ensures IsWalkFrom(g, path, start, c) && NoDuplicates(path)
    ensures Reachable(g, start, c)
  {
    TreePathIsWalk(g, start, parent, dist, dist.Keys, c);
  }

  /** When the end is selected, every cell nearer to the start than the end
      has been expanded, and no expanded cell is farther. */
  lemma FoundEndRecordsLayers(g: Grid, start: Coord, end: Coord, unvisited: set<Coord>, dist: map<Coord, nat>,
                              parent: map<Coord, Coord>, visitedNodes: seq<Coord>, level: nat, r: SearchResult)
    requires InBounds(g, start)
    requires DijkstraInv(g, start, unvisited, dist, parent, visitedNodes)
    requires Optimal(g, start, dist, parent, visitedNodes)
    requires SettledBelow(unvisited, dist, visitedNodes, level)
    requires IsFirstMin(g, unvisited, dist, end)
    requires r == SearchResult(ReconstructPath(parent, dist, end), visitedNodes)
    ensures RecordsNearer(g, start, r) && RecordsWithin(g, start, r)
  {
    TreePathLength(g, start, parent, dist, dist.Keys, end);
    forall w | IsWalk(g, w) && w[0] == start && |w| < |r.path|
      ensures w[|w| - 1] in visitedNodes
    {
      if w[|w| - 1] !in visitedNodes {
        var p := UnvisitedCrossing(g, start, unvisited, dist, parent, visitedNodes, w);
        assert false;
      }
    }
    forall x | x in visitedNodes
      ensures exists w :: IsWalkFrom(g, w, start, x) && |w| <= |r.path|
    {
      TreePathWithin(g, start, parent, dist, dist.Keys, x, |r.path|);
    }
  }

  /** Returning the path to the end when the end is selected keeps every
      promise of a search result. */
  lemma FoundEndReports(g: Grid, start: Coord, end: Coord, unvisited: set<Coord>, dist: map<Coord, nat>,
                        parent: map<Coord, Coord>, visitedNodes: seq<Coord>, trace: seq<Coord>, r: SearchResult)
    requires InBounds(g, start)
    requires DijkstraInv(g, start, unvisited, dist, parent, visitedNodes)
    requires end in dist && r == SearchResult(ReconstructPath(parent, dist, end), visitedNodes)
    requires end !in visitedNodes
    requires visitedNodes == [] ==> end == start
    requires |visitedNodes| > 0 ==> visitedNodes[0] == start && start != end
    requires trace == (if visitedNodes == [] then [] else visitedNodes[1..])
    ensures RecordsVisits(g, start, end, r, trace)
    ensures ReportsPath(g, start, end, r)
  {
    FoundPath(g, start, dist, parent, visitedNodes, end, r.path);
  }

  /** Returning no path when the scan finds nothing keeps every promise of a
      search result. */
  lemma ExhaustedReports(g: Grid, start: Coord, end: Coord, unvisited: set<Coord>, dist: map<Coord, nat>,
                         parent: map<Coord, Coord>, visitedNodes: seq<Coord>, trace: seq<Coord>, r: SearchResult)
    requires DijkstraInv(g, start, unvisited, dist, parent, visitedNodes)
    requires forall x :: InBounds(g, x) && x in unvisited ==> x !in dist
    requires r == SearchResult([], visitedNodes)
    requires end !in visitedNodes
    requires |visitedNodes| > 0 ==> visitedNodes[0] == start && start != end
    requires trace == (if visitedNodes == [] then [] else visitedNodes[1..])
    ensures RecordsVisits(g, start, end, r, trace)
    ensures ReportsPath(g, start, end, r)
  {
    ExhaustedRecordsReachable(g, start, unvisited, dist, parent, visitedNodes);
  }

  /** Everything the search loop keeps between two selections: the
      bookkeeping, the exact distances of expanded cells, the level, the end
      never recorded, the start recorded first, and the visit callback
      seeing every recorded cell after the start. */
  ghost predicate Running(g: Grid, start: Coord, end: Coord, unvisited: set<Coord>, dist: map<Coord, nat>,
                          parent: map<Coord, Coord>, visitedNodes: seq<Coord>, trace: seq<Coord>, level: nat)
  {
    && InBounds(g, start)
    && DijkstraInv(g, start, unvisited, dist, parent, visitedNodes)
    && Optimal(g, start, dist, parent, visitedNodes)
    && SettledBelow(unvisited, dist, visitedNodes, level)
    && end !in visitedNodes
    && (|visitedNodes| > 0 ==> visitedNodes[0] == start && start != end)
    && trace == (if visitedNodes == [] then [] else visitedNodes[1..])
  }

  /** One round of the loop, when the selected cell is not the end, keeps
      the loop running with the level raised to the selected distance. */
  lemma ExpandKeepsRunning(g: Grid, start: Coord, end: Coord, unvisited: set<Coord>, dist: map<Coord, nat>,
                           parent: map<Coord, Coord>, visitedNodes: seq<Coord>, trace: seq<Coord>, level: nat,
                           cur: Coord, t: Tentative)
    requires Running(g, start, end, unvisited, dist, parent, visitedNodes, trace, level)
    requires IsFirstMin(g, unvisited, dist, cur) && cur != end
    requires t == Relax(Neighbors(g, cur), unvisited - {cur}, dist, parent, cur, dist[cur] + 1)
    ensures Running(g, start, end, unvisited - {cur}, t.dist, t.parent, visitedNodes + [cur],
                    if cur != start then trace + [cur] else trace, dist[cur])
  {
    ExpandKeepsInvariants(g, start, unvisited, dist, parent, visitedNodes, level, cur, t);
    RecordStep(g, start, end, unvisited, dist, visitedNodes, trace, cur);
  }

  /** Expanding the selected cell keeps the bookkeeping, the exact
      distances and the level. */
  lemma ExpandKeepsInvariants(g: Grid, start: Coord, unvisited: set<Coord>, dist: map<Coord, nat>,
                              parent: map<Coord, Coord>, visitedNodes: seq<Coord>, level: nat,
                              cur: Coord, t: Tentative)
    requires InBounds(g, start)
    requires DijkstraInv(g, start, unvisited, dist, parent, visitedNodes)
    requires Optimal(g, start, dist, parent, visitedNodes)
    requires SettledBelow(unvisited, dist, visitedNodes, level)
    requires IsFirstMin(g, unvisited, dist, cur)
    requires t == Relax(Neighbors(g, cur), unvisited - {cur}, dist, parent, cur, dist[cur] + 1)
    ensures DijkstraInv(g, start, unvisited - {cur}, t.dist, t.parent, visitedNodes + [cur])
    ensures Optimal(g, start, t.dist, t.parent, visitedNodes + [cur])
    ensures SettledBelow(unvisited - {cur}, t.dist, visitedNodes + [cur], dist[cur])
  {
    var upd := Improved(Neighbors(g, cur), unvisited - {cur}, dist, dist[cur] + 1);
    SelectedIsOptimal(g, start, unvisited, dist, parent, visitedNodes, cur);
    ExpandKeepsInv(g, start, unvisited, dist, parent, visitedNodes, cur, upd);
    ExpandKeepsOptimal(g, start, unvisited, dist, parent, visitedNodes, cur, upd, t.dist, t.parent, visitedNodes + [cur]);
    ExpandKeepsLevel(g, unvisited, dist, visitedNodes, level, cur, upd, t.dist);
  }

  /** Recording a selected cell other than the end keeps the start first
      and the visit callback one cell behind the record. */
  lemma RecordStep(g: Grid, start: Coord, end: Coord, unvisited: set<Coord>, dist: map<Coord, nat>,
                   visitedNodes: seq<Coord>, trace: seq<Coord>, cur: Coord)
    requires Settled(g, start, unvisited, dist, visitedNodes)
    requires IsFirstMin(g, unvisited, dist, cur) && cur != end
    requires end !in visitedNodes
    requires |visitedNodes| > 0 ==> visitedNodes[0] == start && start != end
    requires trace == (if visitedNodes == [] then [] else visitedNodes[1..])
    ensures end !in visitedNodes + [cur]
    ensures (visitedNodes + [cur])[0] == start && start != end
    ensures (if cur != start then trace + [cur] else trace) == (visitedNodes + [cur])[1..]
  {
    if visitedNodes == [] {
      FirstSelectionIsStart(g, start, unvisited, dist, visitedNodes, cur);
    } else {
      TailAppend(visitedNodes, cur);
    }
  }

  /** Returning the path when the end is selected keeps every promise of a
      search result; the path is a shortest walk, and the recorded cells are
      those nearer to the start than the end, and maybe some as near. */
  lemma FoundEndFinishes(g: Grid, start: Coord, end: Coord, unvisited: set<Coord>, dist: map<Coord, nat>,
                         parent: map<Coord, Coord>, visitedNodes: seq<Coord>, trace: seq<Coord>, level: nat,
                         r: SearchResult)
    requires Running(g, start, end, unvisited, dist, parent, visitedNodes, trace, level)
    requires IsFirstMin(g, unvisited, dist, end)
    requires r == SearchResult(ReconstructPath(parent, dist, end), visitedNodes)
    ensures RecordsVisits(g, start, end, r, trace) && ReportsPath(g, start, end, r)
    ensures IsShortestWalk(g, r.path, start, end)
    ensures RecordsNearer(g, start, r) && RecordsWithin(g, start, r)
  {
    if visitedNodes == [] {
      FirstSelectionIsStart(g, start, unvisited, dist, visitedNodes, end);
    }
    FoundEndReports(g, start, end, unvisited, dist, parent, visitedNodes, trace, r);
    FoundEndIsShortest(g, start, end, unvisited, dist, parent, visitedNodes);
    FoundEndRecordsLayers(g, start, end, unvisited, dist, parent, visitedNodes, level, r);
  }

  /** Dijkstra's search from `start` for `end`. `trace` is the sequence of
      cells handed to the visit callback. */
  method Dijkstra(g: Grid, start: Coord, end: Coord) returns (r: SearchResult, trace: seq<Coord>)
    requires InBounds(g, start)
    ensures RecordsVisits(g, start, end, r, trace)
    ensures ReportsPath(g, start, end, r)
    ensures r.path != [] ==> IsShortestWalk(g, r.path, start, end)
    ensures RecordsNearer(g, start, r) && RecordsWithin(g, start, r)
  {
    var unvisited := AllCells(g);
    var dist: map<Coord, nat> := map[start := 0];
    var parent: map<Coord, Coord> := map[];
    var visitedNodes: seq<Coord> := [];
    trace := [];
    ghost var level: nat := 0;
    ReachableSelf(g, start);

    while unvisited != {}
      invariant Running(g, start, end, unvisited, dist, parent, visitedNodes, trace, level)
      decreases unvisited
    {
      var sel := SelectMin(g, unvisited, dist);
      if sel.None? {
        break;
      }
      var current := sel.value;
      if current == end {
        r := SearchResult(ReconstructPath(parent, dist, current), visitedNodes);
        FoundEndFinishes(g, start, end, unvisited, dist, parent, visitedNodes, trace, level, r);
        return;
      }
      var t := Relax(Neighbors(g, current), unvisited - {current}, dist, parent, current, dist[current] + 1);
      ExpandKeepsRunning(g, start, end, unvisited, dist, parent, visitedNodes, trace, level, current, t);
      if current != start {
        trace := trace + [current];
      }
      level := dist[current];
      unvisited := unvisited - {current};
      visitedNodes := visitedNodes + [current];
      dist := t.dist;
      parent := t.parent;
    }

    r := SearchResult([], visitedNodes);
    ExhaustedReports(g, start, end, unvisited, dist, parent, visitedNodes, trace, r);
  }
}
