/** What the three searches share: their result record, the per-run
    predecessor map that replaces the mutable `parent` field of a cell, path
    reconstruction, and the promises every search makes about its result. */
module Paths {
  import opened GridModel

  /** The `{path, visitedNodes}` record a search returns. */
  datatype SearchResult = SearchResult(path: seq<Coord>, visitedNodes: seq<Coord>)

  /** Every predecessor link goes to a cell of strictly smaller rank, so
      following links always stops. Each search has a natural rank: the BFS
      depth, the Dijkstra distance, the A* cost-so-far. */
  ghost predicate Ranked(parent: map<Coord, Coord>, rank: map<Coord, nat>) {
    forall c {:trigger parent[c]} :: c in parent ==> c in rank && parent[c] in rank && rank[parent[c]] < rank[c]
  }

  /** Follows predecessor links back from `c` and returns the cells visited,
      oldest first: the result ends at `c`, begins at a cell with no
      predecessor, and each cell is the predecessor of the next. */
  function ReconstructPath(parent: map<Coord, Coord>, ghost rank: map<Coord, nat>, c: Coord): (p: seq<Coord>)
    requires Ranked(parent, rank)
    ensures |p| > 0 && p[|p| - 1] == c && p[0] !in parent
    ensures forall i :: 0 < i < |p| ==> LinkAt(parent, p, i)
    decreases if c in rank then rank[c] else 0
  {
    if c in parent then
      var q := ReconstructPath(parent, rank, parent[c]);
      LinksExtend(parent, q, c);
      q + [c]
    else
      [c]
  }

  lemma LinksExtend(parent: map<Coord, Coord>, q: seq<Coord>, c: Coord)
    requires |q| > 0 && c in parent && parent[c] == q[|q| - 1]
    requires forall i :: 0 < i < |q| ==> LinkAt(parent, q, i)
    ensures forall i :: 0 < i < |q + [c]| ==> LinkAt(parent, q + [c], i)
  {
    forall i | 0 < i < |q + [c]|
      ensures LinkAt(parent, q + [c], i)
    {
      if i < |q| {
        assert LinkAt(parent, q, i);
      }
    }
  }

  /** The predecessor of the i-th cell of `p` is the cell before it. */
  ghost predicate LinkAt(parent: map<Coord, Coord>, p: seq<Coord>, i: int)
    requires 0 < i < |p|
  {
    p[i] in parent && parent[p[i]] == p[i - 1]
  }

  /** The scratch state of a run over the discovered cells `found`: the start
      has no predecessor, every other discovered cell has one, and each link
      is a search step between discovered cells. */
  ghost predicate IsParentTree(g: Grid, s: Coord, parent: map<Coord, Coord>, rank: map<Coord, nat>, found: set<Coord>) {
    && s in found
    && s !in parent
    && Ranked(parent, rank)
    && (forall c :: c in found ==> c in rank)
    && (forall c {:trigger parent[c]} :: c in parent ==> c in found && parent[c] in found && Step(g, parent[c], c))
    && (forall c {:trigger c in found} :: c in found && c != s ==> c in parent)
  }

  /** The set of cells of a sequence. */
  function Elems(s: seq<Coord>): (r: set<Coord>)
    ensures forall x :: x in r <==> x in s
  {
    set x | x in s
  }

  /** `parent` with every cell of `upd` linked to `cur`. */
  function LinkAll(parent: map<Coord, Coord>, upd: set<Coord>, cur: Coord): (p: map<Coord, Coord>)
    ensures forall c :: c in p <==> c in parent || c in upd
    ensures forall c :: c in upd ==> p[c] == cur
    ensures forall c :: c in parent && c !in upd ==> p[c] == parent[c]
  {
    parent + (map n | n in upd :: cur)
  }

  /** `rank` with every cell of `upd` given rank `r`. */
  function RankAll(rank: map<Coord, nat>, upd: set<Coord>, r: nat): (m: map<Coord, nat>)
    ensures forall c :: c in m <==> c in rank || c in upd
    ensures forall c :: c in upd ==> m[c] == r
    ensures forall c :: c in rank && c !in upd ==> m[c] == rank[c]
  {
    rank + (map n | n in upd :: r)
  }

  /** Ranking one cell and then a set is ranking their union at once. */
  lemma RankAllAbsorbs(dist: map<Coord, nat>, n: Coord, upd: set<Coord>, nd: nat)
    ensures RankAll(dist[n := nd], upd, nd) == RankAll(dist, upd + {n}, nd)
  {
    var a := RankAll(dist[n := nd], upd, nd);
    var b := RankAll(dist, upd + {n}, nd);
    assert forall x :: x in a <==> x in b;
    assert forall x :: x in a ==> a[x] == b[x];
  }

  /** Linking one cell and then a set is linking their union at once. */
  lemma LinkAllAbsorbs(parent: map<Coord, Coord>, n: Coord, upd: set<Coord>, cur: Coord)
    ensures LinkAll(parent[n := cur], upd, cur) == LinkAll(parent, upd + {n}, cur)
  {
    var p := LinkAll(parent[n := cur], upd, cur);
    var q := LinkAll(parent, upd + {n}, cur);
    assert forall x :: x in p <==> x in q;
    assert forall x :: x in p ==> p[x] == q[x];
  }

  /** The cells of `ns` not yet discovered, in their original order: the
      neighbours a search appends to its queue or open list. */
  function Undiscovered(ns: seq<Coord>, seen: set<Coord>): (newCells: seq<Coord>)
    ensures forall n :: n in newCells <==> n in ns && n !in seen
    ensures NoDuplicates(ns) ==> NoDuplicates(newCells)
  {
    if ns == [] then []
    else if ns[0] in seen then Undiscovered(ns[1..], seen)
    else [ns[0]] + Undiscovered(ns[1..], seen)
  }

  lemma UndiscoveredNeighborsDistinct(g: Grid, cur: Coord, seen: set<Coord>)
    ensures NoDuplicates(Undiscovered(Neighbors(g, cur), seen))
  {
    NeighborsDistinct(g, cur);
  }

  /** Pointing the cells `upd` at the discovered cell `cur` with a rank above
      that of `cur` keeps a parent tree, provided no existing link leads into
      `upd` and each cell of `upd` is one step from `cur`. This is the one
      kind of update the three searches make. */
  lemma ParentTreeRelink(g: Grid, s: Coord, parent: map<Coord, Coord>, rank: map<Coord, nat>,
                         found: set<Coord>, cur: Coord, upd: set<Coord>, r: nat)
    requires IsParentTree(g, s, parent, rank, found)
    requires cur in found && cur !in upd && s !in upd
    requires rank[cur] < r
    requires forall n :: n in upd ==> Step(g, cur, n)
    requires forall c {:trigger parent[c]} :: c in parent ==> parent[c] !in upd
    ensures IsParentTree(g, s, LinkAll(parent, upd, cur), RankAll(rank, upd, r), found + upd)
  {
    var parent' := LinkAll(parent, upd, cur);
    var rank' := RankAll(rank, upd, r);
    forall c | c in parent'
      ensures c in rank' && parent'[c] in rank' && rank'[parent'[c]] < rank'[c]
    {
      if c !in upd {
        assert parent'[c] == parent[c];
      }
    }
    assert Ranked(parent', rank');
    assert forall c :: c in found + upd ==> c in rank';
    assert forall c {:trigger parent'[c]} :: c in parent' ==> c in found + upd && parent'[c] in found + upd && Step(g, parent'[c], c);
    assert forall c :: c in found + upd && c != s ==> c in parent';
  }

  /** Reconstructing from any discovered cell yields a walk from the start
      with no repeated cell. */
  lemma {:induction false} TreePathIsWalk(g: Grid, s: Coord, parent: map<Coord, Coord>, rank: map<Coord, nat>, found: set<Coord>, c: Coord)
    requires InBounds(g, s)
    requires IsParentTree(g, s, parent, rank, found)
    requires c in found
    ensures IsWalkFrom(g, ReconstructPath(parent, rank, c), s, c)
    ensures NoDuplicates(ReconstructPath(parent, rank, c))
    ensures forall i :: 0 <= i < |ReconstructPath(parent, rank, c)| ==>
      ReconstructPath(parent, rank, c)[i] in found && rank[ReconstructPath(parent, rank, c)[i]] <= rank[c]
    decreases rank[c]
  {
    var p := ReconstructPath(parent, rank, c);
    if c in parent {
      var b := parent[c];
      TreePathIsWalk(g, s, parent, rank, found, b);
      var q := ReconstructPath(parent, rank, b);
      assert p == q + [c];
      forall i | 0 < i < |p|
        ensures StepAt(g, p, i)
      {
        if i < |q| {
          assert StepAt(g, q, i);
        } else {
          assert Step(g, b, c);
        }
      }
      forall i, j | 0 <= i < j < |p|
        ensures p[i] != p[j]
      {
        if j == |q| {
          assert rank[q[i]] <= rank[b] < rank[c];
        } else {
          assert p[i] == q[i] && p[j] == q[j];
        }
      }
    } else {
      assert p == [c];
    }
  }

  /** Every discovered cell is reachable from the start. */
  lemma TreeReachable(g: Grid, s: Coord, parent: map<Coord, Coord>, rank: map<Coord, nat>, found: set<Coord>)
    requires InBounds(g, s)
    requires IsParentTree(g, s, parent, rank, found)
    ensures forall x :: x in found ==> Reachable(g, s, x)
  {
    forall x | x in found
      ensures Reachable(g, s, x)
    {
      TreePathIsWalk(g, s, parent, rank, found, x);
    }
  }

  /** When every link raises the rank by exactly one and the start has rank
      zero, the reconstructed path has rank + 1 cells. */
  lemma {:induction false} TreePathLength(g: Grid, s: Coord, parent: map<Coord, Coord>, rank: map<Coord, nat>, found: set<Coord>, c: Coord)
    requires IsParentTree(g, s, parent, rank, found)
    requires forall x {:trigger parent[x]} :: x in parent ==> rank[x] == rank[parent[x]] + 1
    requires rank[s] == 0
    requires c in found
    ensures |ReconstructPath(parent, rank, c)| == rank[c] + 1
    decreases rank[c]
  {
    if c in parent {
      TreePathLength(g, s, parent, rank, found, parent[c]);
    }
  }

  /** Every link, old or new, adds exactly one to the rank: new links
      leave the expanded cell `cur` at its rank plus one, and old links
      join cells whose ranks the expansion leaves alone, since every link
      points at a settled cell and settled cells are never updated. */
  lemma RelinkAddsOne(rank: map<Coord, nat>, parent: map<Coord, Coord>, settled: set<Coord>,
                      cur: Coord, upd: set<Coord>, rank': map<Coord, nat>, parent': map<Coord, Coord>)
    requires forall x {:trigger parent[x]} :: x in parent ==> x in rank && parent[x] in rank && rank[x] == rank[parent[x]] + 1
    requires forall c {:trigger parent[c]} :: c in parent ==> parent[c] in settled
    requires cur in rank && cur !in upd
    requires forall x :: x in settled ==> x !in upd
    requires rank' == RankAll(rank, upd, rank[cur] + 1) && parent' == LinkAll(parent, upd, cur)
    ensures forall x {:trigger parent'[x]} :: x in parent' ==> x in rank' && parent'[x] in rank' && rank'[x] == rank'[parent'[x]] + 1
  {
    forall x {:trigger parent'[x]} | x in parent'
      ensures x in rank' && parent'[x] in rank' && rank'[x] == rank'[parent'[x]] + 1
    {
      if x !in upd {
        assert parent'[x] == parent[x] && parent[x] in settled;
      }
    }
  }

  /** The cut argument behind both best-first searches. Take the cells a
      search has settled, each with a cost no walk beats, and a frontier
      that holds every unsettled neighbour of a settled cell at a cost at
      most one above it, and the start while it is unsettled. Then every walk
      from the start that ends outside the settled cells crosses the
      frontier at some position `j`, at a cell whose cost is at most `j`. */
  lemma CrossingBound(g: Grid, s: Coord, settled: set<Coord>, frontier: set<Coord>, d: map<Coord, nat>,
                      v: seq<Coord>) returns (j: nat)
    requires IsWalk(g, v) && v[0] == s && v[|v| - 1] !in settled
    requires forall y :: y in settled ==> y in d && DistanceAtLeast(g, s, y, d[y])
    requires forall e, n :: e in settled && Step(g, e, n) && n !in settled ==>
               n in frontier && n in d && d[n] <= d[e] + 1
    requires s !in settled ==> s in frontier && s in d && d[s] == 0
    ensures j < |v| && v[j] in frontier && v[j] in d && d[v[j]] <= j
  {
    j := FirstOutside(v, settled);
    if j > 0 {
      var e := v[j - 1];
      WalkPrefix(g, v, j);
      assert IsWalkFrom(g, v[..j], s, e);
      assert StepAt(g, v, j);
    }
  }

  /** When every link raises the rank by exactly one from zero at the start,
      and no walk to `c` is shorter than its rank, the reconstructed path to
      `c` is a shortest walk. */
  lemma ShortestTreePath(g: Grid, s: Coord, parent: map<Coord, Coord>, rank: map<Coord, nat>, found: set<Coord>, c: Coord)
    requires InBounds(g, s)
    requires IsParentTree(g, s, parent, rank, found)
    requires forall x {:trigger parent[x]} :: x in parent ==> rank[x] == rank[parent[x]] + 1
    requires rank[s] == 0 && c in found
    requires DistanceAtLeast(g, s, c, rank[c])
    ensures IsShortestWalk(g, ReconstructPath(parent, rank, c), s, c)
  {
    TreePathIsWalk(g, s, parent, rank, found, c);
    TreePathLength(g, s, parent, rank, found, c);
  }

  /** When every link raises the rank by exactly one from zero at the start,
      a discovered cell of rank below `k` is reached by a walk from the start
      of at most `k` cells: the path back through the links. */
  lemma TreePathWithin(g: Grid, s: Coord, parent: map<Coord, Coord>, rank: map<Coord, nat>, found: set<Coord>,
                       c: Coord, k: nat)
    requires InBounds(g, s)
    requires IsParentTree(g, s, parent, rank, found)
    requires forall x {:trigger parent[x]} :: x in parent ==> rank[x] == rank[parent[x]] + 1
    requires rank[s] == 0 && c in found && rank[c] < k
    ensures exists w :: IsWalkFrom(g, w, s, c) && |w| <= k
  {
    TreePathIsWalk(g, s, parent, rank, found, c);
    TreePathLength(g, s, parent, rank, found, c);
    var w := ReconstructPath(parent, rank, c);
    assert IsWalkFrom(g, w, s, c) && |w| <= k;
  }

  /** Breadth-first search and Dijkstra's search expand cells in order of
      their distance from the start, so when either finds a path, every cell
      some walk from the start reaches in fewer cells than the path has was
      recorded before the end... */
  ghost predicate RecordsNearer(g: Grid, start: Coord, r: SearchResult) {
    r.path != [] ==>
      forall w :: IsWalk(g, w) && w[0] == start && |w| < |r.path| ==> w[|w| - 1] in r.visitedNodes
  }

  /** ... and no recorded cell is farther from the start than the end: each
      is reached by a walk of at most as many cells as the path. */
  ghost predicate RecordsWithin(g: Grid, start: Coord, r: SearchResult) {
    r.path != [] ==>
      forall x :: x in r.visitedNodes ==> exists w :: IsWalkFrom(g, w, start, x) && |w| <= |r.path|
  }

  /** The promises every search keeps about the cells it records:
      - each cell is recorded at most once, and only reachable cells are;
      - the end cell is never recorded;
      - the start is recorded first (unless it is the end);
      - the visit callback sees exactly the recorded cells after the start. */
  ghost predicate RecordsVisits(g: Grid, start: Coord, end: Coord, r: SearchResult, trace: seq<Coord>) {
    && NoDuplicates(r.visitedNodes)
    && end !in r.visitedNodes
    && (forall x :: x in r.visitedNodes ==> Reachable(g, start, x))
    && (start == end ==> r.visitedNodes == [])
    && (start != end ==> |r.visitedNodes| > 0 && r.visitedNodes[0] == start)
    && trace == (if r.visitedNodes == [] then [] else r.visitedNodes[1..])
  }

  /** The promises every search keeps about the path it returns:
      - a path is returned exactly when the end is reachable;
      - it is a walk from start to end without repeated cells;
      - with no path, the recorded cells are exactly the reachable ones. */
  ghost predicate ReportsPath(g: Grid, start: Coord, end: Coord, r: SearchResult) {
    && (r.path != [] <==> Reachable(g, start, end))
    && (r.path != [] ==> IsWalkFrom(g, r.path, start, end) && NoDuplicates(r.path))
    && (start == end ==> r.path == [start])
    && (r.path == [] ==> forall x :: x in r.visitedNodes <==> Reachable(g, start, x))
  }
}
