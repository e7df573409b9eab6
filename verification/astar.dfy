/** A* search: an open list re-sorted by estimated total cost before every
    pop, a closed set of expanded cells, and per-cell cost-so-far `g`,
    estimate `f = g + manhattan(cell, end)` and predecessor. */
module AStar {
  import opened GridModel
  import opened Paths

  /** The sort key: a cell's estimate, with an unset estimate counting as zero. */
  function Key(f: map<Coord, nat>, c: Coord): (k: nat)
    ensures c in f ==> k == f[c]
    ensures c !in f ==> k == 0
  {
    if c in f then f[c] else 0
  }

  ghost predicate SortedByKey(s: seq<Coord>, f: map<Coord, nat>) {
    forall i, j :: 0 <= i < j < |s| ==> Key(f, s[i]) <= Key(f, s[j])
  }

  /** The cells of `s` whose key is `k`, in order. */
  function WithKey(s: seq<Coord>, f: map<Coord, nat>, k: nat): (r: seq<Coord>) {
    if s == [] then []
    else (if Key(f, s[0]) == k then [s[0]] else []) + WithKey(s[1..], f, k)
  }

  /** Puts `x` in front of the first cell of `t` whose key is not below its
      own: after every cell with a smaller key, before every cell with an
      equal or larger one. */
  function Insert(x: Coord, t: seq<Coord>, f: map<Coord, nat>): (r: seq<Coord>)
    ensures multiset(r) == multiset(t) + multiset{x}
    ensures |r| == |t| + 1
    ensures r[0] == x || (|t| > 0 && r[0] == t[0])
  {
    if t == [] || Key(f, x) <= Key(f, t[0]) then
      [x] + t
    else
      assert t == [t[0]] + t[1..];
      [t[0]] + Insert(x, t[1..], f)
  }

  lemma {:induction false} InsertSorted(x: Coord, t: seq<Coord>, f: map<Coord, nat>)
    requires SortedByKey(t, f)
    ensures SortedByKey(Insert(x, t, f), f)
    decreases |t|
  {
    if t != [] && Key(f, t[0]) < Key(f, x) {
      var rest := Insert(x, t[1..], f);
      InsertSorted(x, t[1..], f);
      var r := [t[0]] + rest;
      assert r == Insert(x, t, f);
      InsertAbove(x, t, f);
      forall i, j | 0 <= i < j < |r|
        ensures Key(f, r[i]) <= Key(f, r[j])
      {
        if i > 0 {
          assert r[i] == rest[i - 1] && r[j] == rest[j - 1];
        } else {
          assert r[j] in rest;
        }
      }
    }
  }

  /** Every cell of the rest of the insertion has a key at least that of
      the head of a sorted `t`, when `x` does too. */
  lemma InsertAbove(x: Coord, t: seq<Coord>, f: map<Coord, nat>)
    requires SortedByKey(t, f) && t != [] && Key(f, t[0]) <= Key(f, x)
    ensures forall y :: y in Insert(x, t[1..], f) ==> Key(f, t[0]) <= Key(f, y)
  {
    forall y | y in Insert(x, t[1..], f)
      ensures Key(f, t[0]) <= Key(f, y)
    {
      assert y in multiset(Insert(x, t[1..], f));
      if y != x {
        assert y in multiset(t[1..]);
        var k :| 0 <= k < |t[1..]| && t[1..][k] == y;
        assert t[k + 1] == y;
      }
    }
  }

  lemma {:induction false} InsertNoDuplicates(x: Coord, t: seq<Coord>, f: map<Coord, nat>)
    requires NoDuplicates(t) && x !in t
    ensures NoDuplicates(Insert(x, t, f))
    decreases |t|
  {
    if t != [] && Key(f, t[0]) < Key(f, x) {
      InsertNoDuplicates(x, t[1..], f);
      var rest := Insert(x, t[1..], f);
      forall j | 0 <= j < |rest|
        ensures rest[j] != t[0]
      {
        assert rest[j] in multiset(t[1..]) + multiset{x};
      }
      assert Insert(x, t, f) == [t[0]] + rest;
    }
  }

  /** The open list re-sorted by estimate, an unset estimate counting as
      zero, by a stable sort, as the language's array sort is. */
  function SortByKey(s: seq<Coord>, f: map<Coord, nat>): (r: seq<Coord>)
    ensures multiset(r) == multiset(s)
    ensures |r| == |s|
  {
    if s == [] then []
    else
      assert s == [s[0]] + s[1..];
      Insert(s[0], SortByKey(s[1..], f), f)
  }

  /** The sorted list is ordered by key, and has no repeated cell when the
      open list had none. */
  lemma {:induction false} SortSorted(s: seq<Coord>, f: map<Coord, nat>)
    ensures SortedByKey(SortByKey(s, f), f)
    ensures NoDuplicates(s) ==> NoDuplicates(SortByKey(s, f))
    decreases |s|
  {
    if s != [] {
      SortSorted(s[1..], f);
      InsertSorted(s[0], SortByKey(s[1..], f), f);
      if NoDuplicates(s) {
        forall i | 1 <= i < |s| ensures s[i] != s[0] { }
        assert s[0] !in multiset(s[1..]);
        InsertNoDuplicates(s[0], SortByKey(s[1..], f), f);
      }
    }
  }

  /** Inserting keeps, for every key, the order of the cells with that key,
      with the inserted cell first among its equals. */
  lemma {:induction false} InsertWithKey(x: Coord, t: seq<Coord>, f: map<Coord, nat>, k: nat)
    ensures WithKey(Insert(x, t, f), f, k) == (if Key(f, x) == k then [x] else []) + WithKey(t, f, k)
    decreases |t|
  {
    if t == [] || Key(f, x) <= Key(f, t[0]) {
      assert Insert(x, t, f) == [x] + t;
      WithKeyCons(x, t, f, k);
    } else {
      var rest := Insert(x, t[1..], f);
      var head := if Key(f, t[0]) == k then [t[0]] else [];
      var mine := if Key(f, x) == k then [x] else [];
      var tail := WithKey(t[1..], f, k);
      assert Insert(x, t, f) == [t[0]] + rest;
      HeadTail(t);
      calc {
        WithKey(Insert(x, t, f), f, k);
      ==  { WithKeyCons(t[0], rest, f, k); }
        head + WithKey(rest, f, k);
      ==  { InsertWithKey(x, t[1..], f, k); }
        head + (mine + tail);
      ==  { SwapPastEmpty(head, mine, tail); }
        mine + (head + tail);
      ==  { WithKeyCons(t[0], t[1..], f, k); }
        mine + WithKey(t, f, k);
      }
    }
  }

  /** A non-empty list is its head followed by its tail. */
  lemma HeadTail(t: seq<Coord>)
    requires |t| > 0
    ensures t == [t[0]] + t[1..]
  {
  }

  /** When one of `a` and `b` is empty, it does not matter which is put first. */
  lemma SwapPastEmpty(a: seq<Coord>, b: seq<Coord>, c: seq<Coord>)
    requires a == [] || b == []
    ensures a + (b + c) == b + (a + c)
  {
  }

  lemma WithKeyCons(y: Coord, s: seq<Coord>, f: map<Coord, nat>, k: nat)
    ensures WithKey([y] + s, f, k) == (if Key(f, y) == k then [y] else []) + WithKey(s, f, k)
  {
    assert ([y] + s)[1..] == s;
  }

  /** The sort is stable: for every key, the cells with that key keep their
      relative order. With the result sorted by key, this pins the result
      down completely. */
  lemma {:induction false} SortStable(s: seq<Coord>, f: map<Coord, nat>, k: nat)
    ensures WithKey(SortByKey(s, f), f, k) == WithKey(s, f, k)
    decreases |s|
  {
    if s != [] {
      SortStable(s[1..], f, k);
      InsertWithKey(s[0], SortByKey(s[1..], f), f, k);
    }
  }

  /** `s[i]` has the smallest key in `s`, and every cell before it a
      strictly larger one. */
  ghost predicate FirstMinAt(s: seq<Coord>, f: map<Coord, nat>, i: int) {
    && 0 <= i < |s|
    && (forall j :: 0 <= j < |s| ==> Key(f, s[i]) <= Key(f, s[j]))
    && (forall j :: 0 <= j < i ==> Key(f, s[i]) < Key(f, s[j]))
  }

  /** The cell the sort brings to the front is the first cell of the open
      list with the smallest key. */
  lemma {:induction false} SortHeadIsFirstMin(s: seq<Coord>, f: map<Coord, nat>)
    requires |s| > 0
    ensures exists i :: FirstMinAt(s, f, i) && SortByKey(s, f)[0] == s[i]
    decreases |s|
  {
    var r := SortByKey(s, f);
    if |s| == 1 {
      assert FirstMinAt(s, f, 0);
    } else {
      var s' := s[1..];
      var t := SortByKey(s', f);
      assert r == Insert(s[0], t, f);
      SortHeadIsFirstMin(s', f);
      var i' :| FirstMinAt(s', f, i') && t[0] == s'[i'];
      if Key(f, s[0]) <= Key(f, t[0]) {
        assert r[0] == s[0];
        FirstMinFront(s, f);
      } else {
        assert r[0] == t[0];
        FirstMinShift(s, f, i');
      }
    }
  }

  lemma FirstMinFront(s: seq<Coord>, f: map<Coord, nat>)
    requires |s| > 1
    requires exists i' :: FirstMinAt(s[1..], f, i') && Key(f, s[0]) <= Key(f, s[1..][i'])
    ensures FirstMinAt(s, f, 0)
  {
    var i' :| FirstMinAt(s[1..], f, i') && Key(f, s[0]) <= Key(f, s[1..][i']);
    forall j | 0 < j < |s|
      ensures Key(f, s[0]) <= Key(f, s[j])
    {
      assert s[j] == s[1..][j - 1];
    }
  }

  lemma FirstMinShift(s: seq<Coord>, f: map<Coord, nat>, i': int)
    requires |s| > 1 && FirstMinAt(s[1..], f, i') && Key(f, s[1..][i']) < Key(f, s[0])
    ensures FirstMinAt(s, f, i' + 1) && s[i' + 1] == s[1..][i']
  {
    forall j | 0 < j < |s|
      ensures s[j] == s[1..][j - 1]
    {
    }
  }

  /** Cost-so-far, estimate, predecessor and the open list, as the
      neighbour loop leaves them. */
  datatype Frontier = Frontier(open: seq<Coord>, g: map<Coord, nat>, f: map<Coord, nat>, parent: map<Coord, Coord>)

  /** The neighbour loop gives `n` cost `tg` and predecessor `cur`: it is not
      closed, and either not yet open or open with a larger cost. */
  predicate Improves(n: Coord, closed: set<Coord>, open: seq<Coord>, gm: map<Coord, nat>, tg: nat) {
    n !in closed && (n !in open || tg < Key(gm, n))
  }

  /** The cells of `ns` the neighbour loop updates, judged against the state
      before the loop. */
  function Improved(ns: seq<Coord>, closed: set<Coord>, open: seq<Coord>, gm: map<Coord, nat>, tg: nat): (upd: set<Coord>)
    ensures forall n :: n in upd <==> n in ns && Improves(n, closed, open, gm, tg)
  {
    set n | n in ns && Improves(n, closed, open, gm, tg)
  }

  /** `fm` with every cell of `upd` given estimate `tg` plus its distance to
      `end`. */
  function ScoreAll(fm: map<Coord, nat>, upd: set<Coord>, tg: nat, end: Coord): (m: map<Coord, nat>)
    ensures forall c :: c in m <==> c in fm || c in upd
    ensures forall c :: c in upd ==> m[c] == tg + Manhattan(c, end)
    ensures forall c :: c in fm && c !in upd ==> m[c] == fm[c]
  {
    fm + (map n | n in upd :: tg + Manhattan(n, end))
  }

  /** The loop over the neighbours of `cur`, one at a time in list order,
      with tentative cost `tg`: a closed neighbour is skipped; one not yet
      open is appended to the open list; an open one whose cost is not
      above `tg` is skipped; the rest get cost `tg`, estimate `tg` plus the
      distance to `end`, and predecessor `cur`. The outcome is that of
      updating every cell of `Improved` at once, and the open list grows
      by the neighbours neither closed nor open, in order. */
  function Relax(ns: seq<Coord>, closed: set<Coord>, fr: Frontier, cur: Coord, tg: nat, end: Coord): (r: Frontier)
    ensures r.g == RankAll(fr.g, Improved(ns, closed, fr.open, fr.g, tg), tg)
    ensures r.f == ScoreAll(fr.f, Improved(ns, closed, fr.open, fr.g, tg), tg, end)
    ensures r.parent == LinkAll(fr.parent, Improved(ns, closed, fr.open, fr.g, tg), cur)
    ensures NoDuplicates(ns) ==> r.open == fr.open + Undiscovered(ns, closed + Elems(fr.open))
    decreases |ns|
  {
    if ns == [] then
      fr
    else
      var n := ns[0];
      if n in closed || (n in fr.open && tg >= Key(fr.g, n)) then
        RelaxSkipsHead(ns, closed, fr.open, fr.g, tg);
        Relax(ns[1..], closed, fr, cur, tg, end)
      else
        var open' := if n in fr.open then fr.open else fr.open + [n];
        var fr' := Frontier(open', fr.g[n := tg], fr.f[n := tg + Manhattan(n, end)], fr.parent[n := cur]);
        var r := Relax(ns[1..], closed, fr', cur, tg, end);
        RelaxImprovesHead(ns, closed, fr.open, open', fr.g, tg);
        RankAllAbsorbs(fr.g, n, Improved(ns[1..], closed, open', fr.g[n := tg], tg), tg);
        LinkAllAbsorbs(fr.parent, n, Improved(ns[1..], closed, open', fr.g[n := tg], tg), cur);
        ScoreAllAbsorbs(fr.f, n, Improved(ns[1..], closed, open', fr.g[n := tg], tg), tg, end);
        RelaxOpensHead(ns, closed, fr.open, open');
        r
  }

  lemma RelaxSkipsHead(ns: seq<Coord>, closed: set<Coord>, open: seq<Coord>, gm: map<Coord, nat>, tg: nat)
    requires |ns| > 0 && !Improves(ns[0], closed, open, gm, tg)
    ensures Improved(ns, closed, open, gm, tg) == Improved(ns[1..], closed, open, gm, tg)
    ensures NoDuplicates(ns) ==> NoDuplicates(ns[1..])
    ensures Undiscovered(ns, closed + Elems(open)) == Undiscovered(ns[1..], closed + Elems(open))
  {
    assert forall x :: x in ns <==> x == ns[0] || x in ns[1..] by {
      assert ns == [ns[0]] + ns[1..];
    }
    if NoDuplicates(ns) {
      NoDuplicatesTail(ns);
    }
  }

  /** Once the head is updated, the rest of the list updates the other cells
      the whole list would. */
  lemma RelaxImprovesHead(ns: seq<Coord>, closed: set<Coord>, open: seq<Coord>, open': seq<Coord>,
                          gm: map<Coord, nat>, tg: nat)
    requires |ns| > 0 && Improves(ns[0], closed, open, gm, tg)
    requires ns[0] in open' && forall x :: x != ns[0] ==> (x in open' <==> x in open)
    ensures Improved(ns, closed, open, gm, tg) == Improved(ns[1..], closed, open', gm[ns[0] := tg], tg) + {ns[0]}
  {
    assert forall x :: x in ns <==> x == ns[0] || x in ns[1..] by {
      assert ns == [ns[0]] + ns[1..];
    }
  }

  /** Appending a head neighbour that was neither closed nor open is the
      first step of appending all of them. */
  lemma RelaxOpensHead(ns: seq<Coord>, closed: set<Coord>, open: seq<Coord>, open': seq<Coord>)
    requires |ns| > 0 && ns[0] !in closed
    requires open' == if ns[0] in open then open else open + [ns[0]]
    ensures NoDuplicates(ns) ==> NoDuplicates(ns[1..])
    ensures NoDuplicates(ns) ==>
              open' + Undiscovered(ns[1..], closed + Elems(open')) == open + Undiscovered(ns, closed + Elems(open))
  {
    if NoDuplicates(ns) {
      NoDuplicatesTail(ns);
      if ns[0] !in open {
        HeadNotInTail(ns);
        OpensNewHead(ns, closed, open);
      }
    }
  }

  lemma HeadNotInTail(ns: seq<Coord>)
    requires |ns| > 0 && NoDuplicates(ns)
    ensures ns[0] !in ns[1..]
  {
    forall i | 0 <= i < |ns[1..]| ensures ns[1..][i] != ns[0] {
      assert ns[1..][i] == ns[i + 1];
    }
  }

  /** A head neither open nor closed is appended to the open list now
      rather than with the rest of the undiscovered cells. */
  lemma OpensNewHead(ns: seq<Coord>, closed: set<Coord>, open: seq<Coord>)
    requires |ns| > 0 && ns[0] !in closed && ns[0] !in open && ns[0] !in ns[1..]
    ensures (open + [ns[0]]) + Undiscovered(ns[1..], closed + Elems(open + [ns[0]]))
         == open + Undiscovered(ns, closed + Elems(open))
  {
    var n := ns[0];
    var seen := closed + Elems(open);
    var u := Undiscovered(ns[1..], seen);
    calc {
      (open + [n]) + Undiscovered(ns[1..], closed + Elems(open + [n]));
    ==  { ElemsAppend(closed, open, n); }
      (open + [n]) + Undiscovered(ns[1..], seen + {n});
    ==  { UndiscoveredIgnores(ns[1..], seen, n); }
      (open + [n]) + u;
    ==  { ConcatAssoc(open, [n], u); }
      open + ([n] + u);
    ==  { UndiscoveredCons(ns, seen); }
      open + Undiscovered(ns, seen);
    }
  }

  lemma ConcatAssoc(a: seq<Coord>, b: seq<Coord>, c: seq<Coord>)
    ensures (a + b) + c == a + (b + c)
  {
  }

  lemma UndiscoveredCons(ns: seq<Coord>, seen: set<Coord>)
    requires |ns| > 0 && ns[0] !in seen
    ensures Undiscovered(ns, seen) == [ns[0]] + Undiscovered(ns[1..], seen)
  {
  }

  lemma ElemsAppend(closed: set<Coord>, open: seq<Coord>, n: Coord)
    ensures closed + Elems(open + [n]) == (closed + Elems(open)) + {n}
  {
  }

  lemma NoDuplicatesTail(ns: seq<Coord>)
    requires |ns| > 0 && NoDuplicates(ns)
    ensures NoDuplicates(ns[1..])
  {
    forall i, j | 0 <= i < j < |ns[1..]|
      ensures ns[1..][i] != ns[1..][j]
    {
      assert ns[1..][i] == ns[i + 1] && ns[1..][j] == ns[j + 1];
    }
  }

  lemma {:induction false} UndiscoveredIgnores(ns: seq<Coord>, seen: set<Coord>, n: Coord)
    requires n !in ns
    ensures Undiscovered(ns, seen + {n}) == Undiscovered(ns, seen)
    decreases |ns|
  {
    if ns != [] {
      assert n !in ns[1..] by {
        forall i | 0 <= i < |ns[1..]| ensures ns[1..][i] != n {
          assert ns[1..][i] == ns[i + 1];
        }
      }
      UndiscoveredIgnores(ns[1..], seen, n);
    }
  }

  /** Scoring one cell and then a set is scoring their union at once. */
  lemma ScoreAllAbsorbs(fm: map<Coord, nat>, n: Coord, upd: set<Coord>, tg: nat, end: Coord)
    ensures ScoreAll(fm[n := tg + Manhattan(n, end)], upd, tg, end) == ScoreAll(fm, upd + {n}, tg, end)
  {
    var a := ScoreAll(fm[n := tg + Manhattan(n, end)], upd, tg, end);
    var b := ScoreAll(fm, upd + {n}, tg, end);
    assert a.Keys == b.Keys;
    forall x | x in a
      ensures a[x] == b[x]
    {
      if x !in upd && x != n {
        assert a[x] == fm[x] == b[x];
      }
    }
  }

  /** The bookkeeping of an A* run between two pops: every cell is opened at
      most once and closed at most once, never both at the same time. */
  ghost predicate Bookkept(g: Grid, open: seq<Coord>, closed: set<Coord>, visitedNodes: seq<Coord>) {
    && NoDuplicates(visitedNodes) && NoDuplicates(open)
    && (forall x :: x in closed <==> x in visitedNodes)
    && (forall x :: x in open ==> x !in closed)
    && (forall x :: x in closed || x in open ==> InBounds(g, x))
  }

  /** The per-cell fields of an A* run between two pops: the predecessor
      links form a tree over the open and closed cells, ranked by cost, and
      point only at closed cells; every neighbour of a closed cell is open
      or closed; and every estimate is the cost plus the distance to the
      end. */
  ghost predicate Linked(g: Grid, start: Coord, end: Coord, open: seq<Coord>, closed: set<Coord>,
                         gm: map<Coord, nat>, fm: map<Coord, nat>, parent: map<Coord, Coord>) {
    && IsParentTree(g, start, parent, gm, closed + Elems(open))
    && (forall c {:trigger parent[c]} :: c in parent ==> parent[c] in closed)
    && (forall e, n :: e in closed && Step(g, e, n) ==> n in closed || n in open)
    && (forall x :: x in closed + Elems(open) ==> x in fm && fm[x] == gm[x] + Manhattan(x, end))
  }

  /** Everything the search loop keeps between two pops. */
  ghost predicate Running(g: Grid, start: Coord, end: Coord, open: seq<Coord>, closed: set<Coord>,
                          visitedNodes: seq<Coord>, gm: map<Coord, nat>, fm: map<Coord, nat>,
                          parent: map<Coord, Coord>, trace: seq<Coord>) {
    && InBounds(g, start)
    && Bookkept(g, open, closed, visitedNodes)
    && Linked(g, start, end, open, closed, gm, fm, parent)
    && end !in visitedNodes
    && (visitedNodes == [] ==> open == [start])
    && (|visitedNodes| > 0 ==> visitedNodes[0] == start && start != end)
    && trace == (if visitedNodes == [] then [] else visitedNodes[1..])
  }

  /** Sorting neither adds nor drops a cell. */
  lemma SortMembers(s: seq<Coord>, f: map<Coord, nat>)
    ensures forall x :: x in SortByKey(s, f) <==> x in s
  {
    var r := SortByKey(s, f);
    assert forall x :: x in r <==> x in multiset(r);
    assert forall x :: x in s <==> x in multiset(s);
  }

  /** Popping the front of the sorted open list takes an open cell and
      leaves the other open cells, once each. */
  lemma PopFront(open: seq<Coord>, fm: map<Coord, nat>, cur: Coord, rest: seq<Coord>)
    requires NoDuplicates(open)
    requires |open| > 0 && cur == SortByKey(open, fm)[0] && rest == SortByKey(open, fm)[1..]
    ensures cur in open && NoDuplicates(rest) && cur !in rest
    ensures forall x :: x in rest <==> x in open && x != cur
  {
    var sorted := SortByKey(open, fm);
    SortSorted(open, fm);
    SortMembers(open, fm);
    assert sorted[0] in sorted;
    NoDuplicatesTail(sorted);
    forall x
      ensures x in rest <==> x in open && x != cur
    {
      if x in rest {
        var i :| 0 <= i < |rest| && rest[i] == x;
        assert sorted[i + 1] == x;
      }
      if x in open && x != cur {
        var i :| 0 <= i < |sorted| && sorted[i] == x;
        assert rest[i - 1] == x;
      }
    }
  }

  /** The popped cell is open, so neither closed nor out of bounds, and
      closing it leaves the open and closed cells as they were. */
  lemma PopCloses(g: Grid, open: seq<Coord>, closed: set<Coord>, visitedNodes: seq<Coord>,
                  cur: Coord, rest: seq<Coord>)
    requires Bookkept(g, open, closed, visitedNodes)
    requires cur in open && forall x :: x in rest <==> x in open && x != cur
    ensures cur !in closed && InBounds(g, cur)
    ensures closed + Elems(open) == (closed + {cur}) + Elems(rest)
  {
  }

  /** The first pop takes the start. */
  lemma FirstPopIsStart(open: seq<Coord>, fm: map<Coord, nat>, start: Coord)
    requires open == [start]
    ensures SortByKey(open, fm)[0] == start
  {
    assert SortByKey(open, fm)[0] in multiset(open);
  }

  /** Closing the popped cell and running the neighbour loop keeps every
      cell open or closed at most once. */
  lemma ExpandKeepsBookkept(g: Grid, open: seq<Coord>, closed: set<Coord>, visitedNodes: seq<Coord>,
                            cur: Coord, rest: seq<Coord>, pushed: seq<Coord>,
                            open': seq<Coord>, closed': set<Coord>, visited': seq<Coord>)
    requires Bookkept(g, open, closed, visitedNodes)
    requires cur in open && InBounds(g, cur) && NoDuplicates(rest) && cur !in rest
    requires forall x :: x in rest <==> x in open && x != cur
    requires NoDuplicates(pushed)
    requires forall x :: x in pushed <==> Step(g, cur, x) && x !in closed' + Elems(rest)
    requires open' == rest + pushed && closed' == closed + {cur} && visited' == visitedNodes + [cur]
    ensures Bookkept(g, open', closed', visited')
  {
    NoDuplicatesAppend(visitedNodes, [cur]);
    NoDuplicatesAppend(rest, pushed);
  }

  /** Closing the popped cell and running the neighbour loop keeps the
      predecessor tree, its links into closed cells, the closure of the
      closed cells and the estimates. */
  lemma ExpandKeepsLinked(g: Grid, start: Coord, end: Coord, open: seq<Coord>, closed: set<Coord>,
                          gm: map<Coord, nat>, fm: map<Coord, nat>, parent: map<Coord, Coord>,
                          cur: Coord, rest: seq<Coord>, ns: seq<Coord>, upd: set<Coord>, pushed: seq<Coord>, tg: nat,
                          open': seq<Coord>, closed': set<Coord>,
                          gm': map<Coord, nat>, fm': map<Coord, nat>, parent': map<Coord, Coord>)
    requires Linked(g, start, end, open, closed, gm, fm, parent)
    requires cur in open && start in closed'
    requires forall x :: x in rest <==> x in open && x != cur
    requires closed' == closed + {cur} && closed + Elems(open) == closed' + Elems(rest)
    requires ns == Neighbors(g, cur) && tg == Key(gm, cur) + 1
    requires upd == Improved(ns, closed', rest, gm, tg)
    requires forall x :: x in pushed <==> x in ns && x !in closed' + Elems(rest)
    requires open' == rest + pushed
    requires gm' == RankAll(gm, upd, tg) && fm' == ScoreAll(fm, upd, tg, end) && parent' == LinkAll(parent, upd, cur)
    ensures Linked(g, start, end, open', closed', gm', fm', parent')
  {
    var found := closed + Elems(open);
    assert found + upd == closed' + Elems(open') by {
      UpdatedAreFound(closed', rest, ns, upd, pushed, gm, tg, open');
    }
    RelinkKeepsTree(g, start, closed, found, gm, parent, cur, upd, tg, closed', gm', parent');
    ExpandKeepsClosure(g, open, closed, cur, rest, ns, pushed, open', closed');
    RescoreKeepsEstimates(end, found, gm, fm, upd, tg, closed' + Elems(open'), gm', fm');
  }

  /** After the neighbour loop the open and closed cells are those before
      it and the updated ones. */
  lemma UpdatedAreFound(closed': set<Coord>, rest: seq<Coord>, ns: seq<Coord>, upd: set<Coord>,
                        pushed: seq<Coord>, gm: map<Coord, nat>, tg: nat, open': seq<Coord>)
    requires upd == Improved(ns, closed', rest, gm, tg)
    requires forall x :: x in pushed <==> x in ns && x !in closed' + Elems(rest)
    requires open' == rest + pushed
    ensures (closed' + Elems(rest)) + upd == closed' + Elems(open')
  {
  }

  lemma RelinkKeepsTree(g: Grid, start: Coord, closed: set<Coord>, found: set<Coord>,
                        gm: map<Coord, nat>, parent: map<Coord, Coord>, cur: Coord, upd: set<Coord>, tg: nat,
                        closed': set<Coord>, gm': map<Coord, nat>, parent': map<Coord, Coord>)
    requires IsParentTree(g, start, parent, gm, found)
    requires forall c {:trigger parent[c]} :: c in parent ==> parent[c] in closed
    requires cur in found && start in closed' && closed' == closed + {cur}
    requires tg == Key(gm, cur) + 1
    requires forall n :: n in upd ==> Step(g, cur, n) && n !in closed'
    requires gm' == RankAll(gm, upd, tg) && parent' == LinkAll(parent, upd, cur)
    ensures IsParentTree(g, start, parent', gm', found + upd)
    ensures forall c {:trigger parent'[c]} :: c in parent' ==> parent'[c] in closed'
  {
    forall c {:trigger parent[c]} | c in parent
      ensures parent[c] !in upd
    {
      assert parent[c] in closed;
    }
    ParentTreeRelink(g, start, parent, gm, found, cur, upd, tg);
  }

  lemma ExpandKeepsClosure(g: Grid, open: seq<Coord>, closed: set<Coord>, cur: Coord, rest: seq<Coord>,
                           ns: seq<Coord>, pushed: seq<Coord>, open': seq<Coord>, closed': set<Coord>)
    requires forall e, n :: e in closed && Step(g, e, n) ==> n in closed || n in open
    requires forall x :: x in rest <==> x in open && x != cur
    requires closed' == closed + {cur} && ns == Neighbors(g, cur)
    requires forall x :: x in pushed <==> x in ns && x !in closed' + Elems(rest)
    requires open' == rest + pushed
    ensures forall e, n :: e in closed' && Step(g, e, n) ==> n in closed' || n in open'
  {
    forall e, n | e in closed' && Step(g, e, n)
      ensures n in closed' || n in open'
    {
      if e == cur {
        assert n in ns;
      } else {
        assert n in closed || n in open;
      }
    }
  }

  lemma RescoreKeepsEstimates(end: Coord, found: set<Coord>, gm: map<Coord, nat>, fm: map<Coord, nat>,
                              upd: set<Coord>, tg: nat, found': set<Coord>, gm': map<Coord, nat>, fm': map<Coord, nat>)
    requires forall x :: x in found ==> x in gm
    requires forall x :: x in found ==> x in fm && fm[x] == gm[x] + Manhattan(x, end)
    requires found' == found + upd
    requires gm' == RankAll(gm, upd, tg) && fm' == ScoreAll(fm, upd, tg, end)
    ensures forall x :: x in found' ==> x in fm' && fm'[x] == gm'[x] + Manhattan(x, end)
  {
  }

  lemma RunningIntro(g: Grid, start: Coord, end: Coord, open: seq<Coord>, closed: set<Coord>,
                     visitedNodes: seq<Coord>, gm: map<Coord, nat>, fm: map<Coord, nat>,
                     parent: map<Coord, Coord>, trace: seq<Coord>)
    requires InBounds(g, start)
    requires Bookkept(g, open, closed, visitedNodes)
    requires Linked(g, start, end, open, closed, gm, fm, parent)
    requires end !in visitedNodes && |visitedNodes| > 0 && visitedNodes[0] == start && start != end
    requires trace == visitedNodes[1..]
    ensures Running(g, start, end, open, closed, visitedNodes, gm, fm, parent, trace)
  {
  }

  /** Recording a popped cell other than the end keeps the start first and
      the visit callback one cell behind the record. */
  lemma RecordPop(start: Coord, end: Coord, open: seq<Coord>, closed: set<Coord>, visitedNodes: seq<Coord>,
                  trace: seq<Coord>, cur: Coord, visited': seq<Coord>, trace': seq<Coord>)
    requires forall x :: x in closed <==> x in visitedNodes
    requires end !in visitedNodes
    requires visitedNodes == [] ==> open == [start]
    requires |visitedNodes| > 0 ==> visitedNodes[0] == start && start != end
    requires trace == (if visitedNodes == [] then [] else visitedNodes[1..])
    requires cur in open && cur !in closed && cur != end
    requires visited' == visitedNodes + [cur] && trace' == (if cur != start then trace + [cur] else trace)
    ensures end !in visited' && |visited'| > 0 && visited'[0] == start && start != end
    ensures trace' == visited'[1..]
    ensures start in closed + {cur}
  {
    if visitedNodes != [] {
      assert start in closed;
      TailAppend(visitedNodes, cur);
    }
  }

  /** One round of the loop, when the popped cell is not the end, keeps it
      running. */
  lemma ExpandKeepsRunning(g: Grid, start: Coord, end: Coord, open: seq<Coord>, closed: set<Coord>,
                           visitedNodes: seq<Coord>, gm: map<Coord, nat>, fm: map<Coord, nat>,
                           parent: map<Coord, Coord>, trace: seq<Coord>, cur: Coord, rest: seq<Coord>,
                           open': seq<Coord>, closed': set<Coord>, visited': seq<Coord>, gm': map<Coord, nat>,
                           fm': map<Coord, nat>, parent': map<Coord, Coord>, trace': seq<Coord>)
    requires Running(g, start, end, open, closed, visitedNodes, gm, fm, parent, trace)
    requires |open| > 0 && cur == SortByKey(open, fm)[0] && rest == SortByKey(open, fm)[1..] && cur != end
    requires closed' == closed + {cur} && visited' == visitedNodes + [cur]
    requires trace' == (if cur != start then trace + [cur] else trace)
    requires Frontier(open', gm', fm', parent')
          == Relax(Neighbors(g, cur), closed', Frontier(rest, gm, fm, parent), cur, Key(gm, cur) + 1, end)
    ensures Running(g, start, end, open', closed', visited', gm', fm', parent', trace')
    ensures cur !in closed && InBounds(g, cur)
  {
    var ns := Neighbors(g, cur);
    var tg := Key(gm, cur) + 1;
    PopFront(open, fm, cur, rest);
    PopCloses(g, open, closed, visitedNodes, cur, rest);
    if visitedNodes == [] {
      FirstPopIsStart(open, fm, start);
    }
    RecordPop(start, end, open, closed, visitedNodes, trace, cur, visited', trace');
    NeighborsDistinct(g, cur);
    var upd := Improved(ns, closed', rest, gm, tg);
    var pushed := Undiscovered(ns, closed' + Elems(rest));
    assert open' == rest + pushed;
    ExpandKeepsBookkept(g, open, closed, visitedNodes, cur, rest, pushed, open', closed', visited');
    ExpandKeepsLinked(g, start, end, open, closed, gm, fm, parent, cur, rest, ns, upd, pushed, tg,
                      open', closed', gm', fm', parent');
    RunningIntro(g, start, end, open', closed', visited', gm', fm', parent', trace');
  }

  /** The facts that make the costs exact: the start costs nothing; no walk
      beats the cost of a closed cell; an unclosed neighbour of a closed
      cell costs at most one more; and every link adds exactly one to the
      cost. */
  ghost predicate Optimal(g: Grid, start: Coord, closed: set<Coord>, gm: map<Coord, nat>, parent: map<Coord, Coord>) {
    && start in gm && gm[start] == 0
    && (forall x :: x in closed ==> x in gm && DistanceAtLeast(g, start, x, gm[x]))
    && (forall e, n :: e in closed && Step(g, e, n) && n !in closed ==> e in gm && n in gm && gm[n] <= gm[e] + 1)
    && (forall x {:trigger parent[x]} :: x in parent ==> x in gm && parent[x] in gm && gm[x] == gm[parent[x]] + 1)
  }

  /** The popped cell has the least key of all open cells. */
  lemma HeadKeyLeast(open: seq<Coord>, fm: map<Coord, nat>)
    requires |open| > 0
    ensures forall x :: x in open ==> Key(fm, SortByKey(open, fm)[0]) <= Key(fm, x)
  {
    SortHeadIsFirstMin(open, fm);
    var i :| FirstMinAt(open, fm, i) && SortByKey(open, fm)[0] == open[i];
    forall x | x in open
      ensures Key(fm, open[i]) <= Key(fm, x)
    {
      var j :| 0 <= j < |open| && open[j] == x;
    }
  }

  /** The consistent-heuristic argument: an open cell of least estimate has
      an exact cost. Any walk to it crosses the open list at some cell `p`
      whose cost is at most its position `j` on the walk; the heuristic
      drops by at most one per step, so the estimate of `p` is at most the
      walk's length minus one plus the heuristic of the popped cell, and
      the popped cell's estimate is no larger. */
  lemma PoppedIsOptimal(g: Grid, start: Coord, end: Coord, open: seq<Coord>, closed: set<Coord>,
                        gm: map<Coord, nat>, fm: map<Coord, nat>, parent: map<Coord, Coord>, cur: Coord)
    requires Linked(g, start, end, open, closed, gm, fm, parent)
    requires Optimal(g, start, closed, gm, parent)
    requires cur in open && cur !in closed
    requires forall x :: x in open ==> Key(fm, cur) <= Key(fm, x)
    ensures cur in gm && DistanceAtLeast(g, start, cur, gm[cur])
  {
    forall v | IsWalkFrom(g, v, start, cur)
      ensures gm[cur] < |v|
    {
      var p := OpenCrossing(g, start, end, open, closed, gm, fm, parent, v);
      assert fm[cur] == gm[cur] + Manhattan(cur, end);
    }
  }

  /** Every walk from the start to a cell not yet closed passes an open
      cell whose estimate is at most the walk's step count plus the
      heuristic at the walk's last cell: the cell where the walk leaves the
      closed set costs at most its position on the walk, and the heuristic
      drops by at most one per step from there on. */
  lemma OpenCrossing(g: Grid, start: Coord, end: Coord, open: seq<Coord>, closed: set<Coord>,
                     gm: map<Coord, nat>, fm: map<Coord, nat>, parent: map<Coord, Coord>, v: seq<Coord>)
    returns (p: Coord)
    requires Linked(g, start, end, open, closed, gm, fm, parent)
    requires Optimal(g, start, closed, gm, parent)
    requires IsWalk(g, v) && v[0] == start && v[|v| - 1] !in closed
    ensures p in open && Key(fm, p) <= |v| - 1 + Manhattan(v[|v| - 1], end)
  {
    forall e, n | e in closed && Step(g, e, n) && n !in closed
      ensures n in Elems(open) && n in gm && gm[n] <= gm[e] + 1
    {
    }
    assert start in closed + Elems(open);
    var j := CrossingBound(g, start, closed, Elems(open), gm, v);
    p := v[j];
    ManhattanAlongWalk(g, v, j, end);
    assert fm[p] == gm[p] + Manhattan(p, end);
  }

  /** Estimates are closed in non-decreasing order, because the heuristic
      is consistent: every closed cell's estimate is at most `level`, the
      estimate of the last pop, and every open cell's is at least `level`. */
  ghost predicate ClosedBelow(closed: set<Coord>, open: seq<Coord>, fm: map<Coord, nat>, level: nat) {
    && (forall x :: x in closed ==> Key(fm, x) <= level)
    && (forall x :: x in open ==> level <= Key(fm, x))
  }

  /** Expanding the popped cell raises the level to its estimate: a
      neighbour given cost one more than the popped cell's has an estimate
      no lower, since the heuristic drops by at most one per step. */
  lemma ExpandKeepsLevel(g: Grid, end: Coord, closed: set<Coord>, rest: seq<Coord>, gm: map<Coord, nat>,
                         fm: map<Coord, nat>, level: nat, cur: Coord, ns: seq<Coord>, upd: set<Coord>,
                         closed': set<Coord>, open': seq<Coord>, fm': map<Coord, nat>)
    requires forall x :: x in closed ==> Key(fm, x) <= level
    requires level <= Key(fm, cur)
    requires forall x :: x in rest ==> Key(fm, cur) <= Key(fm, x)
    requires Key(fm, cur) == Key(gm, cur) + Manhattan(cur, end)
    requires closed' == closed + {cur}
    requires forall n :: n in ns ==> Step(g, cur, n)
    requires upd == Improved(ns, closed', rest, gm, Key(gm, cur) + 1)
    requires fm' == ScoreAll(fm, upd, Key(gm, cur) + 1, end)
    requires open' == rest + Undiscovered(ns, closed' + Elems(rest))
    ensures ClosedBelow(closed', open', fm', Key(fm, cur))
  {
    forall n | n in upd
      ensures Key(fm, cur) <= Key(fm', n)
    {
      ManhattanStep(cur, n, end);
    }
    forall x | x in open'
      ensures Key(fm, cur) <= Key(fm', x)
    {
      if x !in upd {
        assert x in rest;
      }
    }
  }

  /** One round of the loop keeps the estimates of closed cells below those
      of open cells, with the level raised to the popped estimate. */
  lemma ExpandKeepsClosedBelow(g: Grid, start: Coord, end: Coord, open: seq<Coord>, closed: set<Coord>,
                               visitedNodes: seq<Coord>, gm: map<Coord, nat>, fm: map<Coord, nat>,
                               parent: map<Coord, Coord>, trace: seq<Coord>, level: nat,
                               cur: Coord, rest: seq<Coord>, fr: Frontier)
    requires Running(g, start, end, open, closed, visitedNodes, gm, fm, parent, trace)
    requires ClosedBelow(closed, open, fm, level)
    requires |open| > 0 && cur == SortByKey(open, fm)[0] && rest == SortByKey(open, fm)[1..]
    requires fr == Relax(Neighbors(g, cur), closed + {cur}, Frontier(rest, gm, fm, parent), cur, Key(gm, cur) + 1, end)
    ensures ClosedBelow(closed + {cur}, fr.open, fr.f, Key(fm, cur))
  {
    PopFacts(g, start, end, open, closed, visitedNodes, gm, fm, parent, trace, cur, rest);
    NeighborsDistinct(g, cur);
    ExpandKeepsLevel(g, end, closed, rest, gm, fm, level, cur, Neighbors(g, cur),
                     Improved(Neighbors(g, cur), closed + {cur}, rest, gm, Key(gm, cur) + 1),
                     closed + {cur}, fr.open, fr.f);
  }

  /** A* with a consistent heuristic closes cells in order of estimate, so
      when it finds a path, every cell that some walk from the start reaches
      with fewer cells plus heuristic than the path has cells was recorded
      before the end... */
  ghost predicate RecordsBelowEstimate(g: Grid, start: Coord, end: Coord, r: SearchResult) {
    r.path != [] ==>
      forall w :: IsWalk(g, w) && w[0] == start && |w| + Manhattan(w[|w| - 1], end) < |r.path| ==>
        w[|w| - 1] in r.visitedNodes
  }

  /** ... and every recorded cell is reached by a walk whose cells plus the
      cell's heuristic are at most the path's cells. */
  ghost predicate RecordsWithinEstimate(g: Grid, start: Coord, end: Coord, r: SearchResult) {
    r.path != [] ==>
      forall x :: x in r.visitedNodes ==> exists w :: IsWalkFrom(g, w, start, x) && |w| + Manhattan(x, end) <= |r.path|
  }

  /** When the end is popped, every cell of estimate below the end's has
      been closed, and no closed cell has a larger one. */
  lemma FoundEndRecordsLayers(g: Grid, start: Coord, end: Coord, open: seq<Coord>, closed: set<Coord>,
                              visitedNodes: seq<Coord>, gm: map<Coord, nat>, fm: map<Coord, nat>,
                              parent: map<Coord, Coord>, trace: seq<Coord>, level: nat, r: SearchResult)
    requires Running(g, start, end, open, closed, visitedNodes, gm, fm, parent, trace)
    requires Optimal(g, start, closed, gm, parent)
    requires ClosedBelow(closed, open, fm, level)
    requires |open| > 0 && SortByKey(open, fm)[0] == end
    requires r == SearchResult(ReconstructPath(parent, gm, end), visitedNodes)
    ensures RecordsBelowEstimate(g, start, end, r) && RecordsWithinEstimate(g, start, end, r)
  {
    var found := closed + Elems(open);
    PopFront(open, fm, end, SortByKey(open, fm)[1..]);
    HeadKeyLeast(open, fm);
    TreePathLength(g, start, parent, gm, found, end);
    assert Key(fm, end) == gm[end];
    forall w | IsWalk(g, w) && w[0] == start && |w| + Manhattan(w[|w| - 1], end) < |r.path|
      ensures w[|w| - 1] in visitedNodes
    {
      if w[|w| - 1] !in closed {
        var p := OpenCrossing(g, start, end, open, closed, gm, fm, parent, w);
        assert false;
      }
    }
    forall x | x in visitedNodes
      ensures exists w :: IsWalkFrom(g, w, start, x) && |w| + Manhattan(x, end) <= |r.path|
    {
      assert x in closed && fm[x] == gm[x] + Manhattan(x, end);
      TreePathWithin(g, start, parent, gm, found, x, |r.path| - Manhattan(x, end));
      var w :| IsWalkFrom(g, w, start, x) && |w| <= |r.path| - Manhattan(x, end);
    }
  }

  /** A neighbour of the expanded cell that stays unclosed costs at most
      `tg` after the neighbour loop. */
  lemma NeighborAtMostOneFurther(closed: set<Coord>, rest: seq<Coord>, gm: map<Coord, nat>, ns: seq<Coord>, tg: nat,
                                 upd: set<Coord>, gm': map<Coord, nat>, n: Coord)
    requires upd == Improved(ns, closed, rest, gm, tg) && gm' == RankAll(gm, upd, tg)
    requires n in ns && n !in closed && (n in rest ==> n in gm)
    ensures n in gm' && gm'[n] <= tg
  {
    if n !in upd {
      assert !Improves(n, closed, rest, gm, tg);
    }
  }

  /** An open cell that cost at most one more than a closed cell still
      does: the neighbour loop only lowers the costs of open cells. */
  lemma FrontierPair(closed: set<Coord>, rest: seq<Coord>, gm: map<Coord, nat>, ns: seq<Coord>, tg: nat,
                     upd: set<Coord>, gm': map<Coord, nat>, e: Coord, n: Coord)
    requires upd == Improved(ns, closed, rest, gm, tg) && gm' == RankAll(gm, upd, tg)
    requires e in gm && e !in upd && n in rest && n in gm && gm[n] <= gm[e] + 1
    ensures e in gm' && n in gm' && gm'[n] <= gm'[e] + 1
  {
    if n in upd {
      assert Improves(n, closed, rest, gm, tg);
    }
  }

  /** After closing `cur` and running the neighbour loop, an unclosed
      neighbour of a closed cell still costs at most one more than it.
      `ns` holds the neighbours of `cur`. */
  lemma ExpandKeepsFrontier(g: Grid, open: seq<Coord>, closed: set<Coord>, gm: map<Coord, nat>,
                            cur: Coord, rest: seq<Coord>, ns: seq<Coord>, tg: nat, upd: set<Coord>,
                            closed': set<Coord>, gm': map<Coord, nat>)
    requires forall e, n :: e in closed && Step(g, e, n) && n !in closed ==> e in gm && n in gm && gm[n] <= gm[e] + 1
    requires forall e, n :: e in closed && Step(g, e, n) ==> n in closed || n in open
    requires forall x :: x in rest <==> x in open && x != cur
    requires forall x :: x in rest ==> x in gm
    requires cur in gm && tg == gm[cur] + 1 && closed' == closed + {cur}
    requires forall n :: Step(g, cur, n) ==> n in ns
    requires upd == Improved(ns, closed', rest, gm, tg) && gm' == RankAll(gm, upd, tg)
    ensures forall e, n :: e in closed' && Step(g, e, n) && n !in closed' ==> e in gm' && n in gm' && gm'[n] <= gm'[e] + 1
  {
    forall e, n | e in closed' && Step(g, e, n) && n !in closed'
      ensures e in gm' && n in gm' && gm'[n] <= gm'[e] + 1
    {
      assert e !in upd;
      if e == cur {
        NeighborAtMostOneFurther(closed', rest, gm, ns, tg, upd, gm', n);
      } else {
        assert n in open && n != cur;
        FrontierPair(closed', rest, gm, ns, tg, upd, gm', e, n);
      }
    }
  }

  /** What the pop establishes: the popped cell was open and not closed,
      has the least key of all open cells, and leaves the rest of the open
      list; the start is closed once the popped cell is. */
  lemma PopFacts(g: Grid, start: Coord, end: Coord, open: seq<Coord>, closed: set<Coord>,
                 visitedNodes: seq<Coord>, gm: map<Coord, nat>, fm: map<Coord, nat>,
                 parent: map<Coord, Coord>, trace: seq<Coord>, cur: Coord, rest: seq<Coord>)
    requires Running(g, start, end, open, closed, visitedNodes, gm, fm, parent, trace)
    requires |open| > 0 && cur == SortByKey(open, fm)[0] && rest == SortByKey(open, fm)[1..]
    ensures cur in open && cur !in closed
    ensures forall x :: x in rest <==> x in open && x != cur
    ensures forall x :: x in open ==> Key(fm, cur) <= Key(fm, x)
    ensures start in closed + {cur}
  {
    PopFront(open, fm, cur, rest);
    HeadKeyLeast(open, fm);
    if visitedNodes == [] {
      FirstPopIsStart(open, fm, start);
    } else {
      assert start in closed;
    }
  }

  /** Closing the popped cell and running the neighbour loop keeps the costs
      exact: the popped cell's cost is exact, closed costs do not change,
      and the loop gives each unclosed neighbour a cost at most one above
      the popped cell's. */
  lemma ExpandKeepsOptimal(g: Grid, start: Coord, end: Coord, open: seq<Coord>, closed: set<Coord>,
                           gm: map<Coord, nat>, fm: map<Coord, nat>, parent: map<Coord, Coord>,
                           cur: Coord, rest: seq<Coord>, upd: set<Coord>,
                           closed': set<Coord>, gm': map<Coord, nat>, parent': map<Coord, Coord>)
    requires Linked(g, start, end, open, closed, gm, fm, parent)
    requires Optimal(g, start, closed, gm, parent)
    requires cur in open && cur !in closed
    requires forall x :: x in rest <==> x in open && x != cur
    requires forall x :: x in open ==> Key(fm, cur) <= Key(fm, x)
    requires closed' == closed + {cur} && start in closed'
    requires upd == Improved(Neighbors(g, cur), closed', rest, gm, Key(gm, cur) + 1)
    requires gm' == RankAll(gm, upd, Key(gm, cur) + 1) && parent' == LinkAll(parent, upd, cur)
    ensures Optimal(g, start, closed', gm', parent')
  {
    PoppedIsOptimal(g, start, end, open, closed, gm, fm, parent, cur);
    assert forall x :: x in closed' ==> x !in upd;
    assert forall x :: x in rest ==> x in gm by {
      assert forall x :: x in rest ==> x in closed + Elems(open);
    }
    ExpandKeepsFrontier(g, open, closed, gm, cur, rest, Neighbors(g, cur), Key(gm, cur) + 1, upd, closed', gm');
    RelinkAddsOne(gm, parent, closed, cur, upd, gm', parent');
  }

  /** When the end is popped, the path back from it is a shortest walk. */
  lemma FoundEndIsShortest(g: Grid, start: Coord, end: Coord, open: seq<Coord>, closed: set<Coord>,
                           visitedNodes: seq<Coord>, gm: map<Coord, nat>, fm: map<Coord, nat>,
                           parent: map<Coord, Coord>, trace: seq<Coord>)
    requires Running(g, start, end, open, closed, visitedNodes, gm, fm, parent, trace)
    requires Optimal(g, start, closed, gm, parent)
    requires |open| > 0 && SortByKey(open, fm)[0] == end
    ensures IsShortestWalk(g, ReconstructPath(parent, gm, end), start, end)
  {
    PopFront(open, fm, end, SortByKey(open, fm)[1..]);
    HeadKeyLeast(open, fm);
    PoppedIsOptimal(g, start, end, open, closed, gm, fm, parent, end);
    ShortestTreePath(g, start, parent, gm, closed + Elems(open), end);
  }

  /** Closing a cell that was not closed leaves fewer cells to close. */
  lemma CloseShrinks(g: Grid, closed: set<Coord>, cur: Coord)
    requires cur !in closed && InBounds(g, cur)
    ensures AllCells(g) - (closed + {cur}) < AllCells(g) - closed
  {
    assert cur in AllCells(g) - closed;
  }

  /** Returning the path to the end when the end is popped keeps every
      promise of a search result. */
  lemma FoundEndReports(g: Grid, start: Coord, end: Coord, open: seq<Coord>, closed: set<Coord>,
                        visitedNodes: seq<Coord>, gm: map<Coord, nat>, fm: map<Coord, nat>,
                        parent: map<Coord, Coord>, trace: seq<Coord>, r: SearchResult)
    requires Running(g, start, end, open, closed, visitedNodes, gm, fm, parent, trace)
    requires |open| > 0 && SortByKey(open, fm)[0] == end
    requires r == SearchResult(ReconstructPath(parent, gm, end), visitedNodes)
    ensures RecordsVisits(g, start, end, r, trace)
    ensures ReportsPath(g, start, end, r)
  {
    PopFront(open, fm, end, SortByKey(open, fm)[1..]);
    if visitedNodes == [] {
      FirstPopIsStart(open, fm, start);
    }
    var found := closed + Elems(open);
    TreePathIsWalk(g, start, parent, gm, found, end);
    TreeReachable(g, start, parent, gm, found);
  }

  /** Returning no path when the open list runs dry keeps every promise of
      a search result. */
  lemma DrainedReports(g: Grid, start: Coord, end: Coord, open: seq<Coord>, closed: set<Coord>,
                       visitedNodes: seq<Coord>, gm: map<Coord, nat>, fm: map<Coord, nat>,
                       parent: map<Coord, Coord>, trace: seq<Coord>, r: SearchResult)
    requires Running(g, start, end, open, closed, visitedNodes, gm, fm, parent, trace)
    requires open == [] && r == SearchResult([], visitedNodes)
    ensures RecordsVisits(g, start, end, r, trace)
    ensures ReportsPath(g, start, end, r)
  {
    TreeReachable(g, start, parent, gm, closed + Elems(open));
    assert start in closed;
    forall x | Reachable(g, start, x)
      ensures x in visitedNodes
    {
      ClosedSetHoldsReachable(g, start, closed, x);
    }
  }

  /** A* search from `start` for `end`. `trace` is the sequence of cells
      handed to the visit callback. */
  method AStar(g: Grid, start: Coord, end: Coord) returns (r: SearchResult, trace: seq<Coord>)
    requires InBounds(g, start)
    ensures RecordsVisits(g, start, end, r, trace)
    ensures ReportsPath(g, start, end, r)
    ensures r.path != [] ==> IsShortestWalk(g, r.path, start, end)
    ensures RecordsBelowEstimate(g, start, end, r) && RecordsWithinEstimate(g, start, end, r)
  {
    var open := [start];
    var closed: set<Coord> := {};
    var visitedNodes := [];
    var gm: map<Coord, nat> := map[start := 0];
    var fm: map<Coord, nat> := map[start := Manhattan(start, end)];
    var parent: map<Coord, Coord> := map[];
    trace := [];
    ghost var level: nat := 0;
    assert Running(g, start, end, open, closed, visitedNodes, gm, fm, parent, trace);
    while |open| > 0
      invariant Running(g, start, end, open, closed, visitedNodes, gm, fm, parent, trace)
      invariant Optimal(g, start, closed, gm, parent)
      invariant ClosedBelow(closed, open, fm, level)
      decreases AllCells(g) - closed
    {
      var sorted := SortByKey(open, fm);
      var current := sorted[0];
      if current == end {
        r := SearchResult(ReconstructPath(parent, gm, current), visitedNodes);
        FoundEndReports(g, start, end, open, closed, visitedNodes, gm, fm, parent, trace, r);
        FoundEndIsShortest(g, start, end, open, closed, visitedNodes, gm, fm, parent, trace);
        FoundEndRecordsLayers(g, start, end, open, closed, visitedNodes, gm, fm, parent, trace, level, r);
        return;
      }
      ghost var open0, closed0, visited0, gm0, fm0, parent0, trace0 := open, closed, visitedNodes, gm, fm, parent, trace;
      closed := closed + {current};
      visitedNodes := visitedNodes + [current];
      if current != start {
        trace := trace + [current];
      }
      var tentative := Key(gm, current) + 1;
      var fr := Relax(Neighbors(g, current), closed, Frontier(sorted[1..], gm, fm, parent), current, tentative, end);
      open, gm, fm, parent := fr.open, fr.g, fr.f, fr.parent;
      ExpandKeepsRunning(g, start, end, open0, closed0, visited0, gm0, fm0, parent0, trace0, current, sorted[1..],
                         open, closed, visitedNodes, gm, fm, parent, trace);
      PopFacts(g, start, end, open0, closed0, visited0, gm0, fm0, parent0, trace0, current, sorted[1..]);
      ExpandKeepsOptimal(g, start, end, open0, closed0, gm0, fm0, parent0, current, sorted[1..],
                         Improved(Neighbors(g, current), closed, sorted[1..], gm0, tentative), closed, gm, parent);
      ExpandKeepsClosedBelow(g, start, end, open0, closed0, visited0, gm0, fm0, parent0, trace0, level,
                             current, sorted[1..], fr);
      level := Key(fm0, current);
      CloseShrinks(g, closed0, current);
    }
    r := SearchResult([], visitedNodes);
    DrainedReports(g, start, end, open, closed, visitedNodes, gm, fm, parent, trace, r);
  }
}
