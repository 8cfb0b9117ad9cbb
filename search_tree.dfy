/** The invariants of the best-first search of `OddQ.path` and the lemmas that
    preserve them: the back-pointer forest, the cost bound by a history of distinct
    cells, the measure that every relabelling decreases, and the closure of expanded cells. */
module SearchTree {
  import opened Coords
  import opened Cells
  import opened Walks
  import opened Nullable

  /** A queue entry `Pair<Int, OddQ>`: priority first, then the cell. */
  datatype Entry = Entry(priority: int, node: OddQ)

  /** `e` is an entry of the queue with the least priority; `poll` may return any of them. */
  predicate IsMin(frontier: multiset<Entry>, e: Entry) {
    e in frontier && forall e' :: e' in frontier ==> e.priority <= e'.priority
  }

  lemma {:induction false} MinExists(frontier: multiset<Entry>)
    requires |frontier| > 0
    ensures exists e :: IsMin(frontier, e)
    decreases |frontier|
  {
    var x :| x in frontier;
    var rest := frontier - multiset{x};
    assert frontier == rest + multiset{x};
    if |rest| == 0 {
      assert IsMin(frontier, x);
    } else {
      MinExists(rest);
      var y :| IsMin(rest, y);
      if x.priority <= y.priority {
        assert IsMin(frontier, x);
      } else {
        assert IsMin(frontier, y);
      }
    }
  }

  /** The cells a search can ever label: the terrain cells and the start. */
  function Nodes(start: OddQ, terrain: map<OddQ, Hex>): set<OddQ> {
    terrain.Keys + {start}
  }

  /** The back-pointer forest the search maintains: the start has cost 0 and no
      predecessor; every other labelled cell is a terrain cell whose predecessor is a
      labelled neighbour of strictly smaller cost. */
  ghost predicate Tree(start: OddQ, terrain: map<OddQ, Hex>, costSoFar: map<OddQ, nat>,
                       cameFrom: map<OddQ, Option<OddQ>>) {
    && start in costSoFar && costSoFar[start] == 0
    && cameFrom.Keys == costSoFar.Keys
    && cameFrom[start] == None
    && (forall n {:trigger cameFrom[n]} :: n in cameFrom && n != start ==>
         && n in terrain && cameFrom[n].Some? && cameFrom[n].value in costSoFar
         && costSoFar[cameFrom[n].value] < costSoFar[n])
    && (forall n {:trigger Adjacent(cameFrom[n].value, n)} :: n in cameFrom && n != start ==>
         cameFrom[n].Some? && Adjacent(cameFrom[n].value, n))
  }

  /** Labelled costs are never below the number of steps from the start: following the
      back pointers from `n` reaches the start in at most `costSoFar[n]` steps. */
  lemma {:induction false} TreeSound(start: OddQ, terrain: map<OddQ, Hex>, costSoFar: map<OddQ, nat>,
                                     cameFrom: map<OddQ, Option<OddQ>>, n: OddQ)
    requires Tree(start, terrain, costSoFar, cameFrom) && n in costSoFar
    ensures n in Ball(start, terrain, costSoFar[n])
    decreases costSoFar[n]
  {
    if n == start {
      BallMonotone(start, terrain, 0, costSoFar[n]);
    } else {
      var p := cameFrom[n].value;
      TreeSound(start, terrain, costSoFar, cameFrom, p);
      BallMonotone(start, terrain, costSoFar[p], costSoFar[n] - 1);
      assert Adjacent(p, n);
      var d :| 0 <= d < 6 && Neighbor(p, d) == n;
      BallGrows(start, terrain, costSoFar[n], p, d);
    }
  }

  ghost predicate Distinct(s: seq<OddQ>) {
    forall i, j :: 0 <= i < j < |s| ==> s[i] != s[j]
  }

  /** For each labelled cell, the cells through which its current cost was found:
      pairwise distinct cells, one per unit of cost, none of which has since become
      more expensive than when it was passed. This bounds every cost. */
  ghost predicate Bounded(start: OddQ, terrain: map<OddQ, Hex>, costSoFar: map<OddQ, nat>,
                          history: map<OddQ, seq<OddQ>>) {
    && costSoFar.Keys <= history.Keys
    && forall n {:trigger history[n]} :: n in costSoFar ==>
      && |history[n]| == costSoFar[n] + 1
      && Distinct(history[n])
      && forall i :: 0 <= i < |history[n]| ==>
           history[n][i] in costSoFar && costSoFar[history[n][i]] <= i
  }

  ghost predicate Known(frontier: multiset<Entry>, costSoFar: map<OddQ, nat>) {
    forall e :: e in frontier ==> e.node in costSoFar
  }

  ghost predicate Pending(frontier: multiset<Entry>, n: OddQ) {
    exists e :: e in frontier && e.node == n
  }

  /** Every terrain neighbour of `n` is labelled. */
  ghost predicate Closed(terrain: map<OddQ, Hex>, costSoFar: map<OddQ, nat>, n: OddQ) {
    ClosedBelow(terrain, costSoFar, n, 6)
  }

  /** Every terrain neighbour of `n` in a direction below `k` is labelled. */
  ghost predicate ClosedBelow(terrain: map<OddQ, Hex>, costSoFar: map<OddQ, nat>, n: OddQ, k: int) {
    forall d :: 0 <= d < k && d < 6 && Neighbor(n, d) in terrain ==> Neighbor(n, d) in costSoFar
  }

  lemma ClosedBelowNext(terrain: map<OddQ, Hex>, cost0: map<OddQ, nat>, costSoFar: map<OddQ, nat>, n: OddQ, k: int)
    requires 0 <= k < 6 && ClosedBelow(terrain, cost0, n, k) && cost0.Keys <= costSoFar.Keys
    requires Neighbor(n, k) in terrain ==> Neighbor(n, k) in costSoFar
    ensures ClosedBelow(terrain, costSoFar, n, k + 1)
  {
  }

  ghost predicate Covered(terrain: map<OddQ, Hex>, frontier: multiset<Entry>, costSoFar: map<OddQ, nat>) {
    forall n :: n in costSoFar ==> Pending(frontier, n) || Closed(terrain, costSoFar, n)
  }

  ghost function Bound(nodes: set<OddQ>, costSoFar: map<OddQ, nat>, n: OddQ): nat {
    if n in costSoFar then costSoFar[n] else |nodes| + 1
  }

  /** The (cell, cost) labels a cell could still be lowered to; every offer removes one. */
  ghost function Avail(nodes: set<OddQ>, costSoFar: map<OddQ, nat>): set<(OddQ, int)> {
    set n, c | n in nodes && 0 <= c < Bound(nodes, costSoFar, n) :: (n, c)
  }

  /** The number of labels still available: the measure that every offer decreases. */
  ghost function Rank(nodes: set<OddQ>, costSoFar: map<OddQ, nat>): nat {
    |Avail(nodes, costSoFar)|
  }

  lemma AvailShrinks(nodes: set<OddQ>, costSoFar: map<OddQ, nat>, n: OddQ, c: nat)
    requires n in nodes && c < Bound(nodes, costSoFar, n)
    ensures Rank(nodes, costSoFar[n := c]) < Rank(nodes, costSoFar)
  {
    var after := costSoFar[n := c];
    var a, b := Avail(nodes, after), Avail(nodes, costSoFar);
    forall p | p in a ensures p in b {
      var m, c' :| m in nodes && 0 <= c' < Bound(nodes, after, m) && p == (m, c');
      assert Bound(nodes, after, m) <= Bound(nodes, costSoFar, m);
    }
    assert (n, c) in b - a;
    assert b == a + (b - a);
  }

  lemma {:induction false} DistinctElems(s: seq<OddQ>)
    requires Distinct(s)
    ensures |Elems(s)| == |s|
  {
    if |s| > 0 {
      var t := s[..|s| - 1];
      assert Distinct(t);
      DistinctElems(t);
      assert s == t + [s[|s| - 1]];
      ElemsAppend(t, s[|s| - 1]);
      assert s[|s| - 1] !in Elems(t);
    }
  }

  lemma DistinctBounded(s: seq<OddQ>, nodes: set<OddQ>)
    requires Distinct(s) && forall i :: 0 <= i < |s| ==> s[i] in nodes
    ensures |s| <= |nodes|
  {
    DistinctElems(s);
    assert Elems(s) <= nodes;
    assert |Elems(s)| <= |nodes| by {
      var e := Elems(s);
      assert nodes == e + (nodes - e);
    }
  }

  /** Lowering the label of `nb` through `current` keeps every invariant of the search and
      removes one available label. */
  lemma OfferKeeps(start: OddQ, terrain: map<OddQ, Hex>, costSoFar: map<OddQ, nat>,
                   cameFrom: map<OddQ, Option<OddQ>>, history: map<OddQ, seq<OddQ>>,
                   current: OddQ, d: int, cost': map<OddQ, nat>, cameFrom': map<OddQ, Option<OddQ>>,
                   history': map<OddQ, seq<OddQ>>)
    requires Tree(start, terrain, costSoFar, cameFrom)
    requires Bounded(start, terrain, costSoFar, history)
    requires current in costSoFar && 0 <= d < 6
    requires Neighbor(current, d) in terrain
    requires Neighbor(current, d) !in costSoFar || costSoFar[current] + 1 < costSoFar[Neighbor(current, d)]
    requires cost' == costSoFar[Neighbor(current, d) := costSoFar[current] + 1]
    requires cameFrom' == cameFrom[Neighbor(current, d) := Some(current)]
    requires history' == history[Neighbor(current, d) := history[current] + [Neighbor(current, d)]]
    ensures Tree(start, terrain, cost', cameFrom')
    ensures Bounded(start, terrain, cost', history')
    ensures Rank(Nodes(start, terrain), cost') < Rank(Nodes(start, terrain), costSoFar)
  {
    var nb := Neighbor(current, d);
    var newCost := costSoFar[current] + 1;
    TreeAfterOffer(start, terrain, costSoFar, cameFrom, current, d, cost', cameFrom');
    HistoryAfterOffer(start, terrain, costSoFar, history, current, nb);
    BoundedAfterOffer(start, terrain, costSoFar, history, nb, newCost, history[current] + [nb], cost', history');
    RankAfterOffer(start, terrain, costSoFar, cameFrom, history, current, nb, cost');
  }

  /** A label below the current one is still available, since every cost is below the
      number of cells; taking it shrinks the measure. */
  lemma RankAfterOffer(start: OddQ, terrain: map<OddQ, Hex>, costSoFar: map<OddQ, nat>,
                       cameFrom: map<OddQ, Option<OddQ>>, history: map<OddQ, seq<OddQ>>,
                       current: OddQ, nb: OddQ, cost': map<OddQ, nat>)
    requires Tree(start, terrain, costSoFar, cameFrom)
    requires Bounded(start, terrain, costSoFar, history)
    requires current in costSoFar && nb in terrain
    requires nb !in costSoFar || costSoFar[current] + 1 < costSoFar[nb]
    requires cost' == costSoFar[nb := costSoFar[current] + 1]
    ensures Rank(Nodes(start, terrain), cost') < Rank(Nodes(start, terrain), costSoFar)
  {
    DistinctBounded(history[current], Nodes(start, terrain));
    AvailShrinks(Nodes(start, terrain), costSoFar, nb, costSoFar[current] + 1);
  }

  lemma TreeAfterOffer(start: OddQ, terrain: map<OddQ, Hex>, costSoFar: map<OddQ, nat>,
                       cameFrom: map<OddQ, Option<OddQ>>, current: OddQ, d: int,
                       cost': map<OddQ, nat>, cameFrom': map<OddQ, Option<OddQ>>)
    requires Tree(start, terrain, costSoFar, cameFrom)
    requires current in costSoFar && 0 <= d < 6
    requires Neighbor(current, d) in terrain
    requires Neighbor(current, d) !in costSoFar || costSoFar[current] + 1 < costSoFar[Neighbor(current, d)]
    requires cost' == costSoFar[Neighbor(current, d) := costSoFar[current] + 1]
    requires cameFrom' == cameFrom[Neighbor(current, d) := Some(current)]
    ensures Tree(start, terrain, cost', cameFrom')
  {
    NeighborsDistinct(current, d, d);
  }

  /** The cells passed on the way to `current`, followed by `nb`, are pairwise distinct. */
  lemma HistoryAfterOffer(start: OddQ, terrain: map<OddQ, Hex>, costSoFar: map<OddQ, nat>,
                          history: map<OddQ, seq<OddQ>>, current: OddQ, nb: OddQ)
    requires Bounded(start, terrain, costSoFar, history)
    requires current in costSoFar && nb in terrain
    requires nb !in costSoFar || costSoFar[current] + 1 < costSoFar[nb]
    ensures var h := history[current];
      && |h| == costSoFar[current] + 1
      && Distinct(h + [nb])
      && forall i :: 0 <= i < |h| ==> h[i] != nb && h[i] in costSoFar && costSoFar[h[i]] <= i
  {
    var h := history[current];
    var h' := h + [nb];
    assert forall i :: 0 <= i < |h| ==> h[i] != nb by {
      forall i | 0 <= i < |h| ensures h[i] != nb {
        assert h[i] in costSoFar && costSoFar[h[i]] <= i;
      }
    }
    forall i, j | 0 <= i < j < |h'| ensures h'[i] != h'[j] {
      if j < |h| {
        assert h'[i] == h[i] && h'[j] == h[j];
      }
    }
  }

  lemma BoundedAfterOffer(start: OddQ, terrain: map<OddQ, Hex>, costSoFar: map<OddQ, nat>,
                          history: map<OddQ, seq<OddQ>>, nb: OddQ, newCost: nat, h': seq<OddQ>,
                          cost': map<OddQ, nat>, hist': map<OddQ, seq<OddQ>>)
    requires Bounded(start, terrain, costSoFar, history)
    requires nb in terrain
    requires nb !in costSoFar || newCost < costSoFar[nb]
    requires |h'| == newCost + 1 && Distinct(h') && h'[newCost] == nb
    requires forall i :: 0 <= i < newCost ==> h'[i] != nb && h'[i] in costSoFar && costSoFar[h'[i]] <= i
    requires cost' == costSoFar[nb := newCost] && hist' == history[nb := h']
    ensures Bounded(start, terrain, cost', hist')
  {
    forall n | n in cost'
      ensures && n in hist' && |hist'[n]| == cost'[n] + 1 && Distinct(hist'[n])
              && forall i :: 0 <= i < |hist'[n]| ==> hist'[n][i] in cost' && cost'[hist'[n][i]] <= i
    {
      if n != nb {
        forall i | 0 <= i < |hist'[n]| ensures hist'[n][i] in cost' && cost'[hist'[n][i]] <= i {
          assert history[n][i] in costSoFar && costSoFar[history[n][i]] <= i;
        }
      }
    }
  }

  /** The initial queue and tables satisfy the loop invariants. */
  lemma InitKeeps(start: OddQ, terrain: map<OddQ, Hex>)
    ensures var frontier := multiset{Entry(0, start)};
      var costSoFar := map[start := 0];
      && Inv(start, terrain, frontier, costSoFar, map[start := None], map[start := [start]])
      && Covered(terrain, frontier, costSoFar)
  {
    var frontier := multiset{Entry(0, start)};
    assert Entry(0, start) in frontier;
  }

  /** When the loop ends, by reaching `to` or by emptying the queue: labelled costs
      are at least the number of steps, and if `to` was not labelled every cell
      connected to the start was. */
  lemma SearchDone(start: OddQ, terrain: map<OddQ, Hex>, to: OddQ, frontier: multiset<Entry>,
                   costSoFar: map<OddQ, nat>, cameFrom: map<OddQ, Option<OddQ>>)
    requires Tree(start, terrain, costSoFar, cameFrom)
    requires to in costSoFar || (|frontier| == 0 && Covered(terrain, frontier, costSoFar))
    ensures forall n :: n in costSoFar ==> n in Ball(start, terrain, costSoFar[n])
    ensures to in costSoFar || forall q :: Connected(start, terrain, q) ==> q in costSoFar
  {
    forall n | n in costSoFar ensures n in Ball(start, terrain, costSoFar[n]) {
      TreeSound(start, terrain, costSoFar, cameFrom, n);
    }
    if to !in costSoFar {
      forall q | Connected(start, terrain, q) ensures q in costSoFar {
        ClosedHoldsConnected(start, terrain, costSoFar.Keys, q);
      }
    }
  }

  /** A cell whose queue entry was polled is closed once expanded; every other
      labelled cell keeps its entry or its closure, and new ones are queued. */
  lemma CoveredAfterExpand(start: OddQ, terrain: map<OddQ, Hex>, frontier1: multiset<Entry>, e: Entry,
                           frontier: multiset<Entry>, cost0: map<OddQ, nat>, costSoFar: map<OddQ, nat>)
    requires e in frontier1 && Covered(terrain, frontier1, cost0)
    requires Grown(start, terrain, frontier1 - multiset{e}, cost0, frontier, costSoFar)
    requires Closed(terrain, costSoFar, e.node)
    ensures Covered(terrain, frontier, costSoFar)
  {
    forall n | n in costSoFar ensures Pending(frontier, n) || Closed(terrain, costSoFar, n) {
      if n != e.node && n in cost0 {
        if Pending(frontier1, n) {
          var e' :| e' in frontier1 && e'.node == n;
          assert e' in frontier1 - multiset{e};
        } else {
          assert Closed(terrain, cost0, n);
        }
      }
    }
  }

  /** The invariants of the search loop, over the queue, the two tables and the ghost history. */
  ghost predicate Inv(start: OddQ, terrain: map<OddQ, Hex>, frontier: multiset<Entry>,
                      costSoFar: map<OddQ, nat>, cameFrom: map<OddQ, Option<OddQ>>,
                      history: map<OddQ, seq<OddQ>>) {
    && Tree(start, terrain, costSoFar, cameFrom)
    && Bounded(start, terrain, costSoFar, history)
    && Known(frontier, costSoFar)
  }

  /** From the state before an expansion to the state now: entries were only added,
      cells were only labelled, every newly labelled cell is queued, and either nothing
      changed or an available label was used up. */
  ghost predicate Grown(start: OddQ, terrain: map<OddQ, Hex>, frontier0: multiset<Entry>,
                        costSoFar0: map<OddQ, nat>, frontier: multiset<Entry>, costSoFar: map<OddQ, nat>) {
    && frontier0 <= frontier && costSoFar0.Keys <= costSoFar.Keys
    && (forall n :: n in costSoFar && n !in costSoFar0 ==> Pending(frontier, n))
    && ((frontier == frontier0 && costSoFar == costSoFar0) ||
        Rank(Nodes(start, terrain), costSoFar) < Rank(Nodes(start, terrain), costSoFar0))
  }

  lemma GrownAfterOffer(start: OddQ, terrain: map<OddQ, Hex>, frontier0: multiset<Entry>,
                        costSoFar0: map<OddQ, nat>, frontier1: multiset<Entry>, costSoFar1: map<OddQ, nat>,
                        entry: Entry, newCost: nat, frontier: multiset<Entry>, costSoFar: map<OddQ, nat>)
    requires Grown(start, terrain, frontier0, costSoFar0, frontier1, costSoFar1)
    requires Known(frontier1, costSoFar1)
    requires costSoFar == costSoFar1[entry.node := newCost] && frontier == frontier1 + multiset{entry}
    requires Rank(Nodes(start, terrain), costSoFar) < Rank(Nodes(start, terrain), costSoFar1)
    ensures Grown(start, terrain, frontier0, costSoFar0, frontier, costSoFar)
    ensures Known(frontier, costSoFar)
  {
    forall n | n in costSoFar && n !in costSoFar0 ensures Pending(frontier, n) {
      if n == entry.node {
        assert entry in frontier;
      } else {
        var e :| e in frontier1 && e.node == n;
        assert e in frontier;
      }
    }
  }

  /** The back pointers followed so far: costs strictly increase along the list, and each
      cell after the first is a terrain cell next to the one before it. */
  ghost predicate Chain(path: seq<OddQ>, terrain: map<OddQ, Hex>, costSoFar: map<OddQ, nat>) {
    && (forall i, j :: 0 <= i < j < |path| ==>
          path[i] in costSoFar && path[j] in costSoFar && costSoFar[path[i]] < costSoFar[path[j]])
    && (forall i :: 1 <= i < |path| ==> path[i] in terrain && Adjacent(path[i - 1], path[i]))
  }

  /** Prepending the predecessor of the first cell keeps the chain. */
  lemma ChainPrepend(start: OddQ, terrain: map<OddQ, Hex>, costSoFar: map<OddQ, nat>,
                     cameFrom: map<OddQ, Option<OddQ>>, path: seq<OddQ>)
    requires Tree(start, terrain, costSoFar, cameFrom)
    requires |path| >= 1 && Chain(path, terrain, costSoFar)
    requires path[0] in cameFrom && cameFrom[path[0]].Some?
    ensures var prev := cameFrom[path[0]].value;
      && prev in costSoFar && costSoFar[prev] < costSoFar[path[0]]
      && Chain([prev] + path, terrain, costSoFar)
  {
    var a := path[0];
    var prev := cameFrom[a].value;
    var p := [prev] + path;
    assert a != start;
    forall i, j | 0 <= i < j < |p|
      ensures p[i] in costSoFar && p[j] in costSoFar && costSoFar[p[i]] < costSoFar[p[j]]
    {
      if i > 0 {
        assert p[i] == path[i - 1] && p[j] == path[j - 1];
      } else if j > 1 {
        assert p[j] == path[j - 1];
        assert costSoFar[path[0]] < costSoFar[path[j - 1]];
      }
    }
    forall i | 1 <= i < |p| ensures p[i] in terrain && Adjacent(p[i - 1], p[i]) {
      if i > 1 {
        assert p[i] == path[i - 1] && p[i - 1] == path[i - 2];
      }
    }
  }

  /** Where the walk back stops: at the start, or at once when `to` was never labelled or
      is the start. */
  lemma PathEnds(start: OddQ, terrain: map<OddQ, Hex>, to: OddQ, costSoFar: map<OddQ, nat>,
                 cameFrom: map<OddQ, Option<OddQ>>, path: seq<OddQ>)
    requires Tree(start, terrain, costSoFar, cameFrom)
    requires to in costSoFar || forall q :: Connected(start, terrain, q) ==> q in costSoFar
    requires |path| >= 1 && path[|path| - 1] == to && Chain(path, terrain, costSoFar)
    requires |path| > 1 ==> path[0] in costSoFar
    requires !(path[0] in cameFrom && cameFrom[path[0]].Some?)
    ensures |path| > 1 ==> path[0] == start && IsWalk(path, terrain)
    ensures Distinct(path)
    ensures |path| > 1 <==> to != start && Connected(start, terrain, to)
    ensures |path| == 1 ==> path == [to]
    ensures to == start || to !in terrain ==> path == [to]
  {
    assert Distinct(path) by {
      forall i, j | 0 <= i < j < |path| ensures path[i] != path[j] {
        assert costSoFar[path[i]] < costSoFar[path[j]];
      }
    }
    if |path| > 1 {
      assert path[0] == start;
      assert WalkFrom(path, start, terrain, to);
      assert to != start by {
        assert costSoFar[path[0]] < costSoFar[path[|path| - 1]];
      }
    } else {
      assert path == [to];
    }
  }
}
