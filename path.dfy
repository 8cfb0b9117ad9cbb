/** `OddQ.path`: a best-first search over `terrain` with a priority queue, a cost
    table and back pointers, followed by walking the back pointers from the target. */
module PathSearch {
  import opened Coords
  import opened Cells
  import opened Walks
  import opened SearchTree
  import opened Nullable

  /** The loop of lines 131-146: poll an entry of least priority, stop at `to`, and
      otherwise offer every terrain neighbour whose cost improves. On return the back
      pointers form a forest rooted at `start`, and unless `to` was reached, every cell
      connected to `start` has been labelled. */
  method Search(start: OddQ, terrain: map<OddQ, Hex>, to: OddQ)
    returns (costSoFar: map<OddQ, nat>, cameFrom: map<OddQ, Option<OddQ>>)
    ensures Tree(start, terrain, costSoFar, cameFrom)
    ensures forall n :: n in costSoFar ==> n in Ball(start, terrain, costSoFar[n])
    ensures to in costSoFar || forall q :: Connected(start, terrain, q) ==> q in costSoFar
  {
    var frontier: multiset<Entry> := multiset{Entry(0, start)};
    cameFrom := map[start := None];
    costSoFar := map[start := 0];
    ghost var history: map<OddQ, seq<OddQ>> := map[start := [start]];
    ghost var nodes := Nodes(start, terrain);
    InitKeeps(start, terrain);
    while |frontier| > 0
      invariant Inv(start, terrain, frontier, costSoFar, cameFrom, history)
      invariant Covered(terrain, frontier, costSoFar)
      decreases Rank(nodes, costSoFar), |frontier|
    {
      MinExists(frontier);
      var e :| IsMin(frontier, e);
      ghost var frontier1 := frontier;
      frontier := frontier - multiset{e};
      var current := e.node;
      if current == to {
        break;
      }
      ghost var cost0 := costSoFar;
      frontier, costSoFar, cameFrom, history := Expand(start, terrain, to, current, frontier, costSoFar, cameFrom, history);
      CoveredAfterExpand(start, terrain, frontier1, e, frontier, cost0, costSoFar);
    }
    SearchDone(start, terrain, to, frontier, costSoFar, cameFrom);
  }

  /** Lines 134-145 for one polled cell: offer each of its six neighbours. */
  method Expand(start: OddQ, terrain: map<OddQ, Hex>, to: OddQ, current: OddQ,
                frontier0: multiset<Entry>, costSoFar0: map<OddQ, nat>,
                cameFrom0: map<OddQ, Option<OddQ>>, ghost history0: map<OddQ, seq<OddQ>>)
    returns (frontier: multiset<Entry>, costSoFar: map<OddQ, nat>,
             cameFrom: map<OddQ, Option<OddQ>>, ghost history: map<OddQ, seq<OddQ>>)
    requires current in costSoFar0
    requires Inv(start, terrain, frontier0, costSoFar0, cameFrom0, history0)
    ensures Inv(start, terrain, frontier, costSoFar, cameFrom, history)
    ensures Grown(start, terrain, frontier0, costSoFar0, frontier, costSoFar)
    ensures Closed(terrain, costSoFar, current)
  {
    frontier, costSoFar, cameFrom, history := frontier0, costSoFar0, cameFrom0, history0;
    var dir := 0;
    while dir < 6
      invariant 0 <= dir <= 6 && current in costSoFar
      invariant Inv(start, terrain, frontier, costSoFar, cameFrom, history)
      invariant Grown(start, terrain, frontier0, costSoFar0, frontier, costSoFar)
      invariant ClosedBelow(terrain, costSoFar, current, dir)
    {
      ghost var cost1 := costSoFar;
      frontier, costSoFar, cameFrom, history :=
        Relax(start, terrain, to, current, dir, frontier0, costSoFar0, frontier, costSoFar, cameFrom, history);
      ClosedBelowNext(terrain, cost1, costSoFar, current, dir);
      dir := dir + 1;
    }
  }

  /** One turn of the direction loop: the neighbour in direction `dir`, when it is a
      terrain cell whose cost improves through `current`, is relabelled and queued.
      Afterwards that neighbour, if it is a terrain cell, is labelled. */
  method Relax(start: OddQ, terrain: map<OddQ, Hex>, to: OddQ, current: OddQ, dir: int,
               ghost frontier0: multiset<Entry>, ghost costSoFar0: map<OddQ, nat>,
               frontier1: multiset<Entry>, costSoFar1: map<OddQ, nat>,
               cameFrom1: map<OddQ, Option<OddQ>>, ghost history1: map<OddQ, seq<OddQ>>)
    returns (frontier: multiset<Entry>, costSoFar: map<OddQ, nat>,
             cameFrom: map<OddQ, Option<OddQ>>, ghost history: map<OddQ, seq<OddQ>>)
    requires 0 <= dir < 6 && current in costSoFar1
    requires Inv(start, terrain, frontier1, costSoFar1, cameFrom1, history1)
    requires Grown(start, terrain, frontier0, costSoFar0, frontier1, costSoFar1)
    ensures Inv(start, terrain, frontier, costSoFar, cameFrom, history)
    ensures Grown(start, terrain, frontier0, costSoFar0, frontier, costSoFar)
    ensures costSoFar1.Keys <= costSoFar.Keys
    ensures Neighbor(current, dir) in terrain ==> Neighbor(current, dir) in costSoFar
  {
    frontier, costSoFar, cameFrom, history := frontier1, costSoFar1, cameFrom1, history1;
    var neighbor := Neighbor(current, dir);
    if neighbor in terrain {
      var hex := terrain[neighbor];
      var newCost := costSoFar[current] + hex.cost;
      if neighbor !in costSoFar || newCost < costSoFar[neighbor] {
        var priority := newCost + Heuristic(to, neighbor);
        costSoFar := costSoFar[neighbor := newCost];
        frontier := frontier + multiset{Entry(priority, neighbor)};
        cameFrom := cameFrom[neighbor := Some(current)];
        history := history[neighbor := history[current] + [neighbor]];
        OfferKeeps(start, terrain, costSoFar1, cameFrom1, history1, current, dir, costSoFar, cameFrom, history);
        GrownAfterOffer(start, terrain, frontier0, costSoFar0, frontier1, costSoFar1, Entry(priority, neighbor),
                        newCost, frontier, costSoFar);
      }
    }
  }

  /** `OddQ.path(terrain, to)`: search, then follow the back pointers from `to`.
      The result always ends at `to`. It has more than one cell exactly when `to` is a
      different cell connected to the start, and then it is a walk of neighbour steps
      through terrain cells from the start, visiting no cell twice. Otherwise it is the
      one-cell list `[to]`. */
  method Path(start: OddQ, terrain: map<OddQ, Hex>, to: OddQ) returns (path: seq<OddQ>)
    ensures |path| >= 1 && path[|path| - 1] == to
    ensures |path| > 1 ==> path[0] == start && IsWalk(path, terrain)
    ensures Distinct(path)
    ensures |path| > 1 <==> to != start && Connected(start, terrain, to)
    ensures |path| == 1 ==> path == [to]
    ensures to == start || to !in terrain ==> path == [to]
  {
    var costSoFar, cameFrom := Search(start, terrain, to);
    var a := to;
    path := [a];
    while a in cameFrom && cameFrom[a].Some?
      invariant |path| >= 1 && path[0] == a && path[|path| - 1] == to
      invariant Chain(path, terrain, costSoFar)
      invariant |path| > 1 ==> a in costSoFar
      decreases if a in costSoFar then costSoFar[a] else 0
    {
      var prev := cameFrom[a].value;
      ChainPrepend(start, terrain, costSoFar, cameFrom, path);
      path := [prev] + path;
      a := prev;
    }
    PathEnds(start, terrain, to, costSoFar, cameFrom, path);
  }
}
