/** `OddQ.possibleMovement`: a breadth-first flood fill, ring by ring, bounded by a
    number of steps; impassable cells are those missing from `terrain`. */
module Movement {
  import opened Coords
  import opened Cells
  import opened Walks

  /** The cells visited before ring `k`: nothing before ring 0. */
  function Prior(start: OddQ, terrain: map<OddQ, Hex>, k: nat): set<OddQ> {
    if k == 0 then {} else Ball(start, terrain, k - 1)
  }

  /** Every cell within `range` steps of `start` along cells of `terrain`, `start` included.
      A non-positive range runs no ring and leaves only `start`. */
  method PossibleMovement(start: OddQ, terrain: map<OddQ, Hex>, range: int) returns (visited: set<OddQ>)
    ensures visited == Ball(start, terrain, if range < 0 then 0 else range)
    ensures range <= 0 ==> visited == {start}
    ensures forall q :: q in visited <==>
      exists w :: WalkFrom(w, start, terrain, q) && |w| <= (if range < 0 then 0 else range) + 1
  {
    visited := {start};
    var fringes: seq<seq<OddQ>> := [[start]];
    var k := 1;
    while k <= range
      invariant 1 <= k && (if range >= 1 then k <= range + 1 else k == 1)
      invariant |fringes| == k
      invariant visited == Ball(start, terrain, k - 1)
      invariant NewInRing(start, terrain, k - 1, Elems(fringes[k - 1]))
    {
      var next;
      visited, next := ExpandRing(start, terrain, k, fringes[k - 1], visited);
      fringes := fringes + [next];
      k := k + 1;
    }
    ghost var n: nat := if range < 0 then 0 else range;
    assert k - 1 == n;
    BallIsAllWalks(start, terrain, n);
  }

  /** Ring `k`: expand every cell of the previous fringe, which holds the cells ring
      `k - 1` added. Afterwards `visited` holds every cell within `k` steps and the new
      fringe the cells this ring added. */
  method ExpandRing(ghost start: OddQ, terrain: map<OddQ, Hex>, ghost k: nat, prev: seq<OddQ>, visited0: set<OddQ>)
    returns (visited: set<OddQ>, fringe: seq<OddQ>)
    requires k >= 1 && visited0 == Ball(start, terrain, k - 1)
    requires NewInRing(start, terrain, k - 1, Elems(prev))
    ensures visited == Ball(start, terrain, k)
    ensures NewInRing(start, terrain, k, Elems(fringe))
  {
    visited, fringe := ExpandCells(prev, terrain, visited0);
    RingNext(start, terrain, k, Elems(prev), Elems(fringe));
  }

  /** The loop over the previous fringe: every terrain neighbour of its cells that was not
      yet visited is added to `visited` and listed in the new fringe. */
  method ExpandCells(prev: seq<OddQ>, terrain: map<OddQ, Hex>, visited0: set<OddQ>)
    returns (visited: set<OddQ>, fringe: seq<OddQ>)
    ensures visited == visited0 + Step(Elems(prev), terrain)
    ensures Elems(fringe) == visited - visited0
  {
    visited, fringe := visited0, [];
    var i := 0;
    while i < |prev|
      invariant 0 <= i <= |prev|
      invariant visited == visited0 + Step(Elems(prev[..i]), terrain)
      invariant Elems(fringe) == visited - visited0
    {
      var p := prev[i];
      visited, fringe := ExpandCell(p, terrain, visited, fringe);
      assert Elems(prev[..i + 1]) == Elems(prev[..i]) + {p} by {
        assert prev[..i + 1] == prev[..i] + [p];
      }
      StepAddCell(Elems(prev[..i]), p, terrain);
      i := i + 1;
    }
    assert prev[..|prev|] == prev;
  }

  /** One turn of the source's `forEach` over the previous fringe: try the six directions
      of `p` and add every terrain neighbour not yet visited to `visited` and to the fringe. */
  method ExpandCell(p: OddQ, terrain: map<OddQ, Hex>, visited0: set<OddQ>, fringe0: seq<OddQ>)
    returns (visited: set<OddQ>, fringe: seq<OddQ>)
    ensures visited == visited0 + StepDirs(p, terrain, 6)
    ensures Elems(fringe) == Elems(fringe0) + (visited - visited0)
  {
    visited, fringe := visited0, fringe0;
    var dir := 0;
    while dir < 6
      invariant 0 <= dir <= 6
      invariant visited == visited0 + StepDirs(p, terrain, dir)
      invariant Elems(fringe) == Elems(fringe0) + (visited - visited0)
    {
      StepDirsNext(p, terrain, dir);
      var neighbor := Neighbor(p, dir);
      if neighbor in terrain {
        if neighbor !in visited {
          ElemsAppend(fringe, neighbor);
          visited := visited + {neighbor};
          fringe := fringe + [neighbor];
        }
      }
      dir := dir + 1;
    }
  }

  /** `fringe` holds the cells ring `k` added: every one of them is within `k` steps,
      and every cell within `k` steps was found before ring `k` or is in `fringe`. */
  ghost predicate NewInRing(start: OddQ, terrain: map<OddQ, Hex>, k: nat, fringe: set<OddQ>) {
    fringe <= Ball(start, terrain, k) && Ball(start, terrain, k) <= Prior(start, terrain, k) + fringe
  }

  /** Expanding the fringe of ring `k - 1` gives ring `k`, and the cells it adds are the
      fringe of ring `k`. */
  lemma RingNext(start: OddQ, terrain: map<OddQ, Hex>, k: nat, prev: set<OddQ>, next: set<OddQ>)
    requires k >= 1 && NewInRing(start, terrain, k - 1, prev)
    requires next == (Ball(start, terrain, k - 1) + Step(prev, terrain)) - Ball(start, terrain, k - 1)
    ensures Ball(start, terrain, k - 1) + Step(prev, terrain) == Ball(start, terrain, k)
    ensures NewInRing(start, terrain, k, next)
  {
    RingComplete(start, terrain, k, prev);
  }

  /** Expanding only the newest fringe of ring `k - 1` gives all of ring `k`: the cells
      found earlier were expanded in earlier rings. */
  lemma RingComplete(start: OddQ, terrain: map<OddQ, Hex>, k: nat, fringe: set<OddQ>)
    requires k >= 1
    requires fringe <= Ball(start, terrain, k - 1)
    requires Ball(start, terrain, k - 1) <= Prior(start, terrain, k - 1) + fringe
    ensures Ball(start, terrain, k - 1) + Step(fringe, terrain) == Ball(start, terrain, k)
  {
    var b := Ball(start, terrain, k - 1);
    var prior := Prior(start, terrain, k - 1);
    StepMonotone(fringe, b, terrain);
    StepMonotone(b, prior + fringe, terrain);
    StepUnion(prior, fringe, terrain);
    assert Step(prior, terrain) <= b by {
      if k - 1 == 0 {
        assert prior == {};
      } else {
        assert b == Ball(start, terrain, k - 2) + Step(Ball(start, terrain, k - 2), terrain);
      }
    }
  }
}
