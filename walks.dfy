/** Reachability over the `terrain` map: the cells a flood fill reaches ring by ring,
    and walks of neighbour steps. A cell is passable exactly when it is a key of `terrain`. */
module Walks {
  import opened Coords
  import opened Cells

  /** The set of elements of a list. */
  function Elems<T>(s: seq<T>): set<T> {
    set x | x in s
  }

  lemma ElemsAppend<T>(s: seq<T>, x: T)
    ensures Elems(s + [x]) == Elems(s) + {x}
  {
    assert forall y :: y in s + [x] <==> y in s || y == x;
  }

  /** The cells of `terrain` exactly one neighbour step away from some cell of `s`. */
  function Step(s: set<OddQ>, terrain: map<OddQ, Hex>): (r: set<OddQ>)
    ensures r <= terrain.Keys
  {
    set p, d | p in s && 0 <= d < 6 && Neighbor(p, d) in terrain :: Neighbor(p, d)
  }

  /** The neighbours of `p` in the directions below `n` that are cells of `terrain`. */
  function StepDirs(p: OddQ, terrain: map<OddQ, Hex>, n: int): set<OddQ> {
    set d | 0 <= d < n && d < 6 && Neighbor(p, d) in terrain :: Neighbor(p, d)
  }

  /** The cells reachable from `start` in at most `n` steps whose every cell after
      `start` lies in `terrain`: the visited set of a flood fill after `n` rings. */
  function Ball(start: OddQ, terrain: map<OddQ, Hex>, n: nat): (r: set<OddQ>)
    ensures start in r
    ensures r <= terrain.Keys + {start}
  {
    if n == 0 then {start}
    else Ball(start, terrain, n - 1) + Step(Ball(start, terrain, n - 1), terrain)
  }

  /** A non-empty walk whose every cell after the first is a cell of `terrain`
      and a neighbour of the cell before it. */
  ghost predicate IsWalk(w: seq<OddQ>, terrain: map<OddQ, Hex>) {
    |w| >= 1 && forall i :: 1 <= i < |w| ==> w[i] in terrain && Adjacent(w[i - 1], w[i])
  }

  ghost predicate WalkFrom(w: seq<OddQ>, start: OddQ, terrain: map<OddQ, Hex>, q: OddQ) {
    IsWalk(w, terrain) && w[0] == start && w[|w| - 1] == q
  }

  /** `q` can be reached from `start` through cells of `terrain`. */
  ghost predicate Connected(start: OddQ, terrain: map<OddQ, Hex>, q: OddQ) {
    exists w :: WalkFrom(w, start, terrain, q)
  }

  lemma StepMonotone(a: set<OddQ>, b: set<OddQ>, terrain: map<OddQ, Hex>)
    requires a <= b
    ensures Step(a, terrain) <= Step(b, terrain)
  {
  }

  lemma StepUnion(a: set<OddQ>, b: set<OddQ>, terrain: map<OddQ, Hex>)
    ensures Step(a + b, terrain) == Step(a, terrain) + Step(b, terrain)
  {
    forall q | q in Step(a + b, terrain)
      ensures q in Step(a, terrain) + Step(b, terrain)
    {
      var p, d :| p in a + b && 0 <= d < 6 && Neighbor(p, d) in terrain && Neighbor(p, d) == q;
      if p in a {
        assert q in Step(a, terrain);
      } else {
        assert q in Step(b, terrain);
      }
    }
  }

  /** Expanding one more cell adds the terrain neighbours of that cell. */
  lemma StepAddCell(a: set<OddQ>, p: OddQ, terrain: map<OddQ, Hex>)
    ensures Step(a + {p}, terrain) == Step(a, terrain) + StepDirs(p, terrain, 6)
  {
    StepUnion(a, {p}, terrain);
    forall q | q in Step({p}, terrain) ensures q in StepDirs(p, terrain, 6) {
      var p', d :| p' in {p} && 0 <= d < 6 && Neighbor(p', d) in terrain && Neighbor(p', d) == q;
    }
    forall q | q in StepDirs(p, terrain, 6) ensures q in Step({p}, terrain) {
      var d :| 0 <= d < 6 && Neighbor(p, d) in terrain && Neighbor(p, d) == q;
    }
  }

  /** Trying one more direction adds that neighbour when it is a cell of `terrain`. */
  lemma StepDirsNext(p: OddQ, terrain: map<OddQ, Hex>, n: int)
    requires 0 <= n < 6
    ensures StepDirs(p, terrain, n + 1) ==
      StepDirs(p, terrain, n) + (if Neighbor(p, n) in terrain then {Neighbor(p, n)} else {})
  {
  }

  lemma BallMonotone(start: OddQ, terrain: map<OddQ, Hex>, m: nat, n: nat)
    requires m <= n
    ensures Ball(start, terrain, m) <= Ball(start, terrain, n)
    decreases n - m
  {
    if m < n {
      BallMonotone(start, terrain, m, n - 1);
    }
  }

  /** One step from a cell within `n - 1` steps lands within `n` steps. */
  lemma BallGrows(start: OddQ, terrain: map<OddQ, Hex>, n: nat, p: OddQ, d: int)
    requires n >= 1 && 0 <= d < 6
    requires p in Ball(start, terrain, n - 1) && Neighbor(p, d) in terrain
    ensures Neighbor(p, d) in Ball(start, terrain, n)
  {
    assert Neighbor(p, d) in Step(Ball(start, terrain, n - 1), terrain);
  }

  /** Appending a terrain neighbour of the last cell extends a walk. */
  lemma WalkExtend(w: seq<OddQ>, terrain: map<OddQ, Hex>, d: int, q: OddQ)
    requires IsWalk(w, terrain) && 0 <= d < 6
    requires q in terrain && Neighbor(w[|w| - 1], d) == q
    ensures IsWalk(w + [q], terrain)
  {
    var w' := w + [q];
    forall i | 1 <= i < |w'| ensures w'[i] in terrain && Adjacent(w'[i - 1], w'[i]) {
      if i < |w| {
        assert w'[i] == w[i] && w'[i - 1] == w[i - 1];
      } else {
        assert w'[i - 1] == w[|w| - 1];
      }
    }
  }

  /** Soundness of the flood fill: every cell within `n` rings has a walk of at most `n` steps. */
  lemma {:induction false} BallHasWalk(start: OddQ, terrain: map<OddQ, Hex>, n: nat, q: OddQ)
    requires q in Ball(start, terrain, n)
    ensures exists w :: WalkFrom(w, start, terrain, q) && |w| <= n + 1
  {
    if n == 0 {
      assert WalkFrom([start], start, terrain, q);
    } else if q in Ball(start, terrain, n - 1) {
      BallHasWalk(start, terrain, n - 1, q);
    } else {
      var b := Ball(start, terrain, n - 1);
      assert q in Step(b, terrain);
      var p, d :| p in b && 0 <= d < 6 && Neighbor(p, d) in terrain && Neighbor(p, d) == q;
      BallHasWalk(start, terrain, n - 1, p);
      ExtendWitness(start, terrain, n - 1, p, d);
    }
  }

  lemma ExtendWitness(start: OddQ, terrain: map<OddQ, Hex>, n: nat, p: OddQ, d: int)
    requires 0 <= d < 6 && Neighbor(p, d) in terrain
    requires exists w :: WalkFrom(w, start, terrain, p) && |w| <= n + 1
    ensures exists w :: WalkFrom(w, start, terrain, Neighbor(p, d)) && |w| <= n + 2
  {
    var w :| WalkFrom(w, start, terrain, p) && |w| <= n + 1;
    WalkExtend(w, terrain, d, Neighbor(p, d));
    assert WalkFrom(w + [Neighbor(p, d)], start, terrain, Neighbor(p, d));
  }

  /** Completeness of the flood fill: the end of a walk of at most `n` steps is within `n` rings. */
  lemma {:induction false} WalkInBall(start: OddQ, terrain: map<OddQ, Hex>, n: nat, w: seq<OddQ>, q: OddQ)
    requires WalkFrom(w, start, terrain, q) && |w| <= n + 1
    ensures q in Ball(start, terrain, n)
  {
    if |w| == 1 {
      BallMonotone(start, terrain, 0, n);
    } else {
      var w' := w[..|w| - 1];
      var p := w'[|w'| - 1];
      assert WalkFrom(w', start, terrain, p) by {
        forall i | 1 <= i < |w'| ensures w'[i] in terrain && Adjacent(w'[i - 1], w'[i]) {
          assert w'[i] == w[i] && w'[i - 1] == w[i - 1];
        }
      }
      WalkInBall(start, terrain, n - 1, w', p);
      assert Adjacent(w[|w| - 2], w[|w| - 1]);
      var d :| 0 <= d < 6 && Neighbor(p, d) == q;
      BallGrows(start, terrain, n, p, d);
    }
  }

  /** The flood fill after `n` rings holds exactly the ends of walks of at most `n` steps. */
  lemma BallIsWalks(start: OddQ, terrain: map<OddQ, Hex>, n: nat, q: OddQ)
    ensures q in Ball(start, terrain, n) <==> exists w :: WalkFrom(w, start, terrain, q) && |w| <= n + 1
  {
    if q in Ball(start, terrain, n) {
      BallHasWalk(start, terrain, n, q);
    }
    if exists w :: WalkFrom(w, start, terrain, q) && |w| <= n + 1 {
      var w :| WalkFrom(w, start, terrain, q) && |w| <= n + 1;
      WalkInBall(start, terrain, n, w, q);
    }
  }

  lemma BallIsAllWalks(start: OddQ, terrain: map<OddQ, Hex>, n: nat)
    ensures forall q :: q in Ball(start, terrain, n) <==>
      exists w :: WalkFrom(w, start, terrain, q) && |w| <= n + 1
  {
    forall q ensures q in Ball(start, terrain, n) <==> exists w :: WalkFrom(w, start, terrain, q) && |w| <= n + 1 {
      BallIsWalks(start, terrain, n, q);
    }
  }

  /** A set that holds `start` and every terrain neighbour of its members holds every
      cell connected to `start`. */
  lemma {:induction false} ClosedHoldsBall(start: OddQ, terrain: map<OddQ, Hex>, s: set<OddQ>, n: nat)
    requires start in s
    requires forall p, d :: p in s && 0 <= d < 6 && Neighbor(p, d) in terrain ==> Neighbor(p, d) in s
    ensures Ball(start, terrain, n) <= s
  {
    if n > 0 {
      ClosedHoldsBall(start, terrain, s, n - 1);
    }
  }

  lemma ClosedHoldsConnected(start: OddQ, terrain: map<OddQ, Hex>, s: set<OddQ>, q: OddQ)
    requires start in s
    requires forall p, d :: p in s && 0 <= d < 6 && Neighbor(p, d) in terrain ==> Neighbor(p, d) in s
    requires Connected(start, terrain, q)
    ensures q in s
  {
    var w :| WalkFrom(w, start, terrain, q);
    WalkInBall(start, terrain, |w| - 1, w, q);
    ClosedHoldsBall(start, terrain, s, |w| - 1);
  }
}
