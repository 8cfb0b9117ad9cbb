/** Odd-q offset coordinates and cube coordinates of the hex grid (data classes
    `OddQ`, `Cube`, `PixI`, `PixF` of core/src/hex/engine/Map.kt). */
module Coords {

  /** A hex cell in offset coordinates; odd columns sit half a row lower. */
  datatype OddQ = OddQ(col: int, row: int)

  /** Cube coordinates; every value produced by `ToCube` lies on the plane x + y + z = 0. */
  datatype Cube = Cube(x: int, y: int, z: int)

  /** An integer pixel; the direction tables also store their (dcol, drow) steps as PixI. */
  datatype PixI = PixI(x: int, y: int)

  /** A pixel anchor. The source stores Floats, but every anchor it builds is an Int
      expression converted at the very end, so the values are integers. */
  datatype PixF = PixF(x: int, y: int)

  /** Kotlin's `col and 1`: the low bit of the two's complement representation,
      which is the Euclidean remainder modulo 2 for negative columns as well. */
  function Parity(col: int): (b: int)
    ensures b == 0 || b == 1
    ensures (col - b) % 2 == 0
  {
    col % 2
  }

  /** The two direction tables; the one used is chosen by the column's parity. */
  const EvenDirections: seq<PixI> :=
    [PixI(1, 0), PixI(1, -1), PixI(0, -1), PixI(-1, -1), PixI(-1, 0), PixI(0, 1)]
  const OddDirections: seq<PixI> :=
    [PixI(1, 1), PixI(1, 0), PixI(0, -1), PixI(-1, 0), PixI(-1, 1), PixI(0, 1)]
  const Directions: seq<seq<PixI>> := [EvenDirections, OddDirections]

  /** The cube step of each of the six directions; the same for both column parities. */
  const CubeDirections: seq<Cube> :=
    [Cube(1, -1, 0), Cube(1, 0, -1), Cube(0, 1, -1), Cube(-1, 1, 0), Cube(-1, 0, 1), Cube(0, -1, 1)]

  function CubeAdd(a: Cube, b: Cube): Cube {
    Cube(a.x + b.x, a.y + b.y, a.z + b.z)
  }

  /** The direction pointing back: 0 and 3, 1 and 4, 2 and 5 are opposite. */
  function Opposite(d: int): (e: int)
    requires 0 <= d < 6
    ensures 0 <= e < 6
    ensures CubeAdd(CubeDirections[d], CubeDirections[e]) == Cube(0, 0, 0)
  {
    if d < 3 then d + 3 else d - 3
  }

  /** `OddQ.neighbor(direction)`; the source's array lookup fails outside 0..5. */
  function Neighbor(p: OddQ, direction: int): OddQ
    requires 0 <= direction < 6
  {
    var dir := Directions[Parity(p.col)][direction];
    OddQ(p.col + dir.x, p.row + dir.y)
  }

  /** In cube space every direction is one fixed step, whatever the column's parity. */
  lemma NeighborCube(p: OddQ, direction: int)
    requires 0 <= direction < 6
    ensures ToCube(Neighbor(p, direction)) == CubeAdd(ToCube(p), CubeDirections[direction])
  {
  }

  /** `OddQ.toCube()`; `col - (col and 1)` is even, so the halving is exact. */
  function ToCube(p: OddQ): (c: Cube)
    ensures c.x + c.y + c.z == 0
    ensures ToOddQ(c) == p
  {
    var x := p.col;
    var z := p.row - (p.col - Parity(p.col)) / 2;
    var y := -x - z;
    Cube(x, y, z)
  }

  /** `Cube.toOddQ()`. */
  function ToOddQ(c: Cube): (p: OddQ)
    ensures p.col == c.x
  {
    OddQ(c.x, c.z + (c.x - Parity(c.x)) / 2)
  }

  /** Converting a cube on the plane x + y + z = 0 to odd-q and back gives it back,
      so the two conversions are mutually inverse bijections. */
  lemma CubeRoundTrip(c: Cube)
    requires c.x + c.y + c.z == 0
    ensures ToCube(ToOddQ(c)) == c
  {
  }

  /** Different offset coordinates have different cube coordinates. */
  lemma ToCubeInjective(p: OddQ, q: OddQ)
    requires ToCube(p) == ToCube(q)
    ensures p == q
  {
    assert p == ToOddQ(ToCube(p));
  }

  /** Adjacency is symmetric: stepping in the opposite direction comes back. */
  lemma NeighborBack(p: OddQ, d: int)
    requires 0 <= d < 6
    ensures Neighbor(Neighbor(p, d), Opposite(d)) == p
  {
    var q := Neighbor(p, d);
    var e := Opposite(d);
    NeighborCube(p, d);
    NeighborCube(q, e);
    assert ToCube(Neighbor(q, e)) == ToCube(p) by {
      assert ToCube(Neighbor(q, e)) == CubeAdd(CubeAdd(ToCube(p), CubeDirections[d]), CubeDirections[e]);
    }
    ToCubeInjective(Neighbor(q, e), p);
  }

  /** The six neighbours of a cell are pairwise distinct and differ from the cell. */
  lemma NeighborsDistinct(p: OddQ, d: int, e: int)
    requires 0 <= d < 6 && 0 <= e < 6
    ensures Neighbor(p, d) != p
    ensures d != e ==> Neighbor(p, d) != Neighbor(p, e)
  {
    NeighborCube(p, d);
    NeighborCube(p, e);
    assert ToCube(Neighbor(p, d)) != ToCube(p);
    if d != e {
      assert ToCube(Neighbor(p, d)) != ToCube(Neighbor(p, e));
    }
  }

  /** `q` is one of the six neighbours of `p`. */
  ghost predicate Adjacent(p: OddQ, q: OddQ) {
    exists d :: 0 <= d < 6 && Neighbor(p, d) == q
  }

  lemma AdjacentSymmetric(p: OddQ, q: OddQ)
    requires Adjacent(p, q)
    ensures Adjacent(q, p)
  {
    var d :| 0 <= d < 6 && Neighbor(p, d) == q;
    NeighborBack(p, d);
  }

  /** `OddQ.heuristic(a, b)`: the Manhattan distance of the offset coordinates. */
  function Heuristic(a: OddQ, b: OddQ): (h: nat)
    ensures h == 0 <==> a == b
  {
    (if a.col - b.col < 0 then b.col - a.col else a.col - b.col) +
    (if a.row - b.row < 0 then b.row - a.row else a.row - b.row)
  }

  lemma HeuristicSymmetric(a: OddQ, b: OddQ)
    ensures Heuristic(a, b) == Heuristic(b, a)
  {
  }

  /** The heuristic is not a lower bound on the number of steps: one step, of cost 1,
      can change it by 2. The search therefore promises no shortest path. */
  lemma HeuristicOverestimates()
    ensures Neighbor(OddQ(0, 0), 1) == OddQ(1, -1)
    ensures Heuristic(OddQ(0, 0), OddQ(1, -1)) == 2
  {
    assert Parity(0) == 0;
    assert Directions[0][1] == PixI(1, -1);
  }
}
