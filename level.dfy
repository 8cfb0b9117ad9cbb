/** The grid construction of core/src/hex/engine/Map.kt: the `LevelMap` init block turns
    the flat, row-major "terrain" layer into cells, pixel anchors and hexes, and maps the
    pixels each hex covers back to it. The tile sets arrive already read (one gid map per
    tile set), and the pixel mask of a hex is a given function of its anchor. */
module Level {
  import opened KotlinInt
  import opened Coords
  import opened Cells
  import opened Nullable

  /** A tile layer: its gids, row by row, and its declared size. */
  datatype Layer = Layer(data: seq<int>, width: int, height: int)

  /** The three sizes the map file declares for its tiles. */
  datatype Geometry = Geometry(tileWidth: int, tileHeight: int, hexSideLength: int)

  /** Kotlin throws on `idx % 0`, so a zero width is only harmless on an empty layer. */
  predicate Loadable(layer: Layer) {
    layer.width != 0 || |layer.data| == 0
  }

  /** The row-major index of a cell: the inverse of `CellAt`. */
  function Index(p: OddQ, width: int): int {
    p.row * width + p.col
  }

  /** The cell of data index `idx`: `OddQ(idx % width, idx / width)` with Kotlin's operators. */
  function CellAt(idx: nat, width: int): (p: OddQ)
    requires width != 0
    ensures Index(p, width) == idx
    ensures 0 <= p.col < Abs(width)
    ensures width > 0 ==> p.row >= 0
  {
    OddQ(Rem(idx, width), Quot(idx, width))
  }

  /** Different data indices give different cells, so no anchor or hex is overwritten. */
  lemma CellAtInjective(i: nat, j: nat, width: int)
    requires width != 0 && CellAt(i, width) == CellAt(j, width)
    ensures i == j
  {
    assert i == Index(CellAt(i, width), width);
  }

  /** Kotlin's `oddQ.col % 2 == 0`, the test of line 67. */
  lemma EvenTest(c: int)
    ensures Rem(c, 2) == 0 <==> c % 2 == 0
  {
    assert c == 2 * Quot(c, 2) + Rem(c, 2);
  }

  /** The pixel anchor of a cell. The source's `odd` holds for even columns, and `!odd`
      adds half a tile to odd columns, which sit half a row lower. */
  function Anchor(g: Geometry, p: OddQ): PixF {
    var odd := Rem(p.col, 2) == 0;
    PixF(p.col * (g.tileWidth - Quot(g.hexSideLength, 2)),
         -(p.row * g.tileHeight + (if !odd then Quot(g.tileHeight, 2) else 0)))
  }

  /** The anchor offset of each direction: whole columns across, half tiles up or down. */
  const StrideCols: seq<int> := [1, 1, 0, -1, -1, 0]
  const StrideHalfRows: seq<int> := [-1, 1, 2, 1, -1, -2]

  function Stride(g: Geometry, d: int): PixF
    requires 0 <= d < 6
  {
    PixF(StrideCols[d] * (g.tileWidth - Quot(g.hexSideLength, 2)), StrideHalfRows[d] * Quot(g.tileHeight, 2))
  }

  function PixAdd(a: PixF, b: PixF): PixF {
    PixF(a.x + b.x, a.y + b.y)
  }

  /** Where the neighbour tables land in half rows: `2 * row + (col odd ? 1 : 0)` is the
      cell's height in half tiles, and each direction changes it by a fixed amount. */
  lemma NeighborHalfRows(p: OddQ, d: int)
    requires 0 <= d < 6
    ensures Neighbor(p, d).col == p.col + StrideCols[d]
    ensures 2 * Neighbor(p, d).row + Neighbor(p, d).col % 2 == 2 * p.row + p.col % 2 - StrideHalfRows[d]
  {
    if p.col % 2 == 0 {
      assert Directions[Parity(p.col)] == EvenDirections;
    } else {
      assert Directions[Parity(p.col)] == OddDirections;
    }
  }

  /** With `tileHeight == 2 * h`, the anchor's height is `-h` times the cell's height in half tiles. */
  lemma AnchorY(g: Geometry, p: OddQ, h: int)
    requires h == Quot(g.tileHeight, 2) && g.tileHeight == 2 * h
    ensures Anchor(g, p).y == -(h * (2 * p.row + p.col % 2))
  {
    EvenTest(p.col);
    var extra := if Rem(p.col, 2) != 0 then h else 0;
    assert Anchor(g, p).y == -(p.row * g.tileHeight + extra);
    HalfTiles(p.row, g.tileHeight, h, p.col % 2, extra);
  }

  lemma HalfTiles(row: int, height: int, h: int, par: int, extra: int)
    requires height == 2 * h && (par == 0 || par == 1) && extra == (if par == 1 then h else 0)
    ensures row * height + extra == h * (2 * row + par)
  {
  }

  /** With an even tile height the anchors agree with the neighbour tables: stepping in
      direction `d` moves the anchor by the same offset from every cell, whatever the
      parity of its column. */
  lemma AnchorsFollowNeighbors(g: Geometry, p: OddQ, d: int)
    requires 0 <= d < 6 && Rem(g.tileHeight, 2) == 0
    ensures Anchor(g, Neighbor(p, d)) == PixAdd(Anchor(g, p), Stride(g, d))
  {
    var q := Neighbor(p, d);
    var h := Quot(g.tileHeight, 2);
    assert g.tileHeight == 2 * h;
    NeighborHalfRows(p, d);
    AnchorY(g, p, h);
    AnchorY(g, q, h);
    Shift(p.col, q.col, StrideCols[d], 2 * p.row + p.col % 2, 2 * q.row + q.col % 2, StrideHalfRows[d],
          g.tileWidth - Quot(g.hexSideLength, 2), h);
  }

  /** The arithmetic of one step: columns move by `sc`, half tiles by `-sh`. */
  lemma Shift(c: int, c': int, sc: int, a: int, a': int, sh: int, w: int, h: int)
    requires c' == c + sc && a' == a - sh
    ensures c' * w == c * w + sc * w
    ensures -(h * a') == -(h * a) + sh * h
  {
  }

  /** `gidTileMap.putAll` over the tile sets in order: a later tile set wins on a gid. */
  function Merged(tileSets: seq<map<int, Tile>>): map<int, Tile> {
    if |tileSets| == 0 then map[] else Merged(tileSets[..|tileSets| - 1]) + tileSets[|tileSets| - 1]
  }

  /** The last tile set that defines `gid`, if any. */
  function LastTileSet(tileSets: seq<map<int, Tile>>, gid: int): (r: Option<nat>)
    ensures r.Some? ==> r.value < |tileSets| && gid in tileSets[r.value]
    ensures r.Some? ==> forall j :: r.value < j < |tileSets| ==> gid !in tileSets[j]
    ensures r.None? ==> forall j :: 0 <= j < |tileSets| ==> gid !in tileSets[j]
  {
    if |tileSets| == 0 then None
    else if gid in tileSets[|tileSets| - 1] then Some(|tileSets| - 1)
    else LastTileSet(tileSets[..|tileSets| - 1], gid)
  }

  /** A gid has a tile exactly when some tile set defines it, and the tile is the one of
      the last tile set that does. */
  lemma {:induction false} MergedIsLast(tileSets: seq<map<int, Tile>>, gid: int)
    ensures gid in Merged(tileSets) <==> LastTileSet(tileSets, gid).Some?
    ensures gid in Merged(tileSets) ==> Merged(tileSets)[gid] == tileSets[LastTileSet(tileSets, gid).value][gid]
  {
    if |tileSets| > 0 {
      var init := tileSets[..|tileSets| - 1];
      MergedIsLast(init, gid);
      if gid !in tileSets[|tileSets| - 1] {
        var r := LastTileSet(init, gid);
        if r.Some? {
          assert init[r.value] == tileSets[r.value];
        }
      }
    }
  }

  /** Lines 57-61, with every `readTileSet` already done. */
  method MergeTileSets(tileSets: seq<map<int, Tile>>) returns (gidTileMap: map<int, Tile>)
    ensures gidTileMap == Merged(tileSets)
  {
    gidTileMap := map[];
    var i := 0;
    while i < |tileSets|
      invariant 0 <= i <= |tileSets|
      invariant gidTileMap == Merged(tileSets[..i])
    {
      assert tileSets[..i + 1][..i] == tileSets[..i];
      gidTileMap := gidTileMap + tileSets[i];
      i := i + 1;
    }
    assert tileSets[..|tileSets|] == tileSets;
  }

  /** The hex of data index `i`, when its gid has a tile. */
  function HexAt(g: Geometry, layer: Layer, gidTiles: map<int, Tile>, i: nat): (h: Hex)
    requires layer.width != 0 && i < |layer.data| && layer.data[i] in gidTiles
    ensures h.oddQ == CellAt(i, layer.width) && h.pixF == Anchor(g, h.oddQ)
    ensures h.tile == gidTiles[layer.data[i]]
  {
    var p := CellAt(i, layer.width);
    Hex(p, Anchor(g, p), gidTiles[layer.data[i]])
  }

  /** The anchor table after the first `n` data indices. */
  function AnchorsUpTo(g: Geometry, layer: Layer, n: nat): map<OddQ, PixF>
    requires Loadable(layer) && n <= |layer.data|
  {
    if n == 0 then map[]
    else AnchorsUpTo(g, layer, n - 1)[CellAt(n - 1, layer.width) := Anchor(g, CellAt(n - 1, layer.width))]
  }

  /** The terrain table after the first `n` data indices. */
  function TerrainUpTo(g: Geometry, layer: Layer, gidTiles: map<int, Tile>, n: nat): map<OddQ, Hex>
    requires Loadable(layer) && n <= |layer.data|
  {
    if n == 0 then map[]
    else if layer.data[n - 1] in gidTiles then
      TerrainUpTo(g, layer, gidTiles, n - 1)[CellAt(n - 1, layer.width) := HexAt(g, layer, gidTiles, n - 1)]
    else TerrainUpTo(g, layer, gidTiles, n - 1)
  }

  /** `m` with every pixel of `pixels` mapped to `hex`. */
  function Overlay(m: map<PixI, Hex>, pixels: seq<PixI>, hex: Hex): (r: map<PixI, Hex>)
    ensures forall px :: px in r <==> px in m || px in pixels
    ensures forall px :: px in r ==> r[px] == if px in pixels then hex else m[px]
  {
    map px | px in m.Keys + (set q | q in pixels) :: if px in pixels then hex else m[px]
  }

  /** The pixel table after the first `n` data indices. */
  function PaintedUpTo(g: Geometry, layer: Layer, gidTiles: map<int, Tile>, pixelsOf: PixF -> seq<PixI>, n: nat)
    : map<PixI, Hex>
    requires Loadable(layer) && n <= |layer.data|
  {
    if n == 0 then map[]
    else if layer.data[n - 1] in gidTiles then
      var hex := HexAt(g, layer, gidTiles, n - 1);
      Overlay(PaintedUpTo(g, layer, gidTiles, pixelsOf, n - 1), pixelsOf(hex.pixF), hex)
    else PaintedUpTo(g, layer, gidTiles, pixelsOf, n - 1)
  }

  /** The last of the first `n` data indices whose hex covers `px`, if any. */
  function LastOwner(g: Geometry, layer: Layer, gidTiles: map<int, Tile>, pixelsOf: PixF -> seq<PixI>,
                     n: nat, px: PixI): (r: Option<nat>)
    requires Loadable(layer) && n <= |layer.data|
    ensures r.Some? ==> r.value < n && layer.data[r.value] in gidTiles
    ensures r.Some? ==> px in pixelsOf(Anchor(g, CellAt(r.value, layer.width)))
    ensures r.Some? ==> forall j :: r.value < j < n && layer.data[j] in gidTiles ==>
      px !in pixelsOf(Anchor(g, CellAt(j, layer.width)))
    ensures r.None? ==> forall j :: 0 <= j < n && layer.data[j] in gidTiles ==>
      px !in pixelsOf(Anchor(g, CellAt(j, layer.width)))
  {
    if n == 0 then None
    else if layer.data[n - 1] in gidTiles && px in pixelsOf(Anchor(g, CellAt(n - 1, layer.width))) then Some(n - 1)
    else LastOwner(g, layer, gidTiles, pixelsOf, n - 1, px)
  }


  /** A cell in the first `width` columns with a non-negative index is the cell of that index. */
  lemma CellAtIndex(p: OddQ, width: int)
    requires width != 0 && 0 <= p.col < Abs(width) && Index(p, width) >= 0
    ensures CellAt(Index(p, width), width) == p
  {
    var c := CellAt(Index(p, width), width);
    DivUnique(width, c.row, c.col, p.row, p.col);
  }

  /** Quotient and remainder are unique once the remainder is in `0 .. |w| - 1`. */
  lemma DivUnique(w: int, q1: int, r1: int, q2: int, r2: int)
    requires w != 0 && q1 * w + r1 == q2 * w + r2
    requires 0 <= r1 < Abs(w) && 0 <= r2 < Abs(w)
    ensures q1 == q2 && r1 == r2
  {
    var k := q1 - q2;
    assert k * w == r2 - r1 by {
      assert k * w == q1 * w - q2 * w;
    }
    if k > 0 {
      ProductGrows(w, k);
    } else if k < 0 {
      ProductGrows(w, -k);
    }
  }

  lemma ProductGrows(w: int, k: int)
    requires k >= 1
    ensures Abs(w * k) >= Abs(w)
  {
    if w >= 0 {
      assert w * k == w + w * (k - 1);
    } else {
      assert -(w * k) == -w + (-w) * (k - 1);
    }
  }

  /** The cells of the first `n` data indices: the first `width` columns, indices below `n`. */
  ghost predicate CellBelow(p: OddQ, width: int, n: nat) {
    0 <= p.col < Abs(width) && 0 <= Index(p, width) < n
  }

  /** `oddQToPixF` gets an entry for every cell of the layer, empty gids included, and
      that entry is the cell's anchor. */
  lemma {:induction false} AnchorsAreCells(g: Geometry, layer: Layer, n: nat)
    requires Loadable(layer) && n <= |layer.data|
    ensures forall p :: p in AnchorsUpTo(g, layer, n) <==> CellBelow(p, layer.width, n)
    ensures forall p :: p in AnchorsUpTo(g, layer, n) ==> AnchorsUpTo(g, layer, n)[p] == Anchor(g, p)
  {
    if n > 0 {
      AnchorsAreCells(g, layer, n - 1);
      var c := CellAt(n - 1, layer.width);
      forall p | CellBelow(p, layer.width, n) && !CellBelow(p, layer.width, n - 1) ensures p == c {
        CellAtIndex(p, layer.width);
      }
    }
  }

  /** `terrain` gets a hex exactly for the cells whose gid has a tile, and the hex of a cell
      is built from that cell, its anchor and its tile. */
  lemma {:induction false} TerrainIsHexes(g: Geometry, layer: Layer, gidTiles: map<int, Tile>, n: nat)
    requires Loadable(layer) && n <= |layer.data|
    ensures forall p :: p in TerrainUpTo(g, layer, gidTiles, n) <==>
      CellBelow(p, layer.width, n) && layer.data[Index(p, layer.width)] in gidTiles
    ensures forall p :: p in TerrainUpTo(g, layer, gidTiles, n) ==>
      && CellBelow(p, layer.width, n) && layer.width != 0 && layer.data[Index(p, layer.width)] in gidTiles
      && TerrainUpTo(g, layer, gidTiles, n)[p] == HexAt(g, layer, gidTiles, Index(p, layer.width))
    ensures forall p :: p in TerrainUpTo(g, layer, gidTiles, n) ==> TerrainUpTo(g, layer, gidTiles, n)[p].oddQ == p
  {
    if n > 0 {
      TerrainIsHexes(g, layer, gidTiles, n - 1);
      var c := CellAt(n - 1, layer.width);
      forall p | CellBelow(p, layer.width, n) && !CellBelow(p, layer.width, n - 1) ensures p == c {
        CellAtIndex(p, layer.width);
      }
      forall p | p in TerrainUpTo(g, layer, gidTiles, n) ensures TerrainUpTo(g, layer, gidTiles, n)[p].oddQ == p {
        CellAtIndex(p, layer.width);
      }
    }
  }

  /** A pixel is mapped exactly when some hex of the first `n` indices covers it, and it
      is mapped to the hex of the last such index: later cells overwrite earlier owners. */
  lemma {:induction false} PaintedIsLastOwner(g: Geometry, layer: Layer, gidTiles: map<int, Tile>,
                                              pixelsOf: PixF -> seq<PixI>, n: nat, px: PixI)
    requires Loadable(layer) && n <= |layer.data|
    ensures px in PaintedUpTo(g, layer, gidTiles, pixelsOf, n) <==> LastOwner(g, layer, gidTiles, pixelsOf, n, px).Some?
    ensures px in PaintedUpTo(g, layer, gidTiles, pixelsOf, n) ==>
      PaintedUpTo(g, layer, gidTiles, pixelsOf, n)[px] ==
      HexAt(g, layer, gidTiles, LastOwner(g, layer, gidTiles, pixelsOf, n, px).value)
  {
    if n > 0 {
      PaintedIsLastOwner(g, layer, gidTiles, pixelsOf, n - 1, px);
    }
  }

  /** Every hex in `worldToHex` is the hex `terrain` holds for its cell. */
  lemma PaintedInTerrain(g: Geometry, layer: Layer, gidTiles: map<int, Tile>,
                         pixelsOf: PixF -> seq<PixI>, n: nat, px: PixI)
    requires Loadable(layer) && n <= |layer.data|
    requires px in PaintedUpTo(g, layer, gidTiles, pixelsOf, n)
    ensures var hex := PaintedUpTo(g, layer, gidTiles, pixelsOf, n)[px];
      hex.oddQ in TerrainUpTo(g, layer, gidTiles, n) && TerrainUpTo(g, layer, gidTiles, n)[hex.oddQ] == hex
  {
    PaintedIsLastOwner(g, layer, gidTiles, pixelsOf, n, px);
    TerrainIsHexes(g, layer, gidTiles, n);
    var i := LastOwner(g, layer, gidTiles, pixelsOf, n, px).value;
    var p := CellAt(i, layer.width);
    assert CellBelow(p, layer.width, n);
  }

  /** The loaded map: the sizes, the layers and the three tables the init block fills. */
  class LevelMap {
    const tileWidth: int
    const tileHeight: int
    const hexSideLength: int
    const layers: map<string, Layer>
    var terrain: map<OddQ, Hex>
    var worldToHex: map<PixI, Hex>
    var oddQToPixF: map<OddQ, PixF>

    function Sizes(): Geometry {
      Geometry(tileWidth, tileHeight, hexSideLength)
    }

    /** The init block, lines 56-81: merge the tile sets, then load the "terrain" layer if
        there is one. `pixelsOf` gives the pixels a hex with a given anchor covers. */
    constructor(tileWidth: int, tileHeight: int, hexSideLength: int, layers: map<string, Layer>,
                tileSets: seq<map<int, Tile>>, pixelsOf: PixF -> seq<PixI>)
      requires "terrain" in layers ==> Loadable(layers["terrain"])
      ensures this.tileWidth == tileWidth && this.tileHeight == tileHeight
      ensures this.hexSideLength == hexSideLength && this.layers == layers
      ensures "terrain" !in layers ==> terrain == map[] && worldToHex == map[] && oddQToPixF == map[]
      ensures "terrain" in layers ==>
        var layer := layers["terrain"];
        var gidTiles := Merged(tileSets);
        && oddQToPixF == AnchorsUpTo(Sizes(), layer, |layer.data|)
        && terrain == TerrainUpTo(Sizes(), layer, gidTiles, |layer.data|)
        && worldToHex == PaintedUpTo(Sizes(), layer, gidTiles, pixelsOf, |layer.data|)
    {
      this.tileWidth := tileWidth;
      this.tileHeight := tileHeight;
      this.hexSideLength := hexSideLength;
      this.layers := layers;
      terrain, worldToHex, oddQToPixF := map[], map[], map[];
      new;
      var gidTileMap := MergeTileSets(tileSets);
      if "terrain" in layers {
        LoadTerrain(layers["terrain"], gidTileMap, pixelsOf);
      }
    }

    /** Lines 64-80 on the empty tables: one turn per data index. */
    method LoadTerrain(layer: Layer, gidTiles: map<int, Tile>, pixelsOf: PixF -> seq<PixI>)
      requires Loadable(layer)
      requires terrain == map[] && worldToHex == map[] && oddQToPixF == map[]
      modifies this
      ensures oddQToPixF == AnchorsUpTo(Sizes(), layer, |layer.data|)
      ensures terrain == TerrainUpTo(Sizes(), layer, gidTiles, |layer.data|)
      ensures worldToHex == PaintedUpTo(Sizes(), layer, gidTiles, pixelsOf, |layer.data|)
    {
      var idx := 0;
      while idx < |layer.data|
        invariant 0 <= idx <= |layer.data|
        invariant oddQToPixF == AnchorsUpTo(Sizes(), layer, idx)
        invariant terrain == TerrainUpTo(Sizes(), layer, gidTiles, idx)
        invariant worldToHex == PaintedUpTo(Sizes(), layer, gidTiles, pixelsOf, idx)
      {
        var oddQ := CellAt(idx, layer.width);
        var pix := Anchor(Sizes(), oddQ);
        oddQToPixF := oddQToPixF[oddQ := pix];
        var gid := layer.data[idx];
        if gid in gidTiles {
          var hex := Hex(oddQ, pix, gidTiles[gid]);
          terrain := terrain[oddQ := hex];
          worldToHex := Paint(worldToHex, pixelsOf(hex.pixF), hex);
        }
        idx := idx + 1;
      }
    }
  }

  /** Lines 75-77: map every pixel of the hex to it, one after the other. */
  method Paint(worldToHex0: map<PixI, Hex>, pixels: seq<PixI>, hex: Hex) returns (worldToHex: map<PixI, Hex>)
    ensures worldToHex == Overlay(worldToHex0, pixels, hex)
  {
    worldToHex := worldToHex0;
    var j := 0;
    while j < |pixels|
      invariant 0 <= j <= |pixels|
      invariant worldToHex == Overlay(worldToHex0, pixels[..j], hex)
    {
      OverlayNext(worldToHex0, pixels, j, hex);
      worldToHex := worldToHex[pixels[j] := hex];
      j := j + 1;
    }
    assert pixels[..|pixels|] == pixels;
  }

  lemma OverlayNext(m: map<PixI, Hex>, pixels: seq<PixI>, j: nat, hex: Hex)
    requires j < |pixels|
    ensures Overlay(m, pixels[..j + 1], hex) == Overlay(m, pixels[..j], hex)[pixels[j] := hex]
  {
    assert pixels[..j + 1] == pixels[..j] + [pixels[j]];
    var a, b := Overlay(m, pixels[..j + 1], hex), Overlay(m, pixels[..j], hex)[pixels[j] := hex];
    assert forall px :: px in pixels[..j + 1] <==> px in pixels[..j] || px == pixels[j];
    assert a.Keys == b.Keys;
    assert forall px :: px in a ==> a[px] == b[px];
  }
}
