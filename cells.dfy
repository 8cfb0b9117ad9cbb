/** The per-cell data of core/src/hex/engine/Map.kt: `TileType`, `Tile` and `Hex`. */
module Cells {
  import opened Coords

  /** An opaque handle for a texture region; the core never looks inside it. */
  datatype TextureRegion = TextureRegion(id: nat)

  /** `TileType`: only its name is kept; the `properties` argument of its
      constructor is not stored by the source. */
  datatype TileType = TileType(name: string)

  datatype Tile = Tile(texture: TextureRegion, textureWidth: int, textureHeight: int, tileType: TileType)

  /** One grid cell: its coordinate, its pixel anchor and its tile.
      The movement cost is the same constant for every cell. */
  datatype Hex = Hex(oddQ: OddQ, pixF: PixF, tile: Tile) {
    const cost: int := 1
  }
}
