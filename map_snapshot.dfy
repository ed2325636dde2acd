/**
 * src/map.ts: the earlier snapshot of the map, before cells held objects.
 * Cells and tiles are values here; the map builds its cells once and only
 * answers queries afterwards.
 */
module MapSnapshot {
  import opened Options
  import opened Engine
  import opened Grid

  datatype Terrain = Terrain(sprites: seq<Sprite>)

  /** A tile shows its terrain's first sprite (`undefined` when there is none). */
  datatype Tile = Tile(terrain: Terrain, sprite: Option<Sprite>)
  {
    static function Of(terrain: Terrain): (t: Tile)
      ensures t.terrain == terrain
      ensures t.sprite.Some? <==> |terrain.sprites| > 0
      ensures t.sprite.Some? ==> t.sprite.value == terrain.sprites[0]
    {
      Tile(terrain, if |terrain.sprites| > 0 then Some(terrain.sprites[0]) else None)
    }
  }

  datatype Cell = Cell(tile: Tile)

  class GameMap {
    const width: nat
    const height: nat
    const cells: seq<Cell>

    /** One cell per coordinate pair, row by row. */
    predicate Valid()
    {
      |cells| == width * height
    }

    constructor (width: nat, height: nat, terrain: Terrain)
      ensures this.width == width && this.height == height
      ensures Valid()
      ensures forall i :: 0 <= i < |cells| ==> cells[i] == Cell(Tile.Of(terrain))
    {
      this.width := width;
      this.height := height;
      this.cells := seq(width * height, _ => Cell(Tile.Of(terrain)));
    }

    /** The pair lies off the map: some coordinate is negative or at least the size. */
    predicate IsOutOfBounds(x: int, y: int)
      ensures IsOutOfBounds(x, y) <==> !(0 <= x < width && 0 <= y < height)
    {
      OutOfBounds(width, height, x, y)
    }

    /**
     * The cell at `(x, y)`: nothing exactly when the pair is out of bounds,
     * otherwise the cell in the pair's row-major slot, which lies inside
     * the cell sequence.
     */
    function GetCell(x: int, y: int): (r: Option<Cell>)
      requires Valid()
      ensures r.None? <==> !(0 <= x < width && 0 <= y < height)
      ensures r.Some? ==> 0 <= Index(width, x, y) < |cells| && r.value == cells[Index(width, x, y)]
      ensures r.Some? ==> CoordsOf(width, Index(width, x, y)) == (x, y)
    {
      if IsOutOfBounds(x, y) then None
      else
        IndexInRange(width, height, x, y);
        IndexRoundTrip(width, height, x, y);
        Some(cells[Index(width, x, y)])
    }
  }
}
