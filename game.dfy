/**
 * src/game.ts (objects, tiles, cells and the map that places objects in
 * cells) together with the `Vitality` component of src/components.ts, which
 * lives here because an object and its vitality refer to each other.
 *
 * The map is a row-major array of cells; each cell holds an ordered list of
 * objects, and each object records its own coordinates. The invariant the
 * map operations keep is `GameMap.Valid()`: every object in a cell is in
 * bounds with its own coordinates naming that very cell, and no cell holds
 * an object twice, so an object appears at most once on the whole map.
 */
module Game {
  import opened Options
  import opened Engine
  import opened Grid
  import opened Helpers

  datatype Tag = Blocking | Pickup | Mobile | Occludes

  datatype Facing = Left | Right

  datatype Terrain = Terrain(sprites: seq<Sprite>, objects: seq<GameObject>)

  /** A tile shows its terrain's first sprite (`undefined` when there is none). */
  datatype Tile = Tile(terrain: Terrain, sprite: Option<Sprite>)
  {
    static function Of(terrain: Terrain): (t: Tile)
      ensures t.terrain == terrain
      ensures t.sprite.Some? <==> |terrain.sprites| > 0
      ensures t.sprite.Some? ==> t.sprite.value == terrain.sprites[0]
    {
      Tile(terrain, if |terrain.sprites| > 0 then Some(terrain.sprites[0]) else None)
    }
  }

  /**
   * A thing in the world. The id comes from a global counter in the game;
   * here it is given. Tags never change once an object exists.
   */
  class GameObject {
    const id: int
    const tags: set<Tag>
    var sprite: Sprite
    var x: int
    var y: int
    var spriteOffsetX: real
    var spriteOffsetY: real
    var spriteOffsetZ: real
    var spriteBumpX: real
    var spriteBumpY: real
    var spriteBumpZ: real
    var facing: Option<Facing>
    var holding: GameObject?
    var vitality: Vitality?

    constructor (id: int, sprite: Sprite, tags: set<Tag>)
      ensures this.id == id && this.sprite == sprite && this.tags == tags
      ensures x == 0 && y == 0
      ensures spriteOffsetX == spriteOffsetY == spriteOffsetZ == 0.0
      ensures spriteBumpX == spriteBumpY == spriteBumpZ == 0.0
      ensures facing == None && holding == null && vitality == null
    {
      this.id := id;
      this.tags := tags;
      this.sprite := sprite;
      x, y := 0, 0;
      spriteOffsetX, spriteOffsetY, spriteOffsetZ := 0.0, 0.0, 0.0;
      spriteBumpX, spriteBumpY, spriteBumpZ := 0.0, 0.0, 0.0;
      facing := None;
      holding := null;
      vitality := null;
    }
  }

  /** An object's vitality component, if any, belongs to that object. */
  predicate Attached(o: GameObject)
    reads o`vitality
  {
    o.vitality == null || o.vitality.owner == o
  }

  function Max(a: int, b: int): int
  {
    if a < b then b else a
  }

  /**
   * Hit points of an object; at 0 the object leaves the map. The source's
   * back-reference field `object` is called `owner` (`object` is a Dafny
   * keyword).
   */
  class Vitality {
    const owner: GameObject
    var hp: int

    constructor (owner: GameObject, hp: int)
      ensures this.owner == owner && this.hp == hp
    {
      this.owner := owner;
      this.hp := hp;
    }

    /**
     * Lose `amount` hit points, never going below 0; on reaching 0 the
     * owning object is despawned from the cell at its coordinates.
     */
    method Damage(m: GameMap, amount: int)
      requires m.Structure()
      requires hp - amount <= 0 ==> !m.IsOutOfBounds(owner.x, owner.y)
      modifies this`hp, m.CellSet()`objects, m`contents
      ensures m.Structure()
      ensures hp == Max(0, old(hp) - amount) && hp >= 0
      ensures old(hp) > amount ==> hp == old(hp) - amount && m.contents == old(m.contents)
      ensures hp == 0 ==>
        m.contents == TakeOut(old(m.contents), m.Slot(owner.x, owner.y), owner)
      ensures old(m.Valid()) ==> m.Valid()
    {
      hp := Max(0, hp - amount);
      if hp <= 0 {
        m.Despawn(owner);
      }
    }
  }

  class Cell {
    const tile: Tile
    var objects: seq<GameObject>

    constructor (tile: Tile, objects: seq<GameObject>)
      ensures this.tile == tile && this.objects == objects
    {
      this.tile := tile;
      this.objects := objects;
    }

    /** Push `o` at the end; earlier objects keep their order. */
    method AddObject(o: GameObject)
      modifies this`objects
      ensures objects == old(objects) + [o]
    {
      objects := objects + [o];
    }

    /** Remove the first occurrence of `o`, if there is one. */
    method RemoveObject(o: GameObject)
      modifies this`objects
      ensures objects == Removed(old(objects), o)
    {
      objects := RemoveFromArray(objects, o);
    }
  }

  // ----- Cell contents as values: the specification of the map's updates -----

  /** `cs` with the first occurrence of `o` removed from slot `i`; nothing changes when `i` is -1. */
  function TakeOut(cs: seq<seq<GameObject>>, i: int, o: GameObject): seq<seq<GameObject>>
  {
    if 0 <= i < |cs| then cs[i := Removed(cs[i], o)] else cs
  }

  /** `cs` with `o` pushed onto the end of slot `i`. */
  function PutIn(cs: seq<seq<GameObject>>, i: int, o: GameObject): seq<seq<GameObject>>
    requires 0 <= i < |cs|
  {
    cs[i := cs[i] + [o]]
  }

  ghost function Members(cs: seq<seq<GameObject>>): set<GameObject>
  {
    set i, k | 0 <= i < |cs| && 0 <= k < |cs[i]| :: cs[i][k]
  }

  /**
   * What `moveObject` does to the cell contents: `o` ends the list of its
   * target slot, one occurrence of it has left its old slot (when that is a
   * slot at all), and no other slot changes.
   */
  lemma MoveObjectShape(cs: seq<seq<GameObject>>, from: int, to: int, o: GameObject)
    requires 0 <= to < |cs|
    ensures var r := PutIn(TakeOut(cs, from, o), to, o);
      && |r| == |cs|
      && r[to] != [] && r[to][|r[to]| - 1] == o
      && (forall i | 0 <= i < |cs| && i != from && i != to :: r[i] == cs[i])
      && (from == to ==> r[to] == Removed(cs[to], o) + [o])
      && (from != to ==> r[to] == cs[to] + [o])
      && (from != to && 0 <= from < |cs| ==> r[from] == Removed(cs[from], o))
      && (from != to && 0 <= from < |cs| && o in cs[from] ==> |r[from]| == |cs[from]| - 1)
  {
    if from != to && 0 <= from < |cs| && o in cs[from] {
      RemovedMultiset(cs[from], o);
      assert |multiset(Removed(cs[from], o))| == |multiset(cs[from])| - 1;
    }
  }

  lemma NotAMember(cs: seq<seq<GameObject>>, o: GameObject)
    requires forall i | 0 <= i < |cs| :: o !in cs[i]
    ensures o !in Members(cs)
  {
  }

  /** `o` is in bounds and its coordinates name slot `i`. */
  ghost predicate PlacedAt(o: GameObject, width: int, height: int, i: int)
    reads o`x, o`y
  {
    !OutOfBounds(width, height, o.x, o.y) && Index(width, o.x, o.y) == i
  }

  /**
   * The map invariant on cell contents: each object sits in the cell its
   * own coordinates name, carries its own vitality component, and no cell
   * lists an object twice.
   */
  ghost predicate WellPlaced(cs: seq<seq<GameObject>>, width: int, height: int)
    reads Members(cs)`x, Members(cs)`y, Members(cs)`vitality
  {
    && (forall i, o | 0 <= i < |cs| && o in cs[i] :: PlacedAt(o, width, height, i) && Attached(o))
    && (forall i | 0 <= i < |cs| :: NoDups(cs[i]))
  }

  /**
   * Under the invariant an object appears only in the cell at its own
   * coordinates, and at most once there.
   */
  lemma AtMostOnce(cs: seq<seq<GameObject>>, width: int, height: int, o: GameObject)
    requires WellPlaced(cs, width, height)
    ensures forall i | 0 <= i < |cs| && o in cs[i] :: i == Slot(width, height, o.x, o.y)
    ensures forall i | 0 <= i < |cs| :: multiset(cs[i])[o] <= 1
  {
    forall i | 0 <= i < |cs| && o in cs[i] ensures i == Slot(width, height, o.x, o.y) {
      assert PlacedAt(o, width, height, i);
    }
    forall i | 0 <= i < |cs| ensures multiset(cs[i])[o] <= 1 {
      NoDupsCount(cs[i], o);
    }
  }

  /** Taking an object out of a cell keeps the invariant. */
  lemma TakeOutKeepsWellPlaced(cs: seq<seq<GameObject>>, width: int, height: int, i: int, o: GameObject)
    requires WellPlaced(cs, width, height)
    ensures WellPlaced(TakeOut(cs, i, o), width, height)
  {
    if 0 <= i < |cs| {
      RemovedMembers(cs[i], o);
      RemovedNoDups(cs[i], o);
    }
  }

  /** Taking an object out at its own coordinates removes it from the whole map. */
  lemma TakeOutLeavesNone(cs: seq<seq<GameObject>>, width: int, height: int, o: GameObject)
    requires WellPlaced(cs, width, height)
    ensures forall j | 0 <= j < |cs| :: o !in TakeOut(cs, Slot(width, height, o.x, o.y), o)[j]
  {
    var i := Slot(width, height, o.x, o.y);
    AtMostOnce(cs, width, height, o);
    if 0 <= i < |cs| {
      RemovedGone(cs[i], o);
    }
  }

  /** Pushing an object into the cell its coordinates name keeps the invariant. */
  lemma PutInKeepsWellPlaced(cs: seq<seq<GameObject>>, width: int, height: int, i: int, o: GameObject)
    requires WellPlaced(cs, width, height)
    requires 0 <= i < |cs| && PlacedAt(o, width, height, i) && Attached(o)
    requires o !in cs[i]
    ensures WellPlaced(PutIn(cs, i, o), width, height)
  {
    var s := cs[i] + [o];
    forall j, k | 0 <= j < k < |s| ensures s[j] != s[k] {
      if k == |s| - 1 {
        assert s[j] in cs[i];
      }
    }
  }

  /** `n` distinct new cells, each an empty cell of `terrain`. */
  method NewCells(n: nat, terrain: Terrain) returns (made: seq<Cell>)
    ensures |made| == n
    ensures forall j | 0 <= j < n :: fresh(made[j])
    ensures forall j | 0 <= j < n :: made[j].tile == Tile.Of(terrain) && made[j].objects == []
    ensures forall j, k :: 0 <= j < k < n ==> made[j] != made[k]
  {
    made := [];
    while |made| < n
      invariant |made| <= n
      invariant forall j | 0 <= j < |made| :: fresh(made[j])
      invariant forall j | 0 <= j < |made| :: made[j].tile == Tile.Of(terrain) && made[j].objects == []
      invariant forall j, k :: 0 <= j < k < |made| ==> made[j] != made[k]
    {
      var c := new Cell(Tile.Of(terrain), []);
      made := made + [c];
    }
  }

  /** A map whose cells are all empty places nothing wrongly. */
  lemma NothingPlaced(n: nat, width: int, height: int)
    ensures WellPlaced(seq(n, _ => []), width, height)
  {
    var cs: seq<seq<GameObject>> := seq(n, _ => []);
    forall i | 0 <= i < n ensures cs[i] == [] {
    }
  }

  /**
   * The map of src/game.ts. Width, height and the cell array are fixed when
   * the map is built; only the cells' object lists and the objects' own
   * fields change afterwards.
   */
  class GameMap {
    const width: nat
    const height: nat
    const cells: array<Cell>

    ghost function CellSet(): set<Cell>
      reads cells
    {
      set i | 0 <= i < cells.Length :: cells[i]
    }

    /**
     * The object lists of all cells, slot by slot: a ghost mirror of the
     * cells that the specifications below talk about.
     */
    ghost var contents: seq<seq<GameObject>>

    /** One distinct cell per coordinate pair, row by row, mirrored by `contents`. */
    ghost predicate Structure()
      reads this, cells, CellSet()`objects
    {
      && cells.Length == width * height
      && (forall i, j :: 0 <= i < j < cells.Length ==> cells[i] != cells[j])
      && |contents| == cells.Length
      && (forall i | 0 <= i < cells.Length :: cells[i].objects == contents[i])
    }

    /** The map invariant. */
    ghost predicate Valid()
      reads this, cells, CellSet()`objects, Members(contents)`x, Members(contents)`y, Members(contents)`vitality
    {
      Structure() && WellPlaced(contents, width, height)
    }

    constructor (width: nat, height: nat, terrain: Terrain)
      ensures this.width == width && this.height == height
      ensures fresh(cells) && fresh(CellSet())
      ensures Valid()
      ensures forall i | 0 <= i < cells.Length :: cells[i].tile == Tile.Of(terrain) && cells[i].objects == []
    {
      var n := width * height;
      var made := NewCells(n, terrain);
      this.width := width;
      this.height := height;
      this.cells := new Cell[n](i requires 0 <= i < n => made[i]);
      this.contents := seq(n, _ => []);
      NothingPlaced(n, width, height);
    }

    predicate IsOutOfBounds(x: int, y: int)
    {
      OutOfBounds(width, height, x, y)
    }

    /** The slot of `(x, y)` in the cell array, or -1 when out of bounds. */
    function Slot(x: int, y: int): (i: int)
      ensures i == -1 <==> IsOutOfBounds(x, y)
      ensures i != -1 ==> 0 <= i < width * height && CoordsOf(width, i) == (x, y)
    {
      if IsOutOfBounds(x, y) then -1
      else
        IndexRoundTrip(width, height, x, y);
        Grid.Slot(width, height, x, y)
    }

    /**
     * The cell at `(x, y)`: nothing exactly when the pair is out of bounds,
     * otherwise the cell in slot `x + y * width`, which lies in the array.
     */
    function GetCell(x: int, y: int): (r: Option<Cell>)
      requires cells.Length == width * height
      reads cells
      ensures r.None? <==> !(0 <= x < width && 0 <= y < height)
      ensures r.Some? ==> 0 <= Index(width, x, y) < cells.Length && r.value == cells[Index(width, x, y)]
    {
      if IsOutOfBounds(x, y) then None
      else
        IndexInRange(width, height, x, y);
        Some(cells[Index(width, x, y)])
    }

    /** `cell.removeObject(o)` for the cell in slot `i`, seen as a change of the whole map. */
    method RemoveFromCell(cell: Cell, ghost i: int, o: GameObject)
      requires Structure() && 0 <= i < cells.Length && cell == cells[i]
      modifies cell`objects, this`contents
      ensures Structure()
      ensures contents == TakeOut(old(contents), i, o)
    {
      cell.RemoveObject(o);
      contents := contents[i := cell.objects];
    }

    /** `cell.addObject(o)` for the cell in slot `i`, seen as a change of the whole map. */
    method AddToCell(cell: Cell, ghost i: int, o: GameObject)
      requires Structure() && 0 <= i < cells.Length && cell == cells[i]
      modifies cell`objects, this`contents
      ensures Structure()
      ensures contents == PutIn(old(contents), i, o)
    {
      cell.AddObject(o);
      contents := contents[i := cell.objects];
    }

    /** Remove one occurrence of `o` from the cell at its coordinates, and from no other cell. */
    method Despawn(o: GameObject)
      requires Structure()
      requires !IsOutOfBounds(o.x, o.y)
      modifies CellSet()`objects, this`contents
      ensures Structure()
      ensures contents == TakeOut(old(contents), Slot(o.x, o.y), o)
      ensures old(Valid()) ==> Valid() && forall i | 0 <= i < cells.Length :: o !in contents[i]
    {
      ghost var before := contents;
      var cell := GetCell(o.x, o.y);
      RemoveFromCell(cell.value, Slot(o.x, o.y), o);
      if old(Valid()) {
        TakeOutKeepsWellPlaced(before, width, height, Slot(o.x, o.y), o);
        TakeOutLeavesNone(before, width, height, o);
      }
    }

    /**
     * Take `o` out of the cell at its current coordinates (when those are in
     * bounds), set its coordinates to `(x, y)`, and push it onto the end of
     * the cell there. Every other cell is untouched.
     */
    method MoveObject(o: GameObject, x: int, y: int)
      requires Structure()
      requires !IsOutOfBounds(x, y)
      modifies CellSet()`objects, this`contents, o`x, o`y
      ensures Structure()
      ensures o.x == x && o.y == y
      ensures contents == PutIn(TakeOut(old(contents), Slot(old(o.x), old(o.y)), o), Slot(x, y), o)
      ensures old(Valid()) && Attached(o) ==> Valid()
    {
      ghost var before := contents;
      ghost var wasValid := Valid();
      ghost var from := Slot(o.x, o.y);
      var previousCell := GetCell(o.x, o.y);
      var newCell := GetCell(x, y);
      if previousCell.Some? {
        RemoveFromCell(previousCell.value, from, o);
      }
      ghost var middle := contents;
      if wasValid {
        TakeOutKeepsWellPlaced(before, width, height, from, o);
        TakeOutLeavesNone(before, width, height, o);
        assert from == Grid.Slot(width, height, o.x, o.y);
        NotAMember(middle, o);
      }
      PlaceAt(newCell.value, o, x, y);
    }

    /** The end of `moveObject`: set the coordinates of `o`, then push it onto the cell there. */
    method PlaceAt(cell: Cell, o: GameObject, x: int, y: int)
      requires Structure() && !IsOutOfBounds(x, y) && cell == cells[Slot(x, y)]
      modifies cell`objects, this`contents, o`x, o`y
      ensures Structure()
      ensures o.x == x && o.y == y
      ensures contents == PutIn(old(contents), Slot(x, y), o)
      ensures old(WellPlaced(contents, width, height)) && o !in old(Members(contents)) && Attached(o) ==> Valid()
    {
      ghost var before := contents;
      ghost var wasPlaced := WellPlaced(contents, width, height) && o !in Members(contents);
      o.x := x;
      o.y := y;
      AddToCell(cell, Slot(x, y), o);
      if wasPlaced && Attached(o) {
        PutInKeepsWellPlaced(before, width, height, Slot(x, y), o);
      }
    }

    /**
     * `spawn(object, x = object.x, y = object.y)`: move `o` to the given
     * coordinates, each defaulting to the object's own.
     */
    method Spawn(o: GameObject, x: Option<int>, y: Option<int>)
      requires Structure()
      requires !IsOutOfBounds(x.GetOr(o.x), y.GetOr(o.y))
      modifies CellSet()`objects, this`contents, o`x, o`y
      ensures Structure()
      ensures o.x == x.GetOr(old(o.x)) && o.y == y.GetOr(old(o.y))
      ensures contents == PutIn(TakeOut(old(contents), Slot(old(o.x), old(o.y)), o), Slot(o.x, o.y), o)
      ensures old(Valid()) && Attached(o) ==> Valid()
    {
      MoveObject(o, x.GetOr(o.x), y.GetOr(o.y));
    }
  }
}
