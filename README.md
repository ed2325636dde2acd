# ynys world model in Dafny

This project models the world core of *ynys*, a turn-based grid game:

- the map is a `width` by `height` row-major array of cells;
- each cell shows a tile taken from a terrain and holds an ordered list of game objects;
- each object records its own coordinates.

The core is made of the map operations (`spawn`, `despawn`, `moveObject`, `getCell`, `isOutOfBounds`) and the actions that resolve one object's turn:

- `moveTo`, `moveBy` and `moveTowards`;
- `bump`, `attack`, `damage` and `death`;
- `pickup` and `rest`.

It also covers the `Vitality` component and the array helpers.

The model keeps the source's form. Game objects, vitality components, cells and the map are classes whose fields the methods update in place. The cell array is an `array<Cell>`, and a cell's object list is a `seq` field that `addObject` and `removeObject` reassign. Tiles, terrains and sprites are datatypes.

The map holds a ghost mirror, `contents`, with one object list per slot. Every state change is specified as a function of the old `contents`:

- `PutIn` pushes an object onto a slot;
- `TakeOut` removes an object's first occurrence from a slot;
- `Without` filters a set out of a slot.

The map invariant is `GameMap.Valid()`. It holds when:

- each object in a cell is in bounds and its coordinates name that very cell;
- it owns its vitality component;
- no cell lists an object twice.

Removing an object (`despawn`, `death`, `pickup`, `bump`, `damage`, `attack`) keeps this invariant on any valid map. Placing one (`moveObject`, `spawn`, `moveTo`, `moveBy`, `moveTowards`) keeps it when the object owns its vitality component. `damage` and `attack` place nothing: at 0 hit points they only remove objects. Every action keeps the array shape (`Structure()`), so what it states about `contents` holds of the cells' own object lists. The cell-level steps `AddToCell` and `RemoveFromCell` keep only the array shape (`Structure()`). On a valid map, removing an object at its coordinates takes it off the whole map.

The engine's global `game` is an explicit map parameter `m`. The engine's `tween` animations do not act on the model, so every field ends the call as the action set it.

Modules:

- `Options`: `Option`, which stands for `undefined`.
- `Engine`: sprites as names.
- `Grid`: bounds test and row-major slots, shared by both maps.
- `Helpers`: `src/helpers.ts`.
- `MapSnapshot`: `src/map.ts`, the earlier map without objects.
- `Game`: `src/game.ts` together with `Vitality` from `src/components.ts`. An object and its vitality refer to each other, so they share a module.
- `Actions`: `src/actions.ts`.

## Model

| member | source | states |
|---|---|---|
| Game.GameMap.IsOutOfBounds | src/game.ts:81-83 | true exactly when `x < 0`, `y < 0`, `x >= width` or `y >= height`. The ensures of `Game.GameMap.Slot` and `Game.GameMap.GetCell` tie it to the cell lookup: it holds exactly when there is no cell |
| MapSnapshot.GameMap.IsOutOfBounds | src/map.ts:42-44 | true exactly when the pair is not within `0 <= x < width` and `0 <= y < height`. `MapSnapshot.GameMap.GetCell` ensures it holds exactly when there is no cell |
| Grid.Slot | src/game.ts:81-88 | the slot is -1 exactly when the pair is out of bounds, and otherwise the row-major index `x + y * width`, which lies inside the array |
| Grid.CoordsOf | src/game.ts:87 | the coordinates recovered from a slot have `0 <= x < width` |
| Grid.IndexInRange | src/game.ts:85-88 | every in-bounds pair indexes inside the `width * height` cell array |
| Grid.IndexInjective | src/game.ts:87 | two in-bounds pairs share a slot only when they are equal, so distinct coordinates get distinct cells |
| Grid.CoordsRoundTrip | src/game.ts:76-78 | every slot of the array is the index of an in-bounds pair (`CoordsOf`), so each cell has exactly one coordinate pair |
| Grid.IndexRoundTrip | src/game.ts:87 | `CoordsOf` inverts the index of every in-bounds pair |
| Helpers.CardinalDirectionsAreQuarterTurns | src/helpers.ts:1-6 | four distinct unit steps, each a quarter turn clockwise from the one before (up, right, down, left) |
| Helpers.IndexOf | src/helpers.ts:9 | -1 exactly when the element is absent; otherwise an index holding it with no earlier occurrence |
| Helpers.RemoveFromArray | src/helpers.ts:8-11 | the result is the reference `Removed`: the input without its first occurrence of the element, unchanged when it is absent |
| Helpers.RemovedAbsent | src/helpers.ts:10 | removing an absent element leaves the array unchanged |
| Helpers.RemovedFirstOccurrence | src/helpers.ts:9-10 | removing a present element splices out exactly its first occurrence, so the array is one shorter and the others keep their order |
| Helpers.RemovedMultiset | src/helpers.ts:8-11 | as a bag, the result is the input less one copy of the element |
| Helpers.RemovedMembers | src/helpers.ts:8-11 | removal adds nothing and keeps every other element |
| Helpers.RemovedGone | src/helpers.ts:8-11 | an element that occurred at most once is absent afterwards |
| Helpers.RemovedTwice | src/helpers.ts:8-11 | removing twice an element that occurred at most once is the same as removing it once |
| Helpers.RemovedUndoesPush | src/game.ts:51-57 | `removeObject` undoes `addObject` of an object the cell did not hold |
| Helpers.RemovedNoDups | src/helpers.ts:8-11 | removal keeps a duplicate-free list duplicate-free |
| Helpers.RemovedWithout | src/actions.ts:74-76 | removing, one after another, objects that each occur at most once is the same as filtering them all out of the list |
| Helpers.WithoutMembers | src/actions.ts:74-76 | filtering keeps exactly the elements outside the removed set |
| MapSnapshot.Tile.Of | src/map.ts:15-18 | the tile keeps its terrain and shows the terrain's first sprite, with none exactly when the terrain has no sprites |
| MapSnapshot.GameMap.constructor | src/map.ts:34-40 | one cell per coordinate pair (`width * height` of them), each with a tile of the given terrain |
| MapSnapshot.GameMap.GetCell | src/map.ts:46-49 | nothing exactly when out of bounds; otherwise the cell at the pair's row-major slot, whose coordinates are the pair |
| Game.Tile.Of | src/game.ts:36-39 | the tile keeps its terrain and shows the terrain's first sprite, with none exactly when the terrain has no sprites |
| Game.GameObject.constructor | src/game.ts:5-14 | a new object sits at (0, 0) with zero offsets, no facing, nothing held and no vitality |
| Game.Vitality.constructor | src/components.ts:14-17 | the component belongs to the given object and starts with the given hit points |
| Game.Vitality.Damage | src/components.ts:19-25 | hit points become `max(0, hp - amount)`; above `amount` nothing else changes; at 0 the owner is taken out of the cell at its coordinates; the array shape is kept, and on a valid map so is the invariant |
| Game.Cell.constructor | src/game.ts:46-49 | the cell holds the given tile and object list |
| Game.Cell.AddObject | src/game.ts:51-53 | the object is pushed at the end and earlier objects keep their order |
| Game.Cell.RemoveObject | src/game.ts:55-57 | the list loses the first occurrence of the object (`Removed`) |
| Game.MoveObjectShape | src/game.ts:100-113 | after a move the object ends its target cell's list, one occurrence has left its old cell, and no other cell changes |
| Game.AtMostOnce | src/game.ts:94-98 | under the invariant an object appears only in the cell its coordinates name, and at most once there |
| Game.TakeOutKeepsWellPlaced | src/game.ts:94-98 | taking an object out of a cell keeps the invariant |
| Game.TakeOutLeavesNone | src/game.ts:94-98 | under the invariant, taking an object out at its coordinates leaves it in no cell of the map |
| Game.PutInKeepsWellPlaced | src/game.ts:110-112 | pushing an absent object that owns its vitality into the cell its coordinates name keeps the invariant |
| Game.NewCells | src/game.ts:76-78 | `width * height` distinct new cells, each empty, with a tile of the terrain |
| Game.NothingPlaced | src/game.ts:65-79 | a map of empty cells satisfies the invariant |
| Game.GameMap.constructor | src/game.ts:65-79 | a map of the given size with fresh, empty cells of the terrain, and the map invariant holds |
| Game.GameMap.Slot | src/game.ts:81-88 | -1 exactly when out of bounds; otherwise an array slot whose coordinates are the pair |
| Game.GameMap.GetCell | src/game.ts:85-88 | nothing exactly when out of bounds; otherwise the cell at slot `x + y * width`, which lies in the array |
| Game.GameMap.RemoveFromCell | src/game.ts:55-57 | `removeObject` on one cell is `TakeOut` on the map contents |
| Game.GameMap.AddToCell | src/game.ts:51-53 | `addObject` on one cell is `PutIn` on the map contents |
| Game.GameMap.Despawn | src/game.ts:94-98 | one occurrence of the object leaves the cell at its coordinates and no other cell changes; on a valid map the invariant holds afterwards and the object is in no cell |
| Game.GameMap.MoveObject | src/game.ts:100-113 | the object is taken out of its old cell (when in bounds), gets the new coordinates and is pushed onto the new cell; the map invariant is kept |
| Game.GameMap.PlaceAt | src/game.ts:110-112 | the coordinates are set and the object is pushed onto the cell there, keeping the array shape; on a map that satisfied the invariant it is kept when the object was on no cell and owns its vitality component |
| Game.GameMap.Spawn | src/game.ts:90-92 | a `moveObject` to the given coordinates, each defaulting to the object's own |
| Actions.TowardsStepIsOneStepCloser | src/actions.ts:8-17 | the step is one cell along the axis of strictly greater distance (ties go vertical), zero only at the target, and it shortens the Manhattan distance by one |
| Actions.Sign | src/actions.ts:13-15 | `Math.sign`: -1, 0 or 1, zero exactly for 0 and positive exactly for a positive argument |
| Actions.TowardsStep | src/actions.ts:9-16 | the step `moveTowards` takes has each component in -1..1 with at least one of them 0, and it is (0, 0) exactly when the offset is (0, 0). `Actions.TowardsStepIsOneStepCloser` adds the axis choice and the distance |
| Actions.AnyTagged | src/actions.ts:29 | `.some(...)` over the cell: some object carries the tag. `Actions.FirstTagged` ensures this is false exactly when the scan finds no such object |
| Actions.WithVitality | src/actions.ts:69-71 | `.filter(target => target.vitality)`: the objects with a vitality component, in order. `Actions.WithVitalityMembers`, `Actions.WithVitalityNoDups` and `Actions.WithVitalityVitals` state its contract |
| Actions.FirstTagged | src/actions.ts:33-37 | nothing exactly when no object has the tag; otherwise the earliest object that carries it |
| Actions.FirstTaggedAt | src/actions.ts:33-37 | the first tagged object the loop meets is the one `FirstTagged` names |
| Actions.WithVitalityMembers | src/actions.ts:69-71 | the filter keeps exactly the objects that have a vitality component |
| Actions.WithVitalityNoDups | src/actions.ts:69-71 | the filtered list has no duplicates when the cell has none |
| Actions.WithVitalityVitals | src/actions.ts:69-71 | filtering loses no vitality component of the cell |
| Actions.MoveBy | src/actions.ts:4-6 | exactly `moveTo` of the offset position (`MovedTo`), keeping the array shape, and the map invariant for a mover that owns its vitality component |
| Actions.MoveTowards | src/actions.ts:8-17 | exactly `moveTo` one step of `TowardsStep` towards the target (`MovedTo`), keeping the array shape, and the map invariant for a mover that owns its vitality component |
| Actions.MoveTo | src/actions.ts:19-54 | `MovedTo`: the facing follows horizontal motion. Out of bounds, the result is false and nothing else changes. Into a blocking cell the move is a bump and the mover stays. Otherwise the mover picks up the cell's first pickup if its hands are empty, its offset becomes old minus new position, and it ends the target cell's list. The result is true in both of those cases. The array shape is kept, and the invariant for a mover that owns its vitality component |
| Actions.Step | src/actions.ts:25-53 | once in bounds, a blocking cell gives `Bumped` with position, holding and offsets unchanged; otherwise `Entered`, with the lean and everyone's hit points unchanged. The array shape is kept |
| Actions.Enter | src/actions.ts:33-53 | the pickup of the first pickup into empty hands, the new offsets, and the move to the end of the target cell (`Entered`), keeping the array shape |
| Actions.Slide | src/actions.ts:39-53 | the offset becomes old minus new position and the object moves as `moveObject` does |
| Actions.PickupFirst | src/actions.ts:33-37 | with empty hands the mover holds the cell's first pickup, which leaves that cell; with full hands, or no pickup, nothing changes |
| Actions.Bump | src/actions.ts:56-82 | the mover leans half a cell towards the target. When the cell exists, every object in it with hit points loses one point, those that reach 0 leave the cell and nothing else in it moves, and the result is true. Out of bounds, nothing changes and the result is false |
| Actions.AttackCell | src/actions.ts:69-78 | every vitality in the cell loses one hit point, and exactly the objects whose hit points were at most 1 (`Fallen`) leave the cell |
| Actions.AttackEach | src/actions.ts:73-77 | the loop over the filtered targets, run on a snapshot: each target loses one hit point, and the cell loses exactly its fallen objects, keeping its order. Its bookkeeping lemmas are `Actions.AttacksDone`, which gives the final hit points and contents at the last round, and `Actions.FallenAmongStep`, where one more round adds a target to the fallen exactly when it had at most 1 hit point |
| Actions.AttackTarget | src/actions.ts:74-76 | one round keeps the loop state, advanced by one target |
| Actions.TargetsOwned | src/actions.ts:69-71 | on a valid map the filtered targets are distinct and each owns its vitality |
| Actions.StartAttacks | src/actions.ts:69-77 | before the loop nobody has fallen, and over all targets the fallen are the cell's `Fallen` objects |
| Actions.FallenAmongTargets | src/actions.ts:69-77 | the targets that fall in the loop are exactly the objects of the cell whose hit points are at most the damage |
| Actions.AttackInCell | src/actions.ts:75 | a target still in the cell loses one hit point and leaves the cell exactly when that brings it to 0 |
| Actions.Rest | src/actions.ts:84-86 | passing a turn always succeeds |
| Actions.Attack | src/actions.ts:94-97 | the target is damaged by the attack's amount (`Damaged`), the array shape is kept and the result is true. On a valid map the invariant is kept, and for a target that owns its vitality component reaching 0 hit points takes the target out once |
| Actions.Damage | src/actions.ts:99-109 | `Damaged`: hit points become `max(0, hp - amount)`, and at 0 the owner and then the target are despawned, with the array shape kept. On a valid map the invariant is kept, and for a target that owns its vitality component the two despawns take the target out once. The result is true |
| Actions.Death | src/actions.ts:111-113 | the object is despawned from the cell at its coordinates, keeping the array shape; on a valid map the invariant is kept and the object is in no cell afterwards |
| Actions.Pickup | src/actions.ts:115-119 | with something in hand, refuses and changes nothing; otherwise the target is despawned at its coordinates and held. The array shape is kept; on a valid map so is the invariant, and a picked-up target is in no cell |

## Left out

- `Game.GameMap.Despawn`, `Actions.Death`, `Game.Vitality.Damage`, `Actions.Damage`, `Actions.Attack`, `Actions.Pickup`: the source asserts that a cell exists at the object's coordinates, and throws otherwise. The model requires those coordinates to be in bounds, and the thrown exception is not modelled. Membership is not required: an object whose coordinates are in bounds but which is in no cell is despawned without effect, as in the source.
- `Actions.Damage`, `Actions.Attack`: the source asserts that the target has a vitality component (src/actions.ts:100), and throws otherwise. The model requires `t.vitality != null` instead, and the thrown exception is not modelled.
- `Game.GameMap.MoveObject`: the source removes the object from its old cell before it asserts that the target cell exists, so a failed move leaves the object off the map. The model requires the target to be in bounds, and that failure path is not modelled.
- `Game.GameMap.Spawn`: requires the same as `moveObject`.
- `Actions.MoveTo`, `Actions.MoveBy`, `Actions.MoveTowards`, `Actions.Bump`: these require the map invariant `Valid()`, and maps that break it are not modelled. `Actions.Bump` keeps the invariant unconditionally.
- `Actions.MoveTo`, `Actions.MoveBy`, `Actions.MoveTowards`, `Game.GameMap.MoveObject`, `Game.GameMap.Spawn`, `Game.GameMap.PlaceAt`: the invariant is promised afterwards only for an object that owns its vitality component (`Attached`). An object placed while holding another object's vitality component would break the invariant, and the model promises nothing about it.
- `Actions.Pickup`: returns true when it picks up. The source returns `undefined` there, which is falsy, and no caller reads the value.
- `Actions.MoveTo`: the source sets the facing first. The model sets it last, because no step in between reads it.
- `Actions.Bump`: the source sets the lean first. The model sets it last, because no step in between reads it.
- `tween` animations, the `step` callback that sets `spriteBumpZ`, rendering, input, modes and the `Game` class (src/game.ts:116-124) are left out. They are timing and display only.
- `GameObject.counter` is left out: the id is a constructor parameter rather than a global counter.
- The default `missing_sprite` is left out: the sprite is a constructor parameter.
- `tags`, `facing`, `holding`, `vitality` and `spriteBumpX/Y/Z` are read by the actions but not declared in src/game.ts. They are modelled as plain fields of `GameObject`, and tags are fixed at construction.
- `Terrain.objects` is carried but never read, as in the source.
- `Game.Cell.constructor`: the source's default `objects = []` (src/game.ts:46) is not modelled, so the object list is always passed. The map constructor passes `[]`.
- The two `moveBy` calls in the branches of `moveTowards` are one call on the step that `TowardsStep` picks. `TowardsStep` is that same branch.
- Coordinates are unbounded integers, and sizes are natural numbers. JavaScript numbers that are fractional, negative sizes, `NaN` and floating-point rounding are not modelled.
- Sprite offsets and leans are `real`, so halving is exact.
- Cells and tiles of src/map.ts are values. That snapshot never mutates them.
- The world map is an explicit parameter instead of the global `game`. Aliasing between that global and other references is not modelled.
- `removeFromArray` splices the caller's array in place. Here it returns the new sequence and the cell stores it back, which is the same thing for the one caller, `Cell.removeObject`.
- Equipment components and src/config.ts, src/main.ts, src/modes.ts, src/render.ts, src/terrains.ts and src/objects.ts are not part of this model.
