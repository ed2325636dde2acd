/**
 * src/actions.ts: how one object's turn resolves against the map. A move
 * into a cell either fails (out of bounds), turns into a bump (a blocking
 * object is there: everything with hit points in that cell takes one
 * point of damage), or succeeds, picking up the first pickup in the cell
 * on the way when the mover's hands are empty.
 *
 * The engine's global `game` is the explicit map parameter `m`; the
 * engine's `tween` animations are no-ops, so each field ends as the
 * action sets it.
 */
module Actions {
  import opened Options
  import opened Grid
  import opened Helpers
  import opened Game

  // ----- Pure parts -----

  /** `Math.sign` on integers: a unit with the sign of `n`, and 0 for 0. */
  function Sign(n: int): (r: int)
    ensures -1 <= r <= 1
    ensures r == 0 <==> n == 0
    ensures r > 0 <==> n > 0
  {
    if n > 0 then 1 else if n < 0 then -1 else 0
  }

  /**
   * The unit step `moveTowards` takes towards an offset `(dx, dy)`: along x
   * when x is strictly farther off, otherwise along y.
   */
  function TowardsStep(dx: int, dy: int): (step: (int, int))
    ensures -1 <= step.0 <= 1 && -1 <= step.1 <= 1 && (step.0 == 0 || step.1 == 0)
    ensures step == (0, 0) <==> dx == 0 && dy == 0
  {
    if Abs(dx) > Abs(dy) then (Sign(dx), 0) else (0, Sign(dy))
  }

  /**
   * The step goes along the axis of strictly greater distance (ties,
   * including no distance at all, go vertical), and it brings the mover one
   * cell nearer unless it is already there.
   */
  lemma TowardsStepIsOneStepCloser(dx: int, dy: int)
    ensures var (sx, sy) := TowardsStep(dx, dy);
      && (Abs(dx) > Abs(dy) ==> sy == 0 && sx == Sign(dx) && sx != 0)
      && (Abs(dx) <= Abs(dy) ==> sx == 0 && sy == Sign(dy))
      && Abs(dx - sx) + Abs(dy - sy) == Max(0, Abs(dx) + Abs(dy) - 1)
  {
  }

  /** Some object of `s` carries `tag`. */
  predicate AnyTagged(s: seq<GameObject>, tag: Tag)
  {
    exists t | t in s :: tag in t.tags
  }

  /** The first object of `s` that carries `tag`, if any. */
  function FirstTagged(s: seq<GameObject>, tag: Tag): (r: Option<GameObject>)
    ensures r.None? <==> !AnyTagged(s, tag)
    ensures r.Some? ==> exists j | 0 <= j < |s| ::
      (s[j] == r.value && tag in s[j].tags && forall l | 0 <= l < j :: tag !in s[l].tags)
  {
    if s == [] then None
    else if tag in s[0].tags then Some(s[0])
    else
      var r := FirstTagged(s[1..], tag);
      r
  }

  /** `objects.filter(target => target.vitality)`: the objects that have hit points, in order. */
  function WithVitality(s: seq<GameObject>): seq<GameObject>
    reads s`vitality
  {
    if s == [] then []
    else (if s[0].vitality != null then [s[0]] else []) + WithVitality(s[1..])
  }

  /** The filter keeps exactly the objects of `s` that have hit points. */
  lemma {:induction false} WithVitalityMembers(s: seq<GameObject>, t: GameObject)
    ensures t in WithVitality(s) <==> t in s && t.vitality != null
  {
    if s != [] {
      WithVitalityMembers(s[1..], t);
    }
  }

  /** The filter lists no object twice when `s` does not. */
  lemma {:induction false} WithVitalityNoDups(s: seq<GameObject>)
    requires NoDups(s)
    ensures NoDups(WithVitality(s))
  {
    if s != [] {
      WithVitalityNoDups(s[1..]);
      WithVitalityMembers(s[1..], s[0]);
      assert s[0] !in s[1..];
    }
  }

  /** The vitality components of the objects of `s`. */
  ghost function Vitals(s: seq<GameObject>): set<Vitality>
    reads s`vitality
  {
    set t | t in s && t.vitality != null :: t.vitality
  }

  /** Filtering out the objects without hit points loses no vitality component. */
  lemma WithVitalityVitals(s: seq<GameObject>)
    ensures Vitals(WithVitality(s)) == Vitals(s)
  {
    forall v | v in Vitals(s) ensures v in Vitals(WithVitality(s)) {
      var t :| t in s && t.vitality == v;
      WithVitalityMembers(s, t);
    }
    forall v | v in Vitals(WithVitality(s)) ensures v in Vitals(s) {
      var t :| t in WithVitality(s) && t.vitality == v;
      WithVitalityMembers(s, t);
    }
  }

  /** The vitality components of the objects in the cell at `(x, y)`. */
  ghost function VitalsAt(m: GameMap, x: int, y: int): set<Vitality>
    reads m, Members(m.contents)`vitality
  {
    var i := m.Slot(x, y);
    if 0 <= i < |m.contents| then Vitals(m.contents[i]) else {}
  }

  /** The objects of `s` whose hit points would reach 0 on losing `amount`. */
  ghost function Fallen(s: seq<GameObject>, amount: int): set<GameObject>
    reads s`vitality, Vitals(s)`hp
  {
    set t | t in s && t.vitality != null && t.vitality.hp - amount <= 0
  }

  // ----- Outcomes shared by several actions -----

  /**
   * What `damage(t, amount)` does: `v`, the target's vitality, loses
   * `amount` hit points without going below 0, and at 0 the owner of `v`
   * and then `t` itself are each despawned from the cell at their own
   * coordinates.
   */
  twostate predicate Damaged(m: GameMap, t: GameObject, v: Vitality, amount: int)
    reads m, v
  {
    var before := old(m.contents);
    && v.hp == Max(0, old(v.hp) - amount)
    && (old(v.hp) > amount ==> v.hp == old(v.hp) - amount && m.contents == before)
    && (v.hp == 0 ==>
          m.contents ==
            TakeOut(TakeOut(before, m.Slot(old(v.owner.x), old(v.owner.y)), v.owner),
                    m.Slot(old(t.x), old(t.y)), t))
  }

  /**
   * What `bump(o, x, y)` does: the mover leans half a cell towards
   * `(x, y)`; when that cell exists every object in it with hit points loses
   * one (`vitals` are their vitality components) and those reaching 0 leave
   * the cell; the result says whether the cell exists.
   */
  twostate predicate Bumped(m: GameMap, o: GameObject, x: int, y: int, ok: bool, vitals: set<Vitality>)
    reads m, o`spriteBumpX, o`spriteBumpY, vitals
  {
    var before := old(m.contents);
    var i := m.Slot(x, y);
    && o.spriteBumpX == (x - old(o.x)) as real / 2.0
    && o.spriteBumpY == (y - old(o.y)) as real / 2.0
    && (ok <==> i != -1)
    && (i == -1 ==> m.contents == before)
    && (0 <= i < |before| ==> m.contents == before[i := Without(before[i], old(Fallen(before[i], 1)))])
    && (forall v | v in vitals :: v.hp == Max(0, old(v.hp) - 1))
  }

  /**
   * What `moveTo(o, x, y)` does once the cell at `(x, y)` exists and holds
   * nothing blocking: with empty hands the mover picks up the first pickup
   * in the cell, its sprite offset becomes old position minus new, and it
   * moves to `(x, y)`, at the end of that cell's list.
   */
  twostate predicate Entered(m: GameMap, o: GameObject, x: int, y: int)
    reads m, o`x, o`y, o`holding, o`spriteOffsetX, o`spriteOffsetY
  {
    var before := old(m.contents);
    var i := m.Slot(x, y);
    && 0 <= i < |before|
    && var picked := if old(o.holding) == null then FirstTagged(before[i], Tag.Pickup) else None;
       var afterPickup := if picked.Some? then TakeOut(before, i, picked.value) else before;
       && o.x == x && o.y == y
       && o.holding == (if picked.Some? then picked.value else old(o.holding))
       && o.spriteOffsetX == (old(o.x) - x) as real && o.spriteOffsetY == (old(o.y) - y) as real
       && m.contents == PutIn(TakeOut(afterPickup, m.Slot(old(o.x), old(o.y)), o), i, o)
  }

  /**
   * What `moveTo(o, x, y)` does once `(x, y)` is known to be on the map.
   * Into a cell with a blocking object: the mover stays put and the move is
   * a bump. Otherwise the mover enters the cell (see `Entered`) and nobody's
   * hit points change.
   */
  twostate predicate Stepped(m: GameMap, o: GameObject, x: int, y: int, ok: bool, vitals: set<Vitality>)
    reads m, o`x, o`y, o`holding, o`spriteOffsetX, o`spriteOffsetY, o`spriteBumpX, o`spriteBumpY, vitals
  {
    var before := old(m.contents);
    var i := m.Slot(x, y);
    && 0 <= i < |before|
    && ok
    && if AnyTagged(before[i], Blocking) then
         && Bumped(m, o, x, y, ok, vitals)
         && o.x == old(o.x) && o.y == old(o.y) && o.holding == old(o.holding)
         && o.spriteOffsetX == old(o.spriteOffsetX) && o.spriteOffsetY == old(o.spriteOffsetY)
       else
         && Entered(m, o, x, y)
         && o.spriteBumpX == old(o.spriteBumpX) && o.spriteBumpY == old(o.spriteBumpY)
         && (forall v | v in vitals :: v.hp == old(v.hp))
  }

  /**
   * What `moveTo(o, x, y)` does. Facing follows any horizontal component of
   * the move. Out of bounds: false, and nothing else changes. Otherwise
   * see `Stepped`.
   */
  twostate predicate MovedTo(m: GameMap, o: GameObject, x: int, y: int, ok: bool, vitals: set<Vitality>)
    reads m, o, vitals
  {
    && o.facing == (if x != old(o.x) then Some(if x > old(o.x) then Right else Left) else old(o.facing))
    && if m.IsOutOfBounds(x, y) then
         && !ok
         && m.contents == old(m.contents)
         && o.x == old(o.x) && o.y == old(o.y) && o.holding == old(o.holding)
         && o.spriteOffsetX == old(o.spriteOffsetX) && o.spriteOffsetY == old(o.spriteOffsetY)
         && o.spriteBumpX == old(o.spriteBumpX) && o.spriteBumpY == old(o.spriteBumpY)
         && (forall v | v in vitals :: v.hp == old(v.hp))
       else
         Stepped(m, o, x, y, ok, vitals)
  }

  // ----- Actions -----

  /** `moveBy(o, dx, dy)` is `moveTo(o, o.x + dx, o.y + dy)`. */
  method MoveBy(m: GameMap, o: GameObject, dx: int, dy: int) returns (ok: bool)
    requires m.Valid()
    modifies o`facing, o`holding, o`spriteOffsetX, o`spriteOffsetY, o`spriteBumpX, o`spriteBumpY, o`x, o`y
    modifies m.CellSet()`objects, m`contents, VitalsAt(m, o.x + dx, o.y + dy)`hp
    ensures MovedTo(m, o, old(o.x) + dx, old(o.y) + dy, ok, old(VitalsAt(m, o.x + dx, o.y + dy)))
    ensures Attached(o) ==> m.Valid()
    ensures m.Structure()
  {
    ok := MoveTo(m, o, o.x + dx, o.y + dy);
  }

  /** `moveTowards(o, x, y)`: a `moveBy` of the unit step `TowardsStep` picks. */
  method MoveTowards(m: GameMap, o: GameObject, x: int, y: int) returns (ok: bool)
    requires m.Valid()
    modifies o`facing, o`holding, o`spriteOffsetX, o`spriteOffsetY, o`spriteBumpX, o`spriteBumpY, o`x, o`y
    modifies m.CellSet()`objects, m`contents
    modifies VitalsAt(m, o.x + TowardsStep(x - o.x, y - o.y).0, o.y + TowardsStep(x - o.x, y - o.y).1)`hp
    ensures var step := TowardsStep(x - old(o.x), y - old(o.y));
      MovedTo(m, o, old(o.x) + step.0, old(o.y) + step.1, ok, old(VitalsAt(m, o.x + step.0, o.y + step.1)))
    ensures Attached(o) ==> m.Valid()
    ensures m.Structure()
  {
    // `TowardsStep` is the branch of `moveTowards`; both arms end in this call.
    var step := TowardsStep(x - o.x, y - o.y);
    ok := MoveBy(m, o, step.0, step.1);
  }

  /** `moveTo(o, x, y)`: see `MovedTo`. */
  method MoveTo(m: GameMap, o: GameObject, x: int, y: int) returns (ok: bool)
    requires m.Valid()
    modifies o`facing, o`holding, o`spriteOffsetX, o`spriteOffsetY, o`spriteBumpX, o`spriteBumpY, o`x, o`y
    modifies m.CellSet()`objects, m`contents, VitalsAt(m, x, y)`hp
    ensures MovedTo(m, o, x, y, ok, old(VitalsAt(m, x, y)))
    ensures Attached(o) ==> m.Valid()
    ensures m.Structure()
  {
    var fromX := o.x;
    if m.IsOutOfBounds(x, y) {
      ok := false;
    } else {
      ok := Step(m, o, x, y);
    }
    // `moveTo` sets the facing first; nothing before this point reads it.
    if x != fromX {
      o.facing := Some(if x > fromX then Right else Left);
    }
  }

  /** `moveTo(o, x, y)` after its bounds test: see `Stepped`. */
  method Step(m: GameMap, o: GameObject, x: int, y: int) returns (ok: bool)
    requires m.Valid() && !m.IsOutOfBounds(x, y)
    modifies o`holding, o`spriteOffsetX, o`spriteOffsetY, o`spriteBumpX, o`spriteBumpY, o`x, o`y
    modifies m.CellSet()`objects, m`contents, VitalsAt(m, x, y)`hp
    ensures Stepped(m, o, x, y, ok, old(VitalsAt(m, x, y)))
    ensures Attached(o) ==> m.Valid()
    ensures m.Structure()
  {
    // `getCell` cannot come back empty once the bounds test has passed.
    var cell := m.GetCell(x, y).value;
    if AnyTagged(cell.objects, Blocking) {
      ok := Bump(m, o, x, y);
    } else {
      Enter(m, o, cell, x, y);
      ok := true;
    }
  }

  /** The rest of `moveTo` once the cell exists and holds nothing blocking: see `Entered`. */
  method Enter(m: GameMap, o: GameObject, cell: Cell, x: int, y: int)
    requires m.Valid() && !m.IsOutOfBounds(x, y) && cell == m.cells[m.Slot(x, y)]
    modifies o`holding, o`spriteOffsetX, o`spriteOffsetY, o`x, o`y, m.CellSet()`objects, m`contents
    ensures Entered(m, o, x, y)
    ensures Attached(o) ==> m.Valid()
    ensures m.Structure()
  {
    PickupFirst(m, o, cell, m.Slot(x, y));
    Slide(m, o, x, y);
  }

  /**
   * The end of `moveTo`: the sprite offset becomes old position minus new,
   * to be animated back to 0, and the mover moves to `(x, y)`.
   */
  method Slide(m: GameMap, o: GameObject, x: int, y: int)
    requires m.Structure() && !m.IsOutOfBounds(x, y)
    modifies o`spriteOffsetX, o`spriteOffsetY, o`x, o`y, m.CellSet()`objects, m`contents
    ensures m.Structure()
    ensures o.x == x && o.y == y
    ensures o.spriteOffsetX == (old(o.x) - x) as real && o.spriteOffsetY == (old(o.y) - y) as real
    ensures m.contents == PutIn(TakeOut(old(m.contents), m.Slot(old(o.x), old(o.y)), o), m.Slot(x, y), o)
    ensures old(m.Valid()) && Attached(o) ==> m.Valid()
  {
    ghost var wasValid := m.Valid();
    o.spriteOffsetX := (o.x - x) as real;
    o.spriteOffsetY := (o.y - y) as real;
    assert wasValid ==> m.Valid();
    m.MoveObject(o, x, y);
  }

  /**
   * The scan of the target cell in `moveTo`: walking the cell's live list,
   * the mover picks up each pickup it meets while its hands are empty, so
   * only the first one, and only when it held nothing to begin with.
   */
  method PickupFirst(m: GameMap, o: GameObject, cell: Cell, ghost i: int)
    requires m.Valid()
    requires 0 <= i < m.cells.Length && cell == m.cells[i]
    modifies o`holding, m.CellSet()`objects, m`contents
    ensures var picked := if old(o.holding) == null then FirstTagged(old(cell.objects), Tag.Pickup) else None;
      && o.holding == (if picked.Some? then picked.value else old(o.holding))
      && m.contents == (if picked.Some? then TakeOut(old(m.contents), i, picked.value) else old(m.contents))
    ensures m.Valid()
  {
    ghost var s := cell.objects;
    ghost var before := m.contents;
    ghost var held := o.holding;
    var k := 0;
    while k < |cell.objects|
      invariant 0 <= k <= |s|
      invariant m.Valid()
      invariant cell.objects == m.contents[i]
      invariant o.holding == held ==> m.contents == before
      invariant held == null && o.holding == null ==> forall j | 0 <= j < k :: Tag.Pickup !in s[j].tags
      invariant o.holding != held ==>
        && held == null
        && FirstTagged(s, Tag.Pickup) == Some(o.holding)
        && m.contents == TakeOut(before, i, o.holding)
        && |cell.objects| < |s|
      decreases |s| - k
    {
      var target := cell.objects[k];
      if o.holding == null && Tag.Pickup in target.tags {
        assert target == s[k] && target in before[i];
        FirstTaggedAt(s, Tag.Pickup, k);
        assert PlacedAt(target, m.width, m.height, i);
        var _ := Pickup(m, o, target);
        RemovedMultiset(s, target);
        assert |multiset(Removed(s, target))| == |multiset(s)| - 1;
      }
      k := k + 1;
    }
    if held == null && o.holding == null {
      assert !AnyTagged(s, Tag.Pickup);
    }
  }

  /** When `s[k]` is the first object carrying `tag`, `FirstTagged` finds it. */
  lemma {:induction false} FirstTaggedAt(s: seq<GameObject>, tag: Tag, k: nat)
    requires k < |s| && tag in s[k].tags
    requires forall j | 0 <= j < k :: tag !in s[j].tags
    ensures FirstTagged(s, tag) == Some(s[k])
  {
    if k > 0 {
      FirstTaggedAt(s[1..], tag, k - 1);
    }
  }

  /**
   * `bump(o, x, y)`: see `Bumped`. Each object with hit points in the cell
   * is attacked once, in list order, from a snapshot of the list taken
   * before any of them dies.
   */
  method Bump(m: GameMap, o: GameObject, x: int, y: int) returns (ok: bool)
    requires m.Valid()
    modifies o`spriteBumpX, o`spriteBumpY, m.CellSet()`objects, m`contents, VitalsAt(m, x, y)`hp
    ensures Bumped(m, o, x, y, ok, old(VitalsAt(m, x, y)))
    ensures m.Valid()
  {
    // The lean is set last here: nothing else in `bump` reads it.
    var cell := m.GetCell(x, y);
    if cell.None? {
      ok := false;
    } else {
      AttackCell(m, o, cell.value, m.Slot(x, y));
      ok := true;
    }
    ghost var after := m.contents;
    o.spriteBumpX := (x - o.x) as real / 2.0;
    o.spriteBumpY := (y - o.y) as real / 2.0;
    assert m.contents == after;
  }

  /**
   * The part of `bump` once the cell in slot `i` exists: the objects in it
   * with hit points, filtered before any of them dies, are attacked in turn.
   */
  method AttackCell(m: GameMap, o: GameObject, cell: Cell, ghost i: int)
    requires m.Valid() && 0 <= i < m.cells.Length && cell == m.cells[i]
    modifies m.CellSet()`objects, m`contents, Vitals(m.contents[i])`hp
    ensures m.Valid()
    ensures m.contents == old(m.contents[i := Without(m.contents[i], Fallen(m.contents[i], 1))])
    ensures forall v | v in old(Vitals(m.contents[i])) :: v.hp == Max(0, old(v.hp) - 1)
  {
    ghost var s := m.contents[i];
    var targets := WithVitality(cell.objects);
    WithVitalityVitals(s);
    AttackEach(m, o, targets, i);
    forall v | v in old(Vitals(targets)) ensures v.hp == Max(0, old(v.hp) - 1) {
      var j :| 0 <= j < |targets| && targets[j].vitality == v;
    }
  }

  /**
   * The loop of `bump`: `attacker` attacks each of `targets`, the objects
   * with hit points of the cell in slot `i`, for one hit point, in order.
   * Afterwards every one of them has lost a hit point and those that
   * reached 0 are gone from the cell, which otherwise keeps its order.
   */
  method AttackEach(m: GameMap, attacker: GameObject, targets: seq<GameObject>, ghost i: int)
    requires m.Valid() && 0 <= i < m.cells.Length
    requires targets == WithVitality(m.contents[i])
    modifies m.CellSet()`objects, m`contents, Vitals(targets)`hp
    ensures m.Valid()
    ensures m.contents == old(m.contents[i := Without(m.contents[i], Fallen(m.contents[i], 1))])
    ensures forall j | 0 <= j < |targets| ::
      targets[j].vitality != null && targets[j].vitality.hp == Max(0, old(targets[j].vitality.hp) - 1)
  {
    ghost var before := m.contents;
    ghost var s := before[i];
    StartAttacks(m, i, targets);
    ghost var hp0 := HitPoints(targets);
    var k := 0;
    while k < |targets|
      invariant Attacking(m, targets, i, s, hp0, before, k)
    {
      assert targets[k].vitality in Vitals(targets);
      AttackTarget(m, attacker, targets, k, i, s, hp0, before);
      k := k + 1;
    }
    AttacksDone(m, targets, i, s, hp0, before);
  }

  /** After the last round every target has lost a hit point and the fallen have all left. */
  lemma AttacksDone(m: GameMap, targets: seq<GameObject>, i: int, s: seq<GameObject>,
                    hp0: seq<int>, before: seq<seq<GameObject>>)
    requires Attacking(m, targets, i, s, hp0, before, |targets|)
    ensures m.Valid()
    ensures m.contents == before[i := Without(s, FallenAmong(targets, hp0, |targets|))]
    ensures forall j | 0 <= j < |targets| ::
      targets[j].vitality != null && targets[j].vitality.hp == Max(0, hp0[j] - 1)
  {
  }

  /**
   * The state of the loop of `bump` after `k` rounds: the first `k` of
   * `targets` (the objects with hit points of `s`, the cell in slot `i` of
   * `before`) have each lost a hit point, the fallen among them have left
   * the cell, and the map is valid.
   */
  ghost predicate Attacking(m: GameMap, targets: seq<GameObject>, i: int, s: seq<GameObject>,
                            hp0: seq<int>, before: seq<seq<GameObject>>, k: int)
    reads m, m.cells, m.CellSet()`objects, Members(m.contents)`x, Members(m.contents)`y
    reads Members(m.contents)`vitality, s`vitality, targets, Vitals(targets)`hp
  {
    && m.Valid()
    && 0 <= i < |before| && s == before[i] && NoDups(s)
    && targets == WithVitality(s) && Owned(targets)
    && 0 <= k <= |targets| == |hp0|
    && m.contents == before[i := Without(s, FallenAmong(targets, hp0, k))]
    && forall j | 0 <= j < |targets| :: targets[j].vitality.hp == if j < k then Max(0, hp0[j] - 1) else hp0[j]
  }

  /**
   * The body of the loop of `bump`, round `k`: `targets[k]` is attacked,
   * the earlier targets' fallen have already left the cell, and no other
   * target's hit points change.
   */
  method AttackTarget(m: GameMap, attacker: GameObject, targets: seq<GameObject>, k: int, ghost i: int,
                      ghost s: seq<GameObject>, ghost hp0: seq<int>, ghost before: seq<seq<GameObject>>)
    requires Attacking(m, targets, i, s, hp0, before, k) && k < |targets|
    modifies m.CellSet()`objects, m`contents, targets[k].vitality`hp
    ensures Attacking(m, targets, i, s, hp0, before, k + 1)
  {
    var t := targets[k];
    WithVitalityMembers(s, t);
    FallenAmongStep(targets, hp0, k);
    ghost var middle := m.contents;
    AttackInCell(m, attacker, t, i, s, FallenAmong(targets, hp0, k));
    assert t.vitality.hp == 0 <==> hp0[k] <= 1;
    assert m.contents == middle[i := Without(s, FallenAmong(targets, hp0, k + 1))];
    assert middle[i := Without(s, FallenAmong(targets, hp0, k + 1))]
        == before[i := Without(s, FallenAmong(targets, hp0, k + 1))];
    forall j | 0 <= j < |targets| && j != k
      ensures targets[j].vitality.hp == old(targets[j].vitality.hp)
    {
      assert targets[j] != t;
    }
  }

  /** The hit points of each of `targets`, in order. */
  ghost function HitPoints(targets: seq<GameObject>): (hp: seq<int>)
    requires forall t | t in targets :: t.vitality != null
    reads targets, Vitals(targets)
    ensures |hp| == |targets| && forall j | 0 <= j < |targets| :: hp[j] == targets[j].vitality.hp
  {
    if targets == [] then []
    else
      assert Vitals(targets[1..]) <= Vitals(targets);
      [targets[0].vitality.hp] + HitPoints(targets[1..])
  }

  /** The first `k` of `targets` whose hit points `hp0` do not survive a one-point hit. */
  ghost function FallenAmong(targets: seq<GameObject>, hp0: seq<int>, k: int): set<GameObject>
    requires 0 <= k <= |targets| == |hp0|
  {
    set j | 0 <= j < k && hp0[j] <= 1 :: targets[j]
  }

  /** Going one target further adds that target exactly when it falls; it was not in before. */
  lemma FallenAmongStep(targets: seq<GameObject>, hp0: seq<int>, k: int)
    requires 0 <= k < |targets| == |hp0| && NoDups(targets)
    ensures targets[k] !in FallenAmong(targets, hp0, k)
    ensures FallenAmong(targets, hp0, k + 1) ==
      if hp0[k] <= 1 then FallenAmong(targets, hp0, k) + {targets[k]} else FallenAmong(targets, hp0, k)
  {
  }

  /** Objects listed once each, each owning its vitality component. */
  ghost predicate Owned(targets: seq<GameObject>)
    reads targets
  {
    && NoDups(targets)
    && forall j | 0 <= j < |targets| :: targets[j].vitality != null && targets[j].vitality.owner == targets[j]
  }

  /**
   * On a valid map, the objects with hit points of a cell are listed once
   * each and own their vitality components.
   */
  lemma TargetsOwned(m: GameMap, i: int, targets: seq<GameObject>)
    requires m.Valid() && 0 <= i < m.cells.Length
    requires targets == WithVitality(m.contents[i])
    ensures Owned(targets)
  {
    var s := m.contents[i];
    WithVitalityNoDups(s);
    forall j | 0 <= j < |targets|
      ensures targets[j].vitality != null && targets[j].vitality.owner == targets[j]
    {
      WithVitalityMembers(s, targets[j]);
      assert Attached(targets[j]);
    }
  }

  /**
   * Before the first attack of `bump`: the targets are listed once each and
   * own their vitality components, nobody has fallen yet, and over all the
   * targets the fallen are those `Fallen` names.
   */
  lemma StartAttacks(m: GameMap, i: int, targets: seq<GameObject>)
    requires m.Valid() && 0 <= i < m.cells.Length
    requires targets == WithVitality(m.contents[i])
    ensures Owned(targets)
    ensures Attacking(m, targets, i, m.contents[i], HitPoints(targets), m.contents, 0)
    ensures Fallen(m.contents[i], 1) == FallenAmong(targets, HitPoints(targets), |targets|)
  {
    TargetsOwned(m, i, targets);
    var hp0 := HitPoints(targets);
    FallenAmongTargets(m.contents[i], targets, hp0);
    WithoutNothing(m.contents[i]);
    assert FallenAmong(targets, hp0, 0) == {};
  }

  /** Over all of `targets`, the fallen are those of the cell `s` that `Fallen` names. */
  lemma FallenAmongTargets(s: seq<GameObject>, targets: seq<GameObject>, hp0: seq<int>)
    requires targets == WithVitality(s)
    requires |hp0| == |targets|
    requires forall j | 0 <= j < |targets| :: targets[j].vitality != null && hp0[j] == targets[j].vitality.hp
    ensures Fallen(s, 1) == FallenAmong(targets, hp0, |targets|)
  {
    forall t | t in Fallen(s, 1) ensures t in FallenAmong(targets, hp0, |targets|) {
      WithVitalityMembers(s, t);
      var j :| 0 <= j < |targets| && targets[j] == t;
    }
    forall t | t in FallenAmong(targets, hp0, |targets|) ensures t in Fallen(s, 1) {
      var j :| 0 <= j < |targets| && targets[j] == t && hp0[j] <= 1;
      WithVitalityMembers(s, t);
    }
  }

  /**
   * One round of the loop of `bump`: `t`, still in the cell in slot `i`,
   * is attacked for one hit point and leaves the cell if that brings it
   * to 0.
   */
  method AttackInCell(m: GameMap, attacker: GameObject, t: GameObject, ghost i: int,
                      ghost s: seq<GameObject>, ghost gone: set<GameObject>)
    requires m.Valid() && 0 <= i < m.cells.Length
    requires m.contents[i] == Without(s, gone) && NoDups(s)
    requires t in s && t !in gone && t.vitality != null
    modifies m.CellSet()`objects, m`contents, t.vitality`hp
    ensures m.Valid()
    ensures t.vitality.hp == Max(0, old(t.vitality.hp) - 1)
    ensures m.contents == old(m.contents)[i := Without(s, if t.vitality.hp == 0 then gone + {t} else gone)]
  {
    WithoutMembers(s, gone, t);
    assert PlacedAt(t, m.width, m.height, i) && Attached(t);
    NoDupsCount(s, t);
    RemovedWithout(s, gone, t);
    var _ := Attack(m, AttackArgs(attacker, t, 1));
  }

  /** `rest(o)`: passing a turn always succeeds. */
  method Rest(o: GameObject) returns (ok: bool)
    ensures ok
  {
    ok := true;
  }

  /** The `Attack` record: who attacks, whom, and for how many hit points. */
  datatype AttackArgs = AttackArgs(attacker: GameObject, target: GameObject, damage: int)

  /** `attack(a)`: damage the target by the attack's amount; always succeeds. */
  method Attack(m: GameMap, a: AttackArgs) returns (ok: bool)
    requires a.target.vitality != null
    requires m.Structure()
    requires a.target.vitality.hp - a.damage <= 0 ==>
      !m.IsOutOfBounds(a.target.vitality.owner.x, a.target.vitality.owner.y) &&
      !m.IsOutOfBounds(a.target.x, a.target.y)
    modifies a.target.vitality`hp, m.CellSet()`objects, m`contents
    ensures ok
    ensures m.Structure()
    ensures Damaged(m, a.target, a.target.vitality, a.damage)
    ensures old(m.Valid()) ==> m.Valid()
    ensures old(m.Valid()) && Attached(a.target) && a.target.vitality.hp == 0 ==>
      m.contents == TakeOut(old(m.contents), m.Slot(a.target.x, a.target.y), a.target)
  {
    ok := Damage(m, a.target, a.damage);
  }

  /**
   * `damage(t, amount)`: the target must have hit points; it loses them
   * through its vitality component, and at 0 it dies as well. Both despawns
   * are removals, so a valid map stays valid; when the target owns its
   * component they amount to taking it off the map once.
   */
  method Damage(m: GameMap, t: GameObject, amount: int) returns (ok: bool)
    requires t.vitality != null
    requires m.Structure()
    requires t.vitality.hp - amount <= 0 ==>
      !m.IsOutOfBounds(t.vitality.owner.x, t.vitality.owner.y) && !m.IsOutOfBounds(t.x, t.y)
    modifies t.vitality`hp, m.CellSet()`objects, m`contents
    ensures ok
    ensures m.Structure()
    ensures Damaged(m, t, t.vitality, amount)
    ensures old(m.Valid()) ==> m.Valid()
    ensures old(m.Valid()) && Attached(t) && t.vitality.hp == 0 ==>
      m.contents == TakeOut(old(m.contents), m.Slot(t.x, t.y), t)
  {
    ghost var before := m.contents;
    t.vitality.Damage(m, amount);
    if t.vitality.hp <= 0 {
      Death(m, t);
      if old(m.Valid()) && Attached(t) {
        var i := m.Slot(t.x, t.y);
        NoDupsCount(before[i], t);
        RemovedTwice(before[i], t);
      }
    }
    ok := true;
  }

  /** `death(o)`: despawn `o` from the cell at its coordinates. */
  method Death(m: GameMap, o: GameObject)
    requires m.Structure()
    requires !m.IsOutOfBounds(o.x, o.y)
    modifies m.CellSet()`objects, m`contents
    ensures m.Structure()
    ensures m.contents == TakeOut(old(m.contents), m.Slot(o.x, o.y), o)
    ensures old(m.Valid()) ==> m.Valid() && forall i | 0 <= i < m.cells.Length :: o !in m.contents[i]
  {
    m.Despawn(o);
  }

  /**
   * `pickup(o, t)`: with something already in hand, refuse and change
   * nothing; otherwise take `t` off the map and hold it.
   */
  method Pickup(m: GameMap, o: GameObject, t: GameObject) returns (picked: bool)
    requires m.Structure()
    requires o.holding == null ==> !m.IsOutOfBounds(t.x, t.y)
    modifies o`holding, m.CellSet()`objects, m`contents
    ensures m.Structure()
    ensures picked <==> old(o.holding) == null
    ensures !picked ==> o.holding == old(o.holding) && m.contents == old(m.contents)
    ensures picked ==> o.holding == t && m.contents == TakeOut(old(m.contents), m.Slot(t.x, t.y), t)
    ensures old(m.Valid()) ==> m.Valid()
    ensures old(m.Valid()) && picked ==> forall i | 0 <= i < m.cells.Length :: t !in m.contents[i]
  {
    if o.holding != null {
      return false;
    }
    m.Despawn(t);
    o.holding := t;
    picked := true;
  }
}
