/** The windmill field as the ECS holds it, and the two systems of
    src/main.rs that build and dismantle it: `setup`, which spawns the
    windmills with their fins, and `mouse_fin_destruction_system`, which
    handles left-button presses.

    The windmill query is an array of `Windmill` records updated in place;
    the `WindmillFin` component of each spawned fin is a map from the fin's
    entity to its index; `commands.despawn` appends to a log. Entities are
    numbered by a counter in the order they are spawned.
 */
module FinDestruction {
  import opened Windmills

  /** Number of windmills `setup` spawns. */
  const WindmillCount: nat := 10

  /** Height at which rods (and, until the first rotation step, fins) are placed. */
  const RodHeight: real := 2.0

  /** Entities spawned per windmill: three fins, then the rod. */
  const EntitiesPerWindmill: nat := 4

  /** A windmill's place on the ground, drawn at random by `setup`. */
  datatype Position = Position(x: real, z: real)

  /** The windmill `setup` builds at position `p` as the `k`-th of the field:
      its fins are the entities spawned for it in slot order, the rod is the
      entity spawned after them. */
  function Built(k: nat, p: Position): Windmill {
    var first := EntitiesPerWindmill * k;
    Windmill(first + 3, Vec3(p.x, RodHeight, p.z), 0, [Some(first), Some(first + 1), Some(first + 2)])
  }

  class Scene {
    /** The windmill query, in iteration order. */
    var windmills: array<Windmill>
    /** `WindmillFin.index` of every fin entity ever spawned. */
    var finIndex: map<EntityId, nat>
    /** Despawn commands queued so far, in order. */
    var despawns: seq<EntityId>
    /** The next entity id to hand out. */
    var nextEntity: EntityId

    /** Every windmill keeps its empty slots as the prefix `fins[0..state)`,
        and every fin still in a slot carries that slot's index. */
    ghost predicate Valid()
      reads this, windmills
    {
      AllWellFormed(windmills[..]) &&
      forall k :: 0 <= k < windmills.Length ==> FinsIndexed(windmills[k], finIndex)
    }

    /** `setup`: for each position, spawn three fins with indices 0, 1, 2,
        record them in slots 0, 1, 2, then spawn the rod carrying the
        `Windmill` component with state 0. */
    constructor Setup(positions: seq<Position>)
      requires |positions| == WindmillCount
      ensures Valid() && fresh(windmills)
      ensures windmills.Length == WindmillCount && despawns == []
      ensures nextEntity == EntitiesPerWindmill * WindmillCount
      ensures forall k :: 0 <= k < windmills.Length ==> windmills[k] == Built(k, positions[k])
      ensures forall k, j :: 0 <= k < windmills.Length && 0 <= j < FinCount ==>
        windmills[k].state == 0 && windmills[k].fins[j].Some? &&
        finIndex[windmills[k].fins[j].value] == j
    {
      var ws := new Windmill[|positions|](_ => Windmill(0, Vec3(0.0, 0.0, 0.0), 0, [None, None, None]));
      var index: map<EntityId, nat> := map[];
      var next: EntityId := 0;
      for k := 0 to |positions|
        invariant next == EntitiesPerWindmill * k
        invariant forall m :: 0 <= m < k ==> ws[m] == Built(m, positions[m])
        invariant forall m :: 0 <= m < k ==> FinsIndexed(ws[m], index)
        invariant forall e :: e in index ==> e < next
      {
        var fins: FinSlots := [None, None, None];
        for i := 0 to FinCount
          invariant next == EntitiesPerWindmill * k + i
          invariant forall j :: 0 <= j < i ==> fins[j] == Some(EntitiesPerWindmill * k + j)
          invariant forall j :: 0 <= j < i ==> fins[j].value in index && index[fins[j].value] == j
          invariant forall j :: i <= j < FinCount ==> fins[j] == None
          invariant forall m :: 0 <= m < k ==> FinsIndexed(ws[m], index)
          invariant forall e :: e in index ==> e < next
        {
          // spawn a fin with `WindmillFin { index: i }` and keep its entity in slot i
          var fin := next;
          next := next + 1;
          index := index[fin := i];
          fins := fins[i := Some(fin)];
        }
        // spawn the rod with `Windmill { state: 0, fins }`
        var rod := next;
        next := next + 1;
        ws[k] := Windmill(rod, Vec3(positions[k].x, RodHeight, positions[k].z), 0, fins);
        assert ws[k] == Built(k, positions[k]);
      }
      windmills := ws;
      finIndex := index;
      despawns := [];
      nextEntity := next;
    }

    /** One left-button press: scan the windmills in order; the first whose
        base is in the hit box either loses the fin in slot `state` (the
        state then advances) or, with no fins left, has its own despawn
        queued; the scan stops at that windmill. */
    method HandleLeftPress(aim: Aim)
      requires Valid()
      modifies windmills, this`despawns
      ensures Valid()
      ensures windmills[..] == Press(old(windmills[..]), aim).windmills
      ensures despawns == old(despawns) + Press(old(windmills[..]), aim).despawned
    {
      var k := 0;
      while k < windmills.Length
        invariant 0 <= k <= windmills.Length
        invariant windmills[..] == old(windmills[..]) && despawns == old(despawns)
        invariant forall j :: 0 <= j < k ==> !InBox(windmills[j].translation, aim)
      {
        var w := windmills[k];
        if InBox(w.translation, aim) {
          // first windmill in the box: it takes the hit
          if w.state == FinCount {
            despawns := despawns + [w.entity];
            break;
          }
          // Valid() keeps slot `state` full, so the unwrap cannot fail
          var fin := w.fins[w.state].value;
          windmills[k] := w.(state := w.state + 1, fins := w.fins[w.state := None]);
          despawns := despawns + [fin];
          break;
        }
        k := k + 1;
      }
    }

    /** `mouse_fin_destruction_system` on one frame's mouse events. `aim` is
        None when no camera is registered as the active 3D camera: the
        system then returns before reading any mouse event. Otherwise each
        left press is handled in turn against the same aim point and every
        other event is ignored. */
    method MouseFinDestruction(events: seq<MouseButtonInput>, aim: Option<Aim>)
      requires Valid()
      modifies windmills, this`despawns
      ensures Valid()
      ensures aim.None? ==> windmills[..] == old(windmills[..]) && despawns == old(despawns)
      ensures aim.Some? ==>
        windmills[..] == Run(old(windmills[..]), events, aim.value).windmills &&
        despawns == old(despawns) + Run(old(windmills[..]), events, aim.value).despawned
    {
      if aim.None? {
        return;
      }
      ghost var start := windmills[..];
      ghost var log := despawns;
      for i := 0 to |events|
        invariant Valid()
        invariant windmills[..] == Run(start, events[..i], aim.value).windmills
        invariant despawns == log + Run(start, events[..i], aim.value).despawned
      {
        assert events[..i + 1][..i] == events[..i];
        if IsLeftPress(events[i]) {
          HandleLeftPress(aim.value);
        }
      }
      assert events[..|events|] == events;
    }
  }
}
