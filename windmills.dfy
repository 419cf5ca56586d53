/** The windmill destruction state machine of src/main.rs, stated on values.

    A windmill is the rod entity carrying a `Windmill` component: a
    destruction counter `state` and three optional fin handles. A left-button
    press aimed at a windmill either takes the next fin out of its slot
    (fins are removed in slot order 0, 1, 2) or, once all three are gone,
    asks for the windmill itself to be despawned.

    Despawning is deferred: a despawned entity keeps its record for the rest
    of the pass, so the functions below only ever produce despawn requests.
 */
module Windmills {

  /** Opaque entity handles. */
  type EntityId = nat

  datatype Option<T> = None | Some(value: T)

  datatype Result<T, E> = Ok(value: T) | Err(error: E)

  /** Half width of the square hit box around a windmill's base, on x and on z. */
  const HitTolerance: real := 0.5

  /** Number of fin slots of a windmill; also the state in which it has none left. */
  const FinCount: nat := 3

  datatype Vec3 = Vec3(x: real, y: real, z: real)

  /** The point on the ground that a click aims at; only x and z take part in the hit test. */
  datatype Aim = Aim(x: real, z: real)

  /** `[Option<Entity>; 3]`: exactly three slots. */
  type FinSlots = s: seq<Option<EntityId>> | |s| == 3 witness [None, None, None]

  /** One item of the windmill query: the rod entity, its translation and its
      `Windmill` component (`state` and `fins`). */
  datatype Windmill = Windmill(entity: EntityId, translation: Vec3, state: nat, fins: FinSlots)

  datatype MouseButton = Left | Right | Middle | Other(code: nat)

  datatype ElementState = Pressed | Released

  datatype MouseButtonInput = MouseButtonInput(button: MouseButton, state: ElementState)

  const LeftPress: MouseButtonInput := MouseButtonInput(Left, Pressed)

  /** Only a press of the left button reaches the windmill scan. */
  predicate IsLeftPress(e: MouseButtonInput) {
    e.button == Left && e.state == Pressed
  }

  /** The state machine's invariant: the counter is at most three and the
      empty slots are exactly the prefix `fins[0..state)`. */
  predicate WellFormed(w: Windmill) {
    w.state <= FinCount &&
    forall j :: 0 <= j < FinCount ==> (w.fins[j].None? <==> j < w.state)
  }

  predicate AllWellFormed(ws: seq<Windmill>) {
    forall k :: 0 <= k < |ws| ==> WellFormed(ws[k])
  }

  /** Every fin still in a slot carries the `WindmillFin` index of that slot. */
  ghost predicate FinsIndexed(w: Windmill, finIndex: map<EntityId, nat>) {
    forall j :: 0 <= j < FinCount && w.fins[j].Some? ==>
      w.fins[j].value in finIndex && finIndex[w.fins[j].value] == j
  }

  /** Number of empty slots. */
  function EmptySlots(fins: seq<Option<EntityId>>): (n: nat)
    ensures n <= |fins|
  {
    if fins == [] then 0
    else (if fins[0].None? then 1 else 0) + EmptySlots(fins[1..])
  }

  lemma {:induction false} EmptyPrefixCount(fins: seq<Option<EntityId>>, n: nat)
    requires n <= |fins|
    requires forall j :: 0 <= j < |fins| ==> (fins[j].None? <==> j < n)
    ensures EmptySlots(fins) == n
  {
    if fins != [] {
      EmptyPrefixCount(fins[1..], if n == 0 then 0 else n - 1);
    }
  }

  /** The invariant's counting form: a well-formed windmill's state is the
      number of its empty slots. */
  lemma StateCountsEmptySlots(w: Windmill)
    requires WellFormed(w)
    ensures EmptySlots(w.fins) == w.state
  {
    EmptyPrefixCount(w.fins, w.state);
  }

  /** Axis-aligned hit test: strictly within the tolerance on x and on z. */
  function Abs(r: real): real {
    if r < 0.0 then -r else r
  }

  predicate InBox(t: Vec3, aim: Aim) {
    Abs(t.x - aim.x) < HitTolerance && Abs(t.z - aim.z) < HitTolerance
  }

  /** The hit test is the open square of side 1 centred on the aim point. */
  lemma InBoxIsOpenSquare(t: Vec3, aim: Aim)
    ensures InBox(t, aim) <==>
      aim.x - HitTolerance < t.x < aim.x + HitTolerance &&
      aim.z - HitTolerance < t.z < aim.z + HitTolerance
  {
  }

  /** The height of a windmill plays no part in the hit test. */
  lemma InBoxIgnoresHeight(t: Vec3, y: real, aim: Aim)
    ensures InBox(t.(y := y), aim) == InBox(t, aim)
  {
  }

  datatype Panic = IndexOutOfBounds(index: nat) | UnwrapOnNone(index: nat)

  /** What a hit does to one windmill: its new component and the entity
      whose despawn is requested. */
  datatype HitEffect = HitEffect(windmill: Windmill, despawned: EntityId)

  /** The body of the hit branch, with the two ways it can panic written
      out: indexing past the array and unwrapping an empty slot. */
  function Hit(w: Windmill): (r: Result<HitEffect, Panic>)
    ensures WellFormed(w) ==> r.Ok? && WellFormed(r.value.windmill)
    ensures r.Ok? ==> r.value.windmill.entity == w.entity
    ensures r.Ok? ==> r.value.windmill.translation == w.translation
  {
    var i := w.state;
    if i == FinCount then Ok(HitEffect(w, w.entity))
    else if i > FinCount then Err(IndexOutOfBounds(i))
    else match w.fins[i]
      case None => Err(UnwrapOnNone(i))
      case Some(fin) => Ok(HitEffect(w.(state := i + 1, fins := w.fins[i := None]), fin))
  }

  /** A hit on a windmill with fins left empties slot `state`, despawns the
      fin that was there and advances the state by exactly one; the other
      two slots keep their fins. */
  lemma HitTakesNextFin(w: Windmill)
    requires WellFormed(w) && w.state < FinCount
    ensures Hit(w).Ok?
    ensures Some(Hit(w).value.despawned) == w.fins[w.state]
    ensures Hit(w).value.windmill.state == w.state + 1
    ensures Hit(w).value.windmill.fins[w.state].None?
    ensures forall j :: 0 <= j < FinCount && j != w.state ==>
      Hit(w).value.windmill.fins[j] == w.fins[j]
  {
  }

  /** A hit on a windmill without fins despawns the windmill and leaves its
      record as it is. */
  lemma HitOnBareWindmill(w: Windmill)
    requires w.state == FinCount
    ensures Hit(w) == Ok(HitEffect(w, w.entity))
  {
  }

  /** The fin a hit despawns is the one spawned with `WindmillFin.index`
      equal to the state before the hit. */
  lemma HitDespawnsFinOfCurrentIndex(w: Windmill, finIndex: map<EntityId, nat>)
    requires WellFormed(w) && FinsIndexed(w, finIndex) && w.state < FinCount
    ensures Hit(w).value.despawned in finIndex
    ensures finIndex[Hit(w).value.despawned] == w.state
    ensures FinsIndexed(Hit(w).value.windmill, finIndex)
  {
  }

  /** Index of the first windmill, in query order, whose base is in the hit box. */
  function FirstHit(ws: seq<Windmill>, aim: Aim): (r: Option<nat>)
    ensures r.Some? ==> r.value < |ws| && InBox(ws[r.value].translation, aim)
    ensures r.Some? ==> forall j :: 0 <= j < r.value ==> !InBox(ws[j].translation, aim)
    ensures r.None? ==> forall j :: 0 <= j < |ws| ==> !InBox(ws[j].translation, aim)
  {
    if ws == [] then None
    else if InBox(ws[0].translation, aim) then Some(0)
    else match FirstHit(ws[1..], aim)
      case None => None
      case Some(k) => Some(k + 1)
  }

  /** The target of a click depends only on where the windmills stand. */
  lemma FirstHitFollowsTranslations(ws: seq<Windmill>, vs: seq<Windmill>, aim: Aim)
    requires |ws| == |vs|
    requires forall j :: 0 <= j < |ws| ==> ws[j].translation == vs[j].translation
    ensures FirstHit(ws, aim) == FirstHit(vs, aim)
  {
  }

  /** Output of a press or of a pass: the windmill records afterwards and the
      despawn requests, in the order they were issued. */
  datatype Step = Step(windmills: seq<Windmill>, despawned: seq<EntityId>)

  /** One left-button press: the first windmill in the box takes the hit and
      the scan stops there. */
  function Press(ws: seq<Windmill>, aim: Aim): (r: Step)
    requires AllWellFormed(ws)
    ensures |r.windmills| == |ws| && AllWellFormed(r.windmills)
    ensures forall j :: 0 <= j < |ws| ==>
      r.windmills[j].entity == ws[j].entity && r.windmills[j].translation == ws[j].translation
    ensures forall j :: 0 <= j < |ws| && FirstHit(ws, aim) != Some(j) ==> r.windmills[j] == ws[j]
    ensures FirstHit(ws, aim).None? <==> r == Step(ws, [])
    ensures |r.despawned| <= 1
  {
    match FirstHit(ws, aim)
    case None => Step(ws, [])
    case Some(k) =>
      var e := Hit(ws[k]).value;
      Step(ws[k := e.windmill], [e.despawned])
  }

  /** A windmill outside the hit box is never touched by a press. */
  lemma PressSparesWindmillOutsideBox(ws: seq<Windmill>, j: nat, aim: Aim)
    requires AllWellFormed(ws) && j < |ws|
    requires !InBox(ws[j].translation, aim)
    ensures Press(ws, aim).windmills[j] == ws[j]
  {
  }

  /** A press on the target `k` applies `Hit` to it, and `k` stays the
      target of the next press aimed at the same point. */
  lemma PressOnTarget(ws: seq<Windmill>, k: nat, aim: Aim)
    requires AllWellFormed(ws)
    requires FirstHit(ws, aim) == Some(k)
    ensures Press(ws, aim).windmills == ws[k := Hit(ws[k]).value.windmill]
    ensures Press(ws, aim).despawned == [Hit(ws[k]).value.despawned]
    ensures FirstHit(Press(ws, aim).windmills, aim) == Some(k)
  {
  }

  /** All the mouse events of one pass, in order, with one aim point:
      left presses are handled by `Press`, every other event is ignored. */
  function Run(ws: seq<Windmill>, events: seq<MouseButtonInput>, aim: Aim): (r: Step)
    requires AllWellFormed(ws)
    ensures |r.windmills| == |ws| && AllWellFormed(r.windmills)
    ensures forall j :: 0 <= j < |ws| ==>
      r.windmills[j].entity == ws[j].entity && r.windmills[j].translation == ws[j].translation
    ensures |r.despawned| <= |events|
    decreases |events|
  {
    if events == [] then Step(ws, [])
    else
      var before := Run(ws, events[..|events| - 1], aim);
      var last := if IsLeftPress(events[|events| - 1]) then Press(before.windmills, aim)
                  else Step(before.windmills, []);
      Step(last.windmills, before.despawned + last.despawned)
  }

  /** Events other than a left press change no windmill and despawn nothing. */
  lemma {:induction false} OtherEventsChangeNothing(ws: seq<Windmill>, events: seq<MouseButtonInput>, aim: Aim)
    requires AllWellFormed(ws)
    requires forall i :: 0 <= i < |events| ==> !IsLeftPress(events[i])
    ensures Run(ws, events, aim) == Step(ws, [])
  {
    if events != [] {
      OtherEventsChangeNothing(ws, events[..|events| - 1], aim);
    }
  }

  /** A pass extended by one more left press. */
  lemma RunThenPress(ws: seq<Windmill>, events: seq<MouseButtonInput>, aim: Aim)
    requires AllWellFormed(ws)
    ensures var before := Run(ws, events, aim);
      var last := Press(before.windmills, aim);
      Run(ws, events + [LeftPress], aim) == Step(last.windmills, before.despawned + last.despawned)
  {
  }

  /** A left press appended to a pass whose target is `k` hits `k` again. */
  lemma PressAfterRun(ws: seq<Windmill>, events: seq<MouseButtonInput>, k: nat, aim: Aim,
                      vs: seq<Windmill>, log: seq<EntityId>)
    requires AllWellFormed(ws)
    requires FirstHit(ws, aim) == Some(k)
    requires Run(ws, events, aim) == Step(vs, log)
    ensures k < |vs| && WellFormed(vs[k])
    ensures Run(ws, events + [LeftPress], aim) ==
      Step(vs[k := Hit(vs[k]).value.windmill], log + [Hit(vs[k]).value.despawned])
  {
  }

  /** `n` left presses in a row. */
  function LeftPresses(n: nat): (es: seq<MouseButtonInput>)
    ensures |es| == n && forall i :: 0 <= i < n ==> IsLeftPress(es[i])
  {
    seq(n, _ => LeftPress)
  }

  /** Four left presses on an intact target: the first three take out fins
      0, 1 and 2 in that order and leave the target at states 1, 2 and 3;
      the fourth despawns the windmill itself. No other windmill changes. */
  lemma FourPressesDismantle(ws: seq<Windmill>, k: nat, aim: Aim)
    requires AllWellFormed(ws)
    requires FirstHit(ws, aim) == Some(k)
    requires ws[k].state == 0
    ensures Run(ws, LeftPresses(1), aim) ==
      Step(ws[k := ws[k].(state := 1, fins := [None, ws[k].fins[1], ws[k].fins[2]])],
           [ws[k].fins[0].value])
    ensures Run(ws, LeftPresses(2), aim) ==
      Step(ws[k := ws[k].(state := 2, fins := [None, None, ws[k].fins[2]])],
           [ws[k].fins[0].value, ws[k].fins[1].value])
    ensures Run(ws, LeftPresses(3), aim) ==
      Step(ws[k := ws[k].(state := 3, fins := [None, None, None])],
           [ws[k].fins[0].value, ws[k].fins[1].value, ws[k].fins[2].value])
    ensures Run(ws, LeftPresses(4), aim) ==
      Step(ws[k := ws[k].(state := 3, fins := [None, None, None])],
           [ws[k].fins[0].value, ws[k].fins[1].value, ws[k].fins[2].value, ws[k].entity])
  {
    var w0 := ws[k];
    HitTakesNextFin(w0);
    var w1 := Hit(w0).value.windmill;
    HitTakesNextFin(w1);
    var w2 := Hit(w1).value.windmill;
    HitTakesNextFin(w2);
    var w3 := Hit(w2).value.windmill;
    HitOnBareWindmill(w3);
    var f0, f1, f2 := w0.fins[0].value, w0.fins[1].value, w0.fins[2].value;
    assert w1 == w0.(state := 1, fins := [None, w0.fins[1], w0.fins[2]]);
    assert w2 == w0.(state := 2, fins := [None, None, w0.fins[2]]);
    assert w3 == w0.(state := 3, fins := [None, None, None]);

    assert LeftPresses(0) + [LeftPress] == LeftPresses(1);
    PressAfterRun(ws, LeftPresses(0), k, aim, ws, []);
    assert LeftPresses(1) + [LeftPress] == LeftPresses(2);
    PressAfterRun(ws, LeftPresses(1), k, aim, ws[k := w1], [f0]);
    assert ws[k := w1][k := w2] == ws[k := w2];
    assert LeftPresses(2) + [LeftPress] == LeftPresses(3);
    PressAfterRun(ws, LeftPresses(2), k, aim, ws[k := w2], [f0, f1]);
    assert ws[k := w2][k := w3] == ws[k := w3];
    assert LeftPresses(3) + [LeftPress] == LeftPresses(4);
    PressAfterRun(ws, LeftPresses(3), k, aim, ws[k := w3], [f0, f1, f2]);
    assert ws[k := w3][k := w3] == ws[k := w3];
  }

  function Repeat(e: EntityId, n: nat): (s: seq<EntityId>)
    ensures |s| == n && forall i :: 0 <= i < n ==> s[i] == e
  {
    seq(n, _ => e)
  }

  /** Because despawns are deferred, a target without fins stays in the
      scan: every further press in the pass hits it again, requests its
      despawn once more and shields any windmill behind it. */
  lemma {:induction false} BareTargetAbsorbsPresses(ws: seq<Windmill>, k: nat, aim: Aim, n: nat)
    requires AllWellFormed(ws)
    requires FirstHit(ws, aim) == Some(k)
    requires ws[k].state == FinCount
    ensures Run(ws, LeftPresses(n), aim) == Step(ws, Repeat(ws[k].entity, n))
  {
    if n > 0 {
      assert LeftPresses(n - 1) + [LeftPress] == LeftPresses(n);
      BareTargetAbsorbsPresses(ws, k, aim, n - 1);
      RunThenPress(ws, LeftPresses(n - 1), aim);
      HitOnBareWindmill(ws[k]);
      PressOnTarget(ws, k, aim);
      assert ws[k := ws[k]] == ws;
      assert Repeat(ws[k].entity, n - 1) + [ws[k].entity] == Repeat(ws[k].entity, n);
    }
  }
}
