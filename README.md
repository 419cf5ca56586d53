# Windmill destruction state machine

A Dafny model of the windmill field in `src/main.rs`: a Bevy scene of ten
windmills, each a rod with three fins. The viewer dismantles them with left
clicks. Each windmill carries a `Windmill` component with two parts. `state`
counts the fins removed so far. `fins` holds three optional fin entities.
A left press hits the first windmill, in query order, whose base lies
strictly within 0.5 of the aim point on both x and z. If that windmill still
has fins, the fin in slot `state` is taken out and despawned, and `state`
goes up by one. If it has none left (state 3), the windmill entity itself is
despawned.

The model has two modules:

- `Windmills` (`windmills.dfy`) states the state machine on values. `Hit` is
  one hit on one windmill, with the two panics of the source's `fins[state]`
  and `unwrap()` written out as `Err`. `FirstHit` is the first-match scan.
  `Press` is one left press over the whole query. `Run` is all the mouse
  events of a frame. The lemmas prove the slot invariant, the effects of a
  hit, the first-match rule, that ignored events change nothing, and the
  four-click dismantling sequence.
- `FinDestruction` (`scene.dfy`) is the imperative side. Class `Scene` holds
  the windmill query as an array of records updated in place, the
  `WindmillFin` indices, the queue of despawn commands and an entity
  counter. The constructor `Setup` is the `setup` system's windmill loop.
  `HandleLeftPress` is the scan loop with its `break`, and
  `MouseFinDestruction` is the loop over mouse events. Each method is proved
  against `Press` or `Run` and keeps the invariant `Valid()`.

Despawning is deferred in Bevy: a despawned windmill stays in the query
until the commands are applied after the system. The model therefore queues
a despawn request and leaves the record in place. Several presses in one
frame on a windmill that has no fins left each queue its despawn again. That
windmill also shields any windmill behind it
(`BareTargetAbsorbsPresses`).

Inputs the source takes from the engine become parameters. The windmill
positions drawn by `rand` are a `seq<Position>`. The aim point is an
`Option<Aim>`, where `None` stands for "no active 3D camera", the case in
which the system returns early.

Notes on the code itself:

- The aim point at `src/main.rs:186` uses `x` and `z`, which are defined
  nowhere in the function, and the ray computed at line 168 is never used.
  The model takes the aim point as an input.
- The `unwrap()` at `src/main.rs:193` panics on an empty slot. `Hit` returns
  `Err(UnwrapOnNone)` in that case, and its contract proves that
  `WellFormed` rules this out.
- The despawn at `src/main.rs:190` is a deferred command, so within one frame
  the record stays and absorbs further hits (`BareTargetAbsorbsPresses`).

## Model

| member | source | states |
|---|---|---|
| `FinDestruction.Scene.Setup` | src/main.rs:69-95 | Builds ten windmills at the given positions. Each has state 0, its base at height 2.0, and slot j holding the fin spawned with `WindmillFin.index == j`. Entities are numbered in spawn order: the k-th windmill's fins are 4k, 4k+1 and 4k+2, and its rod is 4k+3. No despawn is queued. |
| `FinDestruction.Scene.HandleLeftPress` | src/main.rs:181-199 | The in-place scan loop with `break` leaves the query equal to `Press` of the old query and appends exactly `Press`'s despawn to the command queue. It keeps the slot invariant and the fin indices, so the `unwrap()` cannot fail. |
| `FinDestruction.Scene.MouseFinDestruction` | src/main.rs:158-202 | With no active camera, nothing changes. Otherwise the query and the command queue become `Run` of the frame's mouse events, taken in order against one aim point. The invariant is kept. |
| `Windmills.Hit` | src/main.rs:188-196 | A hit on a well-formed windmill never panics, and the windmill stays well formed: the empty slots remain exactly the prefix `fins[0..state)`. A hit never changes the windmill's entity or position. |
| `Windmills.HitTakesNextFin` | src/main.rs:193-195 | A hit at state s < 3 empties slot s, despawns the fin that was there and sets state to s+1. The other two slots are unchanged. |
| `Windmills.HitOnBareWindmill` | src/main.rs:189-191 | A hit at state 3 despawns the windmill entity and leaves its state and slots untouched. |
| `Windmills.HitDespawnsFinOfCurrentIndex` | src/main.rs:188-195 | The fin a hit despawns is the one spawned with `WindmillFin.index` equal to the state before the hit. The remaining fins keep their indices. |
| `Windmills.StateCountsEmptySlots` | src/main.rs:31-34 | On a well-formed windmill, `state` equals the number of empty fin slots. |
| `Windmills.EmptyPrefixCount` | src/main.rs:31-34 | A slot sequence whose empty slots are exactly its first n has n empty slots. |
| `Windmills.InBoxIsOpenSquare` | src/main.rs:186 | The hit test holds exactly when the base lies in the open square of half-width 0.5 around the aim point on x and z. A difference of 0.5 or more on either axis is a miss. |
| `Windmills.InBoxIgnoresHeight` | src/main.rs:186 | The y coordinate plays no part in the hit test. |
| `Windmills.FirstHit` | src/main.rs:185-186 | Returns the index of a windmill that passes the box test, with no earlier windmill passing it. It returns None exactly when no windmill passes. |
| `Windmills.FirstHitFollowsTranslations` | src/main.rs:185-186 | The target of a press depends only on the windmills' positions. |
| `Windmills.Press` | src/main.rs:185-197 | One left press changes at most the first windmill in the box. Every other windmill is unchanged, entities and positions are kept, and at most one despawn is issued. A press that hits nothing has no effect. Well-formedness is preserved. |
| `Windmills.PressSparesWindmillOutsideBox` | src/main.rs:186 | A windmill that fails the box test is never changed by a press. |
| `Windmills.PressOnTarget` | src/main.rs:185-197 | A press whose target is k applies `Hit` to windmill k alone and despawns what `Hit` names. Windmill k remains the target of the next press at the same aim. |
| `Windmills.Run` | src/main.rs:177-202 | Handling a frame's events keeps the query's length, entities, positions and well-formedness. It issues at most one despawn per event. |
| `Windmills.PressAfterRun` | src/main.rs:177-197 | Within a frame, every left press lands on the same target and applies `Hit` to it. |
| `Windmills.OtherEventsChangeNothing` | src/main.rs:180-200 | Events other than a left-button press change no windmill and despawn nothing. |
| `Windmills.FourPressesDismantle` | src/main.rs:188-196 | After one, two and three presses on an intact target, the target is at state 1, 2 and 3, with slots 0, 0-1 and 0-2 emptied and fins 0, 1 and 2 despawned in that order. The fourth press despawns the windmill itself. At every step no other windmill changes. |
| `Windmills.BareTargetAbsorbsPresses` | src/main.rs:189-191 | Each of n presses on a target without fins queues that windmill's despawn again and changes no record, because the despawn is deferred. |

## Left out

- `fan_rotation_system` (src/main.rs:117-136) is left out. It is f32 trigonometry, quaternions and the engine clock.
- App wiring in `main`, and the meshes, materials, plane, light and camera spawned by `setup`, are engine plumbing and are left out.
- The random draw of windmill positions is left out. The positions are a parameter of `Setup`; the source draws each coordinate from [-15, 15).
- Cursor lock and visibility, on Escape and on every mouse event, are left out. They are window side effects that do not touch windmill state.
- The camera lookup and the ray are left out. The aim point is an input, since the source never derives one.
- The red sphere spawned at src/main.rs:170-174 is left out. It is spawned on every pass that finds the active "Camera3d" camera (after the early return at lines 158-162), and it has no effect on windmills.
- f32 rounding in the hit test is not modelled. Coordinates are `real`.
- Applying queued despawns to the world after the system runs is Bevy's, not the source's. The model ends at the command queue.
- Mouse events left unread in the event buffer when the system returns early are not modelled.
- `FinDestruction.Scene.Setup`: entity ids come from a counter starting at 0. Bevy's allocator is not modelled, so the ids are distinct by construction rather than opaque.
