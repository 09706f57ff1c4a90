# Archery game: per-frame game state

This project models the game state behind the first-person archery game in
`src/components/ArcheryGame.tsx`, with the rendering removed. It has four parts:

- **Arrows.** A click launches an arrow at speed 30 along the camera's aim
  with a one-point trail. On each frame every arrow:
  - adds gravity (-15) to its vertical velocity;
  - moves by the new velocity times the frame time;
  - appends its position to a trail of at most 15 points;
  - is removed when it falls below the ground or goes farther than 150 from
    the origin.

  Each arrow applies its own result to the game's live arrow list, keyed by
  its id.
- **Crates and the collision pass.**
  - Five bomb crates are placed when the game mounts.
  - The collision pass tests every rendered arrow against every rendered
    crate. An arrow closer than 1.2 to an active crate appends an explosion
    at the crate, deactivates the crate by id, and removes the arrow by id.
  - The pass reads the lists as they were when it started, and its updates
    compose on the live lists. So a crate two arrows reach in the same pass
    explodes twice.
- **Explosions.** Every 500 ms a sweep drops the explosions that are 2000 ms
  old or older.
- **Player and crossbow.**
  - The player's vertical state covers jumping from at most height 2.1
    (force 8, gravity -20) and landing on the ground at height 2.
  - The crossbow's recoil grows at 10 per second while the bow is drawn and
    eases back at 8 per second otherwise. It is clamped to [0, 0.1].

Numbers are exact `real`s. Distances are compared squared:
- 150 becomes 22500;
- 1.2 becomes 1.44.

Clock readings are integer milliseconds.

Files and modules:
- `vectors.dfy`: `Vectors`.
- `arrows.dfy`: `Arrows`, the arrow record, its step and the id-keyed list updates.
- `crates.dfy`: `Crates`.
- `explosions.dfy`: `Explosions`.
- `collisions.dfy`: `Collisions`. The pass is a fold over the two snapshot lists.
- `game.dfy`: `ArcheryGame`. It holds the class `Game` with the component's four state lists and one method per handler or per-frame callback.
- `player.dfy`: `Player`.
- `crossbow.dfy`: `Crossbow`.

## Model

| member | source | states |
|---|---|---|
| Arrows.Launch | src/components/ArcheryGame.tsx:75-80 | a new arrow has the given id, starts at the start point with a one-point trail holding it (so its trail is valid), and its velocity is the aiming direction scaled by 30 (so its speed is 30 times the direction's length) |
| Arrows.PushTrail | src/components/ArcheryGame.tsx:589-592 | the new position ends the trail; a trail shorter than 15 grows by it; a full trail drops exactly its oldest point; a trail of at most 15 stays at most 15 |
| Arrows.TrailKeepsLatest | src/components/ArcheryGame.tsx:589-592 | however many positions are pushed, a trail of at most 15 points holds exactly the latest 15 of everything it was given, oldest first |
| Arrows.Advance | src/components/ArcheryGame.tsx:578-592 | only the vertical velocity changes, by gravity times delta; the position moves by the new velocity (semi-implicit Euler), written out per axis; the id is kept; a valid trail stays valid |
| Arrows.Step | src/components/ArcheryGame.tsx:611-623 | the arrow is removed exactly when its new height is below 0 or its new squared distance from the origin exceeds 22500; otherwise it is replaced by its advanced record, which is then in range |
| Arrows.RemoveIdsMembers | src/components/ArcheryGame.tsx:190-192 | filtering by id keeps exactly the arrows whose id is not removed |
| Arrows.RemoveIdsAppend | src/components/ArcheryGame.tsx:190-192 | filtering keeps the order: it distributes over concatenation |
| Arrows.RemoveIdsTwice | src/components/ArcheryGame.tsx:111 | two queued removals amount to one removal by the union of their ids |
| Arrows.RemoveIdsAbsent | src/components/ArcheryGame.tsx:190-192 | removing ids nobody carries changes nothing |
| Arrows.RemoveIds | src/components/ArcheryGame.tsx:191 | the id filter; characterised by Arrows.RemoveIdsMembers (what it keeps), Arrows.RemoveIdsAppend (order), Arrows.RemoveIdsTwice and Arrows.RemoveIdsAbsent |
| Arrows.ReplaceById | src/components/ArcheryGame.tsx:187-189 | the update replaces exactly the entries carrying the arrow's id and keeps the length and every other entry |
| Arrows.ApplyOutcomeAlone | src/components/ArcheryGame.tsx:187-192 | when only one entry carries the id, an arrow's frame replaces or removes that entry and nothing else |
| Arrows.FrameByPrefix | src/components/ArcheryGame.tsx:183-194 | with distinct ids, after the first k arrows of a frame the live list holds their survivors, stepped and in order, followed by the arrows not yet stepped |
| Arrows.ApplyOutcome | src/components/ArcheryGame.tsx:187-192 | one arrow's update or removal applied to the live list by id; characterised by Arrows.ApplyOutcomeAlone |
| Arrows.FrameBy | src/components/ArcheryGame.tsx:183-194 | the per-arrow setters of one frame folded in list order over the live list; characterised by Arrows.FrameByPrefix and Arrows.FrameByKeepsTrails |
| Arrows.FrameArrows | src/components/ArcheryGame.tsx:183-194 | the frame fold with every arrow's own step at the frame's delta; characterised by Arrows.FrameIsSurvivors and Arrows.FrameKeepsTrails |
| Arrows.FrameIsSurvivors | src/components/ArcheryGame.tsx:183-194 | with distinct ids, a whole frame of every arrow leaves exactly the survivors, each replaced by its stepped record, in their original order |
| Arrows.FrameByKeepsTrails | src/components/ArcheryGame.tsx:589-623 | a frame keeps every trail on the live list valid: non-empty, at most 15 points and ending at the arrow's position |
| Crates.InitialCrates | src/components/ArcheryGame.tsx:52-58 | five crates with distinct ids, all active, all at height 1.5 |
| Crates.DeactivateIds | src/components/ArcheryGame.tsx:108 | deactivation keeps length, order, ids and positions; a crate is active afterwards exactly when it was active and its id was not named |
| Crates.DeactivateIdsTwice | src/components/ArcheryGame.tsx:108 | two queued deactivations amount to one by the union of their ids |
| Crates.DeactivateIdsLeavesOthers | src/components/ArcheryGame.tsx:108 | a crate that is inactive or not named comes out unchanged |
| Explosions.Expire | src/components/ArcheryGame.tsx:122-127 | the sweep keeps exactly the explosions with now - createdAt < 2000 and never lengthens the list |
| Explosions.ExpireAppend | src/components/ArcheryGame.tsx:126 | the sweep keeps the original order: it distributes over concatenation |
| Explosions.ExpireLater | src/components/ArcheryGame.tsx:122-127 | a sweep at a later clock reading after one at an earlier reading is the later sweep alone |
| Explosions.ExpireIdempotent | src/components/ArcheryGame.tsx:126 | two sweeps at the same clock reading give the result of one |
| Collisions.ResolveArrowArrows | src/components/ArcheryGame.tsx:91-111 | one arrow's inner loop filters that arrow out of the live list exactly when it hit one of the crates tested so far |
| Collisions.ResolveArrowCrates | src/components/ArcheryGame.tsx:91-108 | one arrow's inner loop deactivates, by id, exactly the crates it hit so far |
| Collisions.ResolveArrowExplosions | src/components/ArcheryGame.tsx:91-106 | one arrow's inner loop appends one explosion per crate it hit so far, in crate order |
| Collisions.ResolveArrows | src/components/ArcheryGame.tsx:88-119 | after the first i arrows of the pass, the live arrow list has lost exactly the ids of those among them that hit a crate |
| Collisions.ResolveCrates | src/components/ArcheryGame.tsx:88-119 | after the first i arrows of the pass, exactly the crates they hit are deactivated by id |
| Collisions.ResolveExplosions | src/components/ArcheryGame.tsx:88-119 | after the first i arrows of the pass, one explosion per hit has been appended, in loop order |
| Collisions.CratesHitByMembers | src/components/ArcheryGame.tsx:92-95 | an arrow hits exactly the active snapshot crates closer than 1.2 |
| Collisions.PassHitsExactly | src/components/ArcheryGame.tsx:90-95 | a crate is hit in the pass exactly when it is a snapshot crate and some snapshot arrow is within range of it; inactive crates never are |
| Collisions.HitArrowIdsExactly | src/components/ArcheryGame.tsx:90-111 | an arrow id is removed exactly when some snapshot arrow carrying it is within range of an active snapshot crate |
| Collisions.Hit | src/components/ArcheryGame.tsx:92-111 | one arrow against one snapshot crate: the three queued updates when it collides, nothing otherwise; characterised by Collisions.ResolveArrowArrows, Collisions.ResolveArrowCrates and Collisions.ResolveArrowExplosions |
| Collisions.ResolveArrow | src/components/ArcheryGame.tsx:91-114 | one arrow's inner loop over the snapshot crates; characterised by Collisions.ResolveArrowArrows, Collisions.ResolveArrowCrates and Collisions.ResolveArrowExplosions |
| Collisions.Resolve | src/components/ArcheryGame.tsx:90-115 | the outer loop over the snapshot arrows; characterised by Collisions.ResolveArrows, Collisions.ResolveCrates and Collisions.ResolveExplosions |
| Collisions.Pass | src/components/ArcheryGame.tsx:88-119 | one whole collision pass over the scene's own lists; characterised by Collisions.PassEffect, Collisions.PassArrows, Collisions.PassCrates and Collisions.PassExplosions |
| Collisions.PassEffect | src/components/ArcheryGame.tsx:88-119 | the whole pass is three independent list updates: arrows filtered by the hitting ids, crates deactivated by the hit ids, and one explosion appended per hit |
| Collisions.PassExplosions | src/components/ArcheryGame.tsx:97-106 | the pass keeps every earlier explosion as a prefix and appends one per hit, each created at now at a crate's position |
| Collisions.PassCrates | src/components/ArcheryGame.tsx:107-108 | the pass keeps every crate's id, position and place; a crate stays active exactly when it was active and no arrow hit a crate with its id |
| Collisions.PassArrows | src/components/ArcheryGame.tsx:110-111 | the pass keeps exactly the arrows whose id no hitting arrow carries |
| Collisions.SharedCrateExplodesTwice | src/components/ArcheryGame.tsx:88-119 | two arrows that reach the same active crate in one pass both hit it: two explosions, both arrows removed, the crate inactive |
| ArcheryGame.Game.constructor | src/components/ArcheryGame.tsx:42-60 | the game starts with no arrows or explosions, the five placed crates, the bow released, and its invariant holding |
| ArcheryGame.Game.Shoot | src/components/ArcheryGame.tsx:62-85 | without controls nothing changes; otherwise the launched arrow is appended and the bow is drawn; the invariant is kept |
| ArcheryGame.Game.ReleaseBow | src/components/ArcheryGame.tsx:84 | the bow is released and nothing else changes |
| ArcheryGame.Game.AdvanceArrows | src/components/ArcheryGame.tsx:183-194 | a frame of every rendered arrow, in list order, is the fold of their outcomes on the live list; with distinct ids it leaves exactly the stepped survivors; trails stay valid; nothing else changes |
| ArcheryGame.Game.CheckCollisions | src/components/ArcheryGame.tsx:87-119 | the nested loops over the snapshot lists produce exactly the collision pass; the invariant is kept; no crate is reactivated |
| ArcheryGame.Game.ExpireExplosions | src/components/ArcheryGame.tsx:121-130 | the explosions become the sweep at now; nothing else changes; the invariant is kept |
| ArcheryGame.PassKeepsValid | src/components/ArcheryGame.tsx:88-119 | a collision pass keeps trails valid, the crates in place, every explosion at a placed crate, and never reactivates a crate |
| Player.VerticalStep | src/components/ArcheryGame.tsx:445-467 | after a frame the height is at least 2; a jump under way is above the ground; a jump starts only with Space held, no jump under way and height at most 2.1; during a jump (or on takeoff, with velocity 8) the height moves by the velocity from before gravity, the jump goes on exactly when that height is above 2, and the velocity then drops by 20 times delta, otherwise it lands at height 2 with velocity 0; without a jump the height is raised to 2 and nothing else changes |
| Player.VerticalStepKeepsResting | src/components/ArcheryGame.tsx:445-467 | while no jump is under way the jump velocity stays zero |
| Player.TakeoffRises | src/components/ArcheryGame.tsx:446-454 | a jump from the ground rises by the full jump force times delta and leaves gravity's pull in the velocity |
| Player.JumpSlowsDown | src/components/ArcheryGame.tsx:452-454 | during a jump, every frame with positive time lowers the vertical velocity |
| Player.RunStaysGrounded | src/components/ArcheryGame.tsx:445-467 | over any sequence of frames the camera never goes below height 2 and rests with zero velocity |
| Player.Player.constructor | src/components/ArcheryGame.tsx:13 | the camera spawns at height 2, not jumping, with jump velocity 0 (lines 406-407), so it rests on the ground |
| Player.Player.Frame | src/components/ArcheryGame.tsx:445-467 | the in-place updates of height, jumping flag and velocity equal one vertical step; the height is at least 2 afterwards |
| Crossbow.RecoilStep | src/components/ArcheryGame.tsx:485-489 | drawn, the recoil becomes recoil + 10 times delta, or exactly 0.1 when that would exceed 0.1; released, it becomes recoil - 8 times delta, or exactly 0 when that would go below 0; drawn it never exceeds 0.1, released it never goes below 0 |
| Crossbow.RecoilStaysClamped | src/components/ArcheryGame.tsx:485-489 | recoil within [0, 0.1] stays within [0, 0.1] after any frame with non-negative delta, drawn or not |
| Crossbow.RecoilSaturates | src/components/ArcheryGame.tsx:485-489 | a frame of at least 0.01 s drawn gives full recoil; one of at least 0.0125 s released gives none |
| Crossbow.Crossbow.constructor | src/components/ArcheryGame.tsx:476 | the recoil starts at 0 |
| Crossbow.Crossbow.Frame | src/components/ArcheryGame.tsx:485-489 | the in-place recoil update equals one recoil step and keeps the recoil clamped |

## Left out

- Horizontal player movement. WASD moves the camera along its rotation (three.js `applyEuler`), and moving horizontally never changes the height.
- Rotations. The camera-relative aiming direction, the crossbow offset and the arrow's `lookAt` orientation are 3D-library rotations. The launch direction and start point are parameters of `Shoot`.
- Rendering, materials, lights, the explosion's scale and opacity animation, and the random placement of trees and particles. These are cosmetic or random.
- DOM listeners, pointer lock, `setTimeout` and `setInterval`. Each becomes a call: a click is `Game.Shoot`, the 200 ms timer is `Game.ReleaseBow`, the 500 ms interval is `Game.ExpireExplosions`, and the keyboard listeners supply the `space` argument of `Player.Player.Frame`. The clock reading `now` is a parameter.
- React's render cycle. The arrow frame is modelled with the lists each arrow was rendered with as the snapshot, and `CheckCollisions` commits its queued updates together when the pass ends.
- The null checks on the controls and on the crossbow and arrow scene-graph refs. A missing control is the `hasControls` flag of `Shoot`. The arrow ref only guards rendering. The crossbow ref also guards the recoil update; it is set from mount on, so the model updates the recoil every frame.
- `Date.now()` ids. Arrow ids are parameters. One clock reading gives every explosion of a pass its id and creation time, as within one millisecond.
- Unique arrow ids. The frame lemmas that need distinct ids state that as a precondition; `AdvanceArrows` states its general result as a fold.
- `src/routes/index.tsx` is not part of this model; it only renders the component.
- Floating-point rounding. Arithmetic is exact over `real`.
- Enemies, a dragon boss, rockets, player health and damage cooldowns. The component contains none of them.
