# Fight, Kokaton! — a verified model of the game state

This project models the game logic of `fight_kokaton.py`, a small pygame shooter. The player is
the bird ("kokaton"), who walks inside a 1600 x 900 field by the arrow keys and fires beams with
the space key. Bombs bounce off the field's walls. A beam that touches a bomb destroys it, leaves
a short explosion animation behind and earns 100 points. A bomb that touches the bird ends the
game.

Drawing is stripped away. What remains is integer arithmetic on axis-aligned rectangles and the
per-frame bookkeeping of `main`'s loop.

The modules follow the program's classes:

- `Geometry`: rectangles, `check_bound` and the rectangle operations the game takes from pygame.
- `Player`: `Bird`, its key table and its facing.
- `Beams`: `Beam`.
- `Bombs`: `Bomb`.
- `Explosions`: `Explosion`.
- `Scoring`: `Score`.
- `Sweep` and `Compaction`: reference definitions of one collision pass and of mark-then-compact.
- `Game`: the locals of `main` as a class, and one frame of its loop.

Each entity the source updates in place is a class, with its fields and a `State()` view. Each
method is proved equal to a pure step function (`BirdStep`, `BeamStep`, `BombStep`,
`ExplosionStep`), and the lemmas about the game are proved about those functions.

The collision pass is a loop over bombs with an inner loop over beams, marking list slots `None`
and then rebuilding the lists. `Game.Game.Sweep` is proved to do exactly what the recursive
reference `Sweep.BombPass` says:

- game over;
- the surviving bombs and beams;
- one explosion per hit, at the bomb's centre;
- 100 points per hit.

The lemmas about `BombPass` then give the promised properties: which bombs and beams survive, in
what order, and when the game ends.

Rectangles are `Rect(left, top, w, h)`, with `right = left + w`, `bottom = top + h` and centre
`(left + w / 2, top + h / 2)`. `colliderect` is taken to be strict overlap of two non-empty
rectangles, so rectangles that only touch along an edge do not collide. These are assumed
definitions of the graphics library's rectangle, which is not part of this model.

A new beam's centre is offset from the bird's centre by the bird's whole width (height) times
`vx / 5` (`vy / 5`), as `fight_kokaton.py:109-110` computes it.

## Model

| member | source | states |
|---|---|---|
| Geometry.Rect.Move | fight_kokaton.py:84 | `move_ip` translates by exactly `(dx, dy)` and keeps the size |
| Geometry.Centered | fight_kokaton.py:58-59 | setting the centre of a `w` x `h` rectangle gives that size and that centre |
| Geometry.CheckBound | fight_kokaton.py:14-25 | horizontal answer iff `left >= 0 && right <= WIDTH`; vertical answer iff `top >= 0 && bottom <= HEIGHT` |
| Geometry.CheckBoundAxesIndependent | fight_kokaton.py:20-24 | a vertical move never changes the horizontal answer, and vice versa |
| Geometry.CheckBoundEdges | fight_kokaton.py:21-24 | a rectangle at the origin is inside on both axes; one unit past any edge turns off exactly that axis |
| Geometry.CollideSymmetric | fight_kokaton.py:178 | collision does not depend on which rectangle asks |
| Player.NetMove | fight_kokaton.py:32-37 | each component of the held keys' displacement is -5, 0 or 5, and the move is either zero or one of the eight facings |
| Player.TableSum | fight_kokaton.py:78-82 | summing a displacement table with none of its keys held gives no move |
| Player.DeltaSum | fight_kokaton.py:32-37 | summing the key table over the held keys gives right-minus-left and down-minus-up, 5 each |
| Player.SumMoves | fight_kokaton.py:78-82 | the accumulation loop computes exactly that net displacement |
| Player.NetMoveFacing | fight_kokaton.py:47-56 | each component is -5, 0 or 5; a non-zero sum is always a key of the image table; zero iff opposite keys cancel |
| Player.Walk | fight_kokaton.py:84-86 | moving and undoing an out-of-field move never changes the bird's size |
| Player.BirdStep | fight_kokaton.py:84-91 | one `Bird.update` keeps the size, and a valid facing stays valid |
| Player.WalkAllOrNothing | fight_kokaton.py:84-86 | either the whole move is applied and the bird is inside, or the old position is restored exactly; the size never changes; inside stays inside |
| Player.BirdStepFacing | fight_kokaton.py:87-91 | facing and picture change iff the move is non-zero, even when the move was undone; a valid facing stays valid |
| Player.BirdRunStaysInField | fight_kokaton.py:72-91 | over any run of frames a bird that starts inside stays inside, keeps its size and a valid facing |
| Player.Bird.constructor | fight_kokaton.py:57-61 | the bird starts facing right, showing the right-facing picture, centred on the given point |
| Player.Bird.ChangeImg | fight_kokaton.py:63-70 | only the picture changes, to pose `num` |
| Player.Bird.Update | fight_kokaton.py:72-91 | the new state is `BirdStep` of the old one for the held keys, and the bird stays valid |
| Beams.Launch | fight_kokaton.py:103-110 | a new beam's velocity is the bird's facing and its size is the image size given |
| Beams.BeamStep | fight_kokaton.py:117 | one update moves the beam by its velocity, keeping velocity and size |
| Beams.LaunchOffset | fight_kokaton.py:103-110 | the beam's velocity is the facing; its centre is one whole bird width (height) from the bird's centre along each axis the facing points along, level on the other |
| Beams.BeamStraightLine | fight_kokaton.py:112-117 | after `n` updates the velocity is unchanged and the beam has moved by exactly `n` times it |
| Beams.Beam.constructor | fight_kokaton.py:97-110 | a new beam is `Launch` of the bird's state for the image size of its facing |
| Beams.Beam.Update | fight_kokaton.py:112-117 | the new state is `BeamStep` of the old one |
| Bombs.Spawn | fight_kokaton.py:125-140 | a new bomb is a `2 rad` square centred on the drawn point, with speed of magnitude 5 on each axis |
| Bombs.BombStep | fight_kokaton.py:147-152 | one update keeps the size and can only reverse each velocity component |
| Bombs.BombStepReflects | fight_kokaton.py:142-152 | each velocity component is reversed iff the rectangle was out on its axis before the move; speeds stay in {-5, 5}; then the bomb moves by the new velocity |
| Bombs.BombRunSpeed | fight_kokaton.py:142-152 | however long a bomb bounces, its speed stays 5 per axis and its size never changes |
| Bombs.BombEdgeJitter | fight_kokaton.py:147-152 | because the test comes before the move, a bomb out horizontally and still out one step back returns to the same horizontal place (left edge and width) and the same horizontal velocity every two updates |
| Bombs.SpawnOnLeftEdgeSticks | fight_kokaton.py:132-152 | a radius-10 bomb drawn on the left edge is out of the field horizontally after every update, odd or even, and back at `left == -10` after every even number of updates |
| Bombs.Bomb.constructor | fight_kokaton.py:125-140 | the bomb built from the draws is `Spawn` of them, and valid |
| Bombs.Bomb.Update | fight_kokaton.py:142-152 | the new state is `BombStep` of the old one, and the bomb stays valid |
| Explosions.NextIndex | fight_kokaton.py:262-265 | the index goes up by one or stops at the last picture, never passing it |
| Explosions.ExplosionStep | fight_kokaton.py:252-254 | one update takes one unit of life and either keeps the picture or advances it by `NextIndex` |
| Explosions.ExplosionIndexBounded | fight_kokaton.py:258-266 | one update never lowers the picture index and never takes it past 3 |
| Explosions.ExplosionSchedule | fight_kokaton.py:248-266 | after `n` updates a new explosion has life `40 - n` and picture `min(3, n / 10)` |
| Explosions.ExplosionLifecycle | fight_kokaton.py:249-254 | life stays positive for the first 39 updates; after 40 it is 0 with the last picture showing |
| Explosions.ExplosionStepOnSchedule | fight_kokaton.py:251-254 | an update keeps the picture index equal to the schedule's |
| Explosions.Explosion.constructor | fight_kokaton.py:242-249 | life 40, picture 0, centred on the bomb's centre |
| Explosions.Explosion.Update | fight_kokaton.py:251-254 | the new state is `ExplosionStep` of the old one; the centre is kept and the explosion stays on schedule |
| Explosions.Explosion.NextImg | fight_kokaton.py:258-266 | the index goes up by one, clamped at the last picture |
| Scoring.Score.constructor | fight_kokaton.py:276-277 | the score starts at 0 |
| Scoring.Score.GainPoints | fight_kokaton.py:286-287 | the score grows by exactly the points given |
| Sweep.BeamPass | fight_kokaton.py:185-204 | the inner loop, as a reference; the beams kept come from the list |
| Sweep.BeamPassFate | fight_kokaton.py:185-202 | a beam is kept iff it misses the bomb and has not passed the right edge |
| Sweep.BeamPassHits | fight_kokaton.py:186-199 | a bomb is hit iff some beam touches it; each hit uses up one beam |
| Sweep.BeamPassCount | fight_kokaton.py:186-199 | the number of hits on a bomb is exactly the number of beams touching it |
| Sweep.BeamPassOrder | fight_kokaton.py:204 | the beams kept are in their original relative order |
| Sweep.BombPass | fight_kokaton.py:177-207 | the whole pass, as a reference; the bombs and beams left come from the lists |
| Sweep.SweepOverIff | fight_kokaton.py:177-183 | the game ends in the pass iff some bomb touches the bird |
| Sweep.SweepOverStable | fight_kokaton.py:177-183 | once the game is over, later bombs change nothing |
| Sweep.SweepStopsAtFirstCollision | fight_kokaton.py:177-183 | the first bomb touching the bird ends the game before any beam is tested against it; explosions of earlier bombs stand |
| Sweep.SweepKeepsOrder | fight_kokaton.py:204-206 | the bombs and the beams left are in their original relative order |
| Sweep.SweepBeamFate | fight_kokaton.py:185-204 | with no bombs every beam is kept, even off-screen; otherwise a beam survives iff it is not past the right edge and touches no bomb |
| Sweep.SweepBombFate | fight_kokaton.py:185-206 | a bomb no beam touches survives; beams left plus explosions is at most beams before; bombs left plus explosions is at least bombs before |
| Sweep.SweepBombSettled | fight_kokaton.py:177-206 | in a list without duplicates, once a bomb's turn is over later bombs never remove it or put it back |
| Sweep.SweepBombRemoved | fight_kokaton.py:185-206 | when the game goes on, a bomb is removed iff a beam still in flight at its turn touches it, and its turn adds one explosion at its centre per such beam |
| Sweep.SweepSingleHit | fight_kokaton.py:185-199 | one overlapping bomb and beam: both removed, one explosion at the bomb's centre, 100 points |
| Sweep.SweepDoubleHit | fight_kokaton.py:185-199 | a bomb hit by two beams in one frame gives two explosions and 200 points |
| Compaction.Compact | fight_kokaton.py:204 | the comprehension that drops `None` slots is never longer than the slot list; what it keeps and in what order are the lemmas below |
| Compaction.CompactMembers | fight_kokaton.py:204-207 | compaction keeps exactly the entities held in some slot |
| Compaction.CompactAppend | fight_kokaton.py:207 | compacting a concatenation compacts each part |
| Compaction.CompactWrap | fight_kokaton.py:206 | a list with no marked slot compacts back to itself |
| Compaction.CompactPosition | fight_kokaton.py:207 | the entity of any occupied slot appears in the compacted list, at a position the lemma returns |
| Compaction.CompactSubseq | fight_kokaton.py:204-207 | the survivors of a compaction are in their original relative order |
| Compaction.CompactDistinct | fight_kokaton.py:204-207 | slots holding no entity twice compact to a list without duplicates |
| Compaction.CompactFull | fight_kokaton.py:207 | slots that are all occupied compact to their contents, slot by slot |
| Game.MarkingDone | fight_kokaton.py:185-204 | after the inner loop, the occupied beam slots are what `BeamPass` keeps, without duplicates |
| Game.BombMarkingDone | fight_kokaton.py:177-206 | after the bomb loop, the occupied bomb slots and the beam list are what `BombPass` leaves |
| Game.MakeBombs | fight_kokaton.py:161 | one new, valid bomb per draw, in order, all distinct |
| Game.Game.constructor | fight_kokaton.py:156-164 | the bird starts at (900, 400) facing right; one bomb per draw; no beams or explosions; score 0; the beam image sizes are the ones given |
| Game.Game.Fire | fight_kokaton.py:172-173 | a space-key press appends one new beam, launched from the bird along its facing |
| Game.Game.FireAll | fight_kokaton.py:169-173 | one beam per press is appended, each new and launched from the bird along its facing; earlier beams untouched |
| Game.Game.Hit | fight_kokaton.py:188-199 | a hit appends a new explosion at the bomb's centre, shows pose 6 and adds 100 to the score |
| Game.Game.TestBeam | fight_kokaton.py:186-202 | one beam against one bomb: a touching beam marks the bomb's slot and scores one hit; the beam stays iff it misses and is not past the right edge |
| Game.Game.BeamLoopStep | fight_kokaton.py:185-202 | one step of the inner loop keeps the slot marking in step with `BeamPass` |
| Game.Game.BeamLoop | fight_kokaton.py:185-204 | the inner loop and compaction leave exactly the beams `BeamPass` keeps, with one new explosion and 100 points per hit |
| Game.Game.BombLoopStep | fight_kokaton.py:177-204 | one bomb clear of the bird: the loop's state advances exactly as `BombPass` does |
| Game.Game.BombLoop | fight_kokaton.py:177-204 | the bomb loop stops at a bomb touching the bird iff the pass ends the game; otherwise the slots and beams are what `BombPass` leaves, with one explosion per hit |
| Game.Game.Collisions | fight_kokaton.py:177-204 | as `BombLoop`, keeping the game's invariant with the new explosions |
| Game.Game.Sweep | fight_kokaton.py:177-207 | game over iff `BombPass` says so (the bird then shows pose 8 and nothing is compacted); otherwise bombs, beams and explosions are compacted as `BombPass` says; score grows by 100 per explosion |
| Game.Game.Settle | fight_kokaton.py:206-207 | the bombs become the occupied bomb slots and the explosions the occupied explosion slots, in order |
| Game.Game.UpdateBombs | fight_kokaton.py:213-214 | every bomb takes one `BombStep` |
| Game.Game.UpdateBeams | fight_kokaton.py:216-217 | every beam takes one `BeamStep` |
| Game.Game.Age | fight_kokaton.py:219-222 | every explosion takes one `ExplosionStep` and keeps its centre; its slot is marked iff its life is then at most 0 |
| Game.Game.UpdateExplosions | fight_kokaton.py:219-222 | as `Age`, keeping the game's invariant |
| Game.Game.Advance | fight_kokaton.py:209-222 | the bird takes one `BirdStep` for the held keys, every bomb and beam one step, every explosion one step with its centre kept and its slot marked iff its life is then at most 0 |
| Game.Game.Proceed | fight_kokaton.py:209-222 | after a collision pass, each old live explosion and each new one takes one `ExplosionStep` and keeps its centre, and the slot of each is marked iff its life is then at most 0; bird, bombs and beams as `Advance` |
| Game.Game.CollisionPass | fight_kokaton.py:177-207 | the game ends iff some bomb touches the bird (pose 8); otherwise bombs and beams are exactly what `BombPass` leaves on the rectangles they had, and the explosions are the old ones compacted followed by one new explosion per hit, each at the start of its life and centred on its `BombPass` blast; the score grows by 100 per hit |
| Game.Game.FireAndCollide | fight_kokaton.py:169-207 | one new, distinct beam per key press this frame, each launched from the bird, takes part in the collision pass, whose outcome is `BombPass` on the old bombs and the old beams plus the new ones; the explosions are the old ones compacted, untouched, followed by one new explosion per blast at its centre |
| Game.Game.Tick | fight_kokaton.py:168-222 | one frame: one new, distinct beam is fired per key press; the outcome of the collision pass is `BombPass` over the old bombs and the old beams plus the beams fired; game over iff a bomb touched the bird; otherwise the bombs and beams left are exactly that outcome's, each bomb takes one `BombStep` and each beam one `BeamStep` from its old or launch state; the explosion slots are the old live explosions in order followed by one per blast, each aged by one `ExplosionStep` from its old state or from the start, keeping its centre (the blast's for a new one), and marked iff its life is then at most 0; the bird takes one `BirdStep` and the score grows by 100 per explosion; a bird inside the field stays inside |
| Game.Game.Play | fight_kokaton.py:168-228 | the loop runs every frame unless the game ends; the score stays 100 per hit and the bird inside the field |

## Left out

- Drawing is not modelled: `screen.blit`, `pg.display.update`, the background image, bomb colours and the colour key.
- Image assets are not modelled. The bird's picture is a facing index or a pose number. The explosion's picture is its index. The bird's and the rotated beam's image sizes are parameters of `Game.Game.constructor`.
- The beam's rotation angle (`math.atan2`, `math.degrees`) is not modelled: it is floating point and only affects drawing.
- Randomness in `Bomb()` is not modelled: each draw is a `Draw` parameter, constrained to the same ranges.
- Event polling is not modelled: the held keys and the number of space-key presses of each frame are parameters.
- The window's `QUIT` event is not modelled; `Game.Game.Play` simply runs out of frames instead.
- Timing is not modelled: `time.sleep(1)` after game over, `clock.tick(50)` and the `tmr` counter.
- The score's font and on-screen text are not modelled (`Score.update`, lines 279-284 and 289-292).
- Integer width is not modelled: pygame's `Rect` holds C `int`s, while `Geometry` uses unbounded integers. Beams that fly left, up or down are never removed for leaving the field (only a hit removes them), because only `right > WIDTH` is tested (`fight_kokaton.py:201`), so after enough frames `move_ip` would wrap their coordinates; the model lets them keep moving instead.
- The internals of pygame's `Rect` are not part of this model. `move_ip`, the centre setter, `right`, `bottom` and `colliderect` are the assumed integer definitions in `Geometry`. The beam's centre is computed with Python's true division; it is modelled with integer division, which agrees because `vx` and `vy` are always -5, 0 or 5.
