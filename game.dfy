/** The game loop's state (the locals of `main`) and one frame of it: fire
    beams, run the collision pass, update every entity, and drop the
    explosions that have burnt out. */
module Game {
  import opened Geometry
  import opened Compaction
  import opened Player
  import opened Beams
  import opened Bombs
  import opened Explosions
  import opened Scoring
  import opened Sweep

  /** `NUM_OF_BOMBS`. */
  const NumOfBombs := 2

  /** Where the bird starts: `Bird(3, (900, 400))`. */
  const BirdStart: (int, int) := (900, 400)

  /** The random draws one `Bomb()` makes: radius, centre and velocity. */
  datatype Draw = Draw(rad: nat, cx: int, cy: int, vx: int, vy: int)

  /** Explosions `es` were just made, one per entry of `centers`, centred
      there. */
  ghost predicate Spawned(es: seq<Explosion>, centers: seq<(int, int)>)
    reads set e | e in es
  {
    |es| == |centers| &&
    forall k :: 0 <= k < |es| ==> es[k].Valid() && es[k].State() == Explosions.Start && es[k].center == centers[k]
  }

  /** The explosions still in a slot. */
  ghost function Live(slots: seq<Option<Explosion>>): set<Explosion>
  {
    set k | 0 <= k < |slots| && slots[k].Some? :: slots[k].value
  }

  /** After `j` steps of the inner loop over `beams` against `target`:
      slots before `j` are still or no longer occupied by their beam, those
      from `j` on are untouched, the occupied ones before `j` are the beams
      `BeamPass` keeps, and `n` is its hit count. */
  ghost predicate Marking(target: Rect, beams: seq<Beam>, beamAt: Beam -> Rect,
                          slots: seq<Option<Beam>>, j: nat, n: nat)
  {
    j <= |beams| == |slots| &&
    (forall k :: 0 <= k < |slots| ==> slots[k] == None || slots[k] == Some(beams[k])) &&
    (forall k :: j <= k < |slots| ==> slots[k] == Some(beams[k])) &&
    Compact(slots[..j]) == BeamPass(target, beams[..j], beamAt).0 &&
    n == BeamPass(target, beams[..j], beamAt).1
  }

  /** One step of the inner loop: slot `j` is kept or marked, and a hit
      adds one to the count. */
  lemma BeamSlotStep(target: Rect, beams: seq<Beam>, beamAt: Beam -> Rect,
                     before: seq<Option<Beam>>, after: seq<Option<Beam>>, j: nat, n: nat, keep: bool)
    requires Marking(target, beams, beamAt, before, j, n) && j < |beams|
    requires after == if keep then before else before[j := None]
    requires keep <==> !Collide(beamAt(beams[j]), target) && beamAt(beams[j]).Right() <= WIDTH
    ensures Marking(target, beams, beamAt, after, j + 1,
                    n + if Collide(beamAt(beams[j]), target) then 1 else 0)
  {
    assert beams[..j + 1][..j] == beams[..j];
    assert after[..j + 1] == before[..j] + [after[j]];
    CompactSnoc(before[..j], after[j]);
  }

  /** All slots visited: the occupied ones are what `BeamPass` keeps. */
  lemma MarkingDone(target: Rect, beams: seq<Beam>, beamAt: Beam -> Rect,
                    slots: seq<Option<Beam>>, n: nat)
    requires Marking(target, beams, beamAt, slots, |beams|, n)
    requires Distinct(beams)
    ensures (Compact(slots), n) == BeamPass(target, beams, beamAt)
    ensures Distinct(Compact(slots))
    ensures forall m :: m in Compact(slots) ==> m in beams
  {
    assert slots[..|beams|] == slots;
    assert beams[..|beams|] == beams;
    MarkedDistinct(beams, slots);
    CompactDistinct(slots);
    CompactMembers(slots);
    forall m | m in Compact(slots)
      ensures m in beams
    {
      var i :| 0 <= i < |Compact(slots)| && Compact(slots)[i] == m;
      var k :| 0 <= k < |slots| && slots[k] == Some(m);
      assert m == beams[k];
    }
  }

  /** The part of the game a collision pass adds to: the explosion slots,
      the score, the hit count and the bird's picture. */
  datatype Board = Board(explosions: seq<Option<Explosion>>, score: int, hits: nat, img: BirdImage)

  /** Explosions `es` were just made, all centred on `c`. */
  ghost predicate Blasted(es: seq<Explosion>, c: (int, int))
    reads set e | e in es
  {
    forall k :: 0 <= k < |es| ==> es[k].Valid() && es[k].State() == Explosions.Start && es[k].center == c
  }

  /** From `b` to `now` the explosions `spawned` were added one per hit,
      each hit earned 100 points, and after any hit the bird shows pose 6. */
  ghost predicate Counts(now: Board, b: Board, spawned: seq<Explosion>)
  {
    now.explosions == b.explosions + Wrap(spawned) &&
    now.score == b.score + AWARD * |spawned| && now.hits == b.hits + |spawned| &&
    now.img == if |spawned| > 0 then Pose(6) else b.img
  }

  lemma CountsTrans(b0: Board, b1: Board, b2: Board, s1: seq<Explosion>, s2: seq<Explosion>)
    requires Counts(b1, b0, s1) && Counts(b2, b1, s2)
    ensures Counts(b2, b0, s1 + s2)
  {
    assert Wrap(s1 + s2) == Wrap(s1) + Wrap(s2);
  }

  /** A batch of explosions at one centre extends a list made for a list of
      centres. */
  lemma SpawnedBlasted(s: seq<Explosion>, cs: seq<(int, int)>, es: seq<Explosion>, c: (int, int))
    requires Spawned(s, cs) && Blasted(es, c)
    ensures Spawned(s + es, cs + seq(|es|, _ => c))
  {
  }

  /** After `i` steps of the loop over `bombs`, with `bird` the bird's
      rectangle and `beams0` the beams at the start: the game is not over,
      slots before `i` are still or no longer occupied by their bomb, those
      from `i` on are untouched, and the occupied ones before `i` and the
      beam list `beams` are what `BombPass` leaves after those bombs. */
  ghost predicate BombMarking(bird: Rect, bombs: seq<Bomb>, bombAt: Bomb -> Rect,
                              beams0: seq<Beam>, beamAt: Beam -> Rect,
                              slots: seq<Option<Bomb>>, i: nat, beams: seq<Beam>)
  {
    i <= |bombs| == |slots| &&
    (forall k :: 0 <= k < |slots| ==> slots[k] == None || slots[k] == Some(bombs[k])) &&
    (forall k :: i <= k < |slots| ==> slots[k] == Some(bombs[k])) &&
    !BombPass(bird, bombs[..i], bombAt, beams0, beamAt).over &&
    Compact(slots[..i]) == BombPass(bird, bombs[..i], bombAt, beams0, beamAt).bombs &&
    beams == BombPass(bird, bombs[..i], bombAt, beams0, beamAt).beams
  }

  /** One step of the loop over the bombs, for a bomb clear of the bird:
      the inner loop's result is what `BombPass` does with that bomb. */
  lemma BombSlotStep(bird: Rect, bombs: seq<Bomb>, bombAt: Bomb -> Rect,
                     beams0: seq<Beam>, beamAt: Beam -> Rect,
                     before: seq<Option<Bomb>>, after: seq<Option<Bomb>>, i: nat,
                     beams: seq<Beam>, kept: seq<Beam>, hits: nat)
    requires BombMarking(bird, bombs, bombAt, beams0, beamAt, before, i, beams) && i < |bombs|
    requires !Collide(bird, bombAt(bombs[i]))
    requires (kept, hits) == BeamPass(bombAt(bombs[i]), beams, beamAt)
    requires after == if hits > 0 then before[i := None] else before
    ensures BombMarking(bird, bombs, bombAt, beams0, beamAt, after, i + 1, kept)
    ensures BombPass(bird, bombs[..i + 1], bombAt, beams0, beamAt).blasts ==
      BombPass(bird, bombs[..i], bombAt, beams0, beamAt).blasts + seq(hits, _ => CenterOf(bombAt(bombs[i])))
  {
    assert bombs[..i + 1][..i] == bombs[..i];
    assert after[..i + 1] == before[..i] + [after[i]];
    CompactSnoc(before[..i], after[i]);
  }

  /** All bombs visited: the occupied slots are the bombs `BombPass`
      keeps, without duplicates. */
  lemma BombMarkingDone(bird: Rect, bombs: seq<Bomb>, bombAt: Bomb -> Rect,
                        beams0: seq<Beam>, beamAt: Beam -> Rect,
                        slots: seq<Option<Bomb>>, beams: seq<Beam>)
    requires BombMarking(bird, bombs, bombAt, beams0, beamAt, slots, |bombs|, beams)
    requires Distinct(bombs)
    ensures !BombPass(bird, bombs, bombAt, beams0, beamAt).over
    ensures Compact(slots) == BombPass(bird, bombs, bombAt, beams0, beamAt).bombs
    ensures beams == BombPass(bird, bombs, bombAt, beams0, beamAt).beams
    ensures Distinct(Compact(slots))
    ensures forall b :: b in Compact(slots) ==> b in bombs
  {
    assert slots[..|bombs|] == slots;
    assert bombs[..|bombs|] == bombs;
    MarkedDistinct(bombs, slots);
    CompactDistinct(slots);
    CompactMembers(slots);
    forall b | b in Compact(slots)
      ensures b in bombs
    {
      var i :| 0 <= i < |Compact(slots)| && Compact(slots)[i] == b;
      var k :| 0 <= k < |slots| && slots[k] == Some(b);
      assert b == bombs[k];
    }
  }

  /** Appending new explosions to the slots adds exactly them. */
  lemma LiveAppend(a: seq<Option<Explosion>>, s: seq<Explosion>)
    requires SlotsDistinct(a) && Distinct(s)
    requires forall e :: e in Live(a) ==> e !in s
    ensures SlotsDistinct(a + Wrap(s))
    ensures forall e :: e in Live(a + Wrap(s)) <==> e in Live(a) || e in s
  {
    var w := a + Wrap(s);
    forall e | e in s
      ensures e in Live(w)
    {
      var k :| 0 <= k < |s| && s[k] == e;
      assert w[|a| + k] == Some(e);
    }
    forall e | e in Live(a)
      ensures e in Live(w)
    {
      var k :| 0 <= k < |a| && a[k].Some? && a[k].value == e;
      assert w[k] == a[k];
    }
    forall e | e in Live(w)
      ensures e in Live(a) || e in s
    {
      var k :| 0 <= k < |w| && w[k].Some? && w[k].value == e;
      if k < |a| {
        assert a[k] == w[k];
      } else {
        assert e == s[k - |a|];
      }
    }
    forall i, j | 0 <= i < j < |w| && w[i].Some? && w[j].Some?
      ensures w[i].value != w[j].value
    {
      if j >= |a| && i < |a| {
        assert w[i].value in Live(a);
      }
    }
  }

  /** Compacting the slots keeps exactly the live explosions, each once. */
  lemma LiveCompact(a: seq<Option<Explosion>>)
    requires SlotsDistinct(a)
    ensures SlotsDistinct(Wrap(Compact(a)))
    ensures forall e :: e in Live(Wrap(Compact(a))) <==> e in Live(a)
  {
    var c := Compact(a);
    CompactDistinct(a);
    CompactMembers(a);
    MarkedDistinct(c, Wrap(c));
    forall e | e in Live(a)
      ensures e in Live(Wrap(c))
    {
      var k :| 0 <= k < |a| && a[k].Some? && a[k].value == e;
      var j :| 0 <= j < |c| && c[j] == e;
      assert Wrap(c)[j] == Some(e);
    }
    forall e | e in Live(Wrap(c))
      ensures e in Live(a)
    {
      var j :| 0 <= j < |c| && Wrap(c)[j].Some? && Wrap(c)[j].value == e;
      assert Some(c[j]) in a;
    }
  }

  /** `bombs = [Bomb() for _ in range(NUM_OF_BOMBS)]`: one new bomb per draw,
      in order. */
  method MakeBombs(draws: seq<Draw>) returns (bs: seq<Bomb>)
    requires forall k :: 0 <= k < |draws| ==>
      SpawnRange(draws[k].rad, draws[k].cx, draws[k].cy, draws[k].vx, draws[k].vy)
    ensures |bs| == |draws| && Distinct(bs)
    ensures forall k :: 0 <= k < |draws| ==>
      fresh(bs[k]) && bs[k].Valid() &&
      bs[k].State() == Spawn(draws[k].rad, draws[k].cx, draws[k].cy, draws[k].vx, draws[k].vy)
  {
    bs := [];
    var k := 0;
    while k < |draws|
      invariant 0 <= k <= |draws| && |bs| == k
      invariant forall j :: 0 <= j < k ==>
        fresh(bs[j]) && bs[j].Valid() &&
        bs[j].State() == Spawn(draws[j].rad, draws[j].cx, draws[j].cy, draws[j].vx, draws[j].vy)
      invariant Distinct(bs)
    {
      var d := draws[k];
      var b := new Bomb(d.rad, d.cx, d.cy, d.vx, d.vy);
      bs := bs + [b];
      k := k + 1;
    }
  }

  class Game {
    const bird: Bird
    var bombs: seq<Bomb>
    var beams: seq<Beam>
    var explosions: seq<Option<Explosion>>
    const score: Score
    /** Set when a bomb touches the bird: `main` returns. */
    var over: bool
    /** The size of the rotated beam image for each facing. */
    const beamSizes: map<(int, int), (nat, nat)>
    /** Bombs destroyed so far (one per beam that hit). */
    ghost var hits: nat

    /** The objects of the game: itself, the bird, the score and every
        bomb, beam and explosion ever listed. */
    ghost var Repr: set<object>

    /** Every entity is in `Repr`, valid and listed once, the score is 100 per hit, and
        a beam image exists for every facing. */
    ghost predicate Valid()
      reads this, Repr
    {
      this in Repr && bird in Repr && score in Repr &&
      bird.Valid() &&
      Distinct(bombs) && (forall b :: b in bombs ==> b in Repr && b.Valid()) &&
      Distinct(beams) && (forall m :: m in beams ==> m in Repr && m.Valid()) &&
      SlotsDistinct(explosions) && (forall e :: e in Live(explosions) ==> e in Repr && e.Valid()) &&
      score.score == AWARD * hits &&
      (forall d :: d in Facings ==> d in beamSizes && beamSizes[d].0 > 0 && beamSizes[d].1 > 0)
    }

    /** `main`'s set-up: the bird at (900, 400) facing right, `NumOfBombs`
        bombs made from `draws`, no beams, no explosions and a zero score.
        `birdSize` is the size of the bird image and `sizes` the size of the
        beam image turned to each facing. */
    constructor (birdSize: (nat, nat), draws: seq<Draw>, sizes: map<(int, int), (nat, nat)>)
      requires birdSize.0 > 0 && birdSize.1 > 0
      requires |draws| == NumOfBombs
      requires forall k :: 0 <= k < |draws| ==>
        SpawnRange(draws[k].rad, draws[k].cx, draws[k].cy, draws[k].vx, draws[k].vy)
      requires forall d :: d in Facings ==> d in sizes && sizes[d].0 > 0 && sizes[d].1 > 0
      ensures Valid() && fresh(Repr)
      ensures bird.State() ==
        BirdState(Centered(BirdStart.0, BirdStart.1, birdSize.0, birdSize.1), StartFacing, Facing(Facings[StartFacing]))
      ensures |bombs| == |draws|
      ensures forall k :: 0 <= k < |draws| ==>
        bombs[k].State() == Spawn(draws[k].rad, draws[k].cx, draws[k].cy, draws[k].vx, draws[k].vy)
      ensures beams == [] && explosions == [] && score.score == 0 && !over && hits == 0
      ensures beamSizes == sizes
    {
      var bs := MakeBombs(draws);
      var b := new Bird(birdSize.0, birdSize.1, BirdStart.0, BirdStart.1);
      var s := new Score();
      bird, bombs, beams, explosions, score, over := b, bs, [], [], s, false;
      beamSizes := sizes;
      hits := 0;
      new;
      Repr := {this, bird, score} + set x | x in bombs;
    }

    /** The rectangles of bombs `bs`, as a function of the bomb. */
    ghost function BombRects(bs: seq<Bomb>): (r: Bomb -> Rect)
      reads set b | b in bs
      ensures forall b :: b in bs ==> r(b) == b.rct
    {
      var rects := map b | b in bs :: b.rct;
      x => if x in rects then rects[x] else Rect(0, 0, 0, 0)
    }

    /** The rectangles of beams `ms`, as a function of the beam. */
    ghost function BeamRects(ms: seq<Beam>): (r: Beam -> Rect)
      reads set m | m in ms
      ensures forall m :: m in ms ==> r(m) == m.rct
    {
      var rects := map m | m in ms :: m.rct;
      x => if x in rects then rects[x] else Rect(0, 0, 0, 0)
    }

    /** What the collision pass does to the current state, given the
        rectangles of its bombs and beams. */
    ghost function Pass(bombAt: Bomb -> Rect, beamAt: Beam -> Rect): Outcome<Bomb, Beam>
      reads this, bird
    {
      BombPass(bird.rct, bombs, bombAt, beams, beamAt)
    }

    /** A space-key press: a beam launched from the bird along its facing is
        added to the list. */
    method Fire()
      requires Valid()
      modifies this`beams, this`Repr
      ensures Valid() && fresh(Repr - old(Repr))
      ensures |beams| == |old(beams)| + 1 && beams[..|old(beams)|] == old(beams)
      ensures fresh(beams[|old(beams)|])
      ensures beams[|old(beams)|].State() == Launch(bird.State(), beamSizes[bird.dire])
    {
      var m := new Beam(bird, beamSizes[bird.dire]);
      beams := beams + [m];
      Repr := Repr + {m};
    }

    /** The event loop: one beam per space-key press, in order, each
        launched from the bird along its facing. */
    method FireAll(presses: nat)
      requires Valid()
      modifies this`beams, this`Repr
      ensures Valid() && fresh(Repr - old(Repr))
      ensures |beams| == |old(beams)| + presses && beams[..|old(beams)|] == old(beams)
      ensures forall k :: |old(beams)| <= k < |beams| ==>
        fresh(beams[k]) && beams[k].State() == Launch(bird.State(), beamSizes[bird.dire])
    {
      for n := 0 to presses
        invariant Valid() && fresh(Repr - old(Repr))
        invariant |beams| == |old(beams)| + n && beams[..|old(beams)|] == old(beams)
        invariant forall k :: |old(beams)| <= k < |beams| ==>
          fresh(beams[k]) && beams[k].State() == Launch(bird.State(), beamSizes[bird.dire])
      {
        Fire();
      }
    }

    /** A beam hit a bomb centred on `c`: an explosion there is added to the
        list, the bird shows pose 6 and the score gains 100 points. */
    method Hit(c: (int, int)) returns (ghost e: Explosion)
      modifies this`explosions, this`hits, bird`img, score
      ensures fresh(e) && e.Valid() && e.State() == Explosions.Start && e.center == c
      ensures explosions == old(explosions) + [Some(e)]
      ensures score.score == old(score.score) + AWARD && hits == old(hits) + 1
      ensures bird.img == Pose(6)
    {
      var x := new Explosion(c);
      explosions := explosions + [Some(x)];
      bird.ChangeImg(6);
      score.GainPoints(AWARD);
      hits := hits + 1;
      e := x;
    }

    /** The game's `Board` at this moment. */
    ghost function BoardNow(): Board
      reads this, bird, score
    {
      Board(explosions, score.score, hits, bird.img)
    }

    /** Since `b`, the explosions `spawned`, all new and centred on `c`, were
        added one per hit, with 100 points each. */
    ghost predicate HitsSince(b: Board, spawned: seq<Explosion>, c: (int, int))
      reads this, bird, score, set e | e in spawned
    {
      Counts(BoardNow(), b, spawned) && Blasted(spawned, c) && Distinct(spawned)
    }

    /** One beam against `bomb`, whose slot is `i`: a beam touching the
        bomb marks that slot and scores a hit. `keep` says whether the beam
        stays in the list: only when it misses and has not passed the right
        edge. */
    method TestBeam(bomb: Bomb, beam: Beam, slots: seq<Option<Bomb>>, i: nat,
                    ghost b: Board, ghost spawned: seq<Explosion>)
      returns (slots': seq<Option<Bomb>>, keep: bool, ghost es: seq<Explosion>)
      requires i < |slots|
      requires HitsSince(b, spawned, CenterOf(bomb.rct))
      modifies this`explosions, this`hits, bird`img, score
      ensures HitsSince(b, spawned + es, CenterOf(bomb.rct))
      ensures |es| == if Collide(beam.rct, bomb.rct) then 1 else 0
      ensures forall k :: 0 <= k < |es| ==> fresh(es[k])
      ensures slots' == if Collide(beam.rct, bomb.rct) then slots[i := None] else slots
      ensures keep <==> !Collide(beam.rct, bomb.rct) && beam.rct.Right() <= WIDTH
    {
      slots', keep, es := slots, true, [];
      if Collide(beam.rct, bomb.rct) {
        slots' := slots'[i := None];
        keep := false;
        var c := CenterOf(bomb.rct);
        ghost var e := Hit(c);
        es := [e];
        assert Wrap(spawned + es) == Wrap(spawned) + [Some(e)];
      } else if beam.rct.Right() > WIDTH {
        keep := false;
      }
      assert spawned + [] == spawned;
    }

    /** After `j` steps of the inner loop for `bomb`, whose slot is `i`:
        the beam list is as it was, its slots are marked as `BeamPass` does,
        the bomb's slot is marked once some beam hit it, and each hit left
        an explosion, a point award and the happy pose. */
    ghost predicate BeamLoopInv(bomb: Bomb, beams0: seq<Beam>, beamAt: Beam -> Rect, beamSlots: seq<Option<Beam>>,
                                j: nat, slots: seq<Option<Bomb>>, cur: seq<Option<Bomb>>, i: nat,
                                b: Board, spawned: seq<Explosion>)
      reads this, bird, score, bomb, set e | e in spawned
    {
      beams == beams0 && i < |slots| &&
      Marking(bomb.rct, beams0, beamAt, beamSlots, j, |spawned|) &&
      cur == (if |spawned| > 0 then slots[i := None] else slots) &&
      HitsSince(b, spawned, CenterOf(bomb.rct))
    }

    /** One step of the inner loop: beam `j` against `bomb`. */
    method BeamLoopStep(bomb: Bomb, ghost beams0: seq<Beam>, ghost beamAt: Beam -> Rect, beamSlots: seq<Option<Beam>>,
                       j: nat, ghost slots: seq<Option<Bomb>>, cur: seq<Option<Bomb>>, i: nat,
                       ghost b: Board, ghost spawned: seq<Explosion>)
      returns (beamSlots': seq<Option<Beam>>, cur': seq<Option<Bomb>>, ghost es: seq<Explosion>)
      requires j < |beamSlots|
      requires BeamLoopInv(bomb, beams0, beamAt, beamSlots, j, slots, cur, i, b, spawned)
      requires forall m :: m in beams0 ==> beamAt(m) == m.rct
      modifies this`explosions, this`hits, bird`img, score
      ensures BeamLoopInv(bomb, beams0, beamAt, beamSlots', j + 1, slots, cur', i, b, spawned + es)
      ensures forall k :: 0 <= k < |es| ==> fresh(es[k])
    {
      var beam := beamSlots[j].value;
      assert beamAt(beam) == beam.rct;
      var keep;
      cur', keep, es := TestBeam(bomb, beam, cur, i, b, spawned);
      beamSlots' := if keep then beamSlots else beamSlots[j := None];
      BeamSlotStep(bomb.rct, beams0, beamAt, beamSlots, beamSlots', j, |spawned|, keep);
    }

    /** The inner loop for `bomb`, whose slot is `i`: every beam touching
        the bomb is removed, marks the bomb's slot, leaves an explosion at
        the bomb's centre, shows the bird's happy pose and earns 100 points;
        a beam that misses but is past the right edge is removed; the beam
        list is then compacted. */
    method BeamLoop(bomb: Bomb, slots: seq<Option<Bomb>>, i: nat, ghost beamAt: Beam -> Rect)
      returns (slots': seq<Option<Bomb>>, ghost spawned: seq<Explosion>)
      requires i < |slots|
      requires Distinct(beams)
      requires forall m :: m in beams ==> beamAt(m) == m.rct
      modifies this`beams, this`explosions, this`hits, bird`img, score
      ensures beams == BeamPass(bomb.rct, old(beams), beamAt).0 && Distinct(beams)
      ensures |spawned| == BeamPass(bomb.rct, old(beams), beamAt).1
      ensures slots' == if |spawned| > 0 then slots[i := None] else slots
      ensures HitsSince(old(BoardNow()), spawned, CenterOf(bomb.rct))
      ensures forall k :: 0 <= k < |spawned| ==> fresh(spawned[k])
    {
      ghost var beams0 := beams;
      ghost var b := BoardNow();
      assert Wrap<Explosion>([]) == [];
      var beamSlots := Wrap(beams);
      assert beams0[..0] == [] && beamSlots[..0] == [];
      slots' := slots;
      spawned := [];
      var j := 0;
      while j < |beamSlots|
        invariant j <= |beamSlots|
        invariant BeamLoopInv(bomb, beams0, beamAt, beamSlots, j, slots, slots', i, b, spawned)
        invariant forall k :: 0 <= k < |spawned| ==> fresh(spawned[k])
      {
        ghost var es;
        beamSlots, slots', es := BeamLoopStep(bomb, beams0, beamAt, beamSlots, j, slots, slots', i, b, spawned);
        spawned := spawned + es;
        j := j + 1;
      }
      MarkingDone(bomb.rct, beams0, beamAt, beamSlots, |spawned|);
      beams := Compact(beamSlots);
    }

    /** The loop over the bombs has handled the first `i` of them as
        `BombPass` does, the explosions `spawned` coming from their hits. */
    ghost predicate BombLoopInv(b0: Board, beams0: seq<Beam>, bombAt: Bomb -> Rect, beamAt: Beam -> Rect,
                                slots: seq<Option<Bomb>>, i: nat, spawned: seq<Explosion>)
      reads this, bird, score
    {
      BombMarking(bird.rct, bombs, bombAt, beams0, beamAt, slots, i, beams) &&
      Counts(BoardNow(), b0, spawned) && Distinct(spawned) &&
      Distinct(beams) && (forall m :: m in beams ==> m in beams0)
    }

    /** The loop over the bombs at bomb `i`, which is clear of the bird:
        the inner loop runs it against every beam. */
    method BombLoopStep(ghost b0: Board, ghost beams0: seq<Beam>, ghost bombAt: Bomb -> Rect,
                        ghost beamAt: Beam -> Rect, slots: seq<Option<Bomb>>, i: nat, ghost spawned: seq<Explosion>)
      returns (slots': seq<Option<Bomb>>, ghost spawned': seq<Explosion>)
      requires BombLoopInv(b0, beams0, bombAt, beamAt, slots, i, spawned) && i < |bombs|
      requires Spawned(spawned, BombPass(bird.rct, bombs[..i], bombAt, beams0, beamAt).blasts)
      requires !Collide(bird.rct, bombs[i].rct)
      requires forall b :: b in bombs ==> bombAt(b) == b.rct
      requires forall m :: m in beams0 ==> beamAt(m) == m.rct
      modifies this`beams, this`explosions, this`hits, bird`img, score
      ensures BombLoopInv(b0, beams0, bombAt, beamAt, slots', i + 1, spawned')
      ensures Spawned(spawned', BombPass(bird.rct, bombs[..i + 1], bombAt, beams0, beamAt).blasts)
      ensures |spawned| <= |spawned'| && spawned' == spawned + spawned'[|spawned|..]
      ensures forall k :: |spawned| <= k < |spawned'| ==> fresh(spawned'[k])
    {
      var bomb := bombs[i];
      ghost var bi := BoardNow();
      ghost var beamsBefore := beams;
      ghost var blastsBefore := BombPass(bird.rct, bombs[..i], bombAt, beams0, beamAt).blasts;
      ghost var es;
      slots', es := BeamLoop(bomb, slots, i, beamAt);
      BombSlotStep(bird.rct, bombs, bombAt, beams0, beamAt, slots, slots', i, beamsBefore, beams, |es|);
      CountsTrans(b0, bi, BoardNow(), spawned, es);
      SpawnedBlasted(spawned, blastsBefore, es, CenterOf(bomb.rct));
      spawned' := spawned + es;
      assert spawned'[|spawned|..] == es;
    }

    /** The loop over the bombs ends after the last bomb or at the first
        bomb touching the bird; either way the pass so far is the whole
        pass, short of the bombs that a collision leaves unvisited. */
    lemma BombLoopEnd(b0: Board, beams0: seq<Beam>, bombAt: Bomb -> Rect, beamAt: Beam -> Rect,
                      slots: seq<Option<Bomb>>, i: nat, spawned: seq<Explosion>)
      requires BombLoopInv(b0, beams0, bombAt, beamAt, slots, i, spawned)
      requires Spawned(spawned, BombPass(bird.rct, bombs[..i], bombAt, beams0, beamAt).blasts)
      requires forall b :: b in bombs ==> bombAt(b) == b.rct
      requires i == |bombs| || Collide(bird.rct, bombs[i].rct)
      ensures BombPass(bird.rct, bombs, bombAt, beams0, beamAt).over == (i < |bombs|)
      ensures i == |bombs| ==> BombMarking(bird.rct, bombs, bombAt, beams0, beamAt, slots, |bombs|, beams)
      ensures Spawned(spawned, BombPass(bird.rct, bombs, bombAt, beams0, beamAt).blasts)
    {
      if i < |bombs| {
        SweepStopsAtFirstCollision(bird.rct, bombs, bombAt, beams0, beamAt, i);
      } else {
        assert bombs[..i] == bombs;
      }
    }

    /** The loop over the bombs: each is tested against the bird and then,
        through the inner loop, against every beam. `hit` reports a bomb
        touching the bird, at which the loop stops; otherwise the occupied
        bomb slots and the beam list are what `BombPass` leaves. */
    method BombLoop(ghost bombAt: Bomb -> Rect, ghost beamAt: Beam -> Rect)
      returns (hit: bool, slots: seq<Option<Bomb>>, ghost spawned: seq<Explosion>)
      requires Distinct(bombs) && Distinct(beams)
      requires forall b :: b in bombs ==> bombAt(b) == b.rct
      requires forall m :: m in beams ==> beamAt(m) == m.rct
      modifies this`beams, this`explosions, this`hits, bird`img, score
      ensures hit == BombPass(bird.rct, bombs, bombAt, old(beams), beamAt).over
      ensures !hit ==> BombMarking(bird.rct, bombs, bombAt, old(beams), beamAt, slots, |bombs|, beams)
      ensures Counts(BoardNow(), old(BoardNow()), spawned)
      ensures Spawned(spawned, BombPass(bird.rct, bombs, bombAt, old(beams), beamAt).blasts)
      ensures Distinct(spawned) && forall k :: 0 <= k < |spawned| ==> fresh(spawned[k])
      ensures Distinct(beams) && forall m :: m in beams ==> m in old(beams)
    {
      ghost var beams0 := beams;
      ghost var b0 := BoardNow();
      slots := Wrap(bombs);
      assert bombs[..0] == [] && slots[..0] == [];
      assert Wrap<Explosion>([]) == [];
      spawned := [];
      var i := 0;
      assert BombLoopInv(b0, beams0, bombAt, beamAt, slots, 0, spawned);
      assert Spawned(spawned, BombPass(bird.rct, bombs[..0], bombAt, beams0, beamAt).blasts);
      while i < |bombs| && !Collide(bird.rct, bombs[i].rct)
        invariant i <= |bombs| && BombLoopInv(b0, beams0, bombAt, beamAt, slots, i, spawned)
        invariant Spawned(spawned, BombPass(bird.rct, bombs[..i], bombAt, beams0, beamAt).blasts)
        invariant forall k :: 0 <= k < |spawned| ==> fresh(spawned[k])
      {
        slots, spawned := BombLoopStep(b0, beams0, bombAt, beamAt, slots, i, spawned);
        i := i + 1;
      }
      hit := i < |bombs|;
      BombLoopEnd(b0, beams0, bombAt, beamAt, slots, i, spawned);
    }

    /** `BombLoop`, with the new explosions added to the objects of the game. */
    method Collisions(ghost bombAt: Bomb -> Rect, ghost beamAt: Beam -> Rect)
      returns (hit: bool, slots: seq<Option<Bomb>>, ghost spawned: seq<Explosion>)
      requires Valid()
      requires forall b :: b in bombs ==> bombAt(b) == b.rct
      requires forall m :: m in beams ==> beamAt(m) == m.rct
      modifies this`beams, this`explosions, this`hits, this`Repr, bird`img, score
      ensures Valid() && fresh(Repr - old(Repr))
      ensures hit == BombPass(bird.rct, bombs, bombAt, old(beams), beamAt).over
      ensures !hit ==> BombMarking(bird.rct, bombs, bombAt, old(beams), beamAt, slots, |bombs|, beams)
      ensures Counts(BoardNow(), old(BoardNow()), spawned)
      ensures Spawned(spawned, BombPass(bird.rct, bombs, bombAt, old(beams), beamAt).blasts)
      ensures forall k :: 0 <= k < |spawned| ==> fresh(spawned[k])
    {
      hit, slots, spawned := BombLoop(bombAt, beamAt);
      LiveAppend(old(explosions), spawned);
      Repr := Repr + Live(explosions);
    }

    /** The collision pass: the loop over the bombs, then the compaction of
        the bomb and explosion lists. It does to the bombs, beams and score
        what `BombPass` says; when a bomb touches the bird the bird shows
        pose 8 and `main` returns at once, so nothing is compacted. */
    method Sweep(ghost bombAt: Bomb -> Rect, ghost beamAt: Beam -> Rect) returns (ghost spawned: seq<Explosion>)
      requires Valid() && !over
      requires forall b :: b in bombs ==> bombAt(b) == b.rct
      requires forall m :: m in beams ==> beamAt(m) == m.rct
      modifies this`bombs, this`beams, this`explosions, this`hits, this`over, this`Repr, bird`img, score
      ensures Valid() && fresh(Repr - old(Repr))
      ensures over == old(Pass(bombAt, beamAt)).over
      ensures !over ==> bombs == old(Pass(bombAt, beamAt)).bombs && beams == old(Pass(bombAt, beamAt)).beams
      ensures !over ==> explosions == Wrap(Compact(old(explosions)) + spawned)
      ensures over ==> bombs == old(bombs) && explosions == old(explosions) + Wrap(spawned)
      ensures Spawned(spawned, old(Pass(bombAt, beamAt)).blasts) && forall k :: 0 <= k < |spawned| ==> fresh(spawned[k])
      ensures score.score == old(score.score) + Points(old(Pass(bombAt, beamAt))) && hits == old(hits) + |spawned|
      ensures bird.img == if over then Pose(8) else if |spawned| > 0 then Pose(6) else old(bird.img)
    {
      var hit, slots;
      hit, slots, spawned := Collisions(bombAt, beamAt);
      if hit {
        bird.ChangeImg(8);
        over := true;
        return;
      }
      BombMarkingDone(bird.rct, bombs, bombAt, old(beams), beamAt, slots, beams);
      CompactAppend(old(explosions), Wrap(spawned));
      CompactWrap(spawned);
      Settle(slots);
    }

    /** The compaction after the loop over the bombs: the bombs become the
        occupied bomb slots and the explosions the occupied explosion
        slots, in order. */
    method Settle(slots: seq<Option<Bomb>>)
      requires Valid()
      requires Distinct(Compact(slots)) && forall b :: b in Compact(slots) ==> b in bombs
      modifies this`bombs, this`explosions
      ensures Valid()
      ensures bombs == Compact(slots) && explosions == Wrap(Compact(old(explosions)))
    {
      bombs := Compact(slots);
      LiveCompact(explosions);
      explosions := Wrap(Compact(explosions));
    }

    /** `for bomb in bombs: bomb.update(screen)`. */
    method UpdateBombs()
      requires Valid()
      modifies set b | b in bombs
      ensures Valid()
      ensures forall k :: 0 <= k < |bombs| ==> bombs[k].State() == BombStep(old(bombs[k].State()))
    {
      for i := 0 to |bombs|
        invariant Valid()
        invariant forall k :: 0 <= k < i ==> bombs[k].State() == BombStep(old(bombs[k].State()))
        invariant forall k :: i <= k < |bombs| ==> bombs[k].State() == old(bombs[k].State())
      {
        bombs[i].Update();
      }
    }

    /** `for beam in beams: beam.update(screen)`. */
    method UpdateBeams()
      requires Valid()
      modifies set m | m in beams
      ensures Valid()
      ensures forall k :: 0 <= k < |beams| ==> beams[k].State() == BeamStep(old(beams[k].State()))
    {
      for i := 0 to |beams|
        invariant Valid()
        invariant forall k :: 0 <= k < i ==> beams[k].State() == BeamStep(old(beams[k].State()))
        invariant forall k :: i <= k < |beams| ==> beams[k].State() == old(beams[k].State())
      {
        beams[i].Update();
      }
    }

    /** `for i, explosion in enumerate(explosions)`: update every explosion
        and mark the slot of each one whose life has run out. */
    method Age()
      requires SlotsDistinct(explosions)
      requires forall k :: 0 <= k < |explosions| ==> explosions[k].Some? && explosions[k].value.Valid()
      modifies this`explosions, Live(explosions)
      ensures |explosions| == |old(explosions)|
      ensures forall k :: 0 <= k < |explosions| ==>
        old(explosions)[k].value.Valid() &&
        old(explosions)[k].value.State() == ExplosionStep(old(explosions[k].value.State())) &&
        old(explosions)[k].value.center == old(explosions[k].value.center) &&
        explosions[k] == if old(explosions)[k].value.life <= 0 then None else old(explosions)[k]
    {
      ghost var slots0 := explosions;
      var i := 0;
      while i < |explosions|
        invariant i <= |explosions| == |slots0|
        invariant forall k :: i <= k < |explosions| ==>
          explosions[k] == slots0[k] && slots0[k].value.Valid() &&
          slots0[k].value.State() == old(slots0[k].value.State()) &&
          slots0[k].value.center == old(slots0[k].value.center)
        invariant forall k :: 0 <= k < i ==>
          slots0[k].value.Valid() &&
          slots0[k].value.State() == ExplosionStep(old(slots0[k].value.State())) &&
          slots0[k].value.center == old(slots0[k].value.center) &&
          explosions[k] == if slots0[k].value.life <= 0 then None else slots0[k]
      {
        var e := explosions[i].value;
        assert e in Live(slots0);
        e.Update();
        if e.life <= 0 {
          explosions := explosions[i := None];
        }
        i := i + 1;
      }
    }

    /** The explosion loop of a frame, which keeps the game valid: an
        explosion whose slot is marked is dropped from the live ones. */
    method UpdateExplosions()
      requires Valid()
      requires forall k :: 0 <= k < |explosions| ==> explosions[k].Some?
      modifies this`explosions, Live(explosions)
      ensures Valid()
      ensures |explosions| == |old(explosions)|
      ensures forall k :: 0 <= k < |explosions| ==>
        old(explosions)[k].value.State() == ExplosionStep(old(explosions[k].value.State())) &&
        old(explosions)[k].value.center == old(explosions[k].value.center) &&
        explosions[k] == if old(explosions)[k].value.life <= 0 then None else old(explosions)[k]
    {
      forall k | 0 <= k < |explosions|
        ensures explosions[k].value.Valid()
      {
        assert explosions[k].value in Live(explosions);
      }
      Age();
    }

    /** The rest of a frame that goes on: move the bird by the held keys
        and update every bomb, beam and explosion. The four updates touch
        disjoint objects, so the order they run in here (explosions first)
        does not change the outcome. */
    method Advance(keys: Keys)
      requires Valid()
      requires forall k :: 0 <= k < |explosions| ==> explosions[k].Some?
      modifies bird, (set b | b in bombs), (set m | m in beams), this`explosions, Live(explosions)
      ensures Valid()
      ensures bird.State() == BirdStep(old(bird.State()), NetMove(keys))
      ensures forall b :: b in bombs ==> b.State() == BombStep(old(b.State()))
      ensures forall m :: m in beams ==> m.State() == BeamStep(old(m.State()))
      ensures |explosions| == |old(explosions)|
      ensures forall k :: 0 <= k < |explosions| ==>
        old(explosions)[k].value.State() == ExplosionStep(old(explosions[k].value.State())) &&
        old(explosions)[k].value.center == old(explosions[k].value.center) &&
        explosions[k] == if old(explosions)[k].value.life <= 0 then None else old(explosions)[k]
    {
      NetMoveFacing(keys);
      UpdateExplosions();
      bird.Update(keys);
      UpdateBombs();
      UpdateBeams();
    }

    /** `Advance` after a collision pass that compacted the explosion slots
        `slots0` and then added the explosions `spawned`, centred on
        `blasts`: every explosion takes one `ExplosionStep` and keeps its
        centre, and its slot is marked iff its life is then at most 0. */
    method Proceed(keys: Keys, ghost slots0: seq<Option<Explosion>>, ghost spawned: seq<Explosion>,
                   ghost blasts: seq<(int, int)>, ghost aged: seq<Explosion>)
      requires Valid() && aged == Compact(slots0) + spawned && explosions == Wrap(aged)
      requires Spawned(spawned, blasts)
      modifies bird, (set b | b in bombs), (set m | m in beams), this`explosions, Live(explosions)
      ensures Valid()
      ensures bird.State() == BirdStep(old(bird.State()), NetMove(keys))
      ensures InField(old(bird.rct)) ==> InField(bird.rct)
      ensures forall b :: b in bombs ==> b.State() == BombStep(old(b.State()))
      ensures forall m :: m in beams ==> m.State() == BeamStep(old(m.State()))
      ensures |explosions| == |aged| && forall k :: 0 <= k < |aged| ==>
        explosions[k] == if aged[k].life <= 0 then None else Some(aged[k])
      ensures forall k :: 0 <= k < |slots0| && slots0[k].Some? ==>
        slots0[k].value.State() == ExplosionStep(old(slots0[k].value.State())) &&
        slots0[k].value.center == old(slots0[k].value.center)
      ensures forall k :: 0 <= k < |spawned| ==>
        spawned[k].State() == ExplosionStep(Explosions.Start) && spawned[k].center == blasts[k]
    {
      WalkAllOrNothing(bird.rct, NetMove(keys));
      Advance(keys);
      forall k | 0 <= k < |slots0| && slots0[k].Some?
        ensures slots0[k].value.State() == ExplosionStep(old(slots0[k].value.State()))
        ensures slots0[k].value.center == old(slots0[k].value.center)
      {
        var j := CompactPosition(slots0, k);
        assert aged[j] == slots0[k].value;
      }
      forall k | 0 <= k < |spawned|
        ensures spawned[k].State() == ExplosionStep(Explosions.Start) && spawned[k].center == blasts[k]
      {
        assert aged[|Compact(slots0)| + k] == spawned[k];
      }
    }

    /** The collision pass of a frame, on the rectangles `bombAt` and
        `beamAt` the bombs and beams have now: it does what `BombPass`
        says. The game ends exactly when some bomb touches the bird. */
    method CollisionPass() returns (ghost bombAt: Bomb -> Rect, ghost beamAt: Beam -> Rect, ghost spawned: seq<Explosion>)
      requires Valid() && !over
      modifies this`bombs, this`beams, this`explosions, this`hits, this`over, this`Repr, bird`img, score
      ensures Valid() && fresh(Repr - old(Repr))
      ensures forall b :: b in old(bombs) ==> bombAt(b) == old(b.rct)
      ensures forall m :: m in old(beams) ==> beamAt(m) == old(m.rct)
      ensures over == old(Pass(bombAt, beamAt)).over
      ensures over <==> exists k :: 0 <= k < |old(bombs)| && Collide(bird.rct, old(bombs[k].rct))
      ensures !over ==> bombs == old(Pass(bombAt, beamAt)).bombs && beams == old(Pass(bombAt, beamAt)).beams
      ensures !over ==> explosions == Wrap(Compact(old(explosions)) + spawned)
      ensures Spawned(spawned, old(Pass(bombAt, beamAt)).blasts) && forall k :: 0 <= k < |spawned| ==> fresh(spawned[k])
      ensures score.score == old(score.score) + Points(old(Pass(bombAt, beamAt))) && hits == old(hits) + |spawned|
      ensures bird.img == if over then Pose(8) else if |spawned| > 0 then Pose(6) else old(bird.img)
    {
      bombAt, beamAt := BombRects(bombs), BeamRects(beams);
      SweepOverIff(bird.rct, bombs, bombAt, beams, beamAt);
      spawned := Sweep(bombAt, beamAt);
    }

    /** The first half of a frame: fire a beam per space-key press
        (`fired`), then run the collision pass (`pass`, on the rectangles
        `bombAt` and `beamAt` the bombs and beams have at that moment). */
    method FireAndCollide(presses: nat)
      returns (ghost fired: seq<Beam>, ghost bombAt: Bomb -> Rect, ghost beamAt: Beam -> Rect,
               ghost pass: Outcome<Bomb, Beam>, ghost spawned: seq<Explosion>)
      requires Valid() && !over
      modifies this`bombs, this`beams, this`explosions, this`hits, this`over, this`Repr, bird`img, score
      ensures Valid() && fresh(Repr - old(Repr))
      ensures |fired| == presses && forall k :: 0 <= k < |fired| ==> fresh(fired[k])
      ensures Distinct(fired)
      ensures forall b :: b in old(bombs) ==> bombAt(b) == old(b.rct)
      ensures forall m :: m in old(beams) ==> beamAt(m) == old(m.rct)
      ensures forall k :: 0 <= k < |fired| ==> beamAt(fired[k]) == old(Launch(bird.State(), beamSizes[bird.dire])).rct
      ensures pass == BombPass(old(bird.rct), old(bombs), bombAt, old(beams) + fired, beamAt)
      ensures over == pass.over
      ensures over <==> exists k :: 0 <= k < |old(bombs)| && Collide(old(bird.rct), old(bombs[k].rct))
      ensures score.score == old(score.score) + Points(pass) && hits == old(hits) + |pass.blasts|
      ensures bird.img == if over then Pose(8) else if |pass.blasts| > 0 then Pose(6) else old(bird.img)
      ensures !over ==> bombs == pass.bombs && beams == pass.beams
      ensures Spawned(spawned, pass.blasts) && forall k :: 0 <= k < |spawned| ==> fresh(spawned[k])
      ensures forall k :: 0 <= k < |old(explosions)| && old(explosions)[k].Some? ==>
        old(explosions)[k].value.State() == old(explosions[k].value.State()) &&
        old(explosions)[k].value.center == old(explosions[k].value.center)
      ensures !over ==> explosions == Wrap(Compact(old(explosions)) + spawned)
      ensures !over ==> forall m :: m in beams ==>
        m.State() == if m in old(beams) then old(m.State()) else old(Launch(bird.State(), beamSizes[bird.dire]))
    {
      ghost var beams0 := beams;
      FireAll(presses);
      fired := beams[|beams0|..];
      assert beams == beams0 + fired;
      assert Distinct(fired) by {
        forall i, j | 0 <= i < j < |fired| ensures fired[i] != fired[j] {
          assert fired[i] == beams[|beams0| + i] && fired[j] == beams[|beams0| + j];
        }
      }
      bombAt, beamAt, spawned := CollisionPass();
      pass := BombPass(old(bird.rct), old(bombs), bombAt, old(beams) + fired, beamAt);
    }

    /** One frame of the main loop: `FireAndCollide`, then, unless a bomb
        touched the bird, `Proceed`: move the bird and update every bomb,
        beam and explosion, the surviving old explosions (`aged` begins
        with them) and the ones the pass spawned alike. The bird never
        leaves the field once inside it. */
    method Tick(keys: Keys, presses: nat)
      returns (ghost fired: seq<Beam>, ghost bombAt: Bomb -> Rect, ghost beamAt: Beam -> Rect,
               ghost pass: Outcome<Bomb, Beam>, ghost spawned: seq<Explosion>, ghost aged: seq<Explosion>)
      requires Valid() && !over
      modifies Repr
      ensures Valid() && fresh(Repr - old(Repr))
      ensures |fired| == presses && forall k :: 0 <= k < |fired| ==> fresh(fired[k])
      ensures Distinct(fired)
      ensures forall b :: b in old(bombs) ==> bombAt(b) == old(b.rct)
      ensures forall m :: m in old(beams) ==> beamAt(m) == old(m.rct)
      ensures forall k :: 0 <= k < |fired| ==> beamAt(fired[k]) == old(Launch(bird.State(), beamSizes[bird.dire])).rct
      ensures pass == BombPass(old(bird.rct), old(bombs), bombAt, old(beams) + fired, beamAt)
      ensures over == pass.over
      ensures over <==> exists k :: 0 <= k < |old(bombs)| && Collide(old(bird.rct), old(bombs[k].rct))
      ensures score.score == old(score.score) + Points(pass) && hits == old(hits) + |pass.blasts|
      ensures over ==> bird.rct == old(bird.rct) && bird.img == Pose(8)
      ensures !over ==> bombs == pass.bombs && beams == pass.beams
      ensures |spawned| == |pass.blasts| && forall k :: 0 <= k < |spawned| ==> fresh(spawned[k])
      ensures aged == Compact(old(explosions)) + spawned
      ensures !over ==> |explosions| == |aged| && forall k :: 0 <= k < |aged| ==>
        explosions[k] == if aged[k].life <= 0 then None else Some(aged[k])
      ensures !over ==> forall k :: 0 <= k < |old(explosions)| && old(explosions)[k].Some? ==>
        old(explosions)[k].value.State() == ExplosionStep(old(explosions[k].value.State())) &&
        old(explosions)[k].value.center == old(explosions[k].value.center)
      ensures !over ==> forall k :: 0 <= k < |spawned| ==>
        spawned[k].State() == ExplosionStep(Explosions.Start) && spawned[k].center == pass.blasts[k]
      ensures !over ==>
        bird.State() ==
          BirdStep(old(bird.State()).(img := if |pass.blasts| > 0 then Pose(6) else old(bird.img)), NetMove(keys))
      ensures InField(old(bird.rct)) ==> InField(bird.rct)
      ensures !over ==> forall b :: b in bombs ==> b.State() == BombStep(old(b.State()))
      ensures !over ==> forall m :: m in beams ==>
        m.State() == BeamStep(if m in old(beams) then old(m.State()) else old(Launch(bird.State(), beamSizes[bird.dire])))
    {
      fired, bombAt, beamAt, pass, spawned := FireAndCollide(presses);
      aged := Compact(old(explosions)) + spawned;
      if !over {
        Proceed(keys, old(explosions), spawned, pass.blasts, aged);
      }
    }

    /** The main loop over `frames` (the keys held and the number of
        space-key presses in each), until a bomb touches the bird.
        `played` frames were run; the score stays 100 per hit and the bird
        inside the field. */
    method Play(frames: seq<(Keys, nat)>) returns (played: nat)
      requires Valid() && !over
      modifies Repr
      ensures Valid() && played <= |frames|
      ensures !over ==> played == |frames|
      ensures over ==> played > 0
      ensures hits >= old(hits) && score.score == AWARD * hits
      ensures InField(old(bird.rct)) ==> InField(bird.rct)
    {
      played := 0;
      while played < |frames| && !over
        invariant Valid() && fresh(Repr - old(Repr))
        invariant played <= |frames|
        invariant over ==> played > 0
        invariant hits >= old(hits)
        invariant InField(old(bird.rct)) ==> InField(bird.rct)
        decreases |frames| - played
      {
        ghost var fired, bombAt, beamAt, pass, spawned, aged := Tick(frames[played].0, frames[played].1);
        played := played + 1;
      }
    }
  }
}
