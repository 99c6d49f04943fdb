/** The collision pass of one frame of the main loop, as a specification: for
    each bomb in list order, a bomb touching the bird ends the game; otherwise
    every beam still in flight is tested against the bomb, a hit destroys both
    and leaves an explosion worth 100 points, and a beam past the right edge is
    dropped. The loop in `Game.Sweep` is proved to compute exactly this. */
module Sweep {
  import opened Geometry
  import opened Compaction

  /** Points awarded for each bomb-beam hit. */
  const AWARD := 100

  function CenterOf(r: Rect): (int, int)
  {
    (r.CenterX(), r.CenterY())
  }


  /** The inner loop for one bomb with rectangle `target`: the beams kept, in
      order, and the number of hits. A beam that hits is removed; one that
      misses but has passed the right edge of the field is removed too. */
  function BeamPass<M>(target: Rect, beams: seq<M>, beamAt: M -> Rect): (p: (seq<M>, nat))
    ensures forall x :: x in p.0 ==> x in beams
    decreases |beams|
  {
    if beams == [] then ([], 0)
    else
      var prev := BeamPass(target, beams[..|beams| - 1], beamAt);
      var beam := beams[|beams| - 1];
      if Collide(beamAt(beam), target) then (prev.0, prev.1 + 1)
      else if beamAt(beam).Right() > WIDTH then prev
      else (prev.0 + [beam], prev.1)
  }

  /** A beam is kept exactly when it misses the bomb and has not passed the
      right edge. */
  lemma {:induction false} BeamPassFate<M>(target: Rect, beams: seq<M>, beamAt: M -> Rect, x: M)
    ensures x in BeamPass(target, beams, beamAt).0 <==>
      x in beams && !Collide(beamAt(x), target) && beamAt(x).Right() <= WIDTH
    decreases |beams|
  {
    if beams != [] {
      var n := |beams| - 1;
      BeamPassFate(target, beams[..n], beamAt, x);
      assert x in beams <==> x in beams[..n] || x == beams[n] by {
        assert beams == beams[..n] + [beams[n]];
      }
    }
  }

  /** The bomb is hit at least once exactly when some beam touches it, and
      every hit uses up one beam. */
  lemma {:induction false} BeamPassHits<M>(target: Rect, beams: seq<M>, beamAt: M -> Rect)
    ensures BeamPass(target, beams, beamAt).1 > 0 <==>
      exists m :: m in beams && Collide(beamAt(m), target)
    ensures |BeamPass(target, beams, beamAt).0| + BeamPass(target, beams, beamAt).1 <= |beams|
    decreases |beams|
  {
    if beams != [] {
      var n := |beams| - 1;
      BeamPassHits(target, beams[..n], beamAt);
      assert beams == beams[..n] + [beams[n]];
      if exists m :: m in beams && Collide(beamAt(m), target) {
        var m :| m in beams && Collide(beamAt(m), target);
        if m != beams[n] {
          assert m in beams[..n];
        }
      }
    }
  }

  /** The beams kept keep their relative order. */
  lemma {:induction false} BeamPassOrder<M>(target: Rect, beams: seq<M>, beamAt: M -> Rect)
    ensures Subseq(BeamPass(target, beams, beamAt).0, beams)
    decreases |beams|
  {
    if beams != [] {
      var n := |beams| - 1;
      var prev := BeamPass(target, beams[..n], beamAt).0;
      BeamPassOrder(target, beams[..n], beamAt);
      assert beams[..n] + [beams[n]] == beams;
      if BeamPass(target, beams, beamAt).0 == prev {
        SubseqExtend(prev, beams[..n], beams[n]);
      } else {
        SubseqSnoc(prev, beams[..n], beams[n]);
      }
    }
  }

  /** The positions in `beams` of the beams that touch `target`. */
  function Touching<M>(target: Rect, beams: seq<M>, beamAt: M -> Rect): set<nat>
  {
    set k: nat | k < |beams| && Collide(beamAt(beams[k]), target)
  }

  /** The bomb is hit exactly once per beam that touches it. */
  lemma {:induction false} BeamPassCount<M>(target: Rect, beams: seq<M>, beamAt: M -> Rect)
    ensures BeamPass(target, beams, beamAt).1 == |Touching(target, beams, beamAt)|
    decreases |beams|
  {
    if beams != [] {
      var n := |beams| - 1;
      BeamPassCount(target, beams[..n], beamAt);
      var before := Touching(target, beams[..n], beamAt);
      var now := Touching(target, beams, beamAt);
      assert forall k: nat :: k < n ==> beams[..n][k] == beams[k];
      if Collide(beamAt(beams[n]), target) {
        assert now == before + {n};
      } else {
        assert now == before;
      }
    }
  }

  /** The outcome of the collision pass: whether the game ended, the bombs and
      beams left, and the centre of each explosion spawned, in order. */
  datatype Outcome<B, M> = Outcome(over: bool, bombs: seq<B>, beams: seq<M>, blasts: seq<(int, int)>)

  /** The collision pass over `bombs`, in order, for a bird at `bird`. Once a
      bomb touches the bird the game is over and later bombs are not looked
      at; explosions already spawned stay spawned. */
  function BombPass<B, M>(bird: Rect, bombs: seq<B>, bombAt: B -> Rect,
                          beams: seq<M>, beamAt: M -> Rect): (s: Outcome<B, M>)
    ensures forall x :: x in s.bombs ==> x in bombs
    ensures forall x :: x in s.beams ==> x in beams
    decreases |bombs|
  {
    if bombs == [] then Outcome(false, [], beams, [])
    else
      var prev := BombPass(bird, bombs[..|bombs| - 1], bombAt, beams, beamAt);
      var bomb := bombs[|bombs| - 1];
      var target := bombAt(bomb);
      if prev.over then prev
      else if Collide(bird, target) then prev.(over := true)
      else
        var (kept, hits) := BeamPass(target, prev.beams, beamAt);
        var center := CenterOf(target);
        Outcome(false, prev.bombs + (if hits == 0 then [bomb] else []), kept,
                prev.blasts + seq(hits, _ => center))
  }

  /** The points the pass awards: 100 per explosion. */
  function Points<B, M>(s: Outcome<B, M>): int
  {
    AWARD * |s.blasts|
  }

  /** The game ends in this pass exactly when some bomb touches the bird. */
  lemma {:induction false} SweepOverIff<B, M>(bird: Rect, bombs: seq<B>, bombAt: B -> Rect,
                                              beams: seq<M>, beamAt: M -> Rect)
    ensures BombPass(bird, bombs, bombAt, beams, beamAt).over <==>
      exists k :: 0 <= k < |bombs| && Collide(bird, bombAt(bombs[k]))
    decreases |bombs|
  {
    if bombs != [] {
      var n := |bombs| - 1;
      SweepOverIff(bird, bombs[..n], bombAt, beams, beamAt);
      if exists k :: 0 <= k < |bombs| && Collide(bird, bombAt(bombs[k])) {
        var k :| 0 <= k < |bombs| && Collide(bird, bombAt(bombs[k]));
        if k < n {
          assert bombs[..n][k] == bombs[k];
        }
      }
      if exists k :: 0 <= k < n && Collide(bird, bombAt(bombs[..n][k])) {
        var k :| 0 <= k < n && Collide(bird, bombAt(bombs[..n][k]));
        assert bombs[k] == bombs[..n][k];
      }
    }
  }

  /** Once the game is over the rest of the bombs change nothing. */
  lemma {:induction false} SweepOverStable<B, M>(bird: Rect, bombs: seq<B>, bombAt: B -> Rect,
                                                 beams: seq<M>, beamAt: M -> Rect, i: nat)
    requires i <= |bombs|
    requires BombPass(bird, bombs[..i], bombAt, beams, beamAt).over
    ensures BombPass(bird, bombs, bombAt, beams, beamAt) ==
            BombPass(bird, bombs[..i], bombAt, beams, beamAt)
    decreases |bombs|
  {
    if i < |bombs| {
      var n := |bombs| - 1;
      assert bombs[..n][..i] == bombs[..i];
      SweepOverStable(bird, bombs[..n], bombAt, beams, beamAt, i);
    } else {
      assert bombs[..i] == bombs;
    }
  }

  /** The first bomb, in list order, that touches the bird ends the game
      before any beam is tested against it; the explosions and points of the
      bombs before it still stand. */
  lemma SweepStopsAtFirstCollision<B, M>(bird: Rect, bombs: seq<B>, bombAt: B -> Rect,
                                         beams: seq<M>, beamAt: M -> Rect, i: nat)
    requires i < |bombs| && Collide(bird, bombAt(bombs[i]))
    requires !BombPass(bird, bombs[..i], bombAt, beams, beamAt).over
    ensures BombPass(bird, bombs, bombAt, beams, beamAt).over
    ensures BombPass(bird, bombs, bombAt, beams, beamAt).blasts ==
            BombPass(bird, bombs[..i], bombAt, beams, beamAt).blasts
  {
    assert bombs[..i + 1][..i] == bombs[..i];
    SweepOverStable(bird, bombs, bombAt, beams, beamAt, i + 1);
  }

  /** The pass only deletes: the bombs and the beams left are in the order
      they had in their lists. */
  lemma {:induction false} SweepKeepsOrder<B, M>(bird: Rect, bombs: seq<B>, bombAt: B -> Rect,
                                                 beams: seq<M>, beamAt: M -> Rect)
    ensures Subseq(BombPass(bird, bombs, bombAt, beams, beamAt).bombs, bombs)
    ensures Subseq(BombPass(bird, bombs, bombAt, beams, beamAt).beams, beams)
    decreases |bombs|
  {
    if bombs == [] {
      SubseqRefl(beams);
    } else {
      var n := |bombs| - 1;
      var prev := BombPass(bird, bombs[..n], bombAt, beams, beamAt);
      var now := BombPass(bird, bombs, bombAt, beams, beamAt);
      SweepKeepsOrder(bird, bombs[..n], bombAt, beams, beamAt);
      assert bombs[..n] + [bombs[n]] == bombs;
      if now.bombs == prev.bombs {
        SubseqExtend(prev.bombs, bombs[..n], bombs[n]);
      } else {
        SubseqSnoc(prev.bombs, bombs[..n], bombs[n]);
      }
      if !prev.over && !Collide(bird, bombAt(bombs[n])) {
        BeamPassOrder(bombAt(bombs[n]), prev.beams, beamAt);
        SubseqTrans(now.beams, prev.beams, beams);
      }
    }
  }

  /** Which beams survive: with no bombs, every beam (even one that has left
      the field); otherwise, when the game goes on, exactly the beams that are
      still left of the right edge and touch none of the bombs. */
  lemma {:induction false} SweepBeamFate<B, M>(bird: Rect, bombs: seq<B>, bombAt: B -> Rect,
                                               beams: seq<M>, beamAt: M -> Rect, x: M)
    requires !BombPass(bird, bombs, bombAt, beams, beamAt).over
    ensures bombs == [] ==> BombPass(bird, bombs, bombAt, beams, beamAt).beams == beams
    ensures bombs != [] ==>
      (x in BombPass(bird, bombs, bombAt, beams, beamAt).beams <==>
         x in beams && beamAt(x).Right() <= WIDTH &&
         forall k :: 0 <= k < |bombs| ==> !Collide(beamAt(x), bombAt(bombs[k])))
    decreases |bombs|
  {
    if bombs != [] {
      var n := |bombs| - 1;
      var prev := BombPass(bird, bombs[..n], bombAt, beams, beamAt);
      SweepBeamFate(bird, bombs[..n], bombAt, beams, beamAt, x);
      BeamPassFate(bombAt(bombs[n]), prev.beams, beamAt, x);
      assert forall k :: 0 <= k < n ==> bombs[..n][k] == bombs[k];
    }
  }

  /** Which bombs survive: only bombs of the list, and, when the game goes
      on, every bomb that no beam touches; so a bomb that is gone was hit.
      Each hit uses up a beam, and each bomb removed leaves at least one
      explosion. */
  lemma {:induction false} SweepBombFate<B, M>(bird: Rect, bombs: seq<B>, bombAt: B -> Rect,
                                               beams: seq<M>, beamAt: M -> Rect, x: B)
    requires !BombPass(bird, bombs, bombAt, beams, beamAt).over
    ensures x in bombs && (forall m :: m in beams ==> !Collide(beamAt(m), bombAt(x))) ==>
      x in BombPass(bird, bombs, bombAt, beams, beamAt).bombs
    ensures |BombPass(bird, bombs, bombAt, beams, beamAt).beams| +
            |BombPass(bird, bombs, bombAt, beams, beamAt).blasts| <= |beams|
    ensures |BombPass(bird, bombs, bombAt, beams, beamAt).bombs| +
            |BombPass(bird, bombs, bombAt, beams, beamAt).blasts| >= |bombs|
    decreases |bombs|
  {
    if bombs != [] {
      var n := |bombs| - 1;
      var prev := BombPass(bird, bombs[..n], bombAt, beams, beamAt);
      SweepBombFate(bird, bombs[..n], bombAt, beams, beamAt, x);
      BeamPassHits(bombAt(bombs[n]), prev.beams, beamAt);
      if x in bombs && x !in bombs[..n] {
        assert x == bombs[n];
      }
    }
  }

  /** Once bomb `i` has been dealt with, later bombs of a list without
      duplicates neither remove it nor put it back. */
  lemma {:induction false} SweepBombSettled<B, M>(bird: Rect, bombs: seq<B>, bombAt: B -> Rect,
                                                  beams: seq<M>, beamAt: M -> Rect, i: nat, j: nat)
    requires Distinct(bombs) && i < j <= |bombs|
    requires !BombPass(bird, bombs[..j], bombAt, beams, beamAt).over
    ensures bombs[i] in BombPass(bird, bombs[..j], bombAt, beams, beamAt).bombs <==>
            bombs[i] in BombPass(bird, bombs[..i + 1], bombAt, beams, beamAt).bombs
    decreases j
  {
    if j > i + 1 {
      var s := bombs[..j];
      assert s[..j - 1] == bombs[..j - 1];
      var prev := BombPass(bird, bombs[..j - 1], bombAt, beams, beamAt);
      var now := BombPass(bird, s, bombAt, beams, beamAt);
      assert !prev.over && now.bombs == prev.bombs + (if now.bombs == prev.bombs then [] else [s[j - 1]]);
      assert s[j - 1] == bombs[j - 1] != bombs[i];
      SweepBombSettled(bird, bombs, bombAt, beams, beamAt, i, j - 1);
    }
  }

  /** When the game goes on, bomb `i` of a list without duplicates is removed
      exactly when some beam still in flight by the time its turn comes
      touches it, and its turn spawns one explosion at its centre per such
      beam. */
  lemma SweepBombRemoved<B, M>(bird: Rect, bombs: seq<B>, bombAt: B -> Rect,
                               beams: seq<M>, beamAt: M -> Rect, i: nat)
    requires Distinct(bombs) && i < |bombs|
    requires !BombPass(bird, bombs, bombAt, beams, beamAt).over
    ensures bombs[i] !in BombPass(bird, bombs, bombAt, beams, beamAt).bombs <==>
      exists m :: m in BombPass(bird, bombs[..i], bombAt, beams, beamAt).beams &&
                  Collide(beamAt(m), bombAt(bombs[i]))
    ensures BombPass(bird, bombs[..i + 1], bombAt, beams, beamAt).blasts ==
      BombPass(bird, bombs[..i], bombAt, beams, beamAt).blasts +
      seq(|Touching(bombAt(bombs[i]), BombPass(bird, bombs[..i], bombAt, beams, beamAt).beams, beamAt)|,
          _ => CenterOf(bombAt(bombs[i])))
  {
    var prev := BombPass(bird, bombs[..i], bombAt, beams, beamAt);
    var target := bombAt(bombs[i]);
    if BombPass(bird, bombs[..i + 1], bombAt, beams, beamAt).over {
      SweepOverStable(bird, bombs, bombAt, beams, beamAt, i + 1);
      assert false;
    }
    assert bombs[..i + 1][..i] == bombs[..i];
    assert bombs[..i + 1][i] == bombs[i];
    assert bombs[i] !in prev.bombs by {
      assert forall k :: 0 <= k < i ==> bombs[..i][k] == bombs[k];
    }
    BeamPassHits(target, prev.beams, beamAt);
    BeamPassCount(target, prev.beams, beamAt);
    assert bombs[..|bombs|] == bombs;
    SweepBombSettled(bird, bombs, bombAt, beams, beamAt, i, |bombs|);
  }

  /** A bomb and a beam that overlap, with the bird clear: one explosion at
      the bomb's centre, both removed, 100 points. */
  lemma SweepSingleHit<B, M>(bird: Rect, bomb: B, bombAt: B -> Rect, beam: M, beamAt: M -> Rect)
    requires !Collide(bird, bombAt(bomb)) && Collide(beamAt(beam), bombAt(bomb))
    ensures BombPass(bird, [bomb], bombAt, [beam], beamAt) ==
            Outcome(false, [], [], [CenterOf(bombAt(bomb))])
    ensures Points(BombPass(bird, [bomb], bombAt, [beam], beamAt)) == 100
  {
    assert [bomb][..0] == [];
    assert [beam][..0] == [];
    var c := CenterOf(bombAt(bomb));
    assert BeamPass(bombAt(bomb), [beam], beamAt) == ([], 1);
    assert BombPass(bird, [], bombAt, [beam], beamAt) == Outcome(false, [], [beam], []);
    assert seq(1, _ => c) == [c];
  }

  /** A bomb hit by two beams in the same frame leaves two explosions and
      earns 200 points. */
  lemma SweepDoubleHit<B, M>(bird: Rect, bomb: B, bombAt: B -> Rect, b1: M, b2: M, beamAt: M -> Rect)
    requires !Collide(bird, bombAt(bomb))
    requires Collide(beamAt(b1), bombAt(bomb)) && Collide(beamAt(b2), bombAt(bomb))
    ensures BombPass(bird, [bomb], bombAt, [b1, b2], beamAt).blasts ==
            [CenterOf(bombAt(bomb)), CenterOf(bombAt(bomb))]
    ensures BombPass(bird, [bomb], bombAt, [b1, b2], beamAt).bombs == []
    ensures Points(BombPass(bird, [bomb], bombAt, [b1, b2], beamAt)) == 200
  {
    assert [bomb][..0] == [];
    assert [b1, b2][..1] == [b1];
    assert [b1][..0] == [];
    var c := CenterOf(bombAt(bomb));
    assert BeamPass(bombAt(bomb), [b1], beamAt) == ([], 1);
    assert BeamPass(bombAt(bomb), [b1, b2], beamAt) == ([], 2);
    assert BombPass(bird, [], bombAt, [b1, b2], beamAt) == Outcome(false, [], [b1, b2], []);
    assert seq(2, _ => c) == [c, c];
  }
}
