/** Bombs: round hazards that bounce off the field's walls at a fixed speed
    of 5 on each axis. */
module Bombs {
  import opened Geometry

  /** The two speeds a bomb may have on each axis (`directions`). */
  const Speeds: set<int> := {-5, 5}

  /** The abstract state of a bomb: its rectangle and its velocity. The colour
      only affects drawing and is not part of this model. */
  datatype BombState = BombState(rct: Rect, vx: int, vy: int)

  /** The values the random draws of `Bomb.__init__` can take: a radius in
      10..50, a centre anywhere in the field (edges included), and a speed of
      -5 or +5 on each axis. */
  predicate SpawnRange(rad: int, cx: int, cy: int, vx: int, vy: int)
  {
    10 <= rad <= 50 && 0 <= cx <= WIDTH && 0 <= cy <= HEIGHT &&
    vx in Speeds && vy in Speeds
  }

  /** `Bomb.__init__` for given draws: a `2 rad` square centred on `(cx, cy)`. */
  function Spawn(rad: nat, cx: int, cy: int, vx: int, vy: int): (s: BombState)
    requires SpawnRange(rad, cx, cy, vx, vy)
    ensures s.rct.w == 2 * rad && s.rct.h == 2 * rad
    ensures s.rct.CenterX() == cx && s.rct.CenterY() == cy
    ensures s.vx in Speeds && s.vy in Speeds
  {
    BombState(Centered(cx, cy, 2 * rad, 2 * rad), vx, vy)
  }

  /** `Bomb.update`: test the current rectangle, reverse each velocity
      component whose axis is out of the field, then move by the new
      velocity. */
  function BombStep(s: BombState): (r: BombState)
    ensures r.rct.w == s.rct.w && r.rct.h == s.rct.h
    ensures (r.vx == s.vx || r.vx == -s.vx) && (r.vy == s.vy || r.vy == -s.vy)
  {
    var (yoko, tate) := CheckBound(s.rct);
    var vx := if !yoko then s.vx * -1 else s.vx;
    var vy := if !tate then s.vy * -1 else s.vy;
    BombState(s.rct.Move(vx, vy), vx, vy)
  }

  /** Each velocity component is reversed exactly when the rectangle was out
      of the field on its axis before the move (both may reverse in one
      update, a corner bounce); the speed keeps its magnitude, and the bomb
      then moves by the new velocity without changing size. */
  lemma BombStepReflects(s: BombState)
    requires s.vx in Speeds && s.vy in Speeds
    ensures BombStep(s).vx == (if CheckBound(s.rct).0 then s.vx else -s.vx)
    ensures BombStep(s).vy == (if CheckBound(s.rct).1 then s.vy else -s.vy)
    ensures BombStep(s).vx in Speeds && BombStep(s).vy in Speeds
    ensures BombStep(s).rct == s.rct.Move(BombStep(s).vx, BombStep(s).vy)
  {
  }

  /** The bomb after `n` updates. */
  function BombRun(s: BombState, n: nat): BombState
  {
    if n == 0 then s else BombStep(BombRun(s, n - 1))
  }

  /** However long a bomb bounces, both velocity components keep magnitude 5
      and its size never changes. */
  lemma {:induction false} BombRunSpeed(s: BombState, n: nat)
    requires s.vx in Speeds && s.vy in Speeds
    ensures BombRun(s, n).vx in Speeds && BombRun(s, n).vy in Speeds
    ensures BombRun(s, n).rct.w == s.rct.w && BombRun(s, n).rct.h == s.rct.h
  {
    if n > 0 {
      BombRunSpeed(s, n - 1);
      BombStepReflects(BombRun(s, n - 1));
    }
  }

  /** Because the test is made before the move, a bomb that is out of the
      field horizontally, and still out after one step back against its
      velocity, only flips its horizontal velocity back and forth: every two
      updates it is back at the same horizontal place with the same
      horizontal velocity, so it never re-enters the field. */
  lemma {:induction false} BombEdgeJitter(s: BombState, k: nat)
    requires !CheckBound(s.rct).0 && !CheckBound(s.rct.Move(-s.vx, 0)).0
    ensures BombRun(s, 2 * k).rct.left == s.rct.left && BombRun(s, 2 * k).rct.w == s.rct.w
    ensures BombRun(s, 2 * k).vx == s.vx
  {
    if k > 0 {
      BombEdgeJitter(s, k - 1);
      var t := BombRun(s, 2 * (k - 1));
      assert 2 * k == 2 * (k - 1) + 1 + 1;
      assert BombRun(s, 2 * k) == BombStep(BombStep(t));
      CheckBoundAxesIndependent(t.rct.Move(-t.vx, 0), 0, BombStep(t).rct.top - t.rct.top);
    }
  }

  /** For instance, the draws allow a bomb of radius 10 centred on the left
      edge; it sticks there, jittering in and out by 5, for the whole game:
      after every even number of updates it is back at `left == -10`, and
      after every update, even or odd, it is out of the field horizontally. */
  lemma SpawnOnLeftEdgeSticks(cy: int, vx: int, vy: int, k: nat)
    requires SpawnRange(10, 0, cy, vx, vy)
    ensures BombRun(Spawn(10, 0, cy, vx, vy), 2 * k).rct.left == -10
    ensures !CheckBound(BombRun(Spawn(10, 0, cy, vx, vy), 2 * k).rct).0
    ensures !CheckBound(BombRun(Spawn(10, 0, cy, vx, vy), 2 * k + 1).rct).0
  {
    var s := Spawn(10, 0, cy, vx, vy);
    BombEdgeJitter(s, k);
    var t := BombRun(s, 2 * k);
    assert BombRun(s, 2 * k + 1) == BombStep(t);
    CheckBoundAxesIndependent(t.rct.Move(-t.vx, 0), 0, BombStep(t).rct.top - t.rct.top);
  }

  class Bomb {
    var rct: Rect
    var vx: int
    var vy: int

    /** A non-empty rectangle whose velocity components have magnitude 5. */
    ghost predicate Valid()
      reads this
    {
      rct.w > 0 && rct.h > 0 && vx in Speeds && vy in Speeds
    }

    function State(): BombState
      reads this
    {
      BombState(rct, vx, vy)
    }

    /** `Bomb()`, with the random draws passed in. */
    constructor (rad: nat, cx: int, cy: int, vx0: int, vy0: int)
      requires SpawnRange(rad, cx, cy, vx0, vy0)
      ensures Valid()
      ensures State() == Spawn(rad, cx, cy, vx0, vy0)
    {
      rct := Centered(cx, cy, 2 * rad, 2 * rad);
      vx, vy := vx0, vy0;
    }

    /** `update`: bounce off the walls, then move. */
    method Update()
      requires Valid()
      modifies this
      ensures Valid()
      ensures State() == BombStep(old(State()))
    {
      var (yoko, tate) := CheckBound(rct);
      if !yoko {
        vx := vx * -1;
      }
      if !tate {
        vy := vy * -1;
      }
      rct := rct.Move(vx, vy);
    }
  }
}
