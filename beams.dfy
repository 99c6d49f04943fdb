/** Beams: fired from the bird along its facing and flying in a straight line
    at the facing's velocity. */
module Beams {
  import opened Geometry
  import opened Player

  /** The abstract state of a beam: its rectangle and its velocity. */
  datatype BeamState = BeamState(rct: Rect, vx: int, vy: int)

  /** `Beam.__init__`: the velocity is the bird's facing, and the beam's
      centre is the bird's centre plus the bird's width times `vx / 5` and its
      height times `vy / 5`. `size` is the size of the beam image turned to
      face that way. */
  function Launch(bird: BirdState, size: (nat, nat)): (r: BeamState)
    ensures (r.vx, r.vy) == bird.dire && r.rct.w == size.0 && r.rct.h == size.1
  {
    var (vx, vy) := bird.dire;
    BeamState(
      Centered(bird.rct.CenterX() + bird.rct.w * vx / 5,
               bird.rct.CenterY() + bird.rct.h * vy / 5,
               size.0, size.1),
      vx, vy)
  }

  /** -1, 0 or 1 by the sign of `v`. */
  function Sign(v: int): int
  {
    if v > 0 then 1 else if v < 0 then -1 else 0
  }

  /** A launched beam moves with the bird's facing, and its centre sits one
      whole bird width (height) away from the bird's centre on each axis the
      facing points along, and level with it on the other axis; the offset is
      always a whole number. */
  lemma LaunchOffset(bird: BirdState, size: (nat, nat))
    requires IsDirection(bird.dire)
    ensures (Launch(bird, size).vx, Launch(bird, size).vy) == bird.dire
    ensures Launch(bird, size).rct.w == size.0 && Launch(bird, size).rct.h == size.1
    ensures Launch(bird, size).rct.CenterX() == bird.rct.CenterX() + Sign(bird.dire.0) * bird.rct.w
    ensures Launch(bird, size).rct.CenterY() == bird.rct.CenterY() + Sign(bird.dire.1) * bird.rct.h
  {
    var (vx, vy) := bird.dire;
    var w, h := bird.rct.w, bird.rct.h;
    assert vx in {-5, 0, 5} && vy in {-5, 0, 5};
    assert w * 5 / 5 == w && w * -5 / 5 == -w && w * 0 / 5 == 0;
    assert h * 5 / 5 == h && h * -5 / 5 == -h && h * 0 / 5 == 0;
  }

  /** `Beam.update`: move by the velocity. */
  function BeamStep(s: BeamState): (r: BeamState)
    ensures r.vx == s.vx && r.vy == s.vy && r.rct.w == s.rct.w && r.rct.h == s.rct.h
    ensures r.rct.Right() - s.rct.Right() == s.vx && r.rct.Bottom() - s.rct.Bottom() == s.vy
  {
    s.(rct := s.rct.Move(s.vx, s.vy))
  }

  /** The beam after `n` updates. */
  function BeamFlight(s: BeamState, n: nat): BeamState
  {
    if n == 0 then s else BeamStep(BeamFlight(s, n - 1))
  }

  /** A beam flies in a straight line: after `n` updates it has moved by
      exactly `n` times its velocity, which never changes. */
  lemma {:induction false} BeamStraightLine(s: BeamState, n: nat)
    ensures BeamFlight(s, n).vx == s.vx && BeamFlight(s, n).vy == s.vy
    ensures BeamFlight(s, n).rct == s.rct.Move(n * s.vx, n * s.vy)
  {
    if n > 0 {
      BeamStraightLine(s, n - 1);
      assert (n - 1) * s.vx + s.vx == n * s.vx;
      assert (n - 1) * s.vy + s.vy == n * s.vy;
    }
  }

  class Beam {
    var rct: Rect
    var vx: int
    var vy: int

    /** A non-empty rectangle moving along one of the eight directions. */
    ghost predicate Valid()
      reads this
    {
      rct.w > 0 && rct.h > 0 && IsDirection((vx, vy))
    }

    function State(): BeamState
      reads this
    {
      BeamState(rct, vx, vy)
    }

    /** `Beam(bird)`; the image size for the bird's facing is a parameter. */
    constructor (bird: Bird, size: (nat, nat))
      requires bird.Valid()
      requires size.0 > 0 && size.1 > 0
      ensures Valid()
      ensures State() == Launch(bird.State(), size)
    {
      var dx, dy := bird.dire.0, bird.dire.1;
      vx, vy := dx, dy;
      rct := Centered(bird.rct.CenterX() + bird.rct.w * dx / 5,
                      bird.rct.CenterY() + bird.rct.h * dy / 5,
                      size.0, size.1);
    }

    /** `update`: move by the velocity. */
    method Update()
      requires Valid()
      modifies this
      ensures Valid()
      ensures State() == BeamStep(old(State()))
    {
      rct := rct.Move(vx, vy);
    }
  }
}
