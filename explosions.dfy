/** Explosions: a short animation left where a bomb was destroyed. It lives
    for 40 updates and shows each of its four pictures for 10 of them. */
module Explosions {

  /** Number of pictures in `_img_list` (the picture and its three flips). */
  const ImgCount := 4
  /** `_change_img_interval`: updates per picture. */
  const Interval := 10
  const LastIndex := ImgCount - 1
  /** The starting `life`, `len(_img_list) * _change_img_interval`. */
  const Lifetime := ImgCount * Interval

  /** The abstract state of an explosion: remaining life and picture index. */
  datatype ExplosionState = ExplosionState(life: int, index: int)

  /** A new explosion: full life, first picture. */
  const Start := ExplosionState(Lifetime, 0)

  /** `_next_img`: advance the picture index, clamped at the last picture. */
  function NextIndex(index: int): (r: int)
    ensures r == index + 1 || r == LastIndex
    ensures index <= LastIndex ==> index <= r <= LastIndex
  {
    if index + 1 > LastIndex then LastIndex else index + 1
  }

  /** `Explosion.update`: lose one unit of life, and advance the picture when
      the new life is a multiple of the interval. */
  function ExplosionStep(s: ExplosionState): (r: ExplosionState)
    ensures r.life == s.life - 1
    ensures r.index == s.index || r.index == NextIndex(s.index)
  {
    var life := s.life - 1;
    ExplosionState(life, if life % Interval == 0 then NextIndex(s.index) else s.index)
  }

  /** The picture index never decreases and never exceeds the last one. */
  lemma ExplosionIndexBounded(s: ExplosionState)
    requires 0 <= s.index <= LastIndex
    ensures s.index <= ExplosionStep(s).index <= LastIndex
  {
  }

  /** The explosion after `n` updates. */
  function ExplosionRun(s: ExplosionState, n: nat): ExplosionState
  {
    if n == 0 then s else ExplosionStep(ExplosionRun(s, n - 1))
  }

  function Min(a: int, b: int): int
  {
    if a <= b then a else b
  }

  /** The schedule of a new explosion: after `n` updates its life is `40 - n`
      and it shows picture `min(3, n / 10)`, so the picture advances at
      lives 30, 20 and 10 and stays on the last one from then on. */
  lemma {:induction false} ExplosionSchedule(n: nat)
    ensures ExplosionRun(Start, n) == ExplosionState(Lifetime - n, Min(LastIndex, n / Interval))
  {
    if n > 0 {
      ExplosionSchedule(n - 1);
      var life := Lifetime - n;
      assert life % Interval == 0 <==> n % Interval == 0;
      if n % Interval == 0 {
        assert n / Interval == (n - 1) / Interval + 1;
      } else {
        assert n / Interval == (n - 1) / Interval;
      }
    }
  }

  /** An explosion survives its first 39 updates (its life stays positive),
      and after exactly 40 its life is 0, making it due for removal, with the
      last picture showing. */
  lemma ExplosionLifecycle(n: nat)
    ensures n < Lifetime ==> ExplosionRun(Start, n).life > 0
    ensures ExplosionRun(Start, Lifetime) == ExplosionState(0, LastIndex)
  {
    ExplosionSchedule(n);
    ExplosionSchedule(Lifetime);
  }

  /** The object invariant of an explosion: its picture index is the one the
      schedule gives for the updates it has had so far. */
  ghost predicate OnSchedule(s: ExplosionState)
  {
    s.life <= Lifetime && s.index == Min(LastIndex, (Lifetime - s.life) / Interval)
  }

  /** One update keeps an explosion on schedule. */
  lemma ExplosionStepOnSchedule(s: ExplosionState)
    requires OnSchedule(s)
    ensures OnSchedule(ExplosionStep(s))
  {
    var n := Lifetime - s.life;
    var life := s.life - 1;
    assert (Lifetime - life) % Interval == 0 <==> life % Interval == 0;
    if (n + 1) % Interval == 0 {
      assert (n + 1) / Interval == n / Interval + 1;
    } else {
      assert (n + 1) / Interval == n / Interval;
    }
  }

  class Explosion {
    var life: int
    var imgIndex: int
    /** The centre of the explosion's rectangle. */
    var center: (int, int)

    ghost predicate Valid()
      reads this
    {
      OnSchedule(State())
    }

    function State(): ExplosionState
      reads this
    {
      ExplosionState(life, imgIndex)
    }

    /** `Explosion(bomb)`, given the bomb's centre. */
    constructor (c: (int, int))
      ensures Valid()
      ensures State() == Start && center == c
    {
      imgIndex := 0;
      center := c;
      life := ImgCount * Interval;
    }

    /** `update`. */
    method Update()
      requires Valid()
      modifies this
      ensures Valid()
      ensures State() == ExplosionStep(old(State())) && center == old(center)
    {
      ExplosionStepOnSchedule(State());
      life := life - 1;
      if life % Interval == 0 {
        NextImg();
      }
    }

    /** `_next_img`. */
    method NextImg()
      modifies this`imgIndex
      ensures imgIndex == NextIndex(old(imgIndex))
    {
      imgIndex := imgIndex + 1;
      if imgIndex > LastIndex {
        imgIndex := LastIndex;
      }
    }
  }
}
