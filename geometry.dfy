/** Integer rectangles inside the fixed 1600 x 900 play field, the bounds test
    `check_bound`, and the rectangle operations the game borrows from its
    graphics library (moving in place, reading and setting the centre, and the
    overlap test used for every collision). */
module Geometry {

  /** Width and height of the game window. */
  const WIDTH := 1600
  const HEIGHT := 900

  /** An axis-aligned rectangle given by its top-left corner and its size, as
      the graphics library stores it. */
  datatype Rect = Rect(left: int, top: int, w: int, h: int)
  {
    function Right(): int { left + w }
    function Bottom(): int { top + h }

    /** The library's centre reading: corner plus half the size, halved
        downwards (sizes are never negative here). */
    function CenterX(): int { left + w / 2 }
    function CenterY(): int { top + h / 2 }

    /** `move_ip(dx, dy)`: translate, keeping the size. */
    function Move(dx: int, dy: int): (r: Rect)
      ensures r.w == w && r.h == h
      ensures r.Right() - Right() == dx && r.Bottom() - Bottom() == dy
    {
      Rect(left + dx, top + dy, w, h)
    }
  }

  /** A rectangle of size `w` x `h` whose centre is set to `(cx, cy)`, as the
      library's `center` setter places it. */
  function Centered(cx: int, cy: int, w: nat, h: nat): (r: Rect)
    ensures r.w == w && r.h == h
    ensures r.CenterX() == cx && r.CenterY() == cy
  {
    Rect(cx - w / 2, cy - h / 2, w, h)
  }

  /** `check_bound`: for each axis separately, whether the rectangle lies
      inside the field (first component horizontal, second vertical). */
  function CheckBound(r: Rect): (b: (bool, bool))
    ensures b.0 <==> 0 <= r.left && r.Right() <= WIDTH
    ensures b.1 <==> 0 <= r.top && r.Bottom() <= HEIGHT
  {
    var yoko := !(r.left < 0 || WIDTH < r.Right());
    var tate := !(r.top < 0 || HEIGHT < r.Bottom());
    (yoko, tate)
  }

  /** The rectangle lies wholly inside the field. */
  predicate InField(r: Rect)
  {
    CheckBound(r) == (true, true)
  }

  /** The two answers of `check_bound` are independent: a vertical move never
      changes the horizontal answer, and a horizontal move never changes the
      vertical one. */
  lemma CheckBoundAxesIndependent(r: Rect, dx: int, dy: int)
    ensures CheckBound(r.Move(0, dy)).0 == CheckBound(r).0
    ensures CheckBound(r.Move(dx, 0)).1 == CheckBound(r).1
  {
  }

  /** A rectangle inside the field is reported inside on both axes, and
      pushing it one unit past any edge turns off exactly that edge's axis. */
  lemma CheckBoundEdges(r: Rect)
    requires r.w >= 0 && r.h >= 0 && r.w <= WIDTH && r.h <= HEIGHT
    ensures CheckBound(Rect(0, 0, r.w, r.h)) == (true, true)
    ensures CheckBound(Rect(-1, 0, r.w, r.h)) == (false, true)
    ensures CheckBound(Rect(WIDTH - r.w + 1, 0, r.w, r.h)) == (false, true)
    ensures CheckBound(Rect(0, -1, r.w, r.h)) == (true, false)
    ensures CheckBound(Rect(0, HEIGHT - r.h + 1, r.w, r.h)) == (true, false)
  {
  }

  /** `colliderect`: the two rectangles share interior area. Empty rectangles
      never collide; otherwise the overlap is strict, so rectangles that only
      touch along an edge do not collide. */
  predicate Collide(a: Rect, b: Rect)
  {
    a.w > 0 && a.h > 0 && b.w > 0 && b.h > 0 &&
    a.left < b.Right() && b.left < a.Right() &&
    a.top < b.Bottom() && b.top < a.Bottom()
  }

  /** Collision is symmetric, so the order in which the loop asks does not
      matter. */
  lemma CollideSymmetric(a: Rect, b: Rect)
    ensures Collide(a, b) <==> Collide(b, a)
  {
  }
}
