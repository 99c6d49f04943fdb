/** The player character (`Bird`): it walks by the arrow keys held this
    frame, never leaves the field, and remembers the last direction it moved
    in as its facing, which later orients the beams it fires. */
module Player {
  import opened Geometry

  /** The four arrow keys the bird listens to. */
  datatype Key = Up | Down | Left | Right

  /** Which arrow keys are held during one frame. */
  datatype Keys = Keys(up: bool, down: bool, left: bool, right: bool)

  function Pressed(keys: Keys, k: Key): bool
  {
    match k
    case Up => keys.up
    case Down => keys.down
    case Left => keys.left
    case Right => keys.right
  }

  /** `Bird.delta`: the displacement of each key, in the table's own order. */
  const Delta: seq<(Key, (int, int))> :=
    [(Up, (0, -5)), (Down, (0, 5)), (Left, (-5, 0)), (Right, (5, 0))]

  /** The keys of `imgs`: the eight directions of magnitude 5, numbered
      counter-clockwise from "right" as the image table lists them. */
  const Facings: map<(int, int), nat> :=
    map[(5, 0) := 0, (5, -5) := 1, (0, -5) := 2, (-5, -5) := 3,
        (-5, 0) := 4, (-5, 5) := 5, (0, 5) := 6, (5, 5) := 7]

  /** The facing every bird starts with: to the right. */
  const StartFacing: (int, int) := (5, 0)

  predicate IsDirection(d: (int, int))
  {
    d in Facings
  }

  function Bit(b: bool): int
  {
    if b then 1 else 0
  }

  /** Reference definition of the displacement asked for by the held keys:
      right minus left horizontally, down minus up vertically, 5 each. */
  function NetMove(keys: Keys): (r: (int, int))
    ensures r.0 in {-5, 0, 5} && r.1 in {-5, 0, 5}
    ensures r == (0, 0) || IsDirection(r)
  {
    (5 * (Bit(keys.right) - Bit(keys.left)), 5 * (Bit(keys.down) - Bit(keys.up)))
  }

  /** What summing the rows of a displacement table gives for the held keys
      (the meaning of the loop in `Bird.update` after it has read `table`). */
  function TableSum(keys: Keys, table: seq<(Key, (int, int))>): (r: (int, int))
    ensures (forall k :: 0 <= k < |table| ==> !Pressed(keys, table[k].0)) ==> r == (0, 0)
  {
    if table == [] then (0, 0)
    else
      var sum := TableSum(keys, table[..|table| - 1]);
      var (k, mv) := table[|table| - 1];
      if Pressed(keys, k) then (sum.0 + mv.0, sum.1 + mv.1) else sum
  }

  /** Summing the whole delta table gives the reference displacement. */
  lemma DeltaSum(keys: Keys)
    ensures TableSum(keys, Delta) == NetMove(keys)
  {
    var up, down := -5 * Bit(keys.up), 5 * Bit(keys.down);
    var left, right := -5 * Bit(keys.left), 5 * Bit(keys.right);
    assert Delta[..1][..0] == [];
    assert TableSum(keys, Delta[..1]) == (0, up);
    assert Delta[..2][..1] == Delta[..1];
    assert TableSum(keys, Delta[..2]) == (0, up + down);
    assert Delta[..3][..2] == Delta[..2];
    assert TableSum(keys, Delta[..3]) == (left, up + down);
    assert Delta[..3] == Delta[..|Delta| - 1];
  }

  /** The loop of `Bird.update` that accumulates `sum_mv` over the delta
      table. */
  method SumMoves(keys: Keys) returns (sum: (int, int))
    ensures sum == NetMove(keys)
  {
    sum := (0, 0);
    for i := 0 to |Delta|
      invariant sum == TableSum(keys, Delta[..i])
    {
      var (k, mv) := Delta[i];
      assert Delta[..i + 1][..i] == Delta[..i];
      if Pressed(keys, k) {
        sum := (sum.0 + mv.0, sum.1 + mv.1);
      }
    }
    assert Delta[..|Delta|] == Delta;
    DeltaSum(keys);
  }

  /** Each component of the summed displacement is -5, 0 or +5, so a non-zero
      sum is always one of the eight keys of the image table (the lookup
      `imgs[tuple(sum_mv)]` never fails); the sum is zero exactly when the
      opposite keys cancel on both axes. */
  lemma NetMoveFacing(keys: Keys)
    ensures NetMove(keys).0 in {-5, 0, 5} && NetMove(keys).1 in {-5, 0, 5}
    ensures NetMove(keys) != (0, 0) <==> IsDirection(NetMove(keys))
    ensures NetMove(keys) == (0, 0) <==> keys.left == keys.right && keys.up == keys.down
  {
  }

  /** Which picture the bird shows: one of the eight facing images, or a
      numbered pose set by `change_img` (the happy and the game-over faces). */
  datatype BirdImage = Facing(index: nat) | Pose(num: int)

  /** The abstract state of a bird: its rectangle, facing and picture. */
  datatype BirdState = BirdState(rct: Rect, dire: (int, int), img: BirdImage)

  /** The position step of `Bird.update`: move by `mv`, and move back by the
      same amount when the moved rectangle is outside on either axis. */
  function Walk(rct: Rect, mv: (int, int)): (r: Rect)
    ensures r.w == rct.w && r.h == rct.h
  {
    var moved := rct.Move(mv.0, mv.1);
    if CheckBound(moved) != (true, true) then moved.Move(-mv.0, -mv.1) else moved
  }

  /** One call of `Bird.update` with summed displacement `mv`. */
  function BirdStep(s: BirdState, mv: (int, int)): (r: BirdState)
    requires mv == (0, 0) || IsDirection(mv)
    ensures r.rct.w == s.rct.w && r.rct.h == s.rct.h
    ensures IsDirection(s.dire) ==> IsDirection(r.dire)
  {
    BirdState(
      Walk(s.rct, mv),
      if mv != (0, 0) then mv else s.dire,
      if mv != (0, 0) then Facing(Facings[mv]) else s.img)
  }

  /** The move is all or nothing: either the whole displacement is applied and
      the result is inside the field, or the position is restored exactly
      (never one axis only). The size never changes, and a bird inside the
      field stays inside. */
  lemma WalkAllOrNothing(rct: Rect, mv: (int, int))
    ensures Walk(rct, mv).w == rct.w && Walk(rct, mv).h == rct.h
    ensures InField(rct.Move(mv.0, mv.1)) ==> Walk(rct, mv) == rct.Move(mv.0, mv.1)
    ensures !InField(rct.Move(mv.0, mv.1)) ==> Walk(rct, mv) == rct
    ensures InField(rct) ==> InField(Walk(rct, mv))
  {
  }

  /** Facing and picture change exactly when the keys ask for a non-zero
      move, even when that move was undone; otherwise both are kept. */
  lemma BirdStepFacing(s: BirdState, keys: Keys)
    ensures NetMove(keys) != (0, 0) ==>
      BirdStep(s, NetMove(keys)).dire == NetMove(keys) &&
      BirdStep(s, NetMove(keys)).img == Facing(Facings[NetMove(keys)])
    ensures NetMove(keys) == (0, 0) ==>
      BirdStep(s, NetMove(keys)).dire == s.dire && BirdStep(s, NetMove(keys)).img == s.img
    ensures IsDirection(s.dire) ==> IsDirection(BirdStep(s, NetMove(keys)).dire)
  {
  }

  /** The bird after one `Bird.update` per frame, for a run of key states. */
  function BirdRun(s: BirdState, frames: seq<Keys>): BirdState
    decreases |frames|
  {
    if frames == [] then s
    else
      NetMoveFacing(frames[0]);
      BirdRun(BirdStep(s, NetMove(frames[0])), frames[1..])
  }

  /** A bird that starts inside the field, with a valid facing, stays inside
      with the same size and a valid facing whatever keys are held. */
  lemma {:induction false} BirdRunStaysInField(s: BirdState, frames: seq<Keys>)
    requires InField(s.rct) && IsDirection(s.dire)
    ensures InField(BirdRun(s, frames).rct)
    ensures BirdRun(s, frames).rct.w == s.rct.w && BirdRun(s, frames).rct.h == s.rct.h
    ensures IsDirection(BirdRun(s, frames).dire)
    decreases |frames|
  {
    if frames != [] {
      NetMoveFacing(frames[0]);
      var next := BirdStep(s, NetMove(frames[0]));
      WalkAllOrNothing(s.rct, NetMove(frames[0]));
      BirdStepFacing(s, frames[0]);
      BirdRunStaysInField(next, frames[1..]);
    }
  }

  class Bird {
    var rct: Rect
    var dire: (int, int)
    var img: BirdImage

    /** The rectangle is non-empty and the facing is one of the eight
        directions. */
    ghost predicate Valid()
      reads this
    {
      rct.w > 0 && rct.h > 0 && IsDirection(dire)
    }

    function State(): BirdState
      reads this
    {
      BirdState(rct, dire, img)
    }

    /** A bird facing right, centred on `(cx, cy)`; `w` x `h` is the size of
        the right-facing image (assets are not part of this model). */
    constructor (w: nat, h: nat, cx: int, cy: int)
      requires w > 0 && h > 0
      ensures Valid()
      ensures State() == BirdState(Centered(cx, cy, w, h), StartFacing, Facing(Facings[StartFacing]))
    {
      rct := Centered(cx, cy, w, h);
      dire := StartFacing;
      img := Facing(Facings[StartFacing]);
    }

    /** `change_img`: show pose `num`; position and facing are untouched. */
    method ChangeImg(num: int)
      modifies this`img
      ensures img == Pose(num)
    {
      img := Pose(num);
    }

    /** `update`: sum the held keys' displacements, move, undo the whole move
        if it left the field, and record a non-zero move as the facing. */
    method Update(keys: Keys)
      requires Valid()
      modifies this
      ensures Valid()
      ensures State() == BirdStep(old(State()), NetMove(keys))
    {
      var sum := SumMoves(keys);
      NetMoveFacing(keys);
      rct := rct.Move(sum.0, sum.1);
      if CheckBound(rct) != (true, true) {
        rct := rct.Move(-sum.0, -sum.1);
      }
      if !(sum.0 == 0 && sum.1 == 0) {
        img := Facing(Facings[sum]);
      }
      if sum != (0, 0) {
        dire := sum;
      }
    }
  }
}
