/** The player's vertical motion: the first-person camera's height, whether
    a jump is under way, and the jump's vertical velocity. Each frame may
    start a jump, moves the camera by the jump's velocity, pulls that
    velocity down by gravity, and lands the camera on the ground. Walking
    moves the camera only horizontally, so it does not appear here. */
module Player {

  /** The camera's height when standing on the ground. */
  const Ground: real := 2.0
  /** A jump can start only at or below this height. */
  const TakeoffHeight: real := 2.1
  /** The vertical velocity a jump starts with. */
  const JumpForce: real := 8.0
  /** The vertical acceleration during a jump. */
  const JumpGravity: real := -20.0

  datatype Vertical = Vertical(y: real, jumping: bool, velocity: real)

  /** A jump starts this frame: Space is held, no jump is under way, and
      the camera is low enough. */
  predicate Takeoff(v: Vertical, space: bool) {
    space && !v.jumping && v.y <= TakeoffHeight
  }

  /** One frame of vertical motion with Space held or not. The camera moves
      by the velocity it had before gravity acts this frame. */
  function VerticalStep(v: Vertical, space: bool, delta: real): (r: Vertical)
    ensures r.y >= Ground
    ensures r.jumping ==> r.y > Ground
    ensures r.jumping && !v.jumping ==> Takeoff(v, space)
    ensures v.jumping && !r.jumping ==> r.y == Ground && r.velocity == 0.0
    ensures !v.jumping && !Takeoff(v, space) ==>
      !r.jumping && r.velocity == v.velocity && r.y == (if v.y < Ground then Ground else v.y)
    ensures var v0 := if Takeoff(v, space) then JumpForce else v.velocity;
      v.jumping || Takeoff(v, space) ==>
        && (r.jumping <==> v.y + v0 * delta > Ground)
        && (r.jumping ==> r.y == v.y + v0 * delta && r.velocity == v0 + JumpGravity * delta)
        && (!r.jumping ==> r.y == Ground && r.velocity == 0.0)
  {
    var jumping := v.jumping || Takeoff(v, space);
    var velocity := if Takeoff(v, space) then JumpForce else v.velocity;
    if jumping then
      var y := v.y + velocity * delta;
      if y <= Ground then Vertical(Ground, false, 0.0)
      else Vertical(y, true, velocity + JumpGravity * delta)
    else
      Vertical(if v.y < Ground then Ground else v.y, false, v.velocity)
  }

  /** At rest the jump velocity is zero. */
  predicate Resting(v: Vertical) {
    !v.jumping ==> v.velocity == 0.0
  }

  /** Every frame keeps the velocity at zero while no jump is under way. */
  lemma VerticalStepKeepsResting(v: Vertical, space: bool, delta: real)
    requires Resting(v)
    ensures Resting(VerticalStep(v, space, delta))
  {
  }

  /** From the ground, a jump with a positive frame time lifts the camera by
      the full jump force and leaves gravity's pull in the velocity. */
  lemma TakeoffRises(v: Vertical, delta: real)
    requires !v.jumping && Ground <= v.y <= TakeoffHeight && delta > 0.0
    ensures var r := VerticalStep(v, true, delta);
      r.jumping && r.y == v.y + JumpForce * delta && r.velocity == JumpForce + JumpGravity * delta
  {
  }

  /** While a jump goes on, every frame with positive time lowers the velocity. */
  lemma JumpSlowsDown(v: Vertical, space: bool, delta: real)
    requires v.jumping && delta > 0.0
    ensures var r := VerticalStep(v, space, delta);
      r.jumping ==> r.velocity < v.velocity
  {
  }

  /** The state after a run of frames, each given as (Space held, delta). */
  function Run(v: Vertical, frames: seq<(bool, real)>): Vertical
    decreases |frames|
  {
    if frames == [] then v
    else VerticalStep(Run(v, frames[..|frames| - 1]), frames[|frames| - 1].0, frames[|frames| - 1].1)
  }

  /** Over any run of frames, from the spawn height or above, the camera
      never goes below the ground and the velocity is zero whenever no jump
      is under way. */
  lemma {:induction false} RunStaysGrounded(v: Vertical, frames: seq<(bool, real)>)
    requires Resting(v) && v.y >= Ground
    ensures var r := Run(v, frames);
      r.y >= Ground && Resting(r)
    decreases |frames|
  {
    if frames != [] {
      var init := frames[..|frames| - 1];
      RunStaysGrounded(v, init);
      VerticalStepKeepsResting(Run(v, init), frames[|frames| - 1].0, frames[|frames| - 1].1);
    }
  }

  /** The vertical part of the player's frame callback, on the camera's
      height and the two refs it keeps. */
  class Player {
    var y: real
    var isJumping: bool
    var jumpVelocity: real

    function State(): Vertical
      reads this
    {
      Vertical(y, isJumping, jumpVelocity)
    }

    /** The camera spawns at height 2, standing. */
    constructor ()
      ensures State() == Vertical(Ground, false, 0.0)
      ensures Resting(State()) && y >= Ground
    {
      y := Ground;
      isJumping := false;
      jumpVelocity := 0.0;
    }

    method Frame(space: bool, delta: real)
      modifies this
      ensures State() == VerticalStep(old(State()), space, delta)
      ensures Resting(old(State())) ==> Resting(State())
      ensures y >= Ground
    {
      if space && !isJumping && y <= TakeoffHeight {
        isJumping := true;
        jumpVelocity := JumpForce;
      }
      if isJumping {
        y := y + jumpVelocity * delta;
        jumpVelocity := jumpVelocity + JumpGravity * delta;
        if y <= Ground {
          y := Ground;
          isJumping := false;
          jumpVelocity := 0.0;
        }
      } else {
        if y < Ground {
          y := Ground;
        }
      }
      if Resting(old(State())) {
        VerticalStepKeepsResting(old(State()), space, delta);
      }
    }
  }
}
