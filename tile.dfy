/**
 * One piece of the puzzle (bitzawolf/Tile.java): the slot it was cut from, the
 * slot it occupies now, and its on-screen animation toward the pixel position
 * of that slot. Java's float coordinates are modelled as reals.
 */
module Tiles {
  import opened Slots

  /** A point or a velocity in pixels (pixels per millisecond for a velocity). */
  datatype Vec = Vec(x: real, y: real)

  /** 500 pixels per second, in pixels per millisecond. */
  const ANIM_SPEED: real := 0.5

  /** Where one coordinate is after an update, and its velocity. */
  datatype Motion = Motion(pos: real, vel: real)

  function RAbs(r: real): real
  {
    if r < 0.0 then -r else r
  }

  /**
   * One coordinate of an animating tile: at rest exactly on its target, or
   * heading toward it at ANIM_SPEED from the near side (or standing on it).
   */
  predicate AxisOK(p: real, v: real, target: real)
  {
    || (v == 0.0 && p == target)
    || (v == ANIM_SPEED && p <= target)
    || (v == -ANIM_SPEED && p >= target)
  }

  /** The velocity moveTo gives one coordinate: ANIM_SPEED toward the target, or 0 when already there. */
  function Heading(p: real, target: real): (v: real)
    ensures AxisOK(p, v, target)
    ensures v == 0.0 <==> p == target
  {
    if target < p then -ANIM_SPEED else if target > p then ANIM_SPEED else 0.0
  }

  /** A coordinate moving at v that has reached or passed target stops on it. */
  function Arrive(p: real, v: real, target: real): Motion
  {
    if (v < 0.0 && p <= target) || (v > 0.0 && p >= target) then Motion(target, 0.0) else Motion(p, v)
  }

  /**
   * One coordinate after `time` milliseconds (Tile.update): a moving coordinate
   * advances by velocity * time and stops on the target once it reaches or
   * passes it.
   */
  function Advance(p: real, v: real, target: real, time: int): (m: Motion)
    requires AxisOK(p, v, target)
    ensures AxisOK(m.pos, m.vel, target)
    ensures v == 0.0 ==> m == Motion(p, v)
    ensures m.vel != 0.0 ==> m.vel == v && m.pos == p + v * time as real
    ensures time >= 0 ==> (p <= m.pos <= target || target <= m.pos <= p)
    ensures time >= 0 && v != 0.0 ==> (m.vel == 0.0 <==> ANIM_SPEED * time as real >= RAbs(target - p))
  {
    if v == 0.0 then Motion(p, v)
    else
      var q := p + v * time as real;
      if v < 0.0 && q <= target then Motion(target, 0.0)
      else if v > 0.0 && q >= target then Motion(target, 0.0)
      else Motion(q, v)
  }

  class Tile {
    const originalSlot: Slot
    var currentSlot: Slot
    var position: Vec
    var moveLocation: Vec
    var velocity: Vec

    /** Both coordinates are at rest on the target or heading toward it. */
    predicate Valid()
      reads this
    {
      AxisOK(position.x, velocity.x, moveLocation.x) && AxisOK(position.y, velocity.y, moveLocation.y)
    }

    /** The velocity is the one moveTo gives for the current position and destination. */
    predicate Retargeted()
      reads this
    {
      velocity == Vec(Heading(position.x, moveLocation.x), Heading(position.y, moveLocation.y))
    }

    /** A tile at slot (x, y), drawn at pos, at rest. */
    constructor (x: int, y: int, pos: Vec)
      ensures Valid()
      ensures originalSlot == Slot(x, y) && currentSlot == Slot(x, y)
      ensures position == pos && moveLocation == pos && velocity == Vec(0.0, 0.0)
    {
      originalSlot := Slot(x, y);
      currentSlot := Slot(x, y);
      position := pos;
      moveLocation := pos;
      velocity := Vec(0.0, 0.0);
    }

    function IsInOriginalSlot(): (r: bool)
      reads this
      ensures r <==> currentSlot == originalSlot
    {
      currentSlot == originalSlot
    }

    /** A tile that is not moving is drawn exactly at its destination. */
    function IsMoving(): (r: bool)
      reads this
      requires Valid()
      ensures r <==> velocity != Vec(0.0, 0.0)
      ensures !r ==> position == moveLocation
    {
      velocity.x != 0.0 || velocity.y != 0.0
    }

    /** Sends the tile to slot newSlot, animating toward (x, y) from where it is now. */
    method MoveTo(x: real, y: real, newSlot: Slot)
      requires Valid()
      modifies this
      ensures Valid()
      ensures currentSlot == newSlot && moveLocation == Vec(x, y) && position == old(position)
      ensures velocity == Vec(Heading(position.x, x), Heading(position.y, y)) && Retargeted()
      ensures IsMoving() <==> moveLocation != position
    {
      currentSlot := newSlot;
      moveLocation := Vec(x, y);
      var signX, signY := 0.0, 0.0;
      if moveLocation.x < position.x {
        signX := -1.0;
      } else if moveLocation.x > position.x {
        signX := 1.0;
      }
      if moveLocation.y < position.y {
        signY := -1.0;
      } else if moveLocation.y > position.y {
        signY := 1.0;
      }
      velocity := Vec(ANIM_SPEED * signX, ANIM_SPEED * signY);
    }

    /** Puts the tile on slot newSlot at (x, y) at once; the velocity is left as it was. */
    method MoveInstantlyTo(x: real, y: real, newSlot: Slot)
      requires Valid()
      modifies this
      ensures Valid()
      ensures currentSlot == newSlot && moveLocation == Vec(x, y) && position == Vec(x, y)
      ensures velocity == old(velocity)
    {
      currentSlot := newSlot;
      moveLocation := Vec(x, y);
      position := Vec(x, y);
    }

    /** Advances the animation by time milliseconds. */
    method Update(time: int)
      requires Valid()
      modifies this
      ensures Valid()
      ensures currentSlot == old(currentSlot) && moveLocation == old(moveLocation)
      ensures Motion(position.x, velocity.x) == Advance(old(position.x), old(velocity.x), moveLocation.x, time)
      ensures Motion(position.y, velocity.y) == Advance(old(position.y), old(velocity.y), moveLocation.y, time)
    {
      if velocity.x != 0.0 || velocity.y != 0.0 {
        position := Vec(position.x + velocity.x * time as real, position.y + velocity.y * time as real);
        StopAtTargetX();
        StopAtTargetY();
      }
    }

    /** The x half of update's arrival check: a tile that has reached or passed its target stops on it. */
    method StopAtTargetX()
      modifies this`position, this`velocity
      ensures Motion(position.x, velocity.x) == Arrive(old(position.x), old(velocity.x), moveLocation.x)
      ensures position.y == old(position.y) && velocity.y == old(velocity.y)
    {
      if velocity.x < 0.0 && position.x <= moveLocation.x {
        position := position.(x := moveLocation.x);
        velocity := velocity.(x := 0.0);
      } else if velocity.x > 0.0 && position.x >= moveLocation.x {
        position := position.(x := moveLocation.x);
        velocity := velocity.(x := 0.0);
      }
    }

    /** The y half of update's arrival check. */
    method StopAtTargetY()
      modifies this`position, this`velocity
      ensures Motion(position.y, velocity.y) == Arrive(old(position.y), old(velocity.y), moveLocation.y)
      ensures position.x == old(position.x) && velocity.x == old(velocity.x)
    {
      if velocity.y < 0.0 && position.y <= moveLocation.y {
        position := position.(y := moveLocation.y);
        velocity := velocity.(y := 0.0);
      } else if velocity.y > 0.0 && position.y >= moveLocation.y {
        position := position.(y := moveLocation.y);
        velocity := velocity.(y := 0.0);
      }
    }
  }
}
