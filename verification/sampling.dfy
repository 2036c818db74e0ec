/** The tower-height sampler `random_level`.

    The source draws uniformly distributed non-negative ints and keeps
    growing the tower while a draw is even and the height is below the
    configured maximum. The generator is not modelled: `draw(j)` stands for
    the j-th value the generator yields during one call. */
module Sampling {

  /** The source tests `draw % Base == 0`, a fair coin for a uniform draw. */
  const Base: nat := 2

  /** The height of a new tower: one more level for every leading even draw,
      capped at `maxLevel`. */
  function RandomLevel(maxLevel: int, draw: nat -> nat): (h: int)
    ensures 1 <= h
    ensures 1 <= maxLevel ==> h <= maxLevel
    ensures forall j :: 0 <= j < h - 1 ==> draw(j) % Base == 0
    ensures h < maxLevel ==> draw(h - 1) % Base != 0
  {
    Grow(maxLevel, draw, 1)
  }

  /** The sampling loop from a tower already `height` levels tall. */
  function Grow(maxLevel: int, draw: nat -> nat, height: int): (h: int)
    requires 1 <= height
    requires forall j :: 0 <= j < height - 1 ==> draw(j) % Base == 0
    ensures height <= h
    ensures height <= maxLevel ==> h <= maxLevel
    ensures forall j :: 0 <= j < h - 1 ==> draw(j) % Base == 0
    ensures h < maxLevel ==> draw(h - 1) % Base != 0
    decreases maxLevel - height
  {
    if height < maxLevel && draw(height - 1) % Base == 0 then Grow(maxLevel, draw, height + 1)
    else height
  }
}
