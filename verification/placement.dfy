/**
 The placement `config` of `WatermarkEngine.process`: which watermark variant
 applies to an image of a given size, and the square it occupies, anchored at
 a fixed inset from the bottom-right corner. The code never checks that the
 square lies inside the image; the lemmas below say exactly when it does.
 */
module Placement {

  /** The `config` object handed to `removeWatermark`. */
  datatype Config = Config(size: int, x: int, y: int, width: int, height: int)

  const SmallSize: int := 48
  const LargeSize: int := 96
  const SmallMargin: int := 32
  const LargeMargin: int := 64

  /** Large images are those strictly wider and strictly taller than 1024. */
  predicate IsLarge(w: nat, h: nat) {
    w > 1024 && h > 1024
  }

  /** The inset from the right and bottom edges that goes with an overlay size. */
  function MarginFor(size: int): int {
    if size == LargeSize then LargeMargin else SmallMargin
  }

  /** The smallest image side for which the overlay square fits. */
  function MinSide(size: int): int {
    MarginFor(size) + size
  }

  function SelectPlacement(w: nat, h: nat): (c: Config)
    ensures c.size == LargeSize <==> IsLarge(w, h)
    ensures c.size == SmallSize <==> !IsLarge(w, h)
    ensures c.width == c.size && c.height == c.size
    ensures c.x + c.size + MarginFor(c.size) == w
    ensures c.y + c.size + MarginFor(c.size) == h
  {
    var large := IsLarge(w, h);
    var size := if large then LargeSize else SmallSize;
    Config(size, w - (if large then LargeMargin else SmallMargin) - size,
           h - (if large then LargeMargin else SmallMargin) - size, size, size)
  }

  /** The square `[x, x + width) x [y, y + height)` lies inside a w x h image. */
  predicate InBounds(c: Config, w: int, h: int) {
    0 <= c.x && 0 <= c.y && c.x + c.width <= w && c.y + c.height <= h
  }

  /** The right and bottom edges always fit; the square as a whole fits exactly
      when both sides reach the margin plus the overlay size. */
  lemma PlacementBounds(w: nat, h: nat)
    ensures var c := SelectPlacement(w, h);
      && c.x + c.width <= w && c.y + c.height <= h
      && (InBounds(c, w, h) <==> w >= MinSide(c.size) && h >= MinSide(c.size))
  {
  }

  /** For the small variant the threshold is 32 + 48 = 80 on each side. */
  lemma SmallPlacementBounds(w: nat, h: nat)
    requires !IsLarge(w, h)
    ensures SelectPlacement(w, h).size == 48
    ensures InBounds(SelectPlacement(w, h), w, h) <==> w >= 80 && h >= 80
  {
  }

  /** Every large image holds its overlay: the corner is at least at (865, 865). */
  lemma LargePlacementInBounds(w: nat, h: nat)
    requires IsLarge(w, h)
    ensures var c := SelectPlacement(w, h);
      c.size == 96 && c.x >= 865 && c.y >= 865 && InBounds(c, w, h)
  {
  }

  /** Worked placements: a 2000 x 2000 image, a 500 x 500 image, a 100 x 100
      image (whose square fits, since the small threshold is 80), and a
      1025 x 79 image (small variant, square sticks out above the top edge). */
  lemma PlacementExamples()
    ensures SelectPlacement(2000, 2000) == Config(96, 1840, 1840, 96, 96)
    ensures SelectPlacement(500, 500) == Config(48, 420, 420, 48, 48)
    ensures SelectPlacement(100, 100) == Config(48, 20, 20, 48, 48) && InBounds(SelectPlacement(100, 100), 100, 100)
    ensures SelectPlacement(1025, 79) == Config(48, 945, -1, 48, 48) && !InBounds(SelectPlacement(1025, 79), 1025, 79)
  {
  }
}
