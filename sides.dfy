/** The two child slots of a binary-tree node and the traversal orders over them. */
module Sides {
  /** A child slot.  Algorithms are written once for a "wing" side and mirrored by `Other`. */
  datatype Side = Left | Right

  /** The traversal orders an iterator can follow (post-order has no increment and is not modelled). */
  datatype Order = Pre | In

  /** The side opposite to `s`: `other<left>()` is `right` and `other<right>()` is `left`.
      With two sides, `r != s` pins `r` down, so `Other` is an involution. */
  function Other(s: Side): (r: Side)
    ensures r != s
    ensures s == Left <==> r == Right
  {
    if s == Left then Right else Left
  }
}
