/**
 * How a requested region rectangle is normalised against the display
 * size. The same rules appear twice: in the display element, against its
 * own dimensions, and in the worker when it creates a region.
 */
module RegionGeometry {
  import opened Wrappers

  /** An absent origin is 0; a negative one counts back from the far edge. */
  function ResolveOrigin(origin: Option<int>, dim: int): int {
    match origin
    case None => 0
    case Some(o) => if o < 0 then o + dim else o
  }

  /**
   * An absent extent reaches the far edge; a non-positive one stops that
   * many cells short of it; a positive one is kept.
   */
  function ResolveExtent(extent: Option<int>, dim: int, origin: int): int {
    match extent
    case None => dim - origin
    case Some(e) => if e <= 0 then e + dim - origin else e
  }

  /**
   * A relative origin (missing, or within one display length either side
   * of 0) lands on the display, and a missing or non-positive extent then
   * ends inside it; a missing extent is never empty.
   */
  lemma ResolvedInside(origin: Option<int>, extent: Option<int>, dim: int)
    requires dim > 0
    requires origin.None? || -dim <= origin.value < dim
    ensures var ox := ResolveOrigin(origin, dim);
      0 <= ox < dim
      && (extent.None? || extent.value <= 0 ==> ox + ResolveExtent(extent, dim, ox) <= dim)
      && (extent.None? ==> ResolveExtent(extent, dim, ox) > 0)
  {
  }

  /** Resolving a second time keeps a non-negative origin and a positive extent. */
  lemma ResolveAgain(origin: int, extent: int, dim: int)
    ensures origin >= 0 ==> ResolveOrigin(Some(origin), dim) == origin
    ensures extent > 0 ==> ResolveExtent(Some(extent), dim, origin) == extent
    ensures extent == 0 ==> ResolveExtent(Some(extent), dim, origin) == dim - origin
  {
  }
}
