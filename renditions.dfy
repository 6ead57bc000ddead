/**
 * Rendition metadata: the stored renditions of a DAM asset, the virtual renditions
 * derived from them, the order the handler keeps them in, and the two size tests
 * (RenditionMetadata.matches) the handler asks of a candidate.
 */
module Renditions {
  import opened Strings

  /** DamConstants.PREFIX_ASSET_THUMBNAIL: name prefix of the CQ thumbnail renditions. */
  const ThumbnailPrefix: string := "cq5dam.thumbnail"

  /** DamConstants.ORIGINAL_FILE: name of the rendition holding the uploaded file. */
  const OriginalFile: string := "original"

  /** One stored rendition of an asset as the asset catalog reports it. */
  datatype DamRendition = DamRendition(name: string, fileExtension: string, width: int, height: int)

  /** Crop window of a virtual crop rendition. */
  datatype CropDimension = CropDimension(left: int, top: int, width: int, height: int)

  /**
   * RenditionMetadata and its subclasses as one closed variant: a stored rendition,
   * a virtual downscale of a stored rendition, or a virtual downscale restricted to
   * a crop window. Virtual renditions keep the stored rendition they are made from.
   */
  datatype RenditionMetadata =
    | Physical(rendition: DamRendition)
    | VirtualResize(rendition: DamRendition, virtualWidth: int, virtualHeight: int)
    | VirtualCrop(rendition: DamRendition, virtualWidth: int, virtualHeight: int, crop: CropDimension)
  {
    function Width(): int {
      if Physical? then rendition.width else virtualWidth
    }

    function Height(): int {
      if Physical? then rendition.height else virtualHeight
    }

    function Name(): string {
      rendition.name
    }

    function FileExtension(): string {
      rendition.fileExtension
    }

    function Area(): int {
      Width() * Height()
    }
  }

  // ---------------------------------------------------------------------------
  // The TreeSet order: ascending area, then name.

  /** `a` comes strictly before `b` in the handler's sorted set. */
  predicate Precedes(a: RenditionMetadata, b: RenditionMetadata) {
    a.Area() < b.Area() || (a.Area() == b.Area() && LexLess(a.Name(), b.Name()))
  }

  /** `a` and `b` compare as equal, so a TreeSet holds only one of them. */
  predicate SameKey(a: RenditionMetadata, b: RenditionMetadata) {
    a.Area() == b.Area() && a.Name() == b.Name()
  }

  /** Strictly ascending in the handler's order (hence no two elements with the same key). */
  predicate Sorted(s: seq<RenditionMetadata>) {
    forall i, j :: 0 <= i < j < |s| ==> Precedes(s[i], s[j])
  }

  lemma PrecedesTransitive(a: RenditionMetadata, b: RenditionMetadata, c: RenditionMetadata)
    requires Precedes(a, b) && Precedes(b, c)
    ensures Precedes(a, c)
  {
    if a.Area() == b.Area() && b.Area() == c.Area() {
      LexLessTransitive(a.Name(), b.Name(), c.Name());
    }
  }

  /** Any two elements with different keys are ordered one way or the other. */
  lemma PrecedesTotal(a: RenditionMetadata, b: RenditionMetadata)
    requires !SameKey(a, b)
    ensures Precedes(a, b) || Precedes(b, a)
  {
    if a.Area() == b.Area() {
      LexLessTotal(a.Name(), b.Name());
    }
  }

  /** Elements with the same key are not ordered either way. */
  lemma SameKeyUnordered(a: RenditionMetadata, b: RenditionMetadata)
    requires SameKey(a, b)
    ensures !Precedes(a, b) && !Precedes(b, a)
  {
    LexLessIrreflexive(a.Name());
  }

  // ---------------------------------------------------------------------------
  // RenditionMetadata.matches. Its implementation is not part of this model: the three
  // predicates below are assumptions of the model, and the results that use them hold
  // of these tests.

  /** The effective width or height bound is set (Java `> 0`); anything else means unbounded. */
  predicate IsSet(bound: int) {
    bound > 0
  }

  /**
   * matches(width, height): an exact size match. A requested dimension that is not
   * set is not compared, and a request with neither dimension set matches nothing.
   */
  predicate MatchesSize(r: RenditionMetadata, width: int, height: int) {
    (IsSet(width) || IsSet(height))
    && (IsSet(width) ==> r.Width() == width)
    && (IsSet(height) ==> r.Height() == height)
  }

  /**
   * The rendition's own ratio width/height differs from `ratio` by less than the
   * tolerance. The model assumes that a rendition of height 0, whose ratio is not a
   * finite number, never matches.
   */
  predicate RatioMatches(r: RenditionMetadata, ratio: real, tolerance: real) {
    r.Height() > 0
    && -tolerance < r.Width() as real / r.Height() as real - ratio < tolerance
  }

  /**
   * matches(minWidth, minHeight, maxWidth, maxHeight, ratio): every set bound holds,
   * and when a positive ratio is requested the rendition's ratio is within tolerance.
   */
  predicate MatchesRange(r: RenditionMetadata, minWidth: int, minHeight: int,
                         maxWidth: int, maxHeight: int, ratio: real, tolerance: real) {
    (IsSet(minWidth) ==> r.Width() >= minWidth)
    && (IsSet(minHeight) ==> r.Height() >= minHeight)
    && (IsSet(maxWidth) ==> r.Width() <= maxWidth)
    && (IsSet(maxHeight) ==> r.Height() <= maxHeight)
    && (ratio > 0.0 ==> RatioMatches(r, ratio, tolerance))
  }

  // ---------------------------------------------------------------------------
  // Java's (int) cast of the long-valued media format bounds.

  const TwoTo31: int := 0x8000_0000
  const TwoTo32: int := 0x1_0000_0000

  /** Java's narrowing cast `(int)` of a `long`: the low 32 bits as a two's-complement value. */
  function ToJavaInt(x: int): (r: int)
    ensures -TwoTo31 <= r < TwoTo31
    ensures (x - r) % TwoTo32 == 0
    ensures -TwoTo31 <= x < TwoTo31 ==> r == x
  {
    var low := (x + TwoTo31) % TwoTo32;
    assert x + TwoTo31 == TwoTo32 * ((x + TwoTo31) / TwoTo32) + low;
    low - TwoTo31
  }
}
