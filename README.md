# DAM rendition selection (wcm.io media handler), modelled in Dafny

This project models `DefaultRenditionHandler` of the wcm.io media handler. The handler
resolves a request against a DAM asset. The asset comes with a catalogue of stored
renditions. The request gives file extensions, named media formats and a fixed
width/height. The handler answers in one of three ways:

- it picks one stored rendition;
- it builds a virtual rendition, which is a downscale descriptor of a larger stored
  rendition and keeps the crop window of a crop source;
- it answers null.

Modules, one per component:

- `Wrappers` (wrappers.dfy): `Option`. `None` stands for Java's `null`.
- `Strings` (strings.dfy): `startsWith`, `equalsIgnoreCase` and the `String.compareTo`
  order, with the order lemmas.
- `Renditions` (renditions.dfy): the stored rendition, the closed variant
  `Physical | VirtualResize | VirtualCrop` for `RenditionMetadata` and its two virtual
  subclasses, and the TreeSet order (ascending area, then name). It also holds the two
  `RenditionMetadata.matches` tests and Java's `(int)` narrowing of a `long`.
- `Media` (media.dfy): the request (`MediaArgs`), a media format, and the media format
  handler. The handler is a map from format name to format, plus the ratio tolerance.
- `RenditionSelection` (rendition_selection.dfy): every step of the handler as a
  function of its inputs, and the lemmas about them.
- `DamRenditionHandler` (default_rendition_handler.dfy): the class
  `DefaultRenditionHandler`.
  - Its `final` fields are `const` fields.
  - The constructor captures the catalogue in a loop.
  - Each private method with a loop or a branch chain is a method with the source's
    loops. Its `ensures` equates its result with the specification function in
    `RenditionSelection`.
  - `getOriginalOrFirstRendition` and `getVirtualRendition(RenditionMetadata, int, int,
    double)` have no loop. The methods call the functions `RenditionSelection.OriginalOrFirst`
    and `RenditionSelection.VirtualFromSource` for them directly.

## Model

| member | source | states |
|---|---|---|
| `DamRenditionHandler.DefaultRenditionHandler.constructor` | handler/media/src/main/java/io/wcm/handler/mediasource/dam/impl/DefaultRenditionHandler.java:58-77 | The captured set holds exactly the asset's renditions whose names do not start with the thumbnail prefix plus ".". It is sorted smallest first. The original rendition is set exactly when a rendition is named as the original file, and it is then one of the captured renditions. |
| `RenditionSelection.CatalogueContents` | handler/media/src/main/java/io/wcm/handler/mediasource/dam/impl/DefaultRenditionHandler.java:60-73 | Filling the TreeSet gives a sorted sequence. A rendition is in it iff it is a stored rendition of the asset without a thumbnail name. |
| `RenditionSelection.OriginalOfContents` | handler/media/src/main/java/io/wcm/handler/mediasource/dam/impl/DefaultRenditionHandler.java:62-74 | `originalRendition` is non-null iff some rendition is named as the original file. It is then that stored rendition, and that name is never a thumbnail name. |
| `RenditionSelection.InsertSorted` | handler/media/src/main/java/io/wcm/handler/mediasource/dam/impl/DefaultRenditionHandler.java:61-69 | `TreeSet.add` keeps the set strictly ascending by (area, name). |
| `RenditionSelection.InsertElements` | handler/media/src/main/java/io/wcm/handler/mediasource/dam/impl/DefaultRenditionHandler.java:61-69 | `TreeSet.add` only ever adds the new element. When nothing in the set compares equal to it, the new element is added and nothing is lost. |
| `DamRenditionHandler.DefaultRenditionHandler.GetRenditionsMatchingFileExtensions` | handler/media/src/main/java/io/wcm/handler/mediasource/dam/impl/DefaultRenditionHandler.java:91-110 | The nested loops compute the filter specification: all renditions for an empty list, else those whose extension equals a given one ignoring case. |
| `RenditionSelection.MatchingRenditionsContents` | handler/media/src/main/java/io/wcm/handler/mediasource/dam/impl/DefaultRenditionHandler.java:91-110 | An empty extension set returns every available rendition. Otherwise a rendition is a candidate iff it is available and its extension equals a requested one ignoring case. Candidates stay ascending. |
| `RenditionSelection.KeepMatchingContents` | handler/media/src/main/java/io/wcm/handler/mediasource/dam/impl/DefaultRenditionHandler.java:99-109 | The matching renditions are a subset of the available ones, exactly those with a requested extension. The filter preserves ascending order. |
| `RenditionSelection.MediaFormatFileExtensionsContents` | handler/media/src/main/java/io/wcm/handler/mediasource/dam/impl/DefaultRenditionHandler.java:171-183 | The media-format extension set is the union of the extensions of the resolvable requested formats. Unknown names add nothing. |
| `RenditionSelection.MergeFileExtensions` | handler/media/src/main/java/io/wcm/handler/mediasource/dam/impl/DefaultRenditionHandler.java:185-204 | The result is null iff both sets are non-empty and disjoint. It is an empty array ("no restriction") iff both are empty. Otherwise it admits exactly the extensions every non-empty side admits: the intersection, or the one non-empty set. |
| `DamRenditionHandler.DefaultRenditionHandler.GetRequestedFileExtensions` | handler/media/src/main/java/io/wcm/handler/mediasource/dam/impl/DefaultRenditionHandler.java:164-205 | Filling the two HashSets and merging them computes the merge specification over the media args' extensions and the resolvable formats' extensions. |
| `DamRenditionHandler.DefaultRenditionHandler.IsSizeMatchingRequest` | handler/media/src/main/java/io/wcm/handler/mediasource/dam/impl/DefaultRenditionHandler.java:214-246 | The flag loop, the fixed-size test and the visitor compute the size-matching specification. |
| `RenditionSelection.SizeMatchingGate` | handler/media/src/main/java/io/wcm/handler/mediasource/dam/impl/DefaultRenditionHandler.java:214-246 | Size matching applies iff some requested extension is an image extension AND one of these holds: fixed width > 0, fixed height > 0, or some resolvable requested format has a positive min/max width, min/max height or ratio. It never applies for an empty extension list. |
| `DamRenditionHandler.DefaultRenditionHandler.VisitMediaFormats` | handler/media/src/main/java/io/wcm/handler/mediasource/dam/impl/DefaultRenditionHandler.java:429-447 | The early-return loop computes the first-answer visit over the requested format names. |
| `RenditionSelection.VisitFirstHit` | handler/media/src/main/java/io/wcm/handler/mediasource/dam/impl/DefaultRenditionHandler.java:429-447 | The visit returns null iff no resolvable name gets a non-null answer. Otherwise it returns the answer for the first name, in caller order, that resolves and gets one. Unresolvable names are skipped, earlier names answered null, and later names are not consulted. |
| `RenditionSelection.VisitStopsAt` | handler/media/src/main/java/io/wcm/handler/mediasource/dam/impl/DefaultRenditionHandler.java:433-439 | Gives the index at which a visit that answers stops. |
| `DamRenditionHandler.FindFirst` | handler/media/src/main/java/io/wcm/handler/mediasource/dam/impl/DefaultRenditionHandler.java:257-261 | The candidate scan with early return computes the first-match specification. |
| `RenditionSelection.FirstMatch` | handler/media/src/main/java/io/wcm/handler/mediasource/dam/impl/DefaultRenditionHandler.java:257-261 | The scan returns null iff no candidate passes. Otherwise it returns a candidate that passes, and every candidate before it fails. |
| `RenditionSelection.FirstMatchCongruent` | handler/media/src/main/java/io/wcm/handler/mediasource/dam/impl/DefaultRenditionHandler.java:357-371 | The ratio and no-ratio branches of the scan pick the same candidate whenever their tests agree on every candidate. |
| `RenditionSelection.OriginalOrFirst` | handler/media/src/main/java/io/wcm/handler/mediasource/dam/impl/DefaultRenditionHandler.java:298-308 | The result is null iff there are no candidates. It is always a candidate. It is the original when the original is a candidate. Otherwise, in an ascending list, it precedes every other candidate (the smallest). |
| `DamRenditionHandler.DefaultRenditionHandler.GetExactMatchRendition` | handler/media/src/main/java/io/wcm/handler/mediasource/dam/impl/DefaultRenditionHandler.java:254-291 | Computes the exact-match specification. A fixed size gives the first candidate of that size. Otherwise media formats give the visitor's first hit. Otherwise the result is original-or-first. |
| `RenditionSelection.ExactMatchIsCandidate` | handler/media/src/main/java/io/wcm/handler/mediasource/dam/impl/DefaultRenditionHandler.java:254-291 | An exact match is always one of the candidates. |
| `RenditionSelection.ExactFormatHit` | handler/media/src/main/java/io/wcm/handler/mediasource/dam/impl/DefaultRenditionHandler.java:269-279 | The exact-match visitor answers for a format iff the name resolves and some candidate matches the format's range and ratio. |
| `RenditionSelection.ExactFormatSearch` | handler/media/src/main/java/io/wcm/handler/mediasource/dam/impl/DefaultRenditionHandler.java:264-282 | The format search returns null iff no resolvable format has a matching candidate. Otherwise it returns the first matching candidate of the first format, in caller order, that has one. No earlier format has a match, and later formats are not consulted. |
| `RenditionSelection.VirtualFromSource` | handler/media/src/main/java/io/wcm/handler/mediasource/dam/impl/DefaultRenditionHandler.java:385-419 | A descriptor exists iff both requested dimensions are > 0. It is virtual and carries exactly those dimensions. It has the source's stored rendition and extension. It is a crop iff the source is a crop, and it keeps the source's crop window. |
| `DamRenditionHandler.DefaultRenditionHandler.GetVirtualRenditionFor` | handler/media/src/main/java/io/wcm/handler/mediasource/dam/impl/DefaultRenditionHandler.java:353-375 | The two scan branches (with and without ratio) compute the virtual-search specification for one target. |
| `RenditionSelection.VirtualRenditionForSource` | handler/media/src/main/java/io/wcm/handler/mediasource/dam/impl/DefaultRenditionHandler.java:353-375 | The search answers iff both dimensions are > 0 and some candidate is at least the target size (with the ratio test only when ratio > 0). The answer is the descriptor of the first such candidate. |
| `RenditionSelection.FirstCapableIsSmallestLargeEnough` | handler/media/src/main/java/io/wcm/handler/mediasource/dam/impl/DefaultRenditionHandler.java:356-371 | The chosen source is never smaller than the target in either dimension, and it meets a positive ratio within tolerance. Among ascending candidates it is the smallest one that can be downscaled. |
| `RenditionSelection.VirtualRenditionForIsMadeFrom` | handler/media/src/main/java/io/wcm/handler/mediasource/dam/impl/DefaultRenditionHandler.java:353-375 | A virtual answer is always made from one of the candidates. |
| `DamRenditionHandler.DefaultRenditionHandler.GetVirtualRendition` | handler/media/src/main/java/io/wcm/handler/mediasource/dam/impl/DefaultRenditionHandler.java:317-342 | Computes the virtual specification: the fixed size with ratio width/height when both are set, or else the first format whose minimum size and ratio yield a descriptor. |
| `RenditionSelection.VirtualRenditionIsMadeFromCandidate` | handler/media/src/main/java/io/wcm/handler/mediasource/dam/impl/DefaultRenditionHandler.java:317-342 | Every virtual rendition returned, for a fixed size or for a format, is made from a candidate's stored rendition. |
| `RenditionSelection.OneFixedDimensionNeverVirtual` | handler/media/src/main/java/io/wcm/handler/mediasource/dam/impl/DefaultRenditionHandler.java:319-327 | A request that fixes only one dimension never gets a virtual rendition: the descriptor needs both requested dimensions > 0. |
| `DamRenditionHandler.DefaultRenditionHandler.GetRendition` | handler/media/src/main/java/io/wcm/handler/mediasource/dam/impl/DefaultRenditionHandler.java:118-154 | Computes the decision chain. Unsatisfiable extensions give null. The result is always an available rendition, or a virtual rendition made from one, whose extension the merged restriction admits. On the handler's own catalogue (sorted, original among it, as the constructor establishes): without size matching the result is the original or the smallest admitted rendition, and with no extension restriction it is the original, or else the smallest rendition, whatever size is requested. |
| `RenditionSelection.ResolvedRenditionIsAdmitted` | handler/media/src/main/java/io/wcm/handler/mediasource/dam/impl/DefaultRenditionHandler.java:118-154 | Any non-null result comes from a satisfiable extension set. It is, or is made from, an available rendition with an admitted extension, and it carries that rendition's extension. |
| `RenditionSelection.UnsatisfiableExtensionsGiveNothing` | handler/media/src/main/java/io/wcm/handler/mediasource/dam/impl/DefaultRenditionHandler.java:120-127 | Media-args extensions that no requested format declares, while some format declares an extension, make `getRendition` return null. |
| `RenditionSelection.NoSizeMatchingPicksOriginalOrSmallest` | handler/media/src/main/java/io/wcm/handler/mediasource/dam/impl/DefaultRenditionHandler.java:135-138 | Without size matching the result is the original if it has an admitted extension. Otherwise it is the smallest rendition with an admitted extension, and null iff no rendition has one. |
| `RenditionSelection.NoExtensionRestrictionIgnoresSize` | handler/media/src/main/java/io/wcm/handler/mediasource/dam/impl/DefaultRenditionHandler.java:216-225 | With no extension restriction from args or formats, the result is the original, or else the smallest rendition, even when a fixed size is requested. |
| `RenditionSelection.FixedSizePrefersExactMatch` | handler/media/src/main/java/io/wcm/handler/mediasource/dam/impl/DefaultRenditionHandler.java:141-150 | With size matching and a fixed size, if some candidate has exactly that size, the result is the first such candidate. Only when none has it can the result be virtual. |
| `RenditionSelection.MediaFormatsPreferExactMatch` | handler/media/src/main/java/io/wcm/handler/mediasource/dam/impl/DefaultRenditionHandler.java:141-150 | With size matching and media formats, if some resolvable format has a matching candidate, the result is the exact search's candidate. Only otherwise is a virtual rendition considered. |
| `Renditions.ToJavaInt` | handler/media/src/main/java/io/wcm/handler/mediasource/dam/impl/DefaultRenditionHandler.java:271-274 | The `(int)` cast of the long format bounds yields a 32-bit value congruent to the input modulo 2^32. It leaves in-range values unchanged. |

## Behaviour worth noting

- Size matching needs an image extension. Lines 216-225 turn size matching on only when
  the merged extension set holds at least one image extension. An empty merged set ("no
  restriction") therefore always takes the original-or-first fallback, even with a fixed
  width or height. `NoExtensionRestrictionIgnoresSize` states this.
- The completed dimension is never used. Lines 387-404 complete a missing width or height
  from the ratio, but line 407 tests the *requested* width and height, and the descriptor
  is built only when both are positive. A format or fixed size that gives one dimension
  yields no virtual rendition. `OneFixedDimensionNeverVirtual` states this.
- The extension merge is case-sensitive. Line 188 intersects `HashSet`s of the strings
  as given. Only the candidate filter (lines 99-109) ignores case.

## Left out

- Logging (`mLog.debug`) and the `AdaptTo` lookup of the media format handler. The
  handler is a constructor argument: a map from name to format, plus the tolerance.
- `RenditionMetadata` and `FileExtension` are not part of this model.
  - The two `matches` overloads are assumptions of the model (`Renditions.MatchesSize`,
    `Renditions.MatchesRange`, `Renditions.RatioMatches`). A bound that is not positive
    is taken as unset. A fixed size with neither dimension set is taken to match nothing.
    A rendition of height 0 is taken never to meet a ratio; an implementation that
    rejects only ratios out of range would instead accept one whose ratio is NaN.
  - Results that rest on these assumptions: the size and ratio clauses of
    `RenditionSelection.FirstCapableIsSmallestLargeEnough`, `RenditionSelection.CanDownscale`
    as used by `RenditionSelection.VirtualRenditionForSource`, and the match conditions in
    `RenditionSelection.ExactFormatHit`, `RenditionSelection.ExactFormatSearch` and
    `RenditionSelection.FixedSizePrefersExactMatch`. The structure of these results (first
    match, order, fallbacks) does not depend on what the tests are.
  - The file extension is a field of the stored rendition, not derived from its name.
  - `FileExtension.isImage` is the handler's `isImage` function, left uninterpreted.
  - `RenditionMetadata.compareTo` is taken to be ascending area, then name.
- `MediaFormatHandler` is not part of this model beyond `getMediaFormat`, read as a map
  lookup (`Media.GetMediaFormat`). `MediaFormatHandler.RATIO_TOLERANCE` is not part of this model either. Its value is a field
  of the media format handler, and no proof depends on it.
- Floating point: ratios are exact reals. The completed width/height, `Math.round` and
  the `double` division of lines 387-404 are not modelled, because the returned
  descriptor never uses them.
- Java `int` width of `fixedWidth`/`fixedHeight` and of the area. Integers are
  unbounded. Only the `(int)` cast of the long format bounds is modelled.
- Case folding is limited to ASCII letters. `String.compareTo` compares UTF-16 code
  units, while the model compares Unicode scalar values.
- Null arrays are empty sequences. A null element in the media args' or a format's
  extension array, on which `ImmutableList.copyOf` (lines 168 and 178) throws a
  `NullPointerException`, cannot occur in a `seq<string>`. `getRendtionsMatchingFileExtensions` takes a set,
  because its only caller has already returned on a null array.
- The order of the arrays built from `HashSet`s. The model keeps them as sets, and no
  result depends on iteration order.
- `DefaultRenditionHandler.constructor`: requires the asset's rendition names to be
  distinct, as they are for the child nodes of one asset. `TreeSet.add`'s
  keep-the-existing-element branch is modelled, but under that precondition it never
  fires. `TreeSet.contains` in `getOriginalOrFirstRendition` is read as value
  membership, which is the same thing under distinct names.
- `getAvailableRenditions` is read directly as the `renditions` field.
- The URL mode, download, alt-text and dummy-image fields of `MediaArgsType`, and the
  argument builder and its `clone`.
