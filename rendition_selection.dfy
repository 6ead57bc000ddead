/**
 * What DefaultRenditionHandler computes, as functions of its inputs, and the
 * properties of rendition selection proved about them. The class in
 * default_rendition_handler.dfy carries out each step with loops and is proved
 * to agree with the functions here.
 */
module RenditionSelection {
  import opened Wrappers
  import opened Strings
  import opened Renditions
  import opened Media

  // ===========================================================================
  // Catalogue capture (the constructor)

  /** A CQ thumbnail rendition: its name starts with the thumbnail prefix and a dot. */
  predicate IsThumbnail(name: string) {
    StartsWith(name, ThumbnailPrefix + ".")
  }

  /** The renditions of one asset have distinct names (they are child nodes of one node). */
  predicate DistinctNames(asset: seq<DamRendition>) {
    forall i, j :: 0 <= i < j < |asset| ==> asset[i].name != asset[j].name
  }

  /** TreeSet.add: insert in order; an element comparing equal to `x` is kept and `x` dropped. */
  function Insert(s: seq<RenditionMetadata>, x: RenditionMetadata): seq<RenditionMetadata> {
    if s == [] then [x]
    else if Precedes(x, s[0]) then [x] + s
    else if SameKey(x, s[0]) then s
    else [s[0]] + Insert(s[1..], x)
  }

  /** The sorted set the constructor builds from the asset's renditions, taken in catalog order. */
  function Catalogue(asset: seq<DamRendition>): seq<RenditionMetadata> {
    if asset == [] then []
    else
      var rest := Catalogue(asset[..|asset| - 1]);
      var rendition := asset[|asset| - 1];
      if IsThumbnail(rendition.name) then rest else Insert(rest, Physical(rendition))
  }

  /** The original rendition the constructor remembers: the last one named as the original file. */
  function OriginalOf(asset: seq<DamRendition>): Option<RenditionMetadata> {
    if asset == [] then None
    else
      var rendition := asset[|asset| - 1];
      if IsThumbnail(rendition.name) then OriginalOf(asset[..|asset| - 1])
      else if rendition.name == OriginalFile then Some(Physical(rendition))
      else OriginalOf(asset[..|asset| - 1])
  }

  lemma {:induction false} InsertElements(s: seq<RenditionMetadata>, x: RenditionMetadata)
    ensures forall y :: y in Insert(s, x) ==> y in s || y == x
    ensures (forall z :: z in s ==> !SameKey(x, z)) ==>
              forall y :: y in Insert(s, x) <==> y in s || y == x
  {
    if s != [] && !Precedes(x, s[0]) && !SameKey(x, s[0]) {
      InsertElements(s[1..], x);
      assert s == [s[0]] + s[1..];
    }
  }

  /** TreeSet.add keeps the set sorted. */
  lemma {:induction false} InsertSorted(s: seq<RenditionMetadata>, x: RenditionMetadata)
    requires Sorted(s)
    ensures Sorted(Insert(s, x))
  {
    if s == [] {
    } else if Precedes(x, s[0]) {
      var r := [x] + s;
      forall i, j | 0 <= i < j < |r| ensures Precedes(r[i], r[j]) {
        if i == 0 && j > 1 {
          PrecedesTransitive(x, s[0], s[j - 1]);
        }
      }
    } else if SameKey(x, s[0]) {
    } else {
      PrecedesTotal(x, s[0]);
      InsertSorted(s[1..], x);
      InsertElements(s[1..], x);
      var tail := Insert(s[1..], x);
      forall y | y in tail ensures Precedes(s[0], y) {
        if y != x {
          var k :| 0 <= k < |s[1..]| && s[1..][k] == y;
          assert s[k + 1] == y;
        }
      }
    }
  }

  /**
   * The constructor's catalogue: sorted smallest first, and holding exactly the asset's
   * renditions whose names are not thumbnail names.
   */
  lemma {:induction false} CatalogueContents(asset: seq<DamRendition>)
    requires DistinctNames(asset)
    ensures Sorted(Catalogue(asset))
    ensures forall r :: r in Catalogue(asset) <==>
              r.Physical? && r.rendition in asset && !IsThumbnail(r.rendition.name)
  {
    if asset != [] {
      var prefix := asset[..|asset| - 1];
      var last := asset[|asset| - 1];
      assert asset == prefix + [last];
      assert DistinctNames(prefix);
      CatalogueContents(prefix);
      if !IsThumbnail(last.name) {
        var x := Physical(last);
        forall z | z in Catalogue(prefix) ensures !SameKey(x, z) {
          var k :| 0 <= k < |prefix| && prefix[k] == z.rendition;
          assert asset[k].name != asset[|asset| - 1].name;
        }
        InsertSorted(Catalogue(prefix), x);
        InsertElements(Catalogue(prefix), x);
      }
    }
  }

  /** The remembered original is set exactly when some rendition is named as the original file. */
  lemma {:induction false} OriginalOfContents(asset: seq<DamRendition>)
    ensures OriginalOf(asset).Some? <==> exists d :: d in asset && d.name == OriginalFile
    ensures OriginalOf(asset).Some? ==>
              OriginalOf(asset).value.Physical?
              && OriginalOf(asset).value.rendition in asset
              && OriginalOf(asset).value.Name() == OriginalFile
              && !IsThumbnail(OriginalFile)
  {
    assert !IsThumbnail(OriginalFile) by {
      assert |ThumbnailPrefix + "."| > |OriginalFile|;
    }
    if asset != [] {
      var prefix := asset[..|asset| - 1];
      assert asset == prefix + [asset[|asset| - 1]];
      OriginalOfContents(prefix);
    }
  }

  // ===========================================================================
  // File-extension filter (getRendtionsMatchingFileExtensions)

  /** The rendition's extension equals one of `fileExtensions`, ignoring case. */
  predicate HasFileExtension(r: RenditionMetadata, fileExtensions: set<string>) {
    exists e :: e in fileExtensions && EqualsIgnoreCase(e, r.FileExtension())
  }

  /** An extension set admits `r`: the empty set is no restriction. */
  predicate Admits(fileExtensions: set<string>, r: RenditionMetadata) {
    fileExtensions == {} || HasFileExtension(r, fileExtensions)
  }

  /** The renditions whose extension is one of `fileExtensions`, in their order. */
  function KeepMatching(renditions: seq<RenditionMetadata>, fileExtensions: set<string>): seq<RenditionMetadata> {
    if renditions == [] then []
    else
      var rest := KeepMatching(renditions[..|renditions| - 1], fileExtensions);
      var last := renditions[|renditions| - 1];
      if HasFileExtension(last, fileExtensions) then rest + [last] else rest
  }

  /** The candidates for a merged extension set: everything when the set is empty. */
  function MatchingRenditions(renditions: seq<RenditionMetadata>, fileExtensions: set<string>): seq<RenditionMetadata> {
    if fileExtensions == {} then renditions else KeepMatching(renditions, fileExtensions)
  }

  lemma {:induction false} KeepMatchingContents(renditions: seq<RenditionMetadata>, fileExtensions: set<string>)
    ensures forall r :: r in KeepMatching(renditions, fileExtensions) <==>
              r in renditions && HasFileExtension(r, fileExtensions)
    ensures Sorted(renditions) ==> Sorted(KeepMatching(renditions, fileExtensions))
  {
    if renditions != [] {
      var prefix := renditions[..|renditions| - 1];
      var last := renditions[|renditions| - 1];
      assert renditions == prefix + [last];
      if Sorted(renditions) {
        assert Sorted(prefix);
      }
      KeepMatchingContents(prefix, fileExtensions);
      if Sorted(renditions) && HasFileExtension(last, fileExtensions) {
        var kept := KeepMatching(prefix, fileExtensions);
        forall y | y in kept ensures Precedes(y, last) {
          var k :| 0 <= k < |prefix| && prefix[k] == y;
          assert renditions[k] == y;
        }
      }
    }
  }

  /**
   * The filter: with no extensions every available rendition is a candidate; otherwise
   * exactly the available renditions whose extension equals a requested one ignoring
   * case. The candidates stay in ascending order.
   */
  lemma MatchingRenditionsContents(renditions: seq<RenditionMetadata>, fileExtensions: set<string>)
    ensures fileExtensions == {} ==> MatchingRenditions(renditions, fileExtensions) == renditions
    ensures forall r :: r in MatchingRenditions(renditions, fileExtensions) <==>
              r in renditions && Admits(fileExtensions, r)
    ensures Sorted(renditions) ==> Sorted(MatchingRenditions(renditions, fileExtensions))
  {
    KeepMatchingContents(renditions, fileExtensions);
  }

  // ===========================================================================
  // Extension merge (getRequestedFileExtensions)

  /** The extensions named in the media args, as a set. */
  function MediaArgsFileExtensions(args: MediaArgs): set<string> {
    set e | e in args.fileExtensions
  }

  /** The union of the extensions of every resolvable media format named in `names`. */
  function MediaFormatFileExtensions(handler: MediaFormatHandler, names: seq<string>): set<string> {
    if names == [] then {}
    else
      var rest := MediaFormatFileExtensions(handler, names[..|names| - 1]);
      match GetMediaFormat(handler, names[|names| - 1])
      case Some(format) => rest + set e | e in format.extensions
      case None => rest
  }

  /** The format named `name` resolves and declares extension `e`. */
  predicate FormatDeclares(handler: MediaFormatHandler, name: string, e: string) {
    name in handler.formats && e in handler.formats[name].extensions
  }

  lemma {:induction false} MediaFormatFileExtensionsContents(handler: MediaFormatHandler, names: seq<string>)
    ensures forall e :: e in MediaFormatFileExtensions(handler, names) <==>
              exists i :: 0 <= i < |names| && FormatDeclares(handler, names[i], e)
  {
    if names != [] {
      var prefix := names[..|names| - 1];
      MediaFormatFileExtensionsContents(handler, prefix);
      forall e ensures e in MediaFormatFileExtensions(handler, names) <==>
                       exists i :: 0 <= i < |names| && FormatDeclares(handler, names[i], e) {
        if exists i :: 0 <= i < |names| && FormatDeclares(handler, names[i], e) {
          var i :| 0 <= i < |names| && FormatDeclares(handler, names[i], e);
          if i < |prefix| {
            assert FormatDeclares(handler, prefix[i], e);
          }
        }
        if exists i :: 0 <= i < |prefix| && FormatDeclares(handler, prefix[i], e) {
          var i :| 0 <= i < |prefix| && FormatDeclares(handler, prefix[i], e);
          assert FormatDeclares(handler, names[i], e);
        }
      }
    }
  }

  /**
   * The merge of the media args' extensions `fromArgs` with the media formats'
   * extensions `fromFormats`. None means the two restrictions cannot both be met;
   * Some({}) means no restriction at all; otherwise the result admits exactly the
   * extensions that every non-empty side admits.
   */
  function MergeFileExtensions(fromArgs: set<string>, fromFormats: set<string>): (r: Option<set<string>>)
    ensures r.None? <==> fromArgs != {} && fromFormats != {} && fromArgs * fromFormats == {}
    ensures r == Some({}) <==> fromArgs == {} && fromFormats == {}
    ensures r.Some? && (fromArgs != {} || fromFormats != {}) ==>
              forall e :: e in r.value <==>
                (fromArgs == {} || e in fromArgs) && (fromFormats == {} || e in fromFormats)
  {
    if |fromArgs| > 0 && |fromFormats| > 0 then
      var intersection := fromArgs * fromFormats;
      if |intersection| == 0 then None else Some(intersection)
    else if |fromArgs| > 0 then Some(fromArgs)
    else Some(fromFormats)
  }

  /** getRequestedFileExtensions: the merged extension restriction of a request. */
  function RequestedFileExtensions(handler: MediaFormatHandler, args: MediaArgs): Option<set<string>> {
    MergeFileExtensions(MediaArgsFileExtensions(args), MediaFormatFileExtensions(handler, args.mediaFormats))
  }

  // ===========================================================================
  // Visiting media formats (visitMediaFormats)

  /** The visitor's answer for one name: nothing for a name that does not resolve. */
  function Hit<T>(handler: MediaFormatHandler, name: string, visitor: MediaFormat -> Option<T>): Option<T> {
    match GetMediaFormat(handler, name)
    case Some(format) => visitor(format)
    case None => None
  }

  /** Visit the named formats in order, skip unknown names, stop at the first answer. */
  function Visit<T>(handler: MediaFormatHandler, names: seq<string>, visitor: MediaFormat -> Option<T>): Option<T> {
    if names == [] then None
    else
      match GetMediaFormat(handler, names[0])
      case None => Visit(handler, names[1..], visitor)
      case Some(format) =>
        var answer := visitor(format);
        if answer.Some? then answer else Visit(handler, names[1..], visitor)
  }

  /**
   * The visit answers with the visitor's answer for the first name, in the caller's
   * order, that resolves to a format the visitor answers for; names before it are
   * unknown or unanswered, and names after it are not consulted. It answers nothing
   * exactly when no name gets an answer.
   */
  lemma {:induction false} VisitFirstHit<T>(handler: MediaFormatHandler, names: seq<string>, visitor: MediaFormat -> Option<T>)
    ensures Visit(handler, names, visitor).None? <==>
              forall i :: 0 <= i < |names| ==> Hit(handler, names[i], visitor).None?
    ensures Visit(handler, names, visitor).Some? ==>
              exists k :: 0 <= k < |names|
                && Visit(handler, names, visitor) == Hit(handler, names[k], visitor)
                && forall j :: 0 <= j < k ==> Hit(handler, names[j], visitor).None?
  {
    if names != [] {
      var rest := names[1..];
      VisitFirstHit(handler, rest, visitor);
      if Hit(handler, names[0], visitor).None? {
        assert forall i :: 1 <= i < |names| ==> names[i] == rest[i - 1];
        if Visit(handler, names, visitor).Some? {
          var k :| 0 <= k < |rest|
            && Visit(handler, rest, visitor) == Hit(handler, rest[k], visitor)
            && forall j :: 0 <= j < k ==> Hit(handler, rest[j], visitor).None?;
          assert Visit(handler, names, visitor) == Hit(handler, names[k + 1], visitor);
        }
      }
    }
  }

  /** The position at which a visit that answers stops. */
  lemma VisitStopsAt<T>(handler: MediaFormatHandler, names: seq<string>, visitor: MediaFormat -> Option<T>)
    returns (k: int)
    requires Visit(handler, names, visitor).Some?
    ensures 0 <= k < |names| && names[k] in handler.formats
    ensures Visit(handler, names, visitor) == visitor(handler.formats[names[k]])
    ensures forall j :: 0 <= j < k ==> Hit(handler, names[j], visitor).None?
  {
    VisitFirstHit(handler, names, visitor);
    k :| 0 <= k < |names|
      && Visit(handler, names, visitor) == Hit(handler, names[k], visitor)
      && forall j :: 0 <= j < k ==> Hit(handler, names[j], visitor).None?;
  }

  // ===========================================================================
  // Size-matching gate (isSizeMatchingRequest)

  /** The format constrains size: a positive min/max width, min/max height or ratio. */
  predicate HasSizeConstraint(format: MediaFormat) {
    format.effectiveWidthMin > 0 || format.effectiveWidthMax > 0
    || format.effectiveHeightMin > 0 || format.effectiveHeightMax > 0
    || format.ratio > 0.0
  }

  /** The visitor of isSizeMatchingRequest: true for a size-constraining format, else null. */
  function SizeConstraintVisitor(format: MediaFormat): Option<bool> {
    if HasSizeConstraint(format) then Some(true) else None
  }

  /** At least one requested extension is an image extension. */
  predicate AnyImageFileExtension(isImage: string -> bool, fileExtensions: set<string>) {
    exists e :: e in fileExtensions && isImage(e)
  }

  /** isSizeMatchingRequest, as the handler computes it. */
  predicate IsSizeMatching(handler: MediaFormatHandler, isImage: string -> bool, args: MediaArgs,
                           fileExtensions: set<string>) {
    AnyImageFileExtension(isImage, fileExtensions)
    && (args.fixedWidth > 0 || args.fixedHeight > 0
        || Visit(handler, args.mediaFormats, SizeConstraintVisitor) == Some(true))
  }

  /** The format named `name` resolves and constrains size. */
  predicate NamesSizeConstraint(handler: MediaFormatHandler, name: string) {
    name in handler.formats && HasSizeConstraint(handler.formats[name])
  }

  /**
   * Size matching applies exactly when some requested extension is an image extension
   * (so never for an empty extension set) and a fixed dimension is positive or some
   * resolvable requested format constrains size.
   */
  lemma SizeMatchingGate(handler: MediaFormatHandler, isImage: string -> bool, args: MediaArgs,
                         fileExtensions: set<string>)
    ensures IsSizeMatching(handler, isImage, args, fileExtensions) <==>
              AnyImageFileExtension(isImage, fileExtensions)
              && (args.fixedWidth > 0 || args.fixedHeight > 0
                  || exists i :: 0 <= i < |args.mediaFormats| && NamesSizeConstraint(handler, args.mediaFormats[i]))
    ensures fileExtensions == {} ==> !IsSizeMatching(handler, isImage, args, fileExtensions)
  {
    var names := args.mediaFormats;
    VisitFirstHit(handler, names, SizeConstraintVisitor);
    assert forall i :: 0 <= i < |names| ==>
             (Hit(handler, names[i], SizeConstraintVisitor).Some? <==> NamesSizeConstraint(handler, names[i]));
    if Visit(handler, names, SizeConstraintVisitor).Some? {
      var k :| 0 <= k < |names|
        && Visit(handler, names, SizeConstraintVisitor) == Hit(handler, names[k], SizeConstraintVisitor)
        && forall j :: 0 <= j < k ==> Hit(handler, names[j], SizeConstraintVisitor).None?;
      assert Hit(handler, names[k], SizeConstraintVisitor) == Some(true);
    }
  }

  // ===========================================================================
  // Scanning candidates in ascending order

  /** The first candidate satisfying `test`, scanning in the candidates' order. */
  function FirstMatch(candidates: seq<RenditionMetadata>, test: RenditionMetadata -> bool): (r: Option<RenditionMetadata>)
    ensures r.None? <==> forall i :: 0 <= i < |candidates| ==> !test(candidates[i])
    ensures r.Some? ==>
              exists k :: 0 <= k < |candidates| && r.value == candidates[k] && test(candidates[k])
                && forall j :: 0 <= j < k ==> !test(candidates[j])
  {
    if candidates == [] then None
    else if test(candidates[0]) then Some(candidates[0])
    else
      var r := FirstMatch(candidates[1..], test);
      assert forall i :: 1 <= i < |candidates| ==> candidates[i] == candidates[1..][i - 1];
      r
  }

  /**
   * The first match depends only on what the test says of the candidates (it follows
   * from FirstMatch's contract, which fixes the answer).
   */
  lemma FirstMatchCongruent(candidates: seq<RenditionMetadata>,
                            test: RenditionMetadata -> bool, other: RenditionMetadata -> bool)
    requires forall i :: 0 <= i < |candidates| ==> test(candidates[i]) == other(candidates[i])
    ensures FirstMatch(candidates, test) == FirstMatch(candidates, other)
  {
  }

  // ===========================================================================
  // Original or first (getOriginalOrFirstRendition)

  /**
   * The fallback pick: the original rendition when it is a candidate, else the first
   * (smallest) candidate, else nothing.
   */
  function OriginalOrFirst(original: Option<RenditionMetadata>, candidates: seq<RenditionMetadata>): (r: Option<RenditionMetadata>)
    ensures r.None? <==> candidates == []
    ensures r.Some? ==> r.value in candidates
    ensures original.Some? && original.value in candidates ==> r == original
    ensures Sorted(candidates) && r.Some? && r != original ==>
              forall c :: c in candidates && c != r.value ==> Precedes(r.value, c)
  {
    if original.Some? && original.value in candidates then original
    else if |candidates| > 0 then Some(candidates[0])
    else None
  }

  // ===========================================================================
  // Exact match (getExactMatchRendition)

  /** The range test of an exact media-format match, with the bounds cast to Java int. */
  predicate MatchesFormat(c: RenditionMetadata, format: MediaFormat, tolerance: real) {
    MatchesRange(c, ToJavaInt(format.effectiveWidthMin), ToJavaInt(format.effectiveHeightMin),
                 ToJavaInt(format.effectiveWidthMax), ToJavaInt(format.effectiveHeightMax),
                 format.ratio, tolerance)
  }

  /** A fixed dimension is requested. */
  predicate HasFixedSize(args: MediaArgs) {
    args.fixedWidth > 0 || args.fixedHeight > 0
  }

  /** The candidate test of the exact-match search for one format. */
  function FormatTest(format: MediaFormat, tolerance: real): RenditionMetadata -> bool {
    c => MatchesFormat(c, format, tolerance)
  }

  /** The visitor of the exact-match search: the first candidate matching the format. */
  function ExactFormatVisitor(candidates: seq<RenditionMetadata>, tolerance: real): MediaFormat -> Option<RenditionMetadata> {
    (format: MediaFormat) => FirstMatch(candidates, FormatTest(format, tolerance))
  }

  /** getExactMatchRendition. */
  function ExactMatch(handler: MediaFormatHandler, original: Option<RenditionMetadata>,
                      candidates: seq<RenditionMetadata>, args: MediaArgs): Option<RenditionMetadata> {
    if HasFixedSize(args) then
      FirstMatch(candidates, c => MatchesSize(c, args.fixedWidth, args.fixedHeight))
    else if |args.mediaFormats| > 0 then
      Visit(handler, args.mediaFormats, ExactFormatVisitor(candidates, handler.ratioTolerance))
    else
      OriginalOrFirst(original, candidates)
  }

  // ===========================================================================
  // Virtual renditions (the three getVirtualRendition overloads)

  /**
   * getVirtualRendition(rendition, width, height, ratio): a downscale descriptor of the
   * source with the requested size, only when both requested dimensions are positive.
   * A crop source keeps its crop window; any other source becomes a plain resize of
   * its stored rendition.
   */
  function VirtualFromSource(source: RenditionMetadata, width: int, height: int): (r: Option<RenditionMetadata>)
    ensures r.Some? <==> width > 0 && height > 0
    ensures r.Some? ==> !r.value.Physical? && r.value.Width() == width && r.value.Height() == height
    ensures r.Some? ==> r.value.rendition == source.rendition && r.value.FileExtension() == source.FileExtension()
    ensures r.Some? ==> (r.value.VirtualCrop? <==> source.VirtualCrop?)
    ensures r.Some? && source.VirtualCrop? ==> r.value.crop == source.crop
  {
    if width > 0 && height > 0 then
      match source
      case VirtualCrop(rendition, _, _, crop) => Some(VirtualCrop(rendition, width, height, crop))
      case _ => Some(VirtualResize(source.rendition, width, height))
    else
      None
  }

  /** A candidate large enough to be downscaled to width x height, with the ratio test when ratio > 0. */
  predicate CanDownscale(c: RenditionMetadata, width: int, height: int, ratio: real, tolerance: real) {
    MatchesRange(c, width, height, 0, 0, if ratio > 0.0 then ratio else 0.0, tolerance)
  }

  /** The source the virtual search picks: the first candidate that can be downscaled. */
  function DownscaleSource(candidates: seq<RenditionMetadata>, width: int, height: int, ratio: real,
                           tolerance: real): Option<RenditionMetadata> {
    if ratio > 0.0 then
      FirstMatch(candidates, c => MatchesRange(c, width, height, 0, 0, ratio, tolerance))
    else
      FirstMatch(candidates, c => MatchesRange(c, width, height, 0, 0, 0.0, tolerance))
  }

  /** getVirtualRendition(candidates, width, height, ratio). */
  function VirtualRenditionFor(candidates: seq<RenditionMetadata>, width: int, height: int, ratio: real,
                               tolerance: real): Option<RenditionMetadata> {
    match DownscaleSource(candidates, width, height, ratio, tolerance)
    case None => None
    case Some(source) => VirtualFromSource(source, width, height)
  }

  /** The ratio of a fixed-size request: width/height when both are set, else 0. */
  function FixedRatio(args: MediaArgs): real {
    if args.fixedWidth > 0 && args.fixedHeight > 0 then args.fixedWidth as real / args.fixedHeight as real
    else 0.0
  }

  /** The visitor of the virtual search: a descriptor for the format's minimum size and ratio. */
  function VirtualFormatVisitor(candidates: seq<RenditionMetadata>, tolerance: real): MediaFormat -> Option<RenditionMetadata> {
    (format: MediaFormat) => VirtualRenditionFor(candidates, ToJavaInt(format.effectiveWidthMin),
                                  ToJavaInt(format.effectiveHeightMin), format.ratio, tolerance)
  }

  /** getVirtualRendition(candidates, mediaArgs). */
  function VirtualRendition(handler: MediaFormatHandler, candidates: seq<RenditionMetadata>,
                            args: MediaArgs): Option<RenditionMetadata> {
    if HasFixedSize(args) then
      VirtualRenditionFor(candidates, args.fixedWidth, args.fixedHeight, FixedRatio(args), handler.ratioTolerance)
    else
      Visit(handler, args.mediaFormats, VirtualFormatVisitor(candidates, handler.ratioTolerance))
  }

  /** Candidate `k` is the first candidate that can be downscaled to width x height. */
  predicate IsFirstCapable(candidates: seq<RenditionMetadata>, k: int, width: int, height: int,
                           ratio: real, tolerance: real) {
    0 <= k < |candidates|
    && CanDownscale(candidates[k], width, height, ratio, tolerance)
    && forall j :: 0 <= j < k ==> !CanDownscale(candidates[j], width, height, ratio, tolerance)
  }

  /**
   * The virtual search for one target answers exactly when both target dimensions are
   * positive and some candidate can be downscaled to them, and then with a descriptor of
   * the first such candidate.
   */
  lemma VirtualRenditionForSource(candidates: seq<RenditionMetadata>, width: int, height: int,
                                  ratio: real, tolerance: real)
    ensures VirtualRenditionFor(candidates, width, height, ratio, tolerance).Some? <==>
              width > 0 && height > 0
              && exists i :: 0 <= i < |candidates| && CanDownscale(candidates[i], width, height, ratio, tolerance)
    ensures VirtualRenditionFor(candidates, width, height, ratio, tolerance).Some? ==>
              exists k :: IsFirstCapable(candidates, k, width, height, ratio, tolerance)
                && VirtualRenditionFor(candidates, width, height, ratio, tolerance)
                   == VirtualFromSource(candidates[k], width, height)
  {
    var test := c => CanDownscale(c, width, height, ratio, tolerance);
    if ratio > 0.0 {
      FirstMatchCongruent(candidates, c => MatchesRange(c, width, height, 0, 0, ratio, tolerance), test);
    } else {
      FirstMatchCongruent(candidates, c => MatchesRange(c, width, height, 0, 0, 0.0, tolerance), test);
    }
    var source := FirstMatch(candidates, test);
    if source.Some? {
      var k :| 0 <= k < |candidates| && source.value == candidates[k] && test(candidates[k])
               && forall j :: 0 <= j < k ==> !test(candidates[j]);
      assert IsFirstCapable(candidates, k, width, height, ratio, tolerance);
    }
  }

  /**
   * The source of a virtual rendition is never smaller than the target in either
   * dimension, meets the requested ratio, and among ascending candidates it is the
   * smallest one that can be downscaled to the target.
   */
  lemma FirstCapableIsSmallestLargeEnough(candidates: seq<RenditionMetadata>, k: int, width: int, height: int,
                                          ratio: real, tolerance: real)
    requires IsFirstCapable(candidates, k, width, height, ratio, tolerance)
    requires width > 0 && height > 0
    ensures candidates[k].Width() >= width && candidates[k].Height() >= height
    ensures ratio > 0.0 ==> RatioMatches(candidates[k], ratio, tolerance)
    ensures Sorted(candidates) ==>
              forall c :: c in candidates && CanDownscale(c, width, height, ratio, tolerance) && c != candidates[k]
                ==> Precedes(candidates[k], c)
  {
    if Sorted(candidates) {
      forall c | c in candidates && CanDownscale(c, width, height, ratio, tolerance) && c != candidates[k]
        ensures Precedes(candidates[k], c)
      {
        var i :| 0 <= i < |candidates| && candidates[i] == c;
        assert k < i;
      }
    }
  }

  /** What the virtual search answers is made from a candidate and has its extension. */
  lemma VirtualRenditionForIsMadeFrom(candidates: seq<RenditionMetadata>, width: int, height: int,
                                      ratio: real, tolerance: real)
    ensures VirtualRenditionFor(candidates, width, height, ratio, tolerance).Some? ==>
              exists c :: c in candidates && MadeFrom(VirtualRenditionFor(candidates, width, height, ratio, tolerance).value, c)
  {
    VirtualRenditionForSource(candidates, width, height, ratio, tolerance);
    if VirtualRenditionFor(candidates, width, height, ratio, tolerance).Some? {
      var k :| IsFirstCapable(candidates, k, width, height, ratio, tolerance)
               && VirtualRenditionFor(candidates, width, height, ratio, tolerance)
                  == VirtualFromSource(candidates[k], width, height);
      assert candidates[k] in candidates;
    }
  }

  /** A request that fixes only one dimension never gets a virtual rendition. */
  lemma OneFixedDimensionNeverVirtual(handler: MediaFormatHandler, candidates: seq<RenditionMetadata>, args: MediaArgs)
    requires HasFixedSize(args) && (args.fixedWidth <= 0 || args.fixedHeight <= 0)
    ensures VirtualRendition(handler, candidates, args) == None
  {
    VirtualRenditionForSource(candidates, args.fixedWidth, args.fixedHeight, FixedRatio(args), handler.ratioTolerance);
  }

  // ===========================================================================
  // The decision chain (getRendition)

  /** getRendition: the rendition, possibly virtual, selected for a request. */
  function Resolve(renditions: seq<RenditionMetadata>, original: Option<RenditionMetadata>,
                   handler: MediaFormatHandler, isImage: string -> bool, args: MediaArgs): Option<RenditionMetadata> {
    match RequestedFileExtensions(handler, args)
    case None => None
    case Some(fileExtensions) =>
      var candidates := MatchingRenditions(renditions, fileExtensions);
      if !IsSizeMatching(handler, isImage, args, fileExtensions) then
        OriginalOrFirst(original, candidates)
      else
        var exact := ExactMatch(handler, original, candidates, args);
        if exact.Some? then exact else VirtualRendition(handler, candidates, args)
  }

  /** The rendition `r` is `c` itself or a virtual rendition made from `c`'s stored rendition. */
  predicate MadeFrom(r: RenditionMetadata, c: RenditionMetadata) {
    r == c || (!r.Physical? && r.rendition == c.rendition)
  }

  /** The exact search only ever answers with a candidate. */
  lemma ExactMatchIsCandidate(handler: MediaFormatHandler, original: Option<RenditionMetadata>,
                              candidates: seq<RenditionMetadata>, args: MediaArgs)
    ensures ExactMatch(handler, original, candidates, args).Some? ==>
              ExactMatch(handler, original, candidates, args).value in candidates
  {
    if !HasFixedSize(args) && |args.mediaFormats| > 0 && ExactMatch(handler, original, candidates, args).Some? {
      var k := VisitStopsAt(handler, args.mediaFormats, ExactFormatVisitor(candidates, handler.ratioTolerance));
    }
  }

  /** The virtual search only ever answers with a descriptor made from a candidate. */
  lemma VirtualRenditionIsMadeFromCandidate(handler: MediaFormatHandler, candidates: seq<RenditionMetadata>, args: MediaArgs)
    ensures VirtualRendition(handler, candidates, args).Some? ==>
              exists c :: c in candidates && MadeFrom(VirtualRendition(handler, candidates, args).value, c)
  {
    var tolerance := handler.ratioTolerance;
    if HasFixedSize(args) {
      VirtualRenditionForIsMadeFrom(candidates, args.fixedWidth, args.fixedHeight, FixedRatio(args), tolerance);
    } else if VirtualRendition(handler, candidates, args).Some? {
      var visitor := VirtualFormatVisitor(candidates, tolerance);
      var k := VisitStopsAt(handler, args.mediaFormats, visitor);
      var format := handler.formats[args.mediaFormats[k]];
      VirtualRenditionForIsMadeFrom(candidates, ToJavaInt(format.effectiveWidthMin),
                                    ToJavaInt(format.effectiveHeightMin), format.ratio, tolerance);
    }
  }

  /**
   * Whatever getRendition returns is an available rendition, or a virtual rendition made
   * from one, and it always carries an extension the merged restriction admits.
   */
  lemma ResolvedRenditionIsAdmitted(renditions: seq<RenditionMetadata>, original: Option<RenditionMetadata>,
                                    handler: MediaFormatHandler, isImage: string -> bool, args: MediaArgs)
    ensures Resolve(renditions, original, handler, isImage, args).Some? ==>
              RequestedFileExtensions(handler, args).Some?
              && var r := Resolve(renditions, original, handler, isImage, args).value;
                 exists c :: c in renditions && MadeFrom(r, c)
                   && Admits(RequestedFileExtensions(handler, args).value, c)
                   && r.FileExtension() == c.FileExtension()
  {
    var result := Resolve(renditions, original, handler, isImage, args);
    if result.Some? {
      var fileExtensions := RequestedFileExtensions(handler, args).value;
      var candidates := MatchingRenditions(renditions, fileExtensions);
      MatchingRenditionsContents(renditions, fileExtensions);
      ExactMatchIsCandidate(handler, original, candidates, args);
      VirtualRenditionIsMadeFromCandidate(handler, candidates, args);
      var c :| c in candidates && MadeFrom(result.value, c);
    }
  }

  /** Merged extensions that cannot be met make getRendition answer null before any size logic. */
  lemma UnsatisfiableExtensionsGiveNothing(renditions: seq<RenditionMetadata>, original: Option<RenditionMetadata>,
                                           handler: MediaFormatHandler, isImage: string -> bool, args: MediaArgs)
    requires MediaArgsFileExtensions(args) != {}
    requires forall e :: e in MediaArgsFileExtensions(args) ==>
               forall i :: 0 <= i < |args.mediaFormats| ==> !FormatDeclares(handler, args.mediaFormats[i], e)
    requires exists e, i :: 0 <= i < |args.mediaFormats| && FormatDeclares(handler, args.mediaFormats[i], e)
    ensures Resolve(renditions, original, handler, isImage, args) == None
  {
    MediaFormatFileExtensionsContents(handler, args.mediaFormats);
    var e, i :| 0 <= i < |args.mediaFormats| && FormatDeclares(handler, args.mediaFormats[i], e);
    assert e in MediaFormatFileExtensions(handler, args.mediaFormats);
  }

  /**
   * `r` is the original rendition when that has an admitted extension, otherwise the
   * smallest rendition that has one, and nothing when no rendition has one.
   */
  predicate OriginalOrSmallestAdmitted(renditions: seq<RenditionMetadata>, original: Option<RenditionMetadata>,
                                       fileExtensions: set<string>, r: Option<RenditionMetadata>) {
    (original.Some? && original.value in renditions && Admits(fileExtensions, original.value) ==> r == original)
    && (r.None? <==> forall c :: c in renditions ==> !Admits(fileExtensions, c))
    && (r.Some? ==> r.value in renditions && Admits(fileExtensions, r.value))
    && (r.Some? && r != original ==>
          forall c :: c in renditions && Admits(fileExtensions, c) && c != r.value ==> Precedes(r.value, c))
  }

  /** Without size matching getRendition answers with the original or the smallest admitted rendition. */
  lemma NoSizeMatchingPicksOriginalOrSmallest(renditions: seq<RenditionMetadata>, original: Option<RenditionMetadata>,
                                              handler: MediaFormatHandler, isImage: string -> bool, args: MediaArgs)
    requires Sorted(renditions)
    requires RequestedFileExtensions(handler, args).Some?
    requires !IsSizeMatching(handler, isImage, args, RequestedFileExtensions(handler, args).value)
    ensures OriginalOrSmallestAdmitted(renditions, original, RequestedFileExtensions(handler, args).value,
                                       Resolve(renditions, original, handler, isImage, args))
  {
    var fileExtensions := RequestedFileExtensions(handler, args).value;
    var candidates := MatchingRenditions(renditions, fileExtensions);
    MatchingRenditionsContents(renditions, fileExtensions);
    if candidates != [] {
      assert candidates[0] in candidates;
    }
  }

  /** The request restricts file extensions neither directly nor through a resolvable format. */
  predicate NoExtensionRestriction(handler: MediaFormatHandler, args: MediaArgs) {
    args.fileExtensions == []
    && forall i :: 0 <= i < |args.mediaFormats| ==>
         (GetMediaFormat(handler, args.mediaFormats[i]).None?
          || handler.formats[args.mediaFormats[i]].extensions == [])
  }

  /**
   * A request restricting no file extensions gets the original rendition when there is
   * one, else the smallest rendition, even when it fixes a width or height: with an empty
   * extension set there is no image extension, so size matching is off.
   */
  lemma NoExtensionRestrictionIgnoresSize(renditions: seq<RenditionMetadata>, original: Option<RenditionMetadata>,
                                          handler: MediaFormatHandler, isImage: string -> bool, args: MediaArgs)
    requires Sorted(renditions)
    requires original.Some? ==> original.value in renditions
    requires NoExtensionRestriction(handler, args)
    ensures var r := Resolve(renditions, original, handler, isImage, args);
            (original.Some? ==> r == original)
            && (original.None? ==> (r.None? <==> renditions == []))
            && (original.None? && r.Some? ==> forall c :: c in renditions && c != r.value ==> Precedes(r.value, c))
  {
    MediaFormatFileExtensionsContents(handler, args.mediaFormats);
    assert MediaArgsFileExtensions(args) == {};
    assert MediaFormatFileExtensions(handler, args.mediaFormats) == {};
    SizeMatchingGate(handler, isImage, args, {});
  }

  /**
   * A fixed-size request with size matching: when some candidate has exactly the requested
   * size, getRendition answers with the first (smallest) such candidate, never a virtual
   * rendition; otherwise it can only answer with a virtual one.
   */
  lemma FixedSizePrefersExactMatch(renditions: seq<RenditionMetadata>, original: Option<RenditionMetadata>,
                                   handler: MediaFormatHandler, isImage: string -> bool, args: MediaArgs)
    requires RequestedFileExtensions(handler, args).Some?
    requires IsSizeMatching(handler, isImage, args, RequestedFileExtensions(handler, args).value)
    requires HasFixedSize(args)
    ensures var fileExtensions := RequestedFileExtensions(handler, args).value;
            var candidates := MatchingRenditions(renditions, fileExtensions);
            var r := Resolve(renditions, original, handler, isImage, args);
            ((exists c :: c in candidates && MatchesSize(c, args.fixedWidth, args.fixedHeight)) ==>
               r.Some? && r.value in candidates && MatchesSize(r.value, args.fixedWidth, args.fixedHeight)
               && exists k :: 0 <= k < |candidates| && r.value == candidates[k]
                    && forall j :: 0 <= j < k ==> !MatchesSize(candidates[j], args.fixedWidth, args.fixedHeight))
            && ((forall c :: c in candidates ==> !MatchesSize(c, args.fixedWidth, args.fixedHeight)) ==>
               r == VirtualRendition(handler, candidates, args))
  {
    var fileExtensions := RequestedFileExtensions(handler, args).value;
    var candidates := MatchingRenditions(renditions, fileExtensions);
    var test := c => MatchesSize(c, args.fixedWidth, args.fixedHeight);
    if exists c :: c in candidates && MatchesSize(c, args.fixedWidth, args.fixedHeight) {
      var c :| c in candidates && MatchesSize(c, args.fixedWidth, args.fixedHeight);
      var i :| 0 <= i < |candidates| && candidates[i] == c;
      assert test(candidates[i]);
    }
  }

  /** The format named `name` resolves and some candidate matches it. */
  predicate FormatHasMatch(handler: MediaFormatHandler, name: string, candidates: seq<RenditionMetadata>) {
    name in handler.formats
    && exists c :: c in candidates && MatchesFormat(c, handler.formats[name], handler.ratioTolerance)
  }

  lemma ExactFormatHit(handler: MediaFormatHandler, name: string, candidates: seq<RenditionMetadata>)
    ensures Hit(handler, name, ExactFormatVisitor(candidates, handler.ratioTolerance)).Some? <==>
              FormatHasMatch(handler, name, candidates)
  {
    if name in handler.formats {
      var test := FormatTest(handler.formats[name], handler.ratioTolerance);
      if FormatHasMatch(handler, name, candidates) {
        var c :| c in candidates && MatchesFormat(c, handler.formats[name], handler.ratioTolerance);
        var n :| 0 <= n < |candidates| && candidates[n] == c;
        assert test(candidates[n]);
      }
      if FirstMatch(candidates, test).Some? {
        var n :| 0 <= n < |candidates| && FirstMatch(candidates, test).value == candidates[n] && test(candidates[n])
                 && forall j :: 0 <= j < n ==> !test(candidates[j]);
        assert candidates[n] in candidates;
      }
    }
  }

  /**
   * The exact search over media formats: when some resolvable format has a matching
   * candidate, it answers with the first matching candidate (in ascending order) of the
   * first such format in the caller's order; no earlier format has a matching candidate,
   * and later formats are not consulted. Otherwise it answers nothing.
   */
  lemma ExactFormatSearch(handler: MediaFormatHandler, candidates: seq<RenditionMetadata>, names: seq<string>)
    ensures var r := Visit(handler, names, ExactFormatVisitor(candidates, handler.ratioTolerance));
            (r.None? <==> forall i :: 0 <= i < |names| ==> !FormatHasMatch(handler, names[i], candidates))
            && (r.Some? ==>
                  exists k :: 0 <= k < |names| && FormatHasMatch(handler, names[k], candidates)
                    && (forall j :: 0 <= j < k ==> !FormatHasMatch(handler, names[j], candidates))
                    && r == FirstMatch(candidates, FormatTest(handler.formats[names[k]], handler.ratioTolerance)))
  {
    var visitor := ExactFormatVisitor(candidates, handler.ratioTolerance);
    forall i | 0 <= i < |names|
      ensures Hit(handler, names[i], visitor).Some? <==> FormatHasMatch(handler, names[i], candidates)
    {
      ExactFormatHit(handler, names[i], candidates);
    }
    VisitFirstHit(handler, names, visitor);
    if Visit(handler, names, visitor).Some? {
      var k := VisitStopsAt(handler, names, visitor);
      assert Hit(handler, names[k], visitor).Some?;
    }
  }

  /**
   * A media-format request with size matching gets the exact search's answer whenever
   * some resolvable format has a matching candidate; only otherwise is a virtual
   * rendition considered.
   */
  lemma MediaFormatsPreferExactMatch(renditions: seq<RenditionMetadata>, original: Option<RenditionMetadata>,
                                     handler: MediaFormatHandler, isImage: string -> bool, args: MediaArgs)
    requires RequestedFileExtensions(handler, args).Some?
    requires IsSizeMatching(handler, isImage, args, RequestedFileExtensions(handler, args).value)
    requires !HasFixedSize(args)
    ensures var candidates := MatchingRenditions(renditions, RequestedFileExtensions(handler, args).value);
            var r := Resolve(renditions, original, handler, isImage, args);
            ((exists i :: 0 <= i < |args.mediaFormats| && FormatHasMatch(handler, args.mediaFormats[i], candidates)) ==>
               r.Some? && r.value in candidates
               && r == Visit(handler, args.mediaFormats, ExactFormatVisitor(candidates, handler.ratioTolerance)))
            && ((forall i :: 0 <= i < |args.mediaFormats| ==> !FormatHasMatch(handler, args.mediaFormats[i], candidates)) ==>
               r == VirtualRendition(handler, candidates, args))
  {
    var candidates := MatchingRenditions(renditions, RequestedFileExtensions(handler, args).value);
    SizeMatchingGate(handler, isImage, args, RequestedFileExtensions(handler, args).value);
    ExactFormatSearch(handler, candidates, args.mediaFormats);
    ExactMatchIsCandidate(handler, original, candidates, args);
  }
}
