/**
 * DefaultRenditionHandler: captures an asset's renditions once, then answers
 * rendition requests. Each step is carried out as the Java code does it, with loops,
 * and is proved to agree with the specification in RenditionSelection.
 */
module DamRenditionHandler {
  import opened Wrappers
  import opened Strings
  import opened Renditions
  import opened Media
  import opened RenditionSelection

  /** Scan the candidates in order and return the first that passes `test`. */
  method FindFirst(candidates: seq<RenditionMetadata>, test: RenditionMetadata -> bool)
    returns (result: Option<RenditionMetadata>)
    ensures result == FirstMatch(candidates, test)
  {
    for i := 0 to |candidates|
      invariant FirstMatch(candidates, test) == FirstMatch(candidates[i..], test)
    {
      assert candidates[i..][1..] == candidates[i + 1..];
      if test(candidates[i]) {
        return Some(candidates[i]);
      }
    }
    return None;
  }

  class DefaultRenditionHandler {
    /** The asset's renditions without thumbnails, smallest first (the TreeSet). */
    const renditions: seq<RenditionMetadata>
    /** The rendition named as the original file, if the asset has one. */
    const originalRendition: Option<RenditionMetadata>
    /** The media format handler obtained from the adaptable. */
    const mediaFormatHandler: MediaFormatHandler
    /** FileExtension.isImage. */
    const isImage: string -> bool

    /** What the constructor establishes about the captured catalogue. */
    ghost predicate Valid() {
      Sorted(renditions)
      && (forall r :: r in renditions ==> r.Physical? && !IsThumbnail(r.Name()))
      && (originalRendition.Some? ==>
            originalRendition.value in renditions && originalRendition.value.Name() == OriginalFile)
    }

    /**
     * Capture the asset's renditions: thumbnails are skipped, every other rendition goes
     * into the sorted set, and the one named as the original file is remembered.
     */
    constructor (asset: seq<DamRendition>, mediaFormatHandler: MediaFormatHandler, isImage: string -> bool)
      requires DistinctNames(asset)
      ensures renditions == Catalogue(asset) && originalRendition == OriginalOf(asset)
      ensures this.mediaFormatHandler == mediaFormatHandler && this.isImage == isImage
      ensures forall r :: r in renditions <==> r.Physical? && r.rendition in asset && !IsThumbnail(r.Name())
      ensures originalRendition.Some? <==> exists d :: d in asset && d.name == OriginalFile
      ensures Valid()
    {
      var sorted: seq<RenditionMetadata> := [];
      var orgRendition: Option<RenditionMetadata> := None;
      for i := 0 to |asset|
        invariant sorted == Catalogue(asset[..i])
        invariant orgRendition == OriginalOf(asset[..i])
      {
        var rendition := asset[i];
        assert asset[..i + 1][..i] == asset[..i];
        if IsThumbnail(rendition.name) {
          continue;
        }
        var renditionMetadata := Physical(rendition);
        sorted := Insert(sorted, renditionMetadata);
        if rendition.name == OriginalFile {
          orgRendition := Some(renditionMetadata);
        }
      }
      assert asset[..|asset|] == asset;
      CatalogueContents(asset);
      OriginalOfContents(asset);
      renditions := sorted;
      originalRendition := orgRendition;
      this.mediaFormatHandler := mediaFormatHandler;
      this.isImage := isImage;
    }

    /**
     * getRendtionsMatchingFileExtensions: every rendition when no extension is given,
     * otherwise, in order, those whose extension equals a given one ignoring case.
     */
    method GetRenditionsMatchingFileExtensions(fileExtensions: set<string>)
      returns (matching: seq<RenditionMetadata>)
      ensures matching == MatchingRenditions(renditions, fileExtensions)
    {
      if |fileExtensions| == 0 {
        return renditions;
      }
      matching := [];
      for i := 0 to |renditions|
        invariant matching == KeepMatching(renditions[..i], fileExtensions)
      {
        var rendition := renditions[i];
        assert renditions[..i + 1][..i] == renditions[..i];
        var remaining := fileExtensions;
        while remaining != {}
          invariant remaining <= fileExtensions
          invariant matching == KeepMatching(renditions[..i], fileExtensions)
          invariant forall e :: e in fileExtensions && e !in remaining ==>
                      !EqualsIgnoreCase(e, rendition.FileExtension())
          decreases remaining
        {
          var fileExtension :| fileExtension in remaining;
          if EqualsIgnoreCase(fileExtension, rendition.FileExtension()) {
            matching := matching + [rendition];
            break;
          }
          remaining := remaining - {fileExtension};
        }
      }
      assert renditions[..|renditions|] == renditions;
    }

    /**
     * getRequestedFileExtensions: merge the media args' extensions with those of the
     * resolvable media formats. None when both restrict and do not intersect.
     */
    method GetRequestedFileExtensions(mediaArgs: MediaArgs) returns (fileExtensions: Option<set<string>>)
      ensures fileExtensions == RequestedFileExtensions(mediaFormatHandler, mediaArgs)
    {
      var mediaArgsFileExtensions: set<string> := {};
      if |mediaArgs.fileExtensions| > 0 {
        mediaArgsFileExtensions := set e | e in mediaArgs.fileExtensions;
      }

      // the visitor of the Java code only collects extensions and always answers null,
      // so every media format is visited
      var mediaFormatFileExtensions: set<string> := {};
      var names := mediaArgs.mediaFormats;
      for i := 0 to |names|
        invariant mediaFormatFileExtensions == MediaFormatFileExtensions(mediaFormatHandler, names[..i])
      {
        assert names[..i + 1][..i] == names[..i];
        var mediaFormat := GetMediaFormat(mediaFormatHandler, names[i]);
        if mediaFormat.Some? && |mediaFormat.value.extensions| > 0 {
          mediaFormatFileExtensions := mediaFormatFileExtensions + set e | e in mediaFormat.value.extensions;
        }
      }
      assert names[..|names|] == names;

      if |mediaArgsFileExtensions| > 0 && |mediaFormatFileExtensions| > 0 {
        var intersection := mediaArgsFileExtensions * mediaFormatFileExtensions;
        if |intersection| == 0 {
          return None;
        }
        fileExtensions := Some(intersection);
      } else if |mediaArgsFileExtensions| > 0 {
        fileExtensions := Some(mediaArgsFileExtensions);
      } else {
        fileExtensions := Some(mediaFormatFileExtensions);
      }
    }

    /**
     * isSizeMatchingRequest: some requested extension is an image extension, and a
     * fixed dimension or some resolvable media format constrains size.
     */
    method IsSizeMatchingRequest(mediaArgs: MediaArgs, requestedFileExtensions: set<string>)
      returns (sizeMatching: bool)
      ensures sizeMatching == IsSizeMatching(mediaFormatHandler, isImage, mediaArgs, requestedFileExtensions)
    {
      var anyImageFileExtension := false;
      var remaining := requestedFileExtensions;
      while remaining != {}
        invariant remaining <= requestedFileExtensions
        invariant anyImageFileExtension <==>
                    exists e :: e in requestedFileExtensions && e !in remaining && isImage(e)
        decreases remaining
      {
        var fileExtension :| fileExtension in remaining;
        if isImage(fileExtension) {
          anyImageFileExtension := true;
        }
        remaining := remaining - {fileExtension};
      }
      if !anyImageFileExtension {
        return false;
      }

      if mediaArgs.fixedWidth > 0 || mediaArgs.fixedHeight > 0 {
        return true;
      }
      var isSizeMatchingMediaFormat := VisitMediaFormats(mediaArgs, SizeConstraintVisitor);
      return isSizeMatchingMediaFormat == Some(true);
    }

    /** visitMediaFormats: the first answer of the visitor over the resolvable formats, in order. */
    method VisitMediaFormats<T>(mediaArgs: MediaArgs, visitor: MediaFormat -> Option<T>) returns (result: Option<T>)
      ensures result == Visit(mediaFormatHandler, mediaArgs.mediaFormats, visitor)
    {
      var mediaFormats := mediaArgs.mediaFormats;
      for i := 0 to |mediaFormats|
        invariant Visit(mediaFormatHandler, mediaFormats, visitor) == Visit(mediaFormatHandler, mediaFormats[i..], visitor)
      {
        assert mediaFormats[i..][1..] == mediaFormats[i + 1..];
        var mediaFormat := GetMediaFormat(mediaFormatHandler, mediaFormats[i]);
        if mediaFormat.Some? {
          var returnValue := visitor(mediaFormat.value);
          if returnValue.Some? {
            return returnValue;
          }
        }
      }
      return None;
    }

    /**
     * getExactMatchRendition: for a fixed size the first candidate of exactly that size;
     * else for media formats the first hit of the first format with one; else the
     * original or first candidate.
     */
    method GetExactMatchRendition(candidates: seq<RenditionMetadata>, mediaArgs: MediaArgs)
      returns (result: Option<RenditionMetadata>)
      ensures result == ExactMatch(mediaFormatHandler, originalRendition, candidates, mediaArgs)
    {
      if mediaArgs.fixedWidth > 0 || mediaArgs.fixedHeight > 0 {
        result := FindFirst(candidates, c => MatchesSize(c, mediaArgs.fixedWidth, mediaArgs.fixedHeight));
      } else if |mediaArgs.mediaFormats| > 0 {
        result := VisitMediaFormats(mediaArgs, ExactFormatVisitor(candidates, mediaFormatHandler.ratioTolerance));
      } else {
        result := OriginalOrFirst(originalRendition, candidates);
      }
    }

    /**
     * getVirtualRendition(candidates, mediaArgs): a downscale of the first large enough
     * candidate, for the fixed size or else for the first media format that yields one.
     */
    method GetVirtualRendition(candidates: seq<RenditionMetadata>, mediaArgs: MediaArgs)
      returns (result: Option<RenditionMetadata>)
      ensures result == VirtualRendition(mediaFormatHandler, candidates, mediaArgs)
    {
      if mediaArgs.fixedWidth > 0 || mediaArgs.fixedHeight > 0 {
        var destWidth := mediaArgs.fixedWidth;
        var destHeight := mediaArgs.fixedHeight;
        var destRatio := 0.0;
        if destWidth > 0 && destHeight > 0 {
          destRatio := destWidth as real / destHeight as real;
        }
        result := GetVirtualRenditionFor(candidates, destWidth, destHeight, destRatio);
        return;
      }
      result := VisitMediaFormats(mediaArgs, VirtualFormatVisitor(candidates, mediaFormatHandler.ratioTolerance));
    }

    /**
     * getVirtualRendition(candidates, width, height, ratio): scan for the first candidate
     * at least width x height (and of the ratio, when one is given) and make a virtual
     * rendition of it.
     */
    method GetVirtualRenditionFor(candidates: seq<RenditionMetadata>, destWidth: int, destHeight: int, destRatio: real)
      returns (result: Option<RenditionMetadata>)
      ensures result == VirtualRenditionFor(candidates, destWidth, destHeight, destRatio, mediaFormatHandler.ratioTolerance)
    {
      var tolerance := mediaFormatHandler.ratioTolerance;
      var source;
      if destRatio > 0.0 {
        source := FindFirst(candidates, c => MatchesRange(c, destWidth, destHeight, 0, 0, destRatio, tolerance));
      } else {
        source := FindFirst(candidates, c => MatchesRange(c, destWidth, destHeight, 0, 0, 0.0, tolerance));
      }
      if source.Some? {
        return VirtualFromSource(source.value, destWidth, destHeight);
      }
      return None;
    }

    /**
     * getRendition: unsatisfiable extensions give null; without size matching the
     * original or first candidate; otherwise an exact match, else a virtual rendition,
     * else null.
     */
    method GetRendition(mediaArgs: MediaArgs) returns (result: Option<RenditionMetadata>)
      requires Valid()
      ensures result == Resolve(renditions, originalRendition, mediaFormatHandler, isImage, mediaArgs)
      ensures RequestedFileExtensions(mediaFormatHandler, mediaArgs).None? ==> result.None?
      ensures result.Some? ==>
                exists c :: c in renditions && MadeFrom(result.value, c)
                  && Admits(RequestedFileExtensions(mediaFormatHandler, mediaArgs).value, c)
      ensures RequestedFileExtensions(mediaFormatHandler, mediaArgs).Some?
              && !IsSizeMatching(mediaFormatHandler, isImage, mediaArgs,
                                 RequestedFileExtensions(mediaFormatHandler, mediaArgs).value) ==>
                OriginalOrSmallestAdmitted(renditions, originalRendition,
                                           RequestedFileExtensions(mediaFormatHandler, mediaArgs).value, result)
      ensures NoExtensionRestriction(mediaFormatHandler, mediaArgs) ==>
                (originalRendition.Some? ==> result == originalRendition)
                && (originalRendition.None? ==> (result.None? <==> renditions == []))
    {
      ResolvedRenditionIsAdmitted(renditions, originalRendition, mediaFormatHandler, isImage, mediaArgs);
      ghost var requested := RequestedFileExtensions(mediaFormatHandler, mediaArgs);
      if requested.Some? && !IsSizeMatching(mediaFormatHandler, isImage, mediaArgs, requested.value) {
        NoSizeMatchingPicksOriginalOrSmallest(renditions, originalRendition, mediaFormatHandler, isImage, mediaArgs);
      }
      if NoExtensionRestriction(mediaFormatHandler, mediaArgs) {
        NoExtensionRestrictionIgnoresSize(renditions, originalRendition, mediaFormatHandler, isImage, mediaArgs);
      }
      var requestedFileExtensions := GetRequestedFileExtensions(mediaArgs);
      if requestedFileExtensions.None? {
        return None;
      }

      var isSizeMatchingRequest := IsSizeMatchingRequest(mediaArgs, requestedFileExtensions.value);
      var candidates := GetRenditionsMatchingFileExtensions(requestedFileExtensions.value);
      if !isSizeMatchingRequest {
        return OriginalOrFirst(originalRendition, candidates);
      }

      var exactMatchRendition := GetExactMatchRendition(candidates, mediaArgs);
      if exactMatchRendition.Some? {
        return exactMatchRendition;
      }

      var virtualRendition := GetVirtualRendition(candidates, mediaArgs);
      if virtualRendition.Some? {
        return virtualRendition;
      }
      return None;
    }
  }
}
