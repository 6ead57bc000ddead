/**
 * The request side of rendition resolution: the media arguments a caller passes, the
 * media formats they may name, and the media format handler that resolves names.
 */
module Media {
  import opened Wrappers

  /**
   * The part of MediaArgsType the handler reads. A null array is an empty sequence;
   * a fixed width or height of 0 means "not set".
   */
  datatype MediaArgs = MediaArgs(
    mediaFormats: seq<string>,
    fileExtensions: seq<string>,
    fixedWidth: int,
    fixedHeight: int)

  /**
   * The part of a media format the handler reads: allowed file extensions, the
   * effective size bounds (0 = unbounded) and the ratio (0 = unconstrained).
   */
  datatype MediaFormat = MediaFormat(
    name: string,
    extensions: seq<string>,
    effectiveWidthMin: int,
    effectiveWidthMax: int,
    effectiveHeightMin: int,
    effectiveHeightMax: int,
    ratio: real)

  /**
   * MediaFormatHandler: the registry of media formats by name, and the tolerance
   * RATIO_TOLERANCE within which two ratios count as equal.
   */
  datatype MediaFormatHandler = MediaFormatHandler(formats: map<string, MediaFormat>, ratioTolerance: real)

  /** getMediaFormat(name): the format registered under `name`, None for an unknown name. */
  function GetMediaFormat(handler: MediaFormatHandler, name: string): Option<MediaFormat> {
    if name in handler.formats then Some(handler.formats[name]) else None
  }
}
