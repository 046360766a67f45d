/** The records the image metadata extractor produces and consumes. Optional
    fields of the source's interfaces are `Option`s: `None` is a field that
    is absent or `undefined`. */
module MetadataTypes {
  import opened Wrappers
  import opened JsValues

  /** A position in decimal degrees. The hemisphere references keep
      whatever value the decoder described them with. */
  datatype GPSCoordinates = GPSCoordinates(
    latitude: real,
    longitude: real,
    altitude: Option<real>,
    latitudeRef: Option<JsValue>,
    longitudeRef: Option<JsValue>)

  /** A latitude of at most 90 degrees and a longitude of at most 180
      degrees either way. */
  predicate InRange(c: GPSCoordinates) {
    -90.0 <= c.latitude <= 90.0 && -180.0 <= c.longitude <= 180.0
  }

  datatype CameraInfo = CameraInfo(
    make: Option<string>,
    model: Option<string>,
    software: Option<string>,
    lensModel: Option<string>,
    iso: Option<real>,
    aperture: Option<real>,
    shutterSpeed: Option<string>,
    focalLength: Option<real>,
    flash: Option<string>,
    whiteBalance: Option<string>)

  datatype ImageInfo = ImageInfo(
    width: Option<real>,
    height: Option<real>,
    colorSpace: Option<string>,
    orientation: Option<real>,
    xResolution: Option<real>,
    yResolution: Option<real>,
    bitsPerSample: Option<real>)

  datatype DateTimeInfo = DateTimeInfo(
    dateTimeOriginal: Option<string>,
    dateTime: Option<string>,
    dateTimeDigitized: Option<string>,
    offsetTime: Option<string>)

  /** Everything one extraction yields; `gps` is `None` for `null`. */
  datatype ImageMetadata = ImageMetadata(
    gps: Option<GPSCoordinates>,
    camera: CameraInfo,
    image: ImageInfo,
    dateTime: DateTimeInfo,
    rawExif: Option<JsValue>,
    hasGPS: bool,
    fileName: Option<string>,
    fileSize: Option<nat>)

  /** Extraction options; an option left out of the options object behaves
      as `false`. `customFields` is accepted and never read. */
  datatype ExtractionOptions = ExtractionOptions(
    includeRawExif: bool,
    validateGPS: bool,
    customFields: seq<string>)

  const DefaultOptions := ExtractionOptions(false, false, [])

  datatype ErrorKind =
    | InvalidFile
    | NoExifData
    | UnsupportedFormat
    | CorruptedData
    | GpsParsingError

  datatype ExtractionError = ExtractionError(kind: ErrorKind, message: string)

  /** The result wrapper: `data` is `None` for `null`, `error` is `None`
      when the field is absent. */
  datatype ExtractionResult = ExtractionResult(
    success: bool,
    data: Option<ImageMetadata>,
    error: Option<ExtractionError>)

  /** A failed result of the given kind. */
  function Failure(kind: ErrorKind, message: string): (r: ExtractionResult)
    ensures !r.success && r.data.None? && r.error == Some(ExtractionError(kind, message))
  {
    ExtractionResult(false, None, Some(ExtractionError(kind, message)))
  }
}
