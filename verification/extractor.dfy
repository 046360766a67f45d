/** The image metadata extractor: reads an image's EXIF data through the
    decoder, parses GPS, camera, image and date/time fields, and wraps the
    outcome in a result record. The decoder and the reading of a file's
    bytes are not modelled; they are parameters. */
module ImageMetadataExtractor {
  import opened Wrappers
  import opened JsValues
  import opened MetadataTypes
  import opened MetadataHelpers

  /** What reading a file's bytes yields: the bytes, or a failure with the
      message of the error (`None` when what was thrown is not an Error). */
  datatype ReadOutcome = Read(bytes: seq<bv8>) | ReadFailed(message: Option<string>)

  /** The extractor's input: nothing (`null`/`undefined`), a raw buffer, or
      a file with a name and a size. */
  datatype ImageInput =
    | NoInput
    | Buffer(bytes: seq<bv8>)
    | File(name: string, size: nat, contents: ReadOutcome)

  /** The decoder's options: `expanded`, and `includeUnknown` when given. */
  datatype LoadOptions = LoadOptions(expanded: bool, includeUnknown: Option<bool>)

  const FullLoadOptions := LoadOptions(true, None)
  const GpsLoadOptions := LoadOptions(true, Some(false))

  /** What the decoder does with a buffer (`None` is a `null` buffer): the
      tags it returns, or the error it throws. */
  datatype LoadOutcome = Loaded(tags: JsValue) | Threw(message: Option<string>)

  type Decoder = (Option<seq<bv8>>, LoadOptions) -> LoadOutcome

  /** The message of a caught error, "Unknown error" when it is not an
      Error. */
  function ErrorText(message: Option<string>): string {
    message.GetOr("Unknown error")
  }

  /** `Object.keys(v).length` for the values a decoder returns. */
  function KeyCount(v: JsValue): (r: nat)
    ensures v.Obj? ==> r == |v.props|
    ensures v.Obj? && v.props == map[] ==> r == 0
  {
    match v
    case Obj(props) => |props|
    case Arr(elems) => |elems|
    case Str(s) => |s|
    case _ => 0
  }

  /** `exifData[primary] || exifData[secondary] || {}`: the EXIF group
      (`exif` or `Exif`) and the IFD0 group (`ifd0` or `Image`) under
      either spelling, an empty object when neither is truthy. */
  function GroupOr(exifData: JsValue, primary: string, secondary: string): (r: JsValue)
    ensures Truthy(r)
    ensures Truthy(Get(exifData, primary)) ==> r == Get(exifData, primary)
    ensures !Truthy(Get(exifData, primary)) && Truthy(Get(exifData, secondary)) ==> r == Get(exifData, secondary)
    ensures !Truthy(Get(exifData, primary)) && !Truthy(Get(exifData, secondary)) ==> r == Obj(map[])
  {
    Or(Or(Get(exifData, primary), Get(exifData, secondary)), Obj(map[]))
  }

  function ExifGroup(exifData: JsValue): JsValue {
    GroupOr(exifData, "exif", "Exif")
  }

  function Ifd0Group(exifData: JsValue): JsValue {
    GroupOr(exifData, "ifd0", "Image")
  }

  /** The camera record: make, model and software from IFD0 as text; the
      lens, flash and white balance from the EXIF group as text; ISO,
      aperture and focal length as numbers, each falling back to its
      second tag when the first is falsy; the shutter speed formatted. */
  function CameraOf(exif: JsValue, ifd0: JsValue): (c: CameraInfo)
    ensures c.make == SafeExtractString(Get(ifd0, "Make"))
    ensures c.model == SafeExtractString(Get(ifd0, "Model"))
    ensures c.software == SafeExtractString(Get(ifd0, "Software"))
    ensures c.lensModel == SafeExtractString(Get(exif, "LensModel"))
    ensures c.iso == SafeExtractNumber(Or(Get(exif, "ISO"), Get(exif, "ISOSpeedRatings")))
    ensures c.aperture == SafeExtractNumber(Or(Get(exif, "FNumber"), Get(exif, "ApertureValue")))
    ensures c.shutterSpeed == FormatShutterSpeed(Or(Get(exif, "ExposureTime"), Get(exif, "ShutterSpeedValue")))
    ensures c.focalLength == SafeExtractNumber(Get(exif, "FocalLength"))
    ensures c.flash == SafeExtractString(Get(exif, "Flash"))
    ensures c.whiteBalance == SafeExtractString(Get(exif, "WhiteBalance"))
  {
    CameraInfo(
      make := SafeExtractString(Get(ifd0, "Make")),
      model := SafeExtractString(Get(ifd0, "Model")),
      software := SafeExtractString(Get(ifd0, "Software")),
      lensModel := SafeExtractString(Get(exif, "LensModel")),
      iso := SafeExtractNumber(Or(Get(exif, "ISO"), Get(exif, "ISOSpeedRatings"))),
      aperture := SafeExtractNumber(Or(Get(exif, "FNumber"), Get(exif, "ApertureValue"))),
      shutterSpeed := FormatShutterSpeed(Or(Get(exif, "ExposureTime"), Get(exif, "ShutterSpeedValue"))),
      focalLength := SafeExtractNumber(Get(exif, "FocalLength")),
      flash := SafeExtractString(Get(exif, "Flash")),
      whiteBalance := SafeExtractString(Get(exif, "WhiteBalance")))
  }

  /** The image record: width and height from the EXIF group, falling back
      to IFD0's `ImageWidth`/`ImageLength`; the colour space from the EXIF
      group as text; orientation, resolutions and bit depth from IFD0 as
      numbers. */
  function ImageOf(exif: JsValue, ifd0: JsValue): (im: ImageInfo)
    ensures im.width == SafeExtractNumber(Or(Get(exif, "ExifImageWidth"), Get(ifd0, "ImageWidth")))
    ensures im.height == SafeExtractNumber(Or(Get(exif, "ExifImageHeight"), Get(ifd0, "ImageLength")))
    ensures im.colorSpace == SafeExtractString(Get(exif, "ColorSpace"))
    ensures im.orientation == SafeExtractNumber(Get(ifd0, "Orientation"))
    ensures im.xResolution == SafeExtractNumber(Get(ifd0, "XResolution"))
    ensures im.yResolution == SafeExtractNumber(Get(ifd0, "YResolution"))
    ensures im.bitsPerSample == SafeExtractNumber(Get(ifd0, "BitsPerSample"))
  {
    ImageInfo(
      width := SafeExtractNumber(Or(Get(exif, "ExifImageWidth"), Get(ifd0, "ImageWidth"))),
      height := SafeExtractNumber(Or(Get(exif, "ExifImageHeight"), Get(ifd0, "ImageLength"))),
      colorSpace := SafeExtractString(Get(exif, "ColorSpace")),
      orientation := SafeExtractNumber(Get(ifd0, "Orientation")),
      xResolution := SafeExtractNumber(Get(ifd0, "XResolution")),
      yResolution := SafeExtractNumber(Get(ifd0, "YResolution")),
      bitsPerSample := SafeExtractNumber(Get(ifd0, "BitsPerSample")))
  }

  /** The date/time record, all as text: the original and digitized times
      from the EXIF group, the modification time from IFD0, and the offset
      falling back from `OffsetTime` to `OffsetTimeOriginal`. */
  function DateTimeOf(exif: JsValue, ifd0: JsValue): (d: DateTimeInfo)
    ensures d.dateTimeOriginal == SafeExtractString(Get(exif, "DateTimeOriginal"))
    ensures d.dateTime == SafeExtractString(Get(ifd0, "DateTime"))
    ensures d.dateTimeDigitized == SafeExtractString(Get(exif, "DateTimeDigitized"))
    ensures d.offsetTime == SafeExtractString(Or(Get(exif, "OffsetTime"), Get(exif, "OffsetTimeOriginal")))
  {
    DateTimeInfo(
      dateTimeOriginal := SafeExtractString(Get(exif, "DateTimeOriginal")),
      dateTime := SafeExtractString(Get(ifd0, "DateTime")),
      dateTimeDigitized := SafeExtractString(Get(exif, "DateTimeDigitized")),
      offsetTime := SafeExtractString(Or(Get(exif, "OffsetTime"), Get(exif, "OffsetTimeOriginal"))))
  }

  /** The metadata record built from decoded tags and the parsed GPS. */
  function BuildMetadata(exifData: JsValue, gps: Option<GPSCoordinates>, options: ExtractionOptions,
                         fileName: Option<string>, fileSize: Option<nat>): (m: ImageMetadata)
    ensures m.gps == gps
    ensures m.hasGPS <==> m.gps.Some?
    ensures m.fileName == fileName && m.fileSize == fileSize
    ensures var exif := GroupOr(exifData, "exif", "Exif");
            var ifd0 := GroupOr(exifData, "ifd0", "Image");
      m.camera == CameraOf(exif, ifd0) && m.image == ImageOf(exif, ifd0) && m.dateTime == DateTimeOf(exif, ifd0)
    ensures m.rawExif.Some? <==> options.includeRawExif
    ensures m.rawExif.Some? ==> m.rawExif.value == exifData
  {
    var exif := ExifGroup(exifData);
    var ifd0 := Ifd0Group(exifData);
    ImageMetadata(
      gps := gps,
      camera := CameraOf(exif, ifd0),
      image := ImageOf(exif, ifd0),
      dateTime := DateTimeOf(exif, ifd0),
      rawExif := if options.includeRawExif then Some(exifData) else None,
      hasGPS := gps.Some?,
      fileName := fileName,
      fileSize := fileSize)
  }

  /** The steps after the bytes are at hand: decode, require some EXIF
      data, parse GPS (with the optional re-check of its range) and build
      the record. */
  function ExtractFromBuffer(bytes: seq<bv8>, fileName: Option<string>, fileSize: Option<nat>,
                             options: ExtractionOptions, load: Decoder): (r: ExtractionResult)
    ensures r.success <==> r.data.Some?
    ensures r.success <==> r.error.None?
    ensures r.error.Some? ==> r.error.value.kind in {CorruptedData, NoExifData}
    ensures load(Some(bytes), FullLoadOptions).Threw? ==>
      r == Failure(CorruptedData, "Failed to read EXIF data: " + ErrorText(load(Some(bytes), FullLoadOptions).message))
    ensures load(Some(bytes), FullLoadOptions).Loaded?
            && (!Truthy(load(Some(bytes), FullLoadOptions).tags) || KeyCount(load(Some(bytes), FullLoadOptions).tags) == 0) ==>
      r == Failure(NoExifData, "No EXIF data found in image")
    ensures r.success <==> load(Some(bytes), FullLoadOptions).Loaded?
                           && Truthy(load(Some(bytes), FullLoadOptions).tags)
                           && KeyCount(load(Some(bytes), FullLoadOptions).tags) > 0
    ensures r.success ==> r.data.value.fileName == fileName && r.data.value.fileSize == fileSize
    ensures r.success ==>
      var tags := load(Some(bytes), FullLoadOptions).tags;
      r.data.value == BuildMetadata(tags, ParseGPSCoordinates(Get(tags, "gps")), options, fileName, fileSize)
    ensures r.success ==> r.data.value.gps == ParseGPSCoordinates(Get(load(Some(bytes), FullLoadOptions).tags, "gps"))
    ensures r.success ==> r.data.value.hasGPS == r.data.value.gps.Some?
    ensures r.success ==> (r.data.value.rawExif.Some? <==> options.includeRawExif)
  {
    match load(Some(bytes), FullLoadOptions)
    case Threw(message) => Failure(CorruptedData, "Failed to read EXIF data: " + ErrorText(message))
    case Loaded(exifData) =>
      if !Truthy(exifData) || KeyCount(exifData) == 0 then
        Failure(NoExifData, "No EXIF data found in image")
      else
        var gps := ParseGPSCoordinates(Get(exifData, "gps"));
        if options.validateGPS && gps.Some? && (Abs(gps.value.latitude) > 90.0 || Abs(gps.value.longitude) > 180.0) then
          Failure(GpsParsingError, "Invalid GPS coordinates detected")
        else
          ExtractionResult(true, Some(BuildMetadata(exifData, gps, options, fileName, fileSize)), None)
  }

  /** `extractImageMetadata`. */
  function ExtractImageMetadata(input: ImageInput, options: ExtractionOptions, load: Decoder): (r: ExtractionResult)
    ensures r.success <==> r.data.Some?
    ensures r.success <==> r.error.None?
    ensures r.error.Some? ==> r.error.value.kind != GpsParsingError
    ensures input.NoInput? ==> r == Failure(InvalidFile, "No image file provided")
    ensures input.File? && !IsValidImageFile(input.name) ==>
      r == Failure(UnsupportedFormat, "Unsupported file format: " + input.name)
    ensures input.File? && IsValidImageFile(input.name) && input.contents.ReadFailed? ==>
      r == Failure(CorruptedData, "Unexpected error during metadata extraction: " + ErrorText(input.contents.message))
    ensures input.Buffer? ==> r == ExtractFromBuffer(input.bytes, None, None, options, load)
    ensures input.File? && IsValidImageFile(input.name) && input.contents.Read? ==>
      r == ExtractFromBuffer(input.contents.bytes, Some(input.name), Some(input.size), options, load)
    ensures r.success ==> input.Buffer? || (input.File? && IsValidImageFile(input.name) && input.contents.Read?)
    ensures r.success && input.File? ==> r.data.value.fileName == Some(input.name) && r.data.value.fileSize == Some(input.size)
    ensures r.success && input.Buffer? ==> r.data.value.fileName.None? && r.data.value.fileSize.None?
    ensures r.success ==> r.data.value.hasGPS == r.data.value.gps.Some?
    ensures r.success && r.data.value.gps.Some? ==> InRange(r.data.value.gps.value)
    ensures r.success ==> (r.data.value.rawExif.Some? <==> options.includeRawExif)
  {
    match input
    case NoInput => Failure(InvalidFile, "No image file provided")
    case Buffer(bytes) => ExtractFromBuffer(bytes, None, None, options, load)
    case File(name, size, contents) =>
      if !IsValidImageFile(name) then
        Failure(UnsupportedFormat, "Unsupported file format: " + name)
      else
        match contents
        case ReadFailed(message) =>
          Failure(CorruptedData, "Unexpected error during metadata extraction: " + ErrorText(message))
        case Read(bytes) => ExtractFromBuffer(bytes, Some(name), Some(size), options, load)
  }

  /** The range re-check behind `validateGPS` never changes the outcome:
      parsed coordinates are already within range. */
  lemma ValidateGPSHasNoEffect(input: ImageInput, options: ExtractionOptions, load: Decoder)
    ensures ExtractImageMetadata(input, options.(validateGPS := true), load)
         == ExtractImageMetadata(input, options.(validateGPS := false), load)
  {
    match input
    case NoInput =>
    case Buffer(bytes) => ValidateGPSHasNoEffectOnBuffer(bytes, None, None, options, load);
    case File(name, size, contents) =>
      if IsValidImageFile(name) && contents.Read? {
        ValidateGPSHasNoEffectOnBuffer(contents.bytes, Some(name), Some(size), options, load);
      }
  }

  lemma ValidateGPSHasNoEffectOnBuffer(bytes: seq<bv8>, fileName: Option<string>, fileSize: Option<nat>,
                                       options: ExtractionOptions, load: Decoder)
    ensures ExtractFromBuffer(bytes, fileName, fileSize, options.(validateGPS := true), load)
         == ExtractFromBuffer(bytes, fileName, fileSize, options.(validateGPS := false), load)
  {
  }

  /** Asking for the raw EXIF data changes nothing but the `rawExif`
      field, which then holds exactly the decoded tags. */
  lemma RawExifOnlyAddsRawExif(input: ImageInput, options: ExtractionOptions, load: Decoder)
    ensures var plain := ExtractImageMetadata(input, options.(includeRawExif := false), load);
            var raw := ExtractImageMetadata(input, options.(includeRawExif := true), load);
      && plain.success == raw.success
      && plain.error == raw.error
      && (raw.success ==> raw.data.value.(rawExif := None) == plain.data.value)
      && (raw.success ==> plain.data.value.rawExif.None? && raw.data.value.rawExif.Some?)
  {
    match input
    case NoInput =>
    case Buffer(bytes) => RawExifOnlyAddsRawExifToBuffer(bytes, None, None, options, load);
    case File(name, size, contents) =>
      if IsValidImageFile(name) && contents.Read? {
        RawExifOnlyAddsRawExifToBuffer(contents.bytes, Some(name), Some(size), options, load);
      }
  }

  lemma RawExifOnlyAddsRawExifToBuffer(bytes: seq<bv8>, fileName: Option<string>, fileSize: Option<nat>,
                                        options: ExtractionOptions, load: Decoder)
    ensures var plain := ExtractFromBuffer(bytes, fileName, fileSize, options.(includeRawExif := false), load);
            var raw := ExtractFromBuffer(bytes, fileName, fileSize, options.(includeRawExif := true), load);
      && plain.success == raw.success
      && plain.error == raw.error
      && (raw.success ==> raw.data.value.(rawExif := None) == plain.data.value)
  {
    match load(Some(bytes), FullLoadOptions)
    case Threw(_) =>
    case Loaded(exifData) =>
      var gps := ParseGPSCoordinates(Get(exifData, "gps"));
      RawExifOnlyAddsRawExifToRecord(exifData, gps, options, fileName, fileSize);
  }

  lemma RawExifOnlyAddsRawExifToRecord(exifData: JsValue, gps: Option<GPSCoordinates>, options: ExtractionOptions,
                                        fileName: Option<string>, fileSize: Option<nat>)
    ensures BuildMetadata(exifData, gps, options.(includeRawExif := true), fileName, fileSize).(rawExif := None)
         == BuildMetadata(exifData, gps, options.(includeRawExif := false), fileName, fileSize)
  {
  }

  /** The bytes the extraction decodes: a buffer's own, or a supported
      file's when they were read. */
  predicate Decodes(input: ImageInput, bytes: seq<bv8>) {
    input == Buffer(bytes) || (input.File? && IsValidImageFile(input.name) && input.contents == Read(bytes))
  }

  /** A decoder that throws makes the extraction fail with
      `CORRUPTED_DATA`, carrying the decoder's message. */
  lemma {:induction false} ThrowingDecoderIsCorruptedData(input: ImageInput, bytes: seq<bv8>, options: ExtractionOptions, load: Decoder)
    requires Decodes(input, bytes) && load(Some(bytes), FullLoadOptions).Threw?
    ensures var r := ExtractImageMetadata(input, options, load);
      !r.success && r.data.None? && r.error.Some? && r.error.value.kind == CorruptedData
      && r.error.value.message == "Failed to read EXIF data: " + ErrorText(load(Some(bytes), FullLoadOptions).message)
  {
  }

  /** A decoder that finds no tags at all (a falsy result or an empty
      container) makes the extraction fail with `NO_EXIF_DATA`. */
  lemma {:induction false} NoTagsIsNoExifData(input: ImageInput, bytes: seq<bv8>, options: ExtractionOptions, load: Decoder)
    requires Decodes(input, bytes) && load(Some(bytes), FullLoadOptions).Loaded?
    requires var tags := load(Some(bytes), FullLoadOptions).tags; !Truthy(tags) || tags == Obj(map[])
    ensures var r := ExtractImageMetadata(input, options, load);
      !r.success && r.data.None? && r.error == Some(ExtractionError(NoExifData, "No EXIF data found in image"))
  {
  }

  /** An ISO tag that is falsy, 0 included, gives way to
      `ISOSpeedRatings`: the `||` drops a zero ISO even though the number
      reader would keep it. */
  lemma ZeroIsoReadsSpeedRatings(exif: JsValue, ifd0: JsValue)
    requires !Truthy(Get(exif, "ISO"))
    ensures CameraOf(exif, ifd0).iso == SafeExtractNumber(Get(exif, "ISOSpeedRatings"))
  {
  }

  /** Without a truthy `ExposureTime`, the shutter speed is formatted from
      `ShutterSpeedValue`. */
  lemma MissingExposureReadsShutterSpeedValue(exif: JsValue, ifd0: JsValue)
    requires !Truthy(Get(exif, "ExposureTime"))
    ensures CameraOf(exif, ifd0).shutterSpeed == FormatShutterSpeed(Get(exif, "ShutterSpeedValue"))
  {
  }

  /** Without a truthy `ExifImageWidth` in the EXIF group, the width comes
      from IFD0's `ImageWidth`; a truthy one wins over IFD0. */
  lemma WidthFallsBackToIfd0(exif: JsValue, ifd0: JsValue)
    ensures !Truthy(Get(exif, "ExifImageWidth")) ==> ImageOf(exif, ifd0).width == SafeExtractNumber(Get(ifd0, "ImageWidth"))
    ensures Truthy(Get(exif, "ExifImageWidth")) ==> ImageOf(exif, ifd0).width == SafeExtractNumber(Get(exif, "ExifImageWidth"))
  {
  }

  /** Tags without a `gps` group give a successful result without GPS. */
  lemma NoGpsGroupNoGPS(bytes: seq<bv8>, tags: map<string, JsValue>, options: ExtractionOptions, load: Decoder)
    requires tags != map[] && "gps" !in tags
    requires load(Some(bytes), FullLoadOptions) == Loaded(Obj(tags))
    ensures var r := ExtractImageMetadata(Buffer(bytes), options, load);
      r.success && r.data.value.gps.None? && !r.data.value.hasGPS
  {
    assert Get(Obj(tags), "gps") == Undefined;
    assert KeyCount(Obj(tags)) > 0 by {
      var k :| k in tags;
    }
  }

  /** The two spellings of each EXIF group are interchangeable. */
  lemma GroupSpellingsInterchangeable(exif: JsValue, ifd0: JsValue)
    requires Truthy(exif) && Truthy(ifd0)
    ensures var lower := Obj(map["exif" := exif, "ifd0" := ifd0]);
            var upper := Obj(map["Exif" := exif, "Image" := ifd0]);
      GroupOr(lower, "exif", "Exif") == GroupOr(upper, "exif", "Exif")
      && GroupOr(lower, "ifd0", "Image") == GroupOr(upper, "ifd0", "Image")
  {
    var lower := Obj(map["exif" := exif, "ifd0" := ifd0]);
    var upper := Obj(map["Exif" := exif, "Image" := ifd0]);
    assert Get(lower, "exif") == exif && Get(lower, "ifd0") == ifd0;
    assert Get(upper, "exif") == Undefined && Get(upper, "Exif") == exif;
    assert Get(upper, "ifd0") == Undefined && Get(upper, "Image") == ifd0;
  }

  /** The result of the GPS-only extraction. */
  datatype GpsOnlyResult = GpsOnlyResult(gps: Option<GPSCoordinates>, hasGPS: bool)

  /** The buffer the GPS-only extraction hands to the decoder (`None`
      inside for no input), or `None` when a file's bytes could not be
      read. A file's name is not checked. */
  function GpsBuffer(input: ImageInput): Option<Option<seq<bv8>>> {
    match input
    case NoInput => Some(None)
    case Buffer(bytes) => Some(Some(bytes))
    case File(_, _, contents) => if contents.Read? then Some(Some(contents.bytes)) else None
  }

  /** `extractGPSOnly`: decode with unknown tags excluded and parse the GPS
      group; any failure (a failed read, a throwing decoder, or no decoded
      object to read `gps` from) gives no GPS. */
  function ExtractGPSOnly(input: ImageInput, load: Decoder): (r: GpsOnlyResult)
    ensures r.hasGPS <==> r.gps.Some?
    ensures r.gps.Some? ==> InRange(r.gps.value)
    ensures input.File? && input.contents.ReadFailed? ==> r == GpsOnlyResult(None, false)
    ensures GpsBuffer(input).Some? && load(GpsBuffer(input).value, GpsLoadOptions).Threw? ==>
      r == GpsOnlyResult(None, false)
    ensures GpsBuffer(input).Some? && load(GpsBuffer(input).value, GpsLoadOptions).Loaded? ==>
      var tags := load(GpsBuffer(input).value, GpsLoadOptions).tags;
      if tags.Undefined? || tags.Null? then r == GpsOnlyResult(None, false)
      else r.gps == ParseGPSCoordinates(Get(tags, "gps"))
  {
    var buffer := GpsBuffer(input);
    if buffer.None? then GpsOnlyResult(None, false)
    else
      match load(buffer.value, GpsLoadOptions)
      case Threw(_) => GpsOnlyResult(None, false)
      case Loaded(exifData) => GpsOfTags(exifData)
  }

  /** The GPS-only result read off decoded tags: nothing when the decoder
      produced no object, otherwise the parsed `gps` group. */
  function GpsOfTags(exifData: JsValue): (r: GpsOnlyResult)
    ensures r.hasGPS <==> r.gps.Some?
    ensures r.gps.Some? ==> InRange(r.gps.value)
    ensures exifData.Undefined? || exifData.Null? ==> r == GpsOnlyResult(None, false)
    ensures !(exifData.Undefined? || exifData.Null?) ==> r.gps == ParseGPSCoordinates(Get(exifData, "gps"))
  {
    if exifData.Undefined? || exifData.Null? then GpsOnlyResult(None, false)
    else
      var gps := ParseGPSCoordinates(Get(exifData, "gps"));
      GpsOnlyResult(gps, gps.Some?)
  }

  /** `hasGPSData`: whether the GPS-only extraction found coordinates. */
  function HasGPSData(input: ImageInput, load: Decoder): (r: bool)
    ensures r ==> ExtractGPSOnly(input, load).gps.Some?
    ensures !r ==> ExtractGPSOnly(input, load) == GpsOnlyResult(None, false)
  {
    ExtractGPSOnly(input, load).hasGPS
  }

  /** When the decoder answers both option sets alike, the GPS-only
      extraction finds the same coordinates as a successful full
      extraction. */
  lemma GpsOnlyAgreesWithFull(input: ImageInput, options: ExtractionOptions, load: Decoder)
    requires input.Buffer? || (input.File? && input.contents.Read?)
    requires var bytes := if input.Buffer? then input.bytes else input.contents.bytes;
      load(Some(bytes), FullLoadOptions) == load(Some(bytes), GpsLoadOptions)
    ensures var r := ExtractImageMetadata(input, options, load);
      r.success ==> ExtractGPSOnly(input, load) == GpsOnlyResult(r.data.value.gps, r.data.value.hasGPS)
  {
  }

  /** A decoder that throws means no GPS data. */
  lemma ThrowingDecoderHasNoGPS(bytes: seq<bv8>, load: Decoder)
    requires load(Some(bytes), GpsLoadOptions).Threw?
    ensures !HasGPSData(Buffer(bytes), load)
    ensures ExtractGPSOnly(Buffer(bytes), load) == GpsOnlyResult(None, false)
  {
  }
}
