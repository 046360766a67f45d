# winter-auth image metadata and documentation helpers in Dafny

This project models the deterministic core of the winter-auth repository and
proves properties about it. It covers four parts.

- **GPS and tag helpers.** Degree/minute/second conversion, GPS coordinate
  parsing from a decoded EXIF GPS group (expanded decimal entries, or raw
  tags as arrays, numbers or `D°M'S"` text), the string and number readers
  for tag values, shutter-speed formatting and the file-extension check.
- **The metadata extractor.** `extractImageMetadata`, `extractGPSOnly` and
  `hasGPSData` over an abstract EXIF decoder. The model covers error kinds
  and messages, the GPS fields, the optional raw tags, and the file name and
  size.
- **The documentation navigation.** The shipped three-level navigation tree,
  the flattened list of linked pages, lookup of a page or a group by path,
  and the next and previous pages.
- **The documentation page metadata helpers.** Keyword lists (slugified and
  de-duplicated), page titles, fallback descriptions, and presets merged
  with the caller's overrides.

JavaScript values that the helpers receive untyped are the `JsValue` union
(`JsValues`). Numbers are mathematical reals, and `NaN` is `None`. The
JavaScript runtime pieces the code relies on are written out in `JsStrings`
and `JsValues`:

- `trim`
- `toLowerCase`
- `parseFloat`
- `Number(...)`
- `String(...)`
- truthiness
- `||`

The regular expression `/(\d+)°?\s*(\d+)'?\s*(\d+(?:\.\d+)?)?"?/` is a
leftmost, greedy, backtracking matcher (`DmsPattern`).

Two points where the code does less than its own declarations suggest:

- `extractImageMetadata` re-checks the range of the parsed coordinates when
  `validateGPS` is set (src/modules/image-metadata/extractor.ts:90-101) and
  would then fail with `GPS_PARSING_ERROR`. But `parseGPSCoordinates` has
  already returned `null` for out-of-range values
  (src/utils/metadata-helpers.ts:41 and 118-120), so the branch never
  fires. `ExtractImageMetadata` never produces that error kind, and
  `ValidateGPSHasNoEffect` proves that the option changes nothing.
- `GPSCoordinates.latitude` and `longitude` are declared `number`
  (src/utils/types.ts:6-8), but the raw array branch can return `NaN`
  for them; see "## Findings".

Files:

- `wrappers.dfy`: `Option`.
- `js_strings.dfy`, `js_values.dfy`: the JavaScript runtime pieces.
- `dms_pattern.dfy`: the degree/minute/second pattern.
- `metadata_types.dfy`: the result records.
- `metadata_helpers.dfy`: `src/utils/metadata-helpers.ts`.
- `extractor.dfy`: `src/modules/image-metadata/extractor.ts`.
- `navigation.dfy`: `web/src/lib/docs/navigation.ts`. The three loop
  functions are methods with loop invariants, proved against the
  specification functions `Traversal`, `Links`, `FirstMatch` and
  `FirstGroupMatch`.
- `docs_metadata.dfy`: `web/src/lib/utils/metadata.ts`.

## Model

| member | source | states |
|---|---|---|
| MetadataHelpers.DmsToDecimal | src/utils/metadata-helpers.ts:11-24 | the magnitude of the result is degrees + minutes/60 + seconds/3600; a positive sum comes out negative only when the direction is exactly "S" or "W" |
| MetadataHelpers.DmsToDecimalOrNaN | src/utils/metadata-helpers.ts:17 | the sum is a number exactly when all three operands are numbers (NaN propagates) |
| MetadataHelpers.DmsHemisphereSymmetry | src/utils/metadata-helpers.ts:17-21 | "S" mirrors "N" and "W" mirrors "E"; a lower-case "s" is not southern |
| MetadataHelpers.DmsWithinDegree | src/utils/metadata-helpers.ts:11-24 | with at most 59 minutes and under 60 seconds, the magnitude lies in [degrees, degrees + 1) |
| MetadataHelpers.DmsRoundTrip | src/utils/metadata-helpers.ts:11-24 | splitting a non-negative angle into whole degrees, whole minutes and seconds and converting back gives the angle |
| MetadataHelpers.ParseFloatOfDigits | src/utils/metadata-helpers.ts:89-91 | `parseFloat` of a digit string is the number the digits spell |
| MetadataHelpers.GroupValue | src/utils/metadata-helpers.ts:88-93 | the value used for a captured group is what `parseFloat` gives for it, and it is never NaN |
| MetadataHelpers.ResolveCoordinate | src/utils/metadata-helpers.ts:80-116 | a number is negated only for the exact negating reference; an array of three or more elements always resolves; only such an array can resolve to NaN; any other value resolves exactly when its text matches the degree/minute/second pattern with all three groups, and is otherwise rejected (`null`) |
| MetadataHelpers.ParseExpandedGPS | src/utils/metadata-helpers.ts:36-56 | the group is rejected exactly when `parseFloat` of `Latitude` or `Longitude` is NaN or out of range; otherwise the coordinates are those values, with no references, and the altitude is `parseFloat` of a defined `Altitude` (absent when it is NaN or undefined) |
| MetadataHelpers.RawLatLngAsWritten | src/utils/metadata-helpers.ts:58-120 | the raw path as written: it needs all four tags truthy, and a non-NaN latitude (longitude) passes only within 90 (180) |
| MetadataHelpers.RawAltitude | src/utils/metadata-helpers.ts:129-141 | only a truthy `GPSAltitude` gives an altitude; a described number n gives n, and text gives its `parseFloat` value (nothing when NaN); either is negated exactly when the described `GPSAltitudeRef` is the string "1"; any other shape gives nothing |
| MetadataHelpers.ParseRawGPS | src/utils/metadata-helpers.ts:58-143 | an accepted raw group is in range; its references are the described reference tags; its altitude is the raw altitude |
| MetadataHelpers.ParseGPSCoordinates | src/utils/metadata-helpers.ts:31-148 | nothing for a falsy group; every result is in range; references are present exactly when the raw path was taken |
| MetadataHelpers.RawAgreesWithAsWritten | src/utils/metadata-helpers.ts:58-127 | the corrected raw path returns exactly the as-written numbers whenever both are numbers, and nothing otherwise |
| MetadataHelpers.NaNEscapesRangeCheck | src/utils/metadata-helpers.ts:80-81 | a latitude array holding a non-numeric element yields a NaN latitude past the range check as written; the corrected parser rejects the group |
| MetadataHelpers.ExpandedRoundTrip | src/utils/metadata-helpers.ts:36-56 | in-range expanded decimal coordinates come back unchanged, without references or altitude; out of range they are rejected |
| MetadataHelpers.ExpandedTakesPrecedence | src/utils/metadata-helpers.ts:36 | a group with both expanded entries is parsed by the expanded path, whatever raw tags it also has |
| MetadataHelpers.RawDecimalHemispheres | src/utils/metadata-helpers.ts:82-83 | raw plain numbers are negated only for the exact references "S" and "W" |
| MetadataHelpers.RawDmsArrays | src/utils/metadata-helpers.ts:80-81 | raw degree/minute/second arrays of numbers convert with `dmsToDecimal`, and the references are kept |
| MetadataHelpers.ResolveMatchedText | src/utils/metadata-helpers.ts:84-93 | text whose match has all three groups converts with `dmsToDecimal` of `parseFloat` of each group |
| MetadataHelpers.CanonicalTextCoordinate | src/utils/metadata-helpers.ts:84-97 | text `D°M'S"` resolves to the same value as the array [D, M, S] |
| MetadataHelpers.TextWithoutDigitsRejected | src/utils/metadata-helpers.ts:84-96 | text without a digit is rejected |
| MetadataHelpers.PartialDmsTextGivesNull | src/utils/metadata-helpers.ts:84-115 | a raw latitude or longitude read as text that does not match, or matches without seconds, makes the whole raw GPS group `null` |
| MetadataHelpers.DegreesMinutesTextRejected | src/utils/metadata-helpers.ts:86-96 | text `D M` of whole degrees and minutes matches without seconds and is rejected |
| MetadataHelpers.DegreesMinutesLatitudeGivesNull | src/utils/metadata-helpers.ts:84-96 | a raw group whose latitude reads `D M` has no coordinates |
| MetadataHelpers.SafeExtractString | src/utils/metadata-helpers.ts:155-171 | nothing exactly for a falsy value; every result is trimmed; a string reads as its trimmed self |
| MetadataHelpers.SafeExtractStringDescribed | src/utils/metadata-helpers.ts:162-164 | a value other than text with a truthy `description` reads as `String` of the description, trimmed |
| MetadataHelpers.SafeExtractStringValue | src/utils/metadata-helpers.ts:166-168 | a tag without a truthy description and with a defined `value` reads as `String` of the value, trimmed |
| MetadataHelpers.SafeExtractStringItself | src/utils/metadata-helpers.ts:170 | an array, or a tag with neither a truthy description nor a defined `value`, reads as its own `String` text, trimmed |
| MetadataHelpers.PairArrayReadsAsText | src/utils/metadata-helpers.ts:170 | an array of two whole numbers such as [1, 2] reads as "1,2" |
| MetadataHelpers.SafeExtractStringStable | src/utils/metadata-helpers.ts:155-159 | reading back a non-empty extracted string gives it unchanged |
| MetadataHelpers.SafeExtractStringDescription | src/utils/metadata-helpers.ts:162-164 | a tag with a non-empty text description reads as that description |
| MetadataHelpers.SafeExtractNumber | src/utils/metadata-helpers.ts:178-196 | a number reads as itself; a result comes only from a truthy value or from 0 |
| MetadataHelpers.SafeExtractNumberDescribed | src/utils/metadata-helpers.ts:187-188 | a value other than a number with a truthy `description` reads as `parseFloat` of the description |
| MetadataHelpers.SafeExtractNumberValue | src/utils/metadata-helpers.ts:189-190 | a tag without a truthy description and with a defined `value` of any shape reads as `parseFloat` of the value |
| MetadataHelpers.SafeExtractNumberItself | src/utils/metadata-helpers.ts:191-192 | an array, or a tag with neither a truthy description nor a defined `value`, reads as `parseFloat` of its own `String` text |
| MetadataHelpers.PairArrayReadsAsNumber | src/utils/metadata-helpers.ts:191-195 | an array of two whole numbers such as [1, 2] reads as its first number, since `parseFloat` stops at the comma |
| MetadataHelpers.ZeroReadsAsNumberOnly | src/utils/metadata-helpers.ts:156 | 0 survives the number reader but not the string reader |
| MetadataHelpers.SafeExtractNumberIntegerText | src/utils/metadata-helpers.ts:192-195 | every integer written as text reads back as that integer |
| MetadataHelpers.SafeExtractNumberDescription | src/utils/metadata-helpers.ts:187-188 | a tag with a text description reads as `parseFloat` of the description |
| MetadataHelpers.SafeExtractNumberValueFallback | src/utils/metadata-helpers.ts:189-190 | a tag without a description reads through its `value` |
| MetadataHelpers.ExposureText | src/utils/metadata-helpers.ts:217-223 | the text for a numeric exposure is non-empty, trimmed, and already looks formatted |
| MetadataHelpers.FormatShutterSpeed | src/utils/metadata-helpers.ts:203-224 | nothing exactly when the string reader gives nothing or ""; text holding '/' or 's', or text `parseFloat` cannot read, is returned unchanged; other text is written as the exposure text of its number |
| MetadataHelpers.FormatShutterSpeedIdempotent | src/utils/metadata-helpers.ts:209-212 | formatting a formatted shutter speed changes nothing |
| MetadataHelpers.NumericTextFormatted | src/utils/metadata-helpers.ts:214-223 | unformatted numeric text is written as the exposure text of its number |
| MetadataHelpers.SubSecondFraction | src/utils/metadata-helpers.ts:218-221 | an exposure below one second becomes "1/n" + "s", where n is the nearest integer to its reciprocal |
| MetadataHelpers.WholeSeconds | src/utils/metadata-helpers.ts:223 | a whole number of seconds n is written n + "s" |
| MetadataHelpers.LastIndexOf | src/utils/metadata-helpers.ts:233 | the index of the last occurrence of the character, or -1 when it does not occur |
| MetadataHelpers.Suffix | src/utils/metadata-helpers.ts:233 | `substring` with a negative start is the whole string |
| MetadataHelpers.IsValidImageFileIff | src/utils/metadata-helpers.ts:231-235 | a name is accepted exactly when it has a '.' and the lower-cased text from its last '.' is one of the six supported extensions |
| MetadataHelpers.SupportedExtensionAccepted | src/utils/metadata-helpers.ts:231-235 | any stem followed by a supported extension, in any letter case, is accepted |
| MetadataHelpers.TextFileRefused | src/utils/metadata-helpers.ts:231-235 | "test.txt" is refused |
| MetadataHelpers.JpegFileAccepted | src/utils/metadata-helpers.ts:231-235 | "1.jpg" is accepted |
| MetadataHelpers.UpperCaseExtensionAccepted | src/utils/metadata-helpers.ts:231-235 | "photo.JPEG" is accepted |
| DmsPattern.MatchAtWellFormed | src/utils/metadata-helpers.ts:86 | a match attempt succeeds only at a digit, with digit-only degree and minute groups and a well-formed seconds group |
| DmsPattern.MatchWellFormed | src/utils/metadata-helpers.ts:86 | every match of the pattern has that shape |
| DmsPattern.SecondsGroupIsSecondsText | src/utils/metadata-helpers.ts:86 | the optional seconds group, when present, is digits optionally followed by a dot and more digits |
| DmsPattern.NoDigitNoMatch | src/utils/metadata-helpers.ts:86 | text without a digit never matches |
| DmsPattern.DigitTextMatches | src/utils/metadata-helpers.ts:86-87 | `D°M'S"` for non-empty digit strings matches with the three strings as its groups |
| DmsPattern.CanonicalDmsMatches | src/utils/metadata-helpers.ts:86-87 | the canonical rendering of three whole numbers matches with all three groups |
| DmsPattern.MatchesWithoutSeconds | src/utils/metadata-helpers.ts:86 | a digit run, one space and a digit run to the end match at the start with the two runs as groups 1 and 2 and no group 3 |
| DmsPattern.DegreesMinutesTextMatches | src/utils/metadata-helpers.ts:86 | non-empty digit strings `D M` match with `D` and `M` as groups 1 and 2, and group 3 does not take part |
| DmsPattern.WholeDegreesMinutesMatch | src/utils/metadata-helpers.ts:86 | whole degrees and minutes written `D M` match without a seconds group |
| JsStrings.Trim | src/utils/metadata-helpers.ts:159 | the result has no whitespace at either end; it is the slice of the input that starts right after the leading whitespace run and is followed only by whitespace; trimmed text is unchanged |
| JsStrings.TrimIdempotent | src/utils/metadata-helpers.ts:159 | trimming twice is trimming once |
| JsStrings.ToLowerAscii | src/utils/metadata-helpers.ts:233 | each character is lower-cased in place and the length is kept |
| JsStrings.ParseFloat | src/utils/metadata-helpers.ts:37-40 | NaN exactly when no decimal literal starts the text after leading whitespace |
| JsStrings.StringToNumber | src/utils/metadata-helpers.ts:17 | blank text converts to 0 |
| JsStrings.NumberToString | src/utils/metadata-helpers.ts:223 | the text is non-empty, starts with '-' exactly for a negative number, and ends in a digit |
| JsStrings.ParseFloatNumberToString | src/utils/metadata-helpers.ts:214 | `parseFloat` reads back every integer written as text |
| JsStrings.StringToNumberNumberToString | src/utils/metadata-helpers.ts:17 | `Number` reads back every integer written as text |
| JsValues.Get | src/utils/metadata-helpers.ts:36 | a defined property read is an own property of an object |
| JsValues.Or | src/modules/image-metadata/extractor.ts:103-104 | `a \|\| b` is `a` when `a` is truthy and `b` otherwise |
| JsValues.Described | src/utils/metadata-helpers.ts:72-75 | a value other than an object is its own description |
| JsValues.ToString | src/utils/metadata-helpers.ts:85 | `String` of a string is itself and of a number is its text |
| JsValues.ToNumber | src/utils/metadata-helpers.ts:17 | `Number` of a number is itself, of `undefined` NaN, of `null` 0 |
| JsValues.JsParseFloatInteger | src/utils/metadata-helpers.ts:37 | `parseFloat` of an integer equals `parseFloat` of its text |
| ImageMetadataExtractor.KeyCount | src/modules/image-metadata/extractor.ts:76 | an object's key count is the size of its property map, and 0 for the empty object |
| ImageMetadataExtractor.GroupOr | src/modules/image-metadata/extractor.ts:103-104 | the group is always truthy: the first spelling when truthy, else the second when truthy, else the empty object |
| ImageMetadataExtractor.CameraOf | src/modules/image-metadata/extractor.ts:106-117 | make, model and software are the safe strings of the `ifd0` tags; lens, flash and white balance the safe strings of the `exif` tags; ISO reads `ISO` and falls back to `ISOSpeedRatings` when that is falsy; aperture reads `FNumber` then `ApertureValue`; shutter speed is the formatted `ExposureTime`, falling back to `ShutterSpeedValue`; focal length is the safe number of `FocalLength` |
| ImageMetadataExtractor.ImageOf | src/modules/image-metadata/extractor.ts:119-127 | width and height read the `exif` pixel dimensions and fall back to the `ifd0` `ImageWidth`/`ImageLength`; colour space is a safe string of `exif`; orientation, resolutions and bits per sample are safe numbers of `ifd0` |
| ImageMetadataExtractor.DateTimeOf | src/modules/image-metadata/extractor.ts:129-134 | original and digitized times come from `exif`, the plain time from `ifd0`; the offset reads `OffsetTime` and falls back to `OffsetTimeOriginal` |
| ImageMetadataExtractor.ZeroIsoReadsSpeedRatings | src/modules/image-metadata/extractor.ts:111 | an ISO of 0 (or any falsy ISO) makes the camera ISO the one read from `ISOSpeedRatings` |
| ImageMetadataExtractor.MissingExposureReadsShutterSpeedValue | src/modules/image-metadata/extractor.ts:113 | without a truthy `ExposureTime` the shutter speed is the formatted `ShutterSpeedValue` |
| ImageMetadataExtractor.WidthFallsBackToIfd0 | src/modules/image-metadata/extractor.ts:120 | a falsy `exif` width makes the image width the safe number of the `ifd0` `ImageWidth`; a truthy one is used itself |
| ImageMetadataExtractor.BuildMetadata | src/modules/image-metadata/extractor.ts:103-148 | the record carries the given GPS, file name and size; `hasGPS` holds exactly when there is GPS; camera, image and date/time are read from the `exif`/`Exif` and `ifd0`/`Image` groups field by field; the raw tags are attached exactly when asked for, and are the decoded tags |
| ImageMetadataExtractor.ExtractFromBuffer | src/modules/image-metadata/extractor.ts:62-153 | success exactly when the decoder returns a truthy container with keys, and the data is then the metadata record built from those tags and their parsed `gps` group; a throwing decoder gives CORRUPTED_DATA with "Failed to read EXIF data: " and its message; a falsy or key-less container gives NO_EXIF_DATA |
| ImageMetadataExtractor.ExtractImageMetadata | src/modules/image-metadata/extractor.ts:22-165 | success iff data iff no error; never GPS_PARSING_ERROR; INVALID_FILE for no input and UNSUPPORTED_FORMAT for a bad name, with their messages; a failed read of a supported file gives CORRUPTED_DATA with the "Unexpected error" message; buffers and read files go through the decoding steps; file name and size exactly for files; GPS in range and `hasGPS` matching it |
| ImageMetadataExtractor.ValidateGPSHasNoEffect | src/modules/image-metadata/extractor.ts:90-101 | `validateGPS` never changes the result |
| ImageMetadataExtractor.RawExifOnlyAddsRawExif | src/modules/image-metadata/extractor.ts:146-148 | `includeRawExif` changes nothing but the `rawExif` field |
| ImageMetadataExtractor.ThrowingDecoderIsCorruptedData | src/modules/image-metadata/extractor.ts:63-74 | for a buffer or a read supported file, a throwing decoder makes the extraction fail with CORRUPTED_DATA, carrying the decoder's message |
| ImageMetadataExtractor.NoTagsIsNoExifData | src/modules/image-metadata/extractor.ts:76-85 | for a buffer or a read supported file, a falsy or empty decoded container makes the extraction fail with NO_EXIF_DATA |
| ImageMetadataExtractor.NoGpsGroupNoGPS | src/modules/image-metadata/extractor.ts:87-88 | tags without a `gps` group give a successful result without GPS |
| ImageMetadataExtractor.GroupSpellingsInterchangeable | src/modules/image-metadata/extractor.ts:103-104 | `exif`/`ifd0` and `Exif`/`Image` give the same fields |
| ImageMetadataExtractor.GpsOfTags | src/modules/image-metadata/extractor.ts:184-195 | decoded tags that are `undefined`/`null` give no GPS (reading `gps` off them throws and is caught); any other value gives its parsed `gps` group, in range, with `hasGPS` exactly when it is present |
| ImageMetadataExtractor.ExtractGPSOnly | src/modules/image-metadata/extractor.ts:172-203 | `hasGPS` exactly when there is GPS; GPS in range; an unreadable file, a throwing decoder, or an `undefined`/`null` decoder result gives no GPS; otherwise the GPS is the parsed `gps` group of what the decoder returned |
| ImageMetadataExtractor.HasGPSData | src/modules/image-metadata/extractor.ts:210-213 | true exactly when the GPS-only extraction found coordinates |
| ImageMetadataExtractor.GpsOnlyAgreesWithFull | src/modules/image-metadata/extractor.ts:172-195 | when the decoder answers both option sets alike, a successful full extraction and the GPS-only one agree on the GPS |
| ImageMetadataExtractor.ThrowingDecoderHasNoGPS | src/modules/image-metadata/extractor.ts:196-201 | a throwing decoder means no GPS data |
| DocsNavigation.GetAllNavItems | web/src/lib/docs/navigation.ts:195-223 | the pushed list equals the linked entries of the depth-first traversal down to the third level |
| DocsNavigation.GetNavItemByPath | web/src/lib/docs/navigation.ts:141-166 | the result is the first entry in traversal order whose href equals the path, or nothing |
| DocsNavigation.FirstMatch | web/src/lib/docs/navigation.ts:141-166 | a found entry is visited and has the path as href; nothing is found exactly when no visited entry has it |
| DocsNavigation.GetNavGroupByPath | web/src/lib/docs/navigation.ts:168-193 | the result is the first group, in order, whose entries (down to the third level) contain the path, or nothing |
| DocsNavigation.GroupMatchesItemMatch | web/src/lib/docs/navigation.ts:168-193 | the group lookup fails exactly when the item lookup fails, and a found group holds the found item |
| DocsNavigation.Links | web/src/lib/docs/navigation.ts:200-213 | every listed entry is linked (its href is a non-empty string) |
| DocsNavigation.FindIndex | web/src/lib/docs/navigation.ts:227 | the index of the first entry with the path as href, or -1 when there is none |
| DocsNavigation.GetNextNavItem | web/src/lib/docs/navigation.ts:225-232 | a result exactly when the path is listed and not last; the result is the entry right after the first one with that path, a listed, linked entry |
| DocsNavigation.GetPreviousNavItem | web/src/lib/docs/navigation.ts:234-241 | a result exactly when the path is listed and not first; the result is the entry right before the first one with that path, a listed, linked entry |
| DocsNavigation.NextThenPrevious | web/src/lib/docs/navigation.ts:225-241 | with distinct hrefs, the previous page of the next page is the page one started from |
| DocsNavigation.PreviousThenNext | web/src/lib/docs/navigation.ts:225-241 | with distinct hrefs, the next page of the previous page is the page one started from |
| DocsNavigation.LookupFindsListedItem | web/src/lib/docs/navigation.ts:141-223 | with distinct hrefs, every listed page is found by its own href |
| DocsNavigation.ListedAtDepthOne | web/src/lib/docs/navigation.ts:199-202 | a first-level entry is visited, and listed when linked |
| DocsNavigation.ListedAtDepthTwo | web/src/lib/docs/navigation.ts:205-208 | a second-level entry is visited, and listed when linked |
| DocsNavigation.ListedAtDepthThree | web/src/lib/docs/navigation.ts:211-214 | a third-level entry is visited, and listed when linked |
| DocsNavigation.DeepItemNotFound | web/src/lib/docs/navigation.ts:141-166 | a page nested four levels deep is never found |
| DocsNavigation.ShippedAllNavItems | web/src/lib/docs/navigation.ts:20-139 | the shipped navigation lists its sixteen pages in reading order |
| DocsNavigation.ShippedHrefsAreDistinct | web/src/lib/docs/navigation.ts:20-139 | no two shipped pages share an href |
| DocsNavigation.ShippedNextThenPrevious | web/src/lib/docs/navigation.ts:20-139 | in the shipped navigation, stepping forward and back returns to the start |
| DocsNavigation.ListedItemNeighbours | web/src/lib/docs/navigation.ts:141-241 | for any navigation with distinct paths, the i-th listed page is found by its path and its neighbours are the pages at i-1 and i+1 when they exist |
| DocsNavigation.ShippedPageNeighbours | web/src/lib/docs/navigation.ts:141-241 | each shipped page is found by its path; its neighbours are the adjacent pages; the first has no previous page and the last no next page |
| DocsMetadata.HyphenateWhitespace | web/src/lib/utils/metadata.ts:22 | the result has no whitespace, is empty only for empty text, and text without whitespace is unchanged |
| DocsMetadata.HyphenateWordThenRun | web/src/lib/utils/metadata.ts:22 | a word followed by a maximal whitespace run keeps the word and turns the whole run into one '-' |
| DocsMetadata.Slugify | web/src/lib/utils/metadata.ts:22 | a slug has no whitespace and no upper-case letter, and is empty only for an empty keyword |
| DocsMetadata.SlugifyWord | web/src/lib/utils/metadata.ts:22 | a keyword without whitespace slugifies to its lower-case form |
| DocsMetadata.SlugifyWordThenRun | web/src/lib/utils/metadata.ts:22 | a word and a maximal whitespace run slugify to the lower-cased word, one '-', and the slug of the rest |
| DocsMetadata.SlugifyIdempotent | web/src/lib/utils/metadata.ts:22 | slugifying twice is slugifying once |
| DocsMetadata.NonEmpty | web/src/lib/utils/metadata.ts:26 | exactly the non-empty strings are kept |
| DocsMetadata.Dedup | web/src/lib/utils/metadata.ts:26 | no duplicates, and exactly the same values |
| DocsMetadata.DedupOrder | web/src/lib/utils/metadata.ts:26 | values come out in the order of their first occurrence |
| DocsMetadata.GenerateKeywords | web/src/lib/utils/metadata.ts:16-27 | no duplicates and no empty strings; a keyword is in the result exactly when it is a non-empty base keyword or slugified additional keyword |
| DocsMetadata.KeywordsInFirstOccurrenceOrder | web/src/lib/utils/metadata.ts:25-26 | the keywords keep first-occurrence order |
| DocsMetadata.BaseKeywordsLead | web/src/lib/utils/metadata.ts:20-23 | a base list of distinct, non-empty keywords leads the result unchanged |
| DocsMetadata.DefaultKeywords | web/src/lib/utils/metadata.ts:17 | with nothing given, the result is ["winter-auth", "documentation"] |
| DocsMetadata.GeneratePageTitle | web/src/lib/utils/metadata.ts:32-37 | the page title is a prefix of the result; the result is the page title exactly when the section is not truthy, and otherwise continues " - " + section |
| DocsMetadata.GenerateDescription | web/src/lib/utils/metadata.ts:42-45 | the result starts "Documentation for " + title, ends with the fixed closing, and is 4 + the section's length longer when the section is truthy |
| DocsMetadata.DescriptionDeterminesTitle | web/src/lib/utils/metadata.ts:42-45 | without a section, different titles give different descriptions |
| DocsMetadata.DescriptionDeterminesSection | web/src/lib/utils/metadata.ts:42-45 | for one title, different truthy sections give different descriptions |
| DocsMetadata.Spread | web/src/lib/utils/metadata.ts:81-89 | every field present in the overrides wins, and every absent one keeps the base value |
| DocsMetadata.ApplyMetadataPreset | web/src/lib/utils/metadata.ts:75-90 | the caller's keywords or description replace the computed ones when present (even an empty description); otherwise the default base list plus the preset keywords, and the preset description; other fields are the caller's |
| DocsMetadata.ApplyMetadataPresetIdempotent | web/src/lib/utils/metadata.ts:75-90 | applying a preset to its own result changes nothing |
| DocsMetadata.PresetKeywordsAreSlugs | web/src/lib/utils/metadata.ts:50-70 | every preset keyword is free of upper-case letters and whitespace, so slugifying leaves it unchanged |
| DocsMetadata.PresetKeywordsAfterBase | web/src/lib/utils/metadata.ts:50-70 | without caller keywords, the result is the default base list followed by the preset's keywords in order |

## Left out

- `ExifReader.load` is not part of this model. The decoder is a parameter
  (`Decoder`) that returns a tag container or throws with a message.
- `File.arrayBuffer()` is the `contents` field of a `File` input: the bytes,
  or a failure with its message. The failure reaches the outer `catch`.
- Promises and `await` are not modelled; every operation is a function of
  its inputs.
- The `console.warn` calls are left out, because they have no effect on
  results.
- IEEE-754 doubles are left out: rounding, `Infinity`, `-0` and exponent
  overflow. Numbers are reals, and NaN is `None`.
- JsStrings.NumberToString: does not model the shortest round-trip digits or
  the exponent form. A fraction is written as its exact decimal expansion,
  cut after 20 digits. Integers below 1e21 are written exactly as in
  JavaScript; from 1e21 on JavaScript switches to the exponent form
  ("1e+21"), which the model does not produce. This reaches the shutter
  speed text for such numbers and for exposures below 1e-21.
- JsStrings.ToLowerAscii: does not model Unicode case mapping. Only A-Z are
  lower-cased.
- JsStrings.StringToNumber: does not model hexadecimal, octal or binary
  literals or "Infinity". These are NaN in the model.
- MetadataHelpers.ResolveCoordinate: an array whose first element is a
  string, array or object is added with `+`, which in JavaScript
  concatenates text before the division. The model converts every element
  with `Number(...)`.
- ImageMetadataExtractor.ExtractImageMetadata: uses the corrected
  `ParseGPSCoordinates`, so for the Findings input (`NaNLatitudeGroup`) it
  returns no GPS and `hasGPS` false. The code as written succeeds with
  latitude NaN, longitude -74 and `hasGPS` true. Its "GPS in range"
  promise holds for the corrected parser, not for the code as written.
- ImageMetadataExtractor.ExtractGPSOnly: differs from the code as written
  on the same input in the same way: the code returns the NaN latitude
  and `hasGPS` true; the model returns no GPS.
- An exception thrown inside `parseGPSCoordinates` is not modelled: the
  modelled operations cannot throw on any `JsValue`.
- `customFields` in the extraction options is carried but never read, as in
  the code.
- DocsMetadata.ApplyMetadataPreset: a key that is present in the caller's
  metadata but set to `undefined` is treated as absent. In JavaScript the
  spread would copy the `undefined`.
- The `disabled`, `external`, `icon`, `description` and `collapsible` fields
  of navigation entries, and the `icon` of groups, are left out. No modelled
  operation reads them.
- The navigation functions take the navigation as a parameter. In the code
  they read the module-level `docsNavigation`, which is the constant
  `DocsNavigation` here.
- The authorization module (the AWS Rekognition providers), the credentials
  module, the web UI and the test runners are not part of this model.

## Findings

| source | as written | input that shows it | evidently intended | confidence | as-written member | corrected member |
|---|---|---|---|---|---|---|
| src/utils/metadata-helpers.ts:80-81,118-120 | the raw array branch converts the elements with arithmetic, and the range check `Math.abs(latitude) > 90` is false for NaN, so a NaN latitude is returned as a coordinate | `NaNLatitudeGroup`: `GPSLatitude` [40, undefined, 0] with reference "N", and `GPSLongitude` 74 with reference "W"; the code as written returns latitude NaN and longitude -74 | a coordinate that is not a number is rejected like one out of range | not executed | MetadataHelpers.RawLatLngAsWritten | MetadataHelpers.ParseGPSCoordinates |
