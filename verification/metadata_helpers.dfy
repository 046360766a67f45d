/** The value-level helpers of the metadata extractor: degree/minute/second
    conversion, GPS parsing from either the expanded or the raw EXIF GPS
    group, the tolerant string and number readers, shutter-speed formatting
    and the file-name check. */
module MetadataHelpers {
  import opened Wrappers
  import opened JsStrings
  import opened JsValues
  import opened DmsPattern
  import opened MetadataTypes

  /** `Math.abs`. */
  function Abs(x: real): (r: real)
    ensures r >= 0.0 && (r == x || r == -x)
  {
    if x < 0.0 then -x else x
  }

  /** `direction === 'S' || direction === 'W'`: only these two exact
      strings select the negative hemisphere. */
  predicate IsSouthOrWest(direction: JsValue) {
    direction == Str("S") || direction == Str("W")
  }

  /** Degrees, minutes and seconds to decimal degrees, negated for the
      southern and western hemispheres. */
  function DmsToDecimal(degrees: real, minutes: real, seconds: real, direction: JsValue): (r: real)
    ensures Abs(r) == Abs(degrees + minutes / 60.0 + seconds / 3600.0)
    ensures (r < 0.0 && degrees + minutes / 60.0 + seconds / 3600.0 > 0.0) ==> IsSouthOrWest(direction)
  {
    var decimal := degrees + minutes / 60.0 + seconds / 3600.0;
    if IsSouthOrWest(direction) then -decimal else decimal
  }

  /** The conversion with NaN operands: any NaN makes the sum NaN. */
  function DmsToDecimalOrNaN(degrees: Option<real>, minutes: Option<real>, seconds: Option<real>, direction: JsValue): (r: Option<real>)
    ensures r.Some? <==> degrees.Some? && minutes.Some? && seconds.Some?
  {
    if degrees.Some? && minutes.Some? && seconds.Some? then
      Some(DmsToDecimal(degrees.value, minutes.value, seconds.value, direction))
    else None
  }

  /** Southern and western values mirror the northern and eastern ones. */
  lemma DmsHemisphereSymmetry(degrees: real, minutes: real, seconds: real)
    ensures DmsToDecimal(degrees, minutes, seconds, Str("S")) == -DmsToDecimal(degrees, minutes, seconds, Str("N"))
    ensures DmsToDecimal(degrees, minutes, seconds, Str("W")) == -DmsToDecimal(degrees, minutes, seconds, Str("E"))
    ensures DmsToDecimal(degrees, minutes, seconds, Str("s")) == DmsToDecimal(degrees, minutes, seconds, Str("N"))
  {
  }

  /** With at most 59 minutes and seconds below 60, the whole-degree part of the
      result is the degrees themselves. */
  lemma DmsWithinDegree(degrees: real, minutes: real, seconds: real, direction: JsValue)
    requires 0.0 <= degrees && 0.0 <= minutes <= 59.0 && 0.0 <= seconds < 60.0
    ensures degrees <= Abs(DmsToDecimal(degrees, minutes, seconds, direction)) < degrees + 1.0
  {
  }

  /** Splitting a non-negative decimal angle into whole degrees, whole
      minutes and the remaining seconds, and converting back, gives the
      angle again. */
  lemma {:induction false} DmsRoundTrip(angle: real)
    requires angle >= 0.0
    ensures var d := angle.Floor;
            var minutes := (angle - d as real) * 60.0;
            var m := minutes.Floor;
            DmsToDecimal(d as real, m as real, (minutes - m as real) * 60.0, Str("N")) == angle
  {
    var d := angle.Floor;
    var minutes := (angle - d as real) * 60.0;
    var m := minutes.Floor;
    var s := (minutes - m as real) * 60.0;
    assert s / 3600.0 == (minutes - m as real) / 60.0;
    assert m as real / 60.0 + s / 3600.0 == minutes / 60.0;
    assert minutes / 60.0 == angle - d as real;
  }

  /** `parseFloat` of text that starts with a digit is a number. */
  lemma {:induction false} ParseFloatOfDigitStart(t: string)
    requires t != [] && IsDigit(t[0])
    ensures ParseFloat(t).Some?
  {
    DigitStartScans(t);
    DigitStartTrimmed(t);
  }

  lemma DigitStartTrimmed(t: string)
    requires t != [] && IsDigit(t[0])
    ensures TrimStart(t) == t
  {
  }

  lemma DigitStartScans(t: string)
    requires t != [] && IsDigit(t[0])
    ensures SignedDecimalPrefix(t).Some?
  {
    assert UnsignedDecimalPrefix(t).Some?;
  }

  /** `parseFloat` of a string of digits is the number they spell. */
  lemma {:induction false} ParseFloatOfDigits(ds: string)
    requires ds != [] && AllDigits(ds)
    ensures ParseFloat(ds) == Some(DigitsValue(ds) as real)
  {
    DigitStartTrimmed(ds);
    assert ds + "" == ds;
    UnsignedDigitsPrefix(ds, "");
  }

  /** The number a group of the pattern denotes. */
  function GroupValue(t: string): (r: real)
    requires t != [] && IsDigit(t[0])
    ensures ParseFloat(t) == Some(r)
  {
    ParseFloatOfDigitStart(t);
    ParseFloat(t).value
  }

  /** What one raw coordinate resolves to: `Rejected` when the parser gives
      up with `null`, otherwise a number that may be NaN (`None`). */
  datatype Resolution = Rejected | Resolved(number: Option<real>)

  /** One raw coordinate, from its (described) tag value and hemisphere
      reference: a sequence of at least three degree/minute/second values;
      a plain number, negated only for `numberNegatingRef`; or text matched
      against the degree/minute/second pattern, which must supply all
      three groups. */
  function ResolveCoordinate(value: JsValue, ref: JsValue, numberNegatingRef: string): (r: Resolution)
    ensures value.Num? ==> r == Resolved(Some(if ref == Str(numberNegatingRef) then -value.n else value.n))
    ensures r.Resolved? && r.number.None? ==> value.Arr? && |value.elems| >= 3
    ensures value.Arr? && |value.elems| >= 3 ==> r.Resolved?
    ensures !(value.Arr? && |value.elems| >= 3) && !value.Num? ==>
      (r.Resolved? <==> Match(ToString(value)).Some? && Match(ToString(value)).value.seconds.Some?)
  {
    if value.Arr? && |value.elems| >= 3 then
      Resolved(DmsToDecimalOrNaN(ToNumber(value.elems[0]), ToNumber(value.elems[1]), ToNumber(value.elems[2]), ref))
    else if value.Num? then
      Resolved(Some(if ref == Str(numberNegatingRef) then -value.n else value.n))
    else
      MatchWellFormed(ToString(value));
      match Match(ToString(value))
      case Some(g) =>
        if g.seconds.Some? then
          Resolved(Some(DmsToDecimal(GroupValue(g.degrees), GroupValue(g.minutes), GroupValue(g.seconds.value), ref)))
        else Rejected
      case None => Rejected
  }

  /** The GPS group as the decoder's expanded mode delivers it: decimal
      `Latitude` and `Longitude` (and `Altitude`) entries. */
  predicate IsExpanded(gpsData: JsValue) {
    Get(gpsData, "Latitude") != Undefined && Get(gpsData, "Longitude") != Undefined
  }

  /** The four raw tags the raw path needs, all truthy. */
  predicate HasRawTags(gpsData: JsValue) {
    && Truthy(Get(gpsData, "GPSLatitude"))
    && Truthy(Get(gpsData, "GPSLongitude"))
    && Truthy(Get(gpsData, "GPSLatitudeRef"))
    && Truthy(Get(gpsData, "GPSLongitudeRef"))
  }

  /** The expanded path: `parseFloat` of both entries, rejected when either
      is NaN or out of range; the altitude is kept when it parses. */
  function ParseExpandedGPS(gpsData: JsValue): (r: Option<GPSCoordinates>)
    ensures r.Some? ==> InRange(r.value)
    ensures r.Some? ==> r.value.latitudeRef.None? && r.value.longitudeRef.None?
    ensures r.Some? ==> Some(r.value.latitude) == JsParseFloat(Get(gpsData, "Latitude"))
    ensures r.Some? ==> Some(r.value.longitude) == JsParseFloat(Get(gpsData, "Longitude"))
    ensures r.Some? ==>
      r.value.altitude == (if Get(gpsData, "Altitude") != Undefined then JsParseFloat(Get(gpsData, "Altitude")) else None)
    ensures r.None? <==>
      || JsParseFloat(Get(gpsData, "Latitude")).None? || JsParseFloat(Get(gpsData, "Longitude")).None?
      || Abs(JsParseFloat(Get(gpsData, "Latitude")).value) > 90.0
      || Abs(JsParseFloat(Get(gpsData, "Longitude")).value) > 180.0
  {
    var lat := JsParseFloat(Get(gpsData, "Latitude"));
    var lng := JsParseFloat(Get(gpsData, "Longitude"));
    if lat.None? || lng.None? then None
    else if Abs(lat.value) > 90.0 || Abs(lng.value) > 180.0 then None
    else
      var alt := Get(gpsData, "Altitude");
      var altitude := if alt != Undefined then JsParseFloat(alt) else None;
      Some(GPSCoordinates(lat.value, lng.value, altitude, None, None))
  }

  /** The raw latitude and longitude exactly as the source computes them,
      NaN (`None`) included; `None` overall is a `null` result. The range
      test compares with `>`, which is false for NaN. */
  function RawLatLngAsWritten(gpsData: JsValue): (r: Option<(Option<real>, Option<real>)>)
    ensures r.Some? ==> HasRawTags(gpsData)
    ensures r.Some? && r.value.0.Some? ==> Abs(r.value.0.value) <= 90.0
    ensures r.Some? && r.value.1.Some? ==> Abs(r.value.1.value) <= 180.0
  {
    if !HasRawTags(gpsData) then None
    else
      var latRef := Described(Get(gpsData, "GPSLatitudeRef"));
      var lngRef := Described(Get(gpsData, "GPSLongitudeRef"));
      match ResolveCoordinate(Described(Get(gpsData, "GPSLatitude")), latRef, "S")
      case Rejected => None
      case Resolved(lat) =>
        match ResolveCoordinate(Described(Get(gpsData, "GPSLongitude")), lngRef, "W")
        case Rejected => None
        case Resolved(lng) =>
          if (lat.Some? && Abs(lat.value) > 90.0) || (lng.Some? && Abs(lng.value) > 180.0) then None
          else Some((lat, lng))
  }

  /** The raw altitude: the described `GPSAltitude` as a number or as text
      that parses, negated when the described `GPSAltitudeRef` is the
      string "1". */
  function RawAltitude(gpsData: JsValue): (r: Option<real>)
    ensures r.Some? ==> Truthy(Get(gpsData, "GPSAltitude"))
    ensures Described(Get(gpsData, "GPSAltitude")).Num? && Truthy(Get(gpsData, "GPSAltitude")) ==> r.Some?
    ensures Truthy(Get(gpsData, "GPSAltitude")) && Described(Get(gpsData, "GPSAltitude")).Num? ==>
      var n := Described(Get(gpsData, "GPSAltitude")).n;
      r == Some(if Described(Get(gpsData, "GPSAltitudeRef")) == Str("1") then -n else n)
    ensures Truthy(Get(gpsData, "GPSAltitude")) && Described(Get(gpsData, "GPSAltitude")).Str? ==>
      var a := ParseFloat(Described(Get(gpsData, "GPSAltitude")).s);
      r == (if a.None? then None
            else Some(if Described(Get(gpsData, "GPSAltitudeRef")) == Str("1") then -a.value else a.value))
    ensures !Described(Get(gpsData, "GPSAltitude")).Num? && !Described(Get(gpsData, "GPSAltitude")).Str? ==> r.None?
  {
    var alt := Get(gpsData, "GPSAltitude");
    if !Truthy(alt) then None
    else AltitudeValue(Described(alt), Described(Get(gpsData, "GPSAltitudeRef")) == Str("1"))
  }

  /** A described altitude: a number, or text that parses, negated when
      it lies below sea level; any other shape gives nothing. */
  function AltitudeValue(value: JsValue, below: bool): Option<real> {
    if value.Num? then Some(if below then -value.n else value.n)
    else if value.Str? then
      match ParseFloat(value.s)
      case Some(a) => Some(if below then -a else a)
      case None => None
    else None
  }

  /** The raw path with NaN coordinates rejected: both coordinates must
      resolve to numbers within range. The hemisphere references are kept
      as described. */
  function ParseRawGPS(gpsData: JsValue): (r: Option<GPSCoordinates>)
    ensures r.Some? ==> InRange(r.value) && HasRawTags(gpsData)
    ensures r.Some? ==> r.value.latitudeRef == Some(Described(Get(gpsData, "GPSLatitudeRef")))
    ensures r.Some? ==> r.value.longitudeRef == Some(Described(Get(gpsData, "GPSLongitudeRef")))
    ensures r.Some? ==> r.value.altitude == RawAltitude(gpsData)
  {
    if !HasRawTags(gpsData) then None
    else
      var latRef := Described(Get(gpsData, "GPSLatitudeRef"));
      var lngRef := Described(Get(gpsData, "GPSLongitudeRef"));
      var lat := ResolveCoordinate(Described(Get(gpsData, "GPSLatitude")), latRef, "S");
      var lng := ResolveCoordinate(Described(Get(gpsData, "GPSLongitude")), lngRef, "W");
      if lat.Resolved? && lat.number.Some? && lng.Resolved? && lng.number.Some?
         && Abs(lat.number.value) <= 90.0 && Abs(lng.number.value) <= 180.0
      then Some(GPSCoordinates(lat.number.value, lng.number.value, RawAltitude(gpsData), Some(latRef), Some(lngRef)))
      else None
  }

  /** `parseGPSCoordinates`: nothing for a falsy group; the expanded path
      when both decimal entries are present; the raw path otherwise. */
  function ParseGPSCoordinates(gpsData: JsValue): (r: Option<GPSCoordinates>)
    ensures r.Some? ==> Truthy(gpsData) && InRange(r.value)
    ensures r.Some? ==> (r.value.latitudeRef.Some? <==> !IsExpanded(gpsData))
  {
    if !Truthy(gpsData) then None
    else if IsExpanded(gpsData) then ParseExpandedGPS(gpsData)
    else ParseRawGPS(gpsData)
  }

  /** The raw path rejects NaN, and otherwise returns exactly the numbers
      the code as written computes. */
  lemma RawAgreesWithAsWritten(gpsData: JsValue)
    ensures ParseRawGPS(gpsData).Some? ==>
      RawLatLngAsWritten(gpsData) == Some((Some(ParseRawGPS(gpsData).value.latitude), Some(ParseRawGPS(gpsData).value.longitude)))
    ensures forall lat: real, lng: real :: RawLatLngAsWritten(gpsData) == Some((Some(lat), Some(lng))) ==>
      ParseRawGPS(gpsData).Some? && ParseRawGPS(gpsData).value.latitude == lat && ParseRawGPS(gpsData).value.longitude == lng
  {
  }

  /** A raw GPS group whose latitude array holds a non-numeric element:
      the code as written lets the NaN latitude through its range test. */
  const NaNLatitudeGroup: JsValue := Obj(map[
    "GPSLatitude" := Arr([Num(40.0), Undefined, Num(0.0)]),
    "GPSLongitude" := Num(74.0),
    "GPSLatitudeRef" := Str("N"),
    "GPSLongitudeRef" := Str("W")])

  lemma NaNEscapesRangeCheck()
    ensures RawLatLngAsWritten(NaNLatitudeGroup) == Some((None, Some(-74.0)))
    ensures ParseGPSCoordinates(NaNLatitudeGroup).None?
  {
    var g := NaNLatitudeGroup;
    assert Get(g, "GPSLatitude") == Arr([Num(40.0), Undefined, Num(0.0)]);
    assert Get(g, "GPSLongitudeRef") == Str("W");
    assert !IsExpanded(g);
  }

  /** The decoder's expanded output in range comes back unchanged, without
      hemisphere references; out of range it is rejected. */
  lemma ExpandedRoundTrip(latitude: real, longitude: real)
    ensures var g := Obj(map["Latitude" := Num(latitude), "Longitude" := Num(longitude)]);
      ParseGPSCoordinates(g) ==
        if Abs(latitude) <= 90.0 && Abs(longitude) <= 180.0
        then Some(GPSCoordinates(latitude, longitude, None, None, None))
        else None
  {
    var g := Obj(map["Latitude" := Num(latitude), "Longitude" := Num(longitude)]);
    assert Get(g, "Latitude") == Num(latitude);
    assert Get(g, "Longitude") == Num(longitude);
    assert Get(g, "Altitude") == Undefined;
  }

  /** Expanded entries win over raw tags in the same group. */
  lemma ExpandedTakesPrecedence(gpsData: JsValue)
    requires Truthy(gpsData) && IsExpanded(gpsData)
    ensures ParseGPSCoordinates(gpsData) == ParseExpandedGPS(gpsData)
    ensures ParseGPSCoordinates(gpsData).Some? ==> ParseGPSCoordinates(gpsData).value.latitudeRef.None?
  {
  }

  /** A raw group of plain decimal numbers: the latitude is negated only
      for the reference "S" and the longitude only for "W". */
  lemma RawDecimalHemispheres(latitude: real, longitude: real, latRef: string, lngRef: string)
    requires latitude != 0.0 && longitude != 0.0 && latRef != "" && lngRef != ""
    requires Abs(latitude) <= 90.0 && Abs(longitude) <= 180.0
    ensures var g := Obj(map[
              "GPSLatitude" := Num(latitude), "GPSLongitude" := Num(longitude),
              "GPSLatitudeRef" := Str(latRef), "GPSLongitudeRef" := Str(lngRef)]);
      ParseGPSCoordinates(g) == Some(GPSCoordinates(
        if latRef == "S" then -latitude else latitude,
        if lngRef == "W" then -longitude else longitude,
        None, Some(Str(latRef)), Some(Str(lngRef))))
  {
    RawTagsGroup(Num(latitude), Num(longitude), latRef, lngRef,
      if latRef == "S" then -latitude else latitude, if lngRef == "W" then -longitude else longitude);
  }

  /** Raw degree/minute/second arrays of numbers convert with
      `DmsToDecimal`; either reference "S" or "W" negates either
      coordinate. */
  lemma RawDmsArrays(lat: (real, real, real), lng: (real, real, real), latRef: string, lngRef: string)
    requires latRef != "" && lngRef != ""
    requires Abs(DmsToDecimal(lat.0, lat.1, lat.2, Str(latRef))) <= 90.0
    requires Abs(DmsToDecimal(lng.0, lng.1, lng.2, Str(lngRef))) <= 180.0
    ensures var g := Obj(map[
              "GPSLatitude" := Arr([Num(lat.0), Num(lat.1), Num(lat.2)]),
              "GPSLongitude" := Arr([Num(lng.0), Num(lng.1), Num(lng.2)]),
              "GPSLatitudeRef" := Str(latRef), "GPSLongitudeRef" := Str(lngRef)]);
      ParseGPSCoordinates(g) == Some(GPSCoordinates(
        DmsToDecimal(lat.0, lat.1, lat.2, Str(latRef)),
        DmsToDecimal(lng.0, lng.1, lng.2, Str(lngRef)),
        None, Some(Str(latRef)), Some(Str(lngRef))))
  {
    var latValue := Arr([Num(lat.0), Num(lat.1), Num(lat.2)]);
    var lngValue := Arr([Num(lng.0), Num(lng.1), Num(lng.2)]);
    assert ResolveCoordinate(latValue, Str(latRef), "S") == Resolved(Some(DmsToDecimal(lat.0, lat.1, lat.2, Str(latRef))));
    assert ResolveCoordinate(lngValue, Str(lngRef), "W") == Resolved(Some(DmsToDecimal(lng.0, lng.1, lng.2, Str(lngRef))));
    RawTagsGroup(latValue, lngValue, latRef, lngRef,
      DmsToDecimal(lat.0, lat.1, lat.2, Str(latRef)), DmsToDecimal(lng.0, lng.1, lng.2, Str(lngRef)));
  }

  /** A group of exactly the four raw tags, with plain (non-object)
      values that resolve to coordinates in range, yields those
      coordinates and no altitude. */
  lemma RawTagsGroup(latValue: JsValue, lngValue: JsValue, latRef: string, lngRef: string, lat: real, lng: real)
    requires Truthy(latValue) && Truthy(lngValue) && !latValue.Obj? && !lngValue.Obj?
    requires latRef != "" && lngRef != ""
    requires ResolveCoordinate(latValue, Str(latRef), "S") == Resolved(Some(lat)) && Abs(lat) <= 90.0
    requires ResolveCoordinate(lngValue, Str(lngRef), "W") == Resolved(Some(lng)) && Abs(lng) <= 180.0
    ensures ParseGPSCoordinates(Obj(map[
              "GPSLatitude" := latValue, "GPSLongitude" := lngValue,
              "GPSLatitudeRef" := Str(latRef), "GPSLongitudeRef" := Str(lngRef)]))
         == Some(GPSCoordinates(lat, lng, None, Some(Str(latRef)), Some(Str(lngRef))))
  {
    var g := Obj(map[
      "GPSLatitude" := latValue, "GPSLongitude" := lngValue,
      "GPSLatitudeRef" := Str(latRef), "GPSLongitudeRef" := Str(lngRef)]);
    RawTagsLookup(latValue, lngValue, latRef, lngRef);
    RawResolved(g, lat, lng);
  }

  /** What the parser looks up in a group of exactly the four raw tags. */
  lemma RawTagsLookup(latValue: JsValue, lngValue: JsValue, latRef: string, lngRef: string)
    requires Truthy(latValue) && Truthy(lngValue) && !latValue.Obj? && !lngValue.Obj?
    requires latRef != "" && lngRef != ""
    ensures var g := Obj(map[
              "GPSLatitude" := latValue, "GPSLongitude" := lngValue,
              "GPSLatitudeRef" := Str(latRef), "GPSLongitudeRef" := Str(lngRef)]);
      && Truthy(g) && !IsExpanded(g) && HasRawTags(g) && RawAltitude(g).None?
      && Described(Get(g, "GPSLatitude")) == latValue && Described(Get(g, "GPSLongitude")) == lngValue
      && Described(Get(g, "GPSLatitudeRef")) == Str(latRef) && Described(Get(g, "GPSLongitudeRef")) == Str(lngRef)
  {
    var g := Obj(map[
      "GPSLatitude" := latValue, "GPSLongitude" := lngValue,
      "GPSLatitudeRef" := Str(latRef), "GPSLongitudeRef" := Str(lngRef)]);
    assert Get(g, "GPSLatitude") == latValue;
    assert Get(g, "GPSLongitude") == lngValue;
    assert Get(g, "GPSLatitudeRef") == Str(latRef);
    assert Get(g, "GPSLongitudeRef") == Str(lngRef);
    assert Get(g, "GPSAltitude") == Undefined;
  }

  /** A raw group whose coordinates resolve to numbers in range yields
      them, with the described references. */
  lemma RawResolved(g: JsValue, lat: real, lng: real)
    requires Truthy(g) && !IsExpanded(g) && HasRawTags(g)
    requires ResolveCoordinate(Described(Get(g, "GPSLatitude")), Described(Get(g, "GPSLatitudeRef")), "S") == Resolved(Some(lat))
    requires ResolveCoordinate(Described(Get(g, "GPSLongitude")), Described(Get(g, "GPSLongitudeRef")), "W") == Resolved(Some(lng))
    requires Abs(lat) <= 90.0 && Abs(lng) <= 180.0
    ensures ParseGPSCoordinates(g)
         == Some(GPSCoordinates(lat, lng, RawAltitude(g),
                  Some(Described(Get(g, "GPSLatitudeRef"))), Some(Described(Get(g, "GPSLongitudeRef")))))
  {
  }

  /** Text in the canonical form `D°M'S"` resolves to the same value as
      the numbers it spells. */
  lemma CanonicalTextCoordinate(d: nat, m: nat, s: nat, ref: JsValue, numberNegatingRef: string)
    ensures var text := NatToString(d) + [DegreeSign] + NatToString(m) + "'" + NatToString(s) + "\"";
      ResolveCoordinate(Str(text), ref, numberNegatingRef) == Resolved(Some(DmsToDecimal(d as real, m as real, s as real, ref)))
  {
    var text := NatToString(d) + [DegreeSign] + NatToString(m) + "'" + NatToString(s) + "\"";
    CanonicalDmsMatches(d, m, s);
    MatchWellFormed(text);
    ResolveMatchedText(text, ref, numberNegatingRef, DmsGroups(NatToString(d), NatToString(m), Some(NatToString(s))));
    GroupValueOfNat(d);
    GroupValueOfNat(m);
    GroupValueOfNat(s);
  }

  /** Text the pattern matches with all three groups resolves to their conversion. */
  lemma ResolveMatchedText(text: string, ref: JsValue, numberNegatingRef: string, g: DmsGroups)
    requires Match(text) == Some(g) && WellFormed(g) && g.seconds.Some?
    ensures ResolveCoordinate(Str(text), ref, numberNegatingRef)
      == Resolved(Some(DmsToDecimal(GroupValue(g.degrees), GroupValue(g.minutes), GroupValue(g.seconds.value), ref)))
  {
    assert ToString(Str(text)) == text;
  }

  /** A group spelled by a natural number has that number as its value. */
  lemma GroupValueOfNat(n: nat)
    ensures NatToString(n) != [] && IsDigit(NatToString(n)[0])
    ensures GroupValue(NatToString(n)) == n as real
  {
    ParseFloatOfDigits(NatToString(n));
  }

  /** Text with no digit at all is rejected. */
  lemma TextWithoutDigitsRejected(text: string, ref: JsValue, numberNegatingRef: string)
    requires forall i :: 0 <= i < |text| ==> !IsDigit(text[i])
    ensures ResolveCoordinate(Str(text), ref, numberNegatingRef) == Rejected
  {
    NoDigitNoMatch(text, 0);
  }

  /** A raw latitude or longitude read as text whose match is missing, or
      lacks the seconds group, makes the whole raw group `null`. */
  lemma PartialDmsTextGivesNull(gpsData: JsValue)
    requires !IsExpanded(gpsData)
    requires
      || PartialDmsText(Described(Get(gpsData, "GPSLatitude")))
      || PartialDmsText(Described(Get(gpsData, "GPSLongitude")))
    ensures ParseGPSCoordinates(gpsData).None?
  {
    if HasRawTags(gpsData) {
      var latRef := Described(Get(gpsData, "GPSLatitudeRef"));
      var lngRef := Described(Get(gpsData, "GPSLongitudeRef"));
      assert ResolveCoordinate(Described(Get(gpsData, "GPSLatitude")), latRef, "S").Rejected?
          || ResolveCoordinate(Described(Get(gpsData, "GPSLongitude")), lngRef, "W").Rejected?;
    }
  }

  /** Text `D M` of whole degrees and minutes, without seconds, is rejected. */
  lemma DegreesMinutesTextRejected(d: nat, m: nat, ref: JsValue, numberNegatingRef: string)
    ensures PartialDmsText(Str(NatToString(d) + " " + NatToString(m)))
    ensures ResolveCoordinate(Str(NatToString(d) + " " + NatToString(m)), ref, numberNegatingRef) == Rejected
  {
    var text := NatToString(d) + " " + NatToString(m);
    assert ToString(Str(text)) == text;
    WholeDegreesMinutesMatch(d, m);
  }

  /** A raw group whose latitude reads `D M` has no coordinates. */
  lemma DegreesMinutesLatitudeGivesNull(gpsData: JsValue, d: nat, m: nat)
    requires !IsExpanded(gpsData)
    requires Described(Get(gpsData, "GPSLatitude")) == Str(NatToString(d) + " " + NatToString(m))
    ensures ParseGPSCoordinates(gpsData).None?
  {
    DegreesMinutesTextRejected(d, m, Undefined, "S");
    PartialDmsTextGivesNull(gpsData);
  }

  /** A coordinate value that goes down the text branch and that the pattern
      does not match with all three groups. */
  predicate PartialDmsText(value: JsValue) {
    && !(value.Arr? && |value.elems| >= 3) && !value.Num?
    && (Match(ToString(value)).None? || Match(ToString(value)).value.seconds.None?)
  }

  /** `safeExtractString`: nothing for a falsy value; a string trimmed; a
      tag's truthy `description`, else its defined `value`, else the value
      itself, as trimmed text. */
  function SafeExtractString(value: JsValue): (r: Option<string>)
    ensures r.None? <==> !Truthy(value)
    ensures r.Some? ==> IsTrimmed(r.value)
    ensures value.Str? && Truthy(value) ==> r == Some(Trim(value.s))
  {
    if !Truthy(value) then None
    else if value.Str? then Some(Trim(value.s))
    else if Truthy(Get(value, "description")) then Some(Trim(ToString(Get(value, "description"))))
    else if Get(value, "value") != Undefined then Some(Trim(ToString(Get(value, "value"))))
    else Some(Trim(ToString(value)))
  }

  /** Reading back a non-empty extracted string gives it unchanged. */
  lemma SafeExtractStringStable(value: JsValue)
    requires SafeExtractString(value).Some? && SafeExtractString(value).value != ""
    ensures SafeExtractString(Str(SafeExtractString(value).value)) == SafeExtractString(value)
  {
  }

  /** A tag with a non-empty text description reads as that description. */
  lemma SafeExtractStringDescription(description: string, rest: map<string, JsValue>)
    requires description != ""
    ensures SafeExtractString(Obj(rest["description" := Str(description)])) == SafeExtractString(Str(description))
  {
    var v := Obj(rest["description" := Str(description)]);
    assert Get(v, "description") == Str(description);
    DescribedTextExtracted(v);
  }

  /** An object with a non-empty text description reads as that text,
      trimmed. */
  lemma DescribedTextExtracted(v: JsValue)
    requires v.Obj? && Get(v, "description").Str? && Get(v, "description").s != ""
    ensures SafeExtractString(v) == Some(Trim(Get(v, "description").s))
  {
  }

  /** A value whose truthy `description` is not text reads as that
      description converted with `String(...)` and trimmed. */
  lemma SafeExtractStringDescribed(v: JsValue)
    requires !v.Str? && Truthy(Get(v, "description"))
    ensures SafeExtractString(v) == Some(Trim(ToString(Get(v, "description"))))
  {
  }

  /** A tag without a truthy description and with a defined `value` reads
      as that value converted with `String(...)` and trimmed. */
  lemma SafeExtractStringValue(v: JsValue)
    requires v.Obj? && !Truthy(Get(v, "description")) && Get(v, "value") != Undefined
    ensures SafeExtractString(v) == Some(Trim(ToString(Get(v, "value"))))
  {
  }

  /** An array, and a tag with neither a truthy description nor a defined
      `value`, reads as its own `String(...)` text, trimmed. */
  lemma SafeExtractStringItself(v: JsValue)
    requires v.Arr? || (v.Obj? && !Truthy(Get(v, "description")) && Get(v, "value") == Undefined)
    ensures SafeExtractString(v) == Some(Trim(ToString(v)))
  {
  }

  /** `safeExtractNumber`: nothing for a falsy value other than 0; a number
      as is; otherwise `parseFloat` of the tag's truthy `description`, else
      of its defined `value`, else of the value itself, with NaN as
      nothing. */
  function SafeExtractNumber(value: JsValue): (r: Option<real>)
    ensures value.Num? ==> r == Some(value.n)
    ensures r.Some? ==> Truthy(value) || value == Num(0.0)
  {
    if !Truthy(value) && value != Num(0.0) then None
    else if value.Num? then Some(value.n)
    else if Truthy(Get(value, "description")) then JsParseFloat(Get(value, "description"))
    else if Get(value, "value") != Undefined then JsParseFloat(Get(value, "value"))
    else JsParseFloat(value)
  }

  /** Zero survives the number reader but not the string reader. */
  lemma ZeroReadsAsNumberOnly()
    ensures SafeExtractNumber(Num(0.0)) == Some(0.0)
    ensures SafeExtractString(Num(0.0)).None?
  {
  }

  /** The number reader reads back every integer written as text. */
  lemma SafeExtractNumberIntegerText(n: int)
    ensures SafeExtractNumber(Str(NumberToString(n as real))) == Some(n as real)
  {
    ParseFloatNumberToString(n);
    SafeExtractNumberText(NumberToString(n as real));
  }

  /** Non-empty text is read with `parseFloat`. */
  lemma SafeExtractNumberText(t: string)
    requires t != ""
    ensures SafeExtractNumber(Str(t)) == ParseFloat(t)
  {
    assert Get(Str(t), "description") == Undefined && Get(Str(t), "value") == Undefined;
  }

  /** A tag with a text description is read through the description. */
  lemma SafeExtractNumberDescription(description: string, rest: map<string, JsValue>)
    requires description != ""
    ensures SafeExtractNumber(Obj(rest["description" := Str(description)])) == ParseFloat(description)
  {
    var v := Obj(rest["description" := Str(description)]);
    assert Get(v, "description") == Str(description);
    DescribedTextParsed(v);
  }

  /** An object with a non-empty text description reads as `parseFloat`
      of that text. */
  lemma DescribedTextParsed(v: JsValue)
    requires v.Obj? && Get(v, "description").Str? && Get(v, "description").s != ""
    ensures SafeExtractNumber(v) == ParseFloat(Get(v, "description").s)
  {
  }

  /** A tag without a description is read through its `value`. */
  lemma SafeExtractNumberValueFallback(x: real, rest: map<string, JsValue>)
    requires "description" !in rest
    ensures SafeExtractNumber(Obj(rest["value" := Num(x)])) == Some(x)
  {
    var w := Obj(rest["value" := Num(x)]);
    assert Get(w, "description") == Undefined;
    assert Get(w, "value") == Num(x);
  }

  /** A value that is not a number and has a truthy `description` reads
      as `parseFloat` of that description. */
  lemma SafeExtractNumberDescribed(v: JsValue)
    requires !v.Num? && Truthy(Get(v, "description"))
    ensures SafeExtractNumber(v) == JsParseFloat(Get(v, "description"))
  {
  }

  /** A tag without a truthy description and with a defined `value` of
      any shape reads as `parseFloat` of that value. */
  lemma SafeExtractNumberValue(v: JsValue)
    requires v.Obj? && !Truthy(Get(v, "description")) && Get(v, "value") != Undefined
    ensures SafeExtractNumber(v) == JsParseFloat(Get(v, "value"))
  {
  }

  /** An array, and a tag with neither a truthy description nor a defined
      `value`, reads as `parseFloat` of its own `String(...)` text. */
  lemma SafeExtractNumberItself(v: JsValue)
    requires v.Arr? || (v.Obj? && !Truthy(Get(v, "description")) && Get(v, "value") == Undefined)
    ensures SafeExtractNumber(v) == ParseFloat(ToString(v))
  {
  }

  /** An array of two whole numbers, such as [1, 2], reads as the text
      "1,2". */
  lemma PairArrayReadsAsText(n: nat, m: nat)
    ensures SafeExtractString(Arr([Num(n as real), Num(m as real)])) == Some(NatToString(n) + "," + NatToString(m))
  {
    var text := NatToString(n) + "," + NatToString(m);
    PairArrayText(n, m);
    assert text[0] == NatToString(n)[0] && text[|text| - 1] == NatToString(m)[|NatToString(m)| - 1];
    DigitEndsTrimmed(text);
    SafeExtractStringItself(Arr([Num(n as real), Num(m as real)]));
  }

  /** Text that starts and ends with a digit is left as it is by `trim`. */
  lemma DigitEndsTrimmed(t: string)
    requires t != [] && IsDigit(t[0]) && IsDigit(t[|t| - 1])
    ensures Trim(t) == t
  {
    assert IsTrimmed(t);
  }

  /** An array of two whole numbers, such as [1, 2], reads as its first
      number: `parseFloat` stops at the comma. */
  lemma PairArrayReadsAsNumber(n: nat, m: nat)
    ensures SafeExtractNumber(Arr([Num(n as real), Num(m as real)])) == Some(n as real)
  {
    PairArrayText(n, m);
    assert NatToString(n) + "," + NatToString(m) == NatToString(n) + ("," + NatToString(m));
    LeadingNumberParsed(n, "," + NatToString(m));
    SafeExtractNumberItself(Arr([Num(n as real), Num(m as real)]));
  }

  /** `String([n, m])` joins the two numbers' digits with ','. */
  lemma PairArrayText(n: nat, m: nat)
    ensures ToString(Arr([Num(n as real), Num(m as real)])) == NatToString(n) + "," + NatToString(m)
  {
    NumberToStringInteger(n);
    NumberToStringInteger(m);
    ToStringPair(Num(n as real), Num(m as real));
  }

  /** `parseFloat` of a whole number's digits followed by a comma reads
      the number and stops. */
  lemma LeadingNumberParsed(n: nat, rest: string)
    requires rest != [] && rest[0] == ','
    ensures ParseFloat(NatToString(n) + rest) == Some(n as real)
  {
    var ds := NatToString(n);
    var s := ds + rest;
    assert s[0] == ds[0];
    DigitStartTrimmed(s);
    assert SignedDecimalPrefix(s) == Some(Scan(n as real, |ds|)) by {
      UnsignedDigitsPrefix(ds, rest);
    }
  }

  /** `Math.round` for the positive values it is applied to here. */
  function Round(x: real): (r: int)
    ensures r as real - 0.5 <= x < r as real + 0.5
  {
    (x + 0.5).Floor
  }

  predicate LooksFormatted(s: string) {
    '/' in s || 's' in s
  }

  /** How a numeric exposure time is written: "1/<round(1/x)>s" for x in
      (0, 1), "<x>s" otherwise. */
  function ExposureText(x: real): (t: string)
    ensures t != [] && IsTrimmed(t) && LooksFormatted(t)
  {
    var t := if 0.0 < x < 1.0 then "1/" + NumberToString(Round(1.0 / x) as real) + "s" else NumberToString(x) + "s";
    assert t[|t| - 1] == 's';
    assert !IsWhitespace(t[0]) by {
      if 0.0 < x < 1.0 { assert t[0] == '1'; } else { assert t[0] == NumberToString(x)[0]; }
    }
    t
  }

  /** `formatShutterSpeed`: text that already holds '/' or 's', or that is
      not numeric, is kept; an exposure time x in (0, 1) is written as the
      fraction "1/<round(1/x)>s", any other number as "<x>s". */
  function FormatShutterSpeed(value: JsValue): (r: Option<string>)
    ensures r.Some? ==> r.value != [] && IsTrimmed(r.value)
    ensures r.Some? ==> LooksFormatted(r.value) || ParseFloat(r.value).None?
    ensures r.None? <==> SafeExtractString(value).None? || SafeExtractString(value).value == ""
    ensures var s := SafeExtractString(value);
      s.Some? && s.value != "" && (LooksFormatted(s.value) || ParseFloat(s.value).None?) ==> r == s
    ensures var s := SafeExtractString(value);
      s.Some? && s.value != "" && !LooksFormatted(s.value) && ParseFloat(s.value).Some? ==>
      r == Some(ExposureText(ParseFloat(s.value).value))
  {
    if !Truthy(value) then None
    else
      var s := SafeExtractString(value);
      if s.None? || s.value == "" then None
      else if LooksFormatted(s.value) then s
      else
        match ParseFloat(s.value)
        case None => s
        case Some(x) => Some(ExposureText(x))
  }

  /** Formatting a formatted shutter speed changes nothing. */
  lemma FormatShutterSpeedIdempotent(value: JsValue)
    requires FormatShutterSpeed(value).Some?
    ensures FormatShutterSpeed(Str(FormatShutterSpeed(value).value)) == FormatShutterSpeed(value)
  {
  }

  /** Text that is not already formatted and parses to `x` is formatted
      as `ExposureText(x)`. */
  lemma {:induction false} NumericTextFormatted(text: string, x: real)
    requires text != "" && IsTrimmed(text) && !LooksFormatted(text)
    requires ParseFloat(text) == Some(x)
    ensures FormatShutterSpeed(Str(text)) == Some(ExposureText(x))
  {
    assert SafeExtractString(Str(text)) == Some(text);
  }

  /** An exposure time below one second becomes "1/n s" with n the nearest
      whole number to its reciprocal. */
  lemma {:induction false} SubSecondFraction(text: string, x: real)
    requires text != "" && IsTrimmed(text) && !LooksFormatted(text)
    requires ParseFloat(text) == Some(x) && 0.0 < x < 1.0
    ensures var n := Round(1.0 / x);
      n >= 1 && FormatShutterSpeed(Str(text)) == Some("1/" + NatToString(n) + "s")
  {
    assert 1.0 / x > 1.0;
    var n := Round(1.0 / x);
    NumberToStringInteger(n);
    NumericTextFormatted(text, x);
  }

  /** Digits alone never look formatted, and have no whitespace to trim. */
  lemma DigitsNotFormatted(t: string)
    requires AllDigits(t)
    ensures !LooksFormatted(t) && IsTrimmed(t)
  {
    assert forall i :: 0 <= i < |t| ==> t[i] != '/' && t[i] != 's';
    if t != [] {
      assert IsDigit(t[0]) && IsDigit(t[|t| - 1]);
    }
  }

  /** A whole number of seconds is written with an "s" suffix. */
  lemma {:induction false} WholeSeconds(n: nat)
    requires n >= 1
    ensures FormatShutterSpeed(Num(n as real)) == Some(NatToString(n) + "s")
  {
    NumberToStringInteger(n);
    ParseFloatNumberToString(n);
    var t := NatToString(n);
    DigitsNotFormatted(t);
    PlainNumberFormatted(n as real);
  }

  /** A non-zero number whose text has no '/' or 's' and reads back as
      itself is formatted by `ExposureText`. */
  lemma PlainNumberFormatted(x: real)
    requires x != 0.0
    requires IsTrimmed(NumberToString(x)) && !LooksFormatted(NumberToString(x))
    requires ParseFloat(NumberToString(x)) == Some(x)
    ensures FormatShutterSpeed(Num(x)) == Some(ExposureText(x))
  {
    NumberTextExtracted(x);
  }

  /** A non-zero number reads as its trimmed text. */
  lemma NumberTextExtracted(x: real)
    requires x != 0.0 && IsTrimmed(NumberToString(x))
    ensures SafeExtractString(Num(x)) == Some(NumberToString(x))
  {
    assert SafeExtractString(Num(x)) == Some(Trim(ToString(Num(x))));
  }

  const SupportedExtensions: seq<string> := [".jpg", ".jpeg", ".tiff", ".tif", ".heic", ".heif"]

  /** `s.lastIndexOf(c)`, -1 when `c` does not occur. */
  function LastIndexOf(s: string, c: char): (r: int)
    ensures -1 <= r < |s|
    ensures r >= 0 ==> s[r] == c
    ensures forall i :: r < i < |s| ==> s[i] != c
  {
    if s == [] then -1
    else if s[|s| - 1] == c then |s| - 1
    else LastIndexOf(s[..|s| - 1], c)
  }

  /** `s.substring(start)`: a negative start counts as 0. */
  function Suffix(s: string, start: int): (r: string)
    requires start <= |s|
    ensures start <= 0 ==> r == s
    ensures start >= 0 ==> r == s[start..]
  {
    if start < 0 then s else s[start..]
  }

  /** `isValidImageFile`: the lower-cased text from the last '.' on (the
      whole name when there is none) is one of the supported extensions. */
  function IsValidImageFile(fileName: string): (r: bool)
  {
    Suffix(ToLowerAscii(fileName), LastIndexOf(fileName, '.')) in SupportedExtensions
  }

  /** Every supported extension starts with '.'. */
  lemma NoDotNotSupported(fileName: string)
    requires forall i :: 0 <= i < |fileName| ==> fileName[i] != '.'
    ensures ToLowerAscii(fileName) !in SupportedExtensions
  {
    if |fileName| > 0 {
      assert ToLowerAscii(fileName)[0] != '.';
    }
  }

  /** A name is accepted exactly when it has a '.' and the lower-cased
      text from its last '.' is a supported extension. */
  lemma {:induction false} IsValidImageFileIff(fileName: string)
    ensures IsValidImageFile(fileName) <==>
      exists i :: 0 <= i < |fileName| && fileName[i] == '.' && LastIndexOf(fileName, '.') == i
        && ToLowerAscii(fileName[i..]) in SupportedExtensions
  {
    var k := LastIndexOf(fileName, '.');
    if k >= 0 {
      assert Suffix(ToLowerAscii(fileName), k) == ToLowerAscii(fileName[k..]);
      if ToLowerAscii(fileName[k..]) in SupportedExtensions {
        assert fileName[k] == '.';
      }
    } else {
      NoDotNotSupported(fileName);
    }
  }

  /** Any stem followed by a supported extension, in any letter case, is
      accepted. */
  lemma SupportedExtensionAccepted(stem: string, ext: string)
    requires ToLowerAscii(ext) in SupportedExtensions
    requires forall i :: 1 <= i < |ext| ==> ext[i] != '.'
    ensures IsValidImageFile(stem + ext)
  {
    var name := stem + ext;
    assert ToLowerAscii(ext)[0] == '.';
    assert ext[0] == '.';
    assert forall i :: |stem| < i < |name| ==> name[i] == ext[i - |stem|];
    assert LastIndexOf(name, '.') == |stem| by {
      LastIndexOfSuffix(stem, ext, '.');
    }
    assert ToLowerAscii(name)[|stem|..] == ToLowerAscii(ext);
  }

  /** The last occurrence of `c` in `a + b` is the first character of `b`
      when `b` starts with `c` and holds no other `c`. */
  lemma {:induction false} LastIndexOfSuffix(a: string, b: string, c: char)
    requires b != [] && b[0] == c
    requires forall i :: 1 <= i < |b| ==> b[i] != c
    ensures LastIndexOf(a + b, c) == |a|
    decreases |b|
  {
    if |b| > 1 {
      assert (a + b)[..|a + b| - 1] == a + b[..|b| - 1];
      LastIndexOfSuffix(a, b[..|b| - 1], c);
    }
  }

  /** A text file is refused. */
  lemma TextFileRefused()
    ensures !IsValidImageFile("test.txt")
  {
    LastIndexOfSuffix("test", ".txt", '.');
    assert "test" + ".txt" == "test.txt";
    assert ToLowerAscii("test.txt")[4..] == ".txt";
  }

  /** A lower-case JPEG name is accepted. */
  lemma JpegFileAccepted()
    ensures IsValidImageFile("1.jpg")
  {
    assert ToLowerAscii(".jpg") == ".jpg" by {
      assert LowerChar('j') == 'j' && LowerChar('p') == 'p' && LowerChar('g') == 'g';
    }
    SupportedExtensionAccepted("1", ".jpg");
    assert "1" + ".jpg" == "1.jpg";
  }

  /** An upper-case extension is accepted. */
  lemma UpperCaseExtensionAccepted()
    ensures IsValidImageFile("photo.JPEG")
  {
    assert ToLowerAscii(".JPEG") in SupportedExtensions by {
      assert LowerChar('J') == 'j' && LowerChar('P') == 'p' && LowerChar('E') == 'e' && LowerChar('G') == 'g';
      assert ToLowerAscii(".JPEG") == ".jpeg";
    }
    assert "photo.JPEG" == "photo" + ".JPEG";
    SupportedExtensionAccepted("photo", ".JPEG");
  }
}
