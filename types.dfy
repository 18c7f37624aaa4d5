/** The conversion helpers of the protocol types (common/lifelog-types/src/lib.rs): UUID
    and timestamp conversion between the wire form and the core types, the two frame-key
    forms, and the database record of a screen frame. */
module Types {
  import opened Wrappers
  import opened Time
  import opened Uuid
  import opened Origin
  import opened Errors

  /** `parse_uuid`: a string that does not parse becomes the nil UUID. */
  function ParseUuid(s: string): Uuid {
    match Parse(s)
    case Some(u) => u
    case None => Nil
  }

  /** A UUID written by `to_string` is read back unchanged; a string of a length no UUID
      form has is read as the nil UUID. */
  lemma ParseUuidProperties(u: Uuid, s: string)
    ensures ParseUuid(ToString(u)) == u
    ensures |s| !in {32, 36, 38, 45} ==> ParseUuid(s) == Nil
  {
    ParseToString(u);
  }

  /** `to_dt`: a missing timestamp is the epoch; the nanosecond field is reinterpreted as
      unsigned (`as u32`); a value chrono cannot represent becomes `NaiveDateTime::MIN`. */
  function ToDt(ts: Option<ProtoTimestamp>): Instant {
    var t := ts.GetOr(ProtoTimestamp(0, 0));
    match FromTimestamp(t.seconds, I32ToU32(t.nanos))
    case Some(i) => i
    case None => MIN_UTC
  }

  /** `to_pb_ts`: whole seconds (rounded down) and the sub-second nanoseconds. */
  function ToPbTs(dt: Instant): Option<ProtoTimestamp> {
    Some(ProtoTimestamp(Timestamp(dt), SubsecNanos(dt)))
  }

  /** A missing timestamp is the epoch, and an in-range instant survives the round trip
      through the wire form. */
  lemma ToDtProperties(dt: Instant)
    ensures ToDt(None) == 0
    ensures InRange(dt) ==> ToDt(ToPbTs(dt)) == dt
    ensures InRange(dt) ==> 0 <= ToPbTs(dt).value.nanos < NANOS_PER_SEC
  {
    if InRange(dt) {
      FromTimestampSplit(dt);
    }
  }

  /** A negative nanosecond field wraps to at least 2^31 and the result is the minimum
      date; so does a second count outside chrono's range. */
  lemma ToDtOutOfRange(secs: int, nanos: int)
    requires -0x8000_0000 <= nanos < 0 || secs < MIN_SECS || secs > MAX_SECS
    ensures ToDt(Some(ProtoTimestamp(secs, nanos))) == MIN_UTC
  {
  }

  /** `LifelogDataKey`: the wire form of a frame key. */
  datatype DataKey = DataKey(uuid: string, origin: string)

  /** `TryFrom<LifelogDataKey> for LifelogFrameKey`: the UUID is parsed leniently, the
      origin strictly, and a bad origin is a validation error on the field "origin". */
  function FrameKeyOf(key: DataKey): (r: Result<FrameKey, LifelogError>)
    ensures r.Err? <==> TryFromString(key.origin).Err?
    ensures r.Err? ==> r.error.Validation? && r.error.field == "origin"
    ensures r.Ok? ==> r.value.uuid == ParseUuid(key.uuid) && r.value.origin == TryFromString(key.origin).value
  {
    match TryFromString(key.origin)
    case Err(e) =>
      Err(Validation("origin", "LifelogDataKey contained invalid origin: " + Origin.ErrorText(e)))
    case Ok(o) => Ok(FrameKey(ParseUuid(key.uuid), o))
  }

  /** `From<LifelogFrameKey> for LifelogDataKey`: the UUID's string and the table name. */
  function DataKeyOf(k: FrameKey): DataKey {
    DataKey(ToString(k.uuid), TableName(k.origin))
  }

  /** A frame key whose origin names have no ':' survives the trip to the wire form and
      back, and the wire form of the result is the one it was read from. */
  lemma KeyRoundTrip(k: FrameKey)
    requires ColonFreeModalities(k.origin) && ColonFreeDevice(k.origin)
    ensures FrameKeyOf(DataKeyOf(k)) == Ok(k)
    ensures DataKeyOf(FrameKeyOf(DataKeyOf(k)).value) == DataKeyOf(k)
  {
    TableNameRoundTripExact(k.origin);
    ParseToString(k.uuid);
  }

  /** `ScreenFrame`, as far as `to_record` reads it. */
  datatype ScreenFrame = ScreenFrame(uuid: string, timestamp: Option<ProtoTimestamp>, width: nat,
                                     height: nat, imageBytes: seq<bv8>, mimeType: string)

  /** `ScreenRecord`: the stored row, with the canonical-time fields the ingest fills in. */
  datatype ScreenRecord = ScreenRecord(uuid: string, timestamp: Instant, width: nat, height: nat,
                                       blobHash: string, blobSize: nat, mimeType: string,
                                       tIngest: Option<Instant>, tCanonical: Option<Instant>,
                                       tEnd: Option<Instant>, timeQuality: Option<string>)

  /** `ToRecord for ScreenFrame`: the image is not stored inline, so the blob hash is left
      empty and only the byte length is kept; every canonical-time field is unset. */
  function ToRecord(f: ScreenFrame): (r: ScreenRecord)
    ensures r.uuid == f.uuid && r.width == f.width && r.height == f.height && r.mimeType == f.mimeType
    ensures r.timestamp == ToDt(f.timestamp)
    ensures r.blobHash == "" && r.blobSize == |f.imageBytes|
    ensures r.tIngest.None? && r.tCanonical.None? && r.tEnd.None? && r.timeQuality.None?
  {
    ScreenRecord(f.uuid, ToDt(f.timestamp), f.width, f.height, "", |f.imageBytes|, f.mimeType,
                 None, None, None, None)
  }

  /** The screen record example: 1920x1080, three image bytes, at 12345 s. */
  lemma ToRecordExample(uuid: string)
    ensures var r := ToRecord(ScreenFrame(uuid, Some(ProtoTimestamp(12345, 0)), 1920, 1080,
                                          [1, 2, 3], "image/png"));
            r.uuid == uuid && r.width == 1920 && r.blobHash == "" && r.blobSize == 3 &&
            r.timestamp == Seconds(12345)
  {
  }
}
