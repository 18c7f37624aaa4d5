/** Data origins and frame keys (common/lifelog-core/src/lib.rs). An origin is either a
    device with a modality, or another origin with a derived modality; its table name
    joins the device id (with its colons removed) and the modality names with ':'. */
module Origin {
  import opened Wrappers
  import opened Text
  import opened Uuid

  datatype DataOriginType = DeviceId(deviceId: string) | Derived(parent: DataOrigin)
  datatype DataOrigin = DataOrigin(origin: DataOriginType, modalityName: string)

  /** `LifelogFrameKey`. */
  datatype FrameKey = FrameKey(uuid: Uuid, origin: DataOrigin)

  /** The one error `tryfrom_string` reports. */
  datatype OriginError = InvalidDataModality(source: string)

  function ErrorText(e: OriginError): string {
    "tried to parse invalid data modality: '" + e.source + "'"
  }

  /** `get_table_name`. */
  function TableName(o: DataOrigin): string
    decreases o
  {
    match o.origin
    case DeviceId(d) => Replace(d, ":", "") + ":" + o.modalityName
    case Derived(p) => TableName(p) + ":" + o.modalityName
  }

  /** `Display for DataOrigin`. */
  function Display(o: DataOrigin): string { TableName(o) }

  /** `Display for LifelogFrameKey`: `<table>:<uuid>`, angle brackets included. */
  function KeyDisplay(k: FrameKey): string {
    "<" + TableName(k.origin) + ">:<" + ToString(k.uuid) + ">"
  }

  /** `tryfrom_string`: split at every ':'; a single part is an error, two parts are a
      device and a modality, and with more the last part is the modality and the rest,
      rejoined, is parsed again as the parent. */
  function TryFromString(s: string): (r: Result<DataOrigin, OriginError>)
    decreases |s|
  {
    var parts := Split(s, ':');
    if |parts| <= 1 then Err(InvalidDataModality(s))
    else if |parts| == 2 then Ok(DataOrigin(DeviceId(parts[0]), parts[1]))
    else
      var prefix := parts[..|parts| - 1];
      JoinSnoc(prefix, parts[|parts| - 1], ":");
      assert prefix + [parts[|parts| - 1]] == parts;
      match TryFromString(Join(prefix, ":"))
      case Err(e) => Err(e)
      case Ok(p) => Ok(DataOrigin(Derived(p), parts[|parts| - 1]))
  }

  /** The ':'-separated parts of a table name: the cleaned device id, then each modality
      from the device outward. */
  function TableParts(o: DataOrigin): (ps: seq<string>)
    ensures |ps| >= 2
    decreases o
  {
    match o.origin
    case DeviceId(d) => [Replace(d, ":", ""), o.modalityName]
    case Derived(p) => TableParts(p) + [o.modalityName]
  }

  lemma {:induction false} TableNameIsJoin(o: DataOrigin)
    ensures TableName(o) == Join(TableParts(o), ":")
    decreases o
  {
    match o.origin
    case DeviceId(d) =>
    case Derived(p) =>
      TableNameIsJoin(p);
      JoinSnoc(TableParts(p), o.modalityName, ":");
  }

  /** No modality name in the chain contains ':'. */
  predicate ColonFreeModalities(o: DataOrigin)
    decreases o
  {
    ':' !in o.modalityName &&
    match o.origin
    case DeviceId(_) => true
    case Derived(p) => ColonFreeModalities(p)
  }

  /** The origin a table name denotes: the same chain with ':' removed from the device id. */
  function Cleaned(o: DataOrigin): DataOrigin
    decreases o
  {
    match o.origin
    case DeviceId(d) => DataOrigin(DeviceId(Replace(d, ":", "")), o.modalityName)
    case Derived(p) => DataOrigin(Derived(Cleaned(p)), o.modalityName)
  }

  /** Parsing a table name recovers the origin it came from, up to the colons that
      `get_table_name` removes from the device id, provided no modality name has a ':'. */
  lemma TableNameRoundTrip(o: DataOrigin)
    requires ColonFreeModalities(o)
    ensures TryFromString(TableName(o)) == Ok(Cleaned(o))
  {
    TableNameIsJoin(o);
    PartsRoundTrip(o);
  }

  /** With a device id free of ':', the round trip is exact. */
  lemma TableNameRoundTripExact(o: DataOrigin)
    requires ColonFreeModalities(o) && ColonFreeDevice(o)
    ensures TryFromString(TableName(o)) == Ok(o)
  {
    TableNameRoundTrip(o);
    CleanedIdentity(o);
  }

  predicate ColonFreeDevice(o: DataOrigin)
    decreases o
  {
    match o.origin
    case DeviceId(d) => ':' !in d
    case Derived(p) => ColonFreeDevice(p)
  }

  lemma {:induction false} CleanedIdentity(o: DataOrigin)
    requires ColonFreeDevice(o)
    ensures Cleaned(o) == o
    decreases o
  {
    match o.origin
    case DeviceId(d) => ReplaceCharDeletes(d, ':');
    case Derived(p) => CleanedIdentity(p);
  }

  lemma {:induction false} PartsRoundTrip(o: DataOrigin)
    requires ColonFreeModalities(o)
    ensures TryFromString(Join(TableParts(o), ":")) == Ok(Cleaned(o))
    decreases o
  {
    var ps := TableParts(o);
    PartsColonFree(o);
    SplitJoin(ps, ':');
    match o.origin
    case DeviceId(d) =>
    case Derived(p) =>
      PartsRoundTrip(p);
      assert ps[..|ps| - 1] == TableParts(p);
  }

  lemma {:induction false} PartsColonFree(o: DataOrigin)
    requires ColonFreeModalities(o)
    ensures forall i :: 0 <= i < |TableParts(o)| ==> ':' !in TableParts(o)[i]
    decreases o
  {
    match o.origin
    case DeviceId(d) => ReplaceCharDeletes(d, ':');
    case Derived(p) => PartsColonFree(p);
  }

  /** A string without ':' is not an origin. */
  lemma NoColonRejected(s: string)
    requires ':' !in s
    ensures TryFromString(s) == Err(InvalidDataModality(s))
  {
    SplitNoSep(s, ':');
  }

  /** `device:modality` is a device origin. */
  lemma TwoPartsDevice(d: string, m: string)
    requires ':' !in d && ':' !in m
    ensures TryFromString(d + ":" + m) == Ok(DataOrigin(DeviceId(d), m))
  {
    SplitJoin([d, m], ':');
    assert Join([d, m], ":") == d + ":" + m;
  }

  /** Every string containing a ':' parses; only a colon-free string is rejected. */
  lemma {:induction false} TryFromStringOkIffColon(s: string)
    ensures TryFromString(s).Ok? <==> ':' in s
    decreases |s|
  {
    var parts := Split(s, ':');
    if ':' !in s {
      NoColonRejected(s);
    } else {
      if |parts| <= 1 {
        SplitSingleHasNoSep(s);
      } else if |parts| > 2 {
        var prefix := parts[..|parts| - 1];
        JoinSnoc(prefix, parts[|parts| - 1], ":");
        assert prefix + [parts[|parts| - 1]] == parts;
        var inner := Join(prefix, ":");
        assert |inner| < |s|;
        SplitJoin(prefix, ':');
        assert ':' in inner by {
          JoinSnoc(prefix[..|prefix| - 1], prefix[|prefix| - 1], ":");
          assert prefix[..|prefix| - 1] + [prefix[|prefix| - 1]] == prefix;
          assert inner[|Join(prefix[..|prefix| - 1], ":")|] == ':';
        }
        TryFromStringOkIffColon(inner);
      }
    }
  }

  lemma SplitSingleHasNoSep(s: string)
    requires |Split(s, ':')| <= 1
    ensures ':' !in s
  {
    var parts := Split(s, ':');
    assert Join(parts, ":") == parts[0];
  }

  /** A device origin's table name has no ':' in its device part. */
  lemma DeviceTableName(d: string, m: string)
    ensures var t := TableName(DataOrigin(DeviceId(d), m));
      t == Replace(d, ":", "") + ":" + m && ':' !in Replace(d, ":", "")
  {
    ReplaceCharDeletes(d, ':');
  }
}
