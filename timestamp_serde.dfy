/** The desktop interface's serde adapter for optional protobuf timestamps
    (interface/src-tauri/src/timestamp_serde.rs): a timestamp travels as the text
    "seconds.nanos", the nanoseconds zero-padded to nine digits, and an absent one as none. */
module TimestampSerde {
  import opened Wrappers
  import opened Text
  import opened Decimal
  import opened Time

  /** What the serializer is handed: a string, or none. */
  datatype Serialized = SerNone | SerStr(text: string)

  /** Why deserialising failed: not two '.'-separated parts, or a part that is not an
      integer of its field's type. */
  datatype DeError = InvalidFormat | BadSeconds(part: string) | BadNanos(part: string)

  const InvalidFormatMessage: string := "Invalid timestamp format"

  /** A prost `Timestamp`'s fields hold an `i64` and an `i32`. */
  predicate InRange(ts: ProtoTimestamp) {
    I64_MIN <= ts.seconds <= I64_MAX && I32_MIN <= ts.nanos <= I32_MAX
  }

  /** `serialize`: the seconds, a '.', and the nanoseconds padded with zeros (after any
      sign) to nine characters. */
  function Serialize(t: Option<ProtoTimestamp>): (r: Serialized)
    ensures t.None? <==> r.SerNone?
    ensures t.Some? && 0 <= t.value.nanos ==>
              r.text == IntToString(t.value.seconds) + "." + ZeroPad(t.value.nanos, 9)
  {
    match t
    case None => SerNone
    case Some(ts) => SerStr(IntToString(ts.seconds) + "." + ZeroPad(ts.nanos, 9))
  }

  /** `deserialize`: none is None; a string must split at '.' into exactly two parts, the
      first an `i64` and the second an `i32`, read as a whole number of nanoseconds. */
  function Deserialize(v: Serialized): (r: Result<Option<ProtoTimestamp>, DeError>)
    ensures v.SerNone? ==> r == Ok(None)
    ensures v.SerStr? && |Split(v.text, '.')| != 2 ==> r == Err(InvalidFormat)
    ensures r.Ok? && r.value.Some? ==> InRange(r.value.value)
  {
    match v
    case SerNone => Ok(None)
    case SerStr(s) =>
      var parts := Split(s, '.');
      if |parts| != 2 then Err(InvalidFormat)
      else
        match ParseI64(parts[0])
        case None => Err(BadSeconds(parts[0]))
        case Some(seconds) =>
          match ParseI32(parts[1])
          case None => Err(BadNanos(parts[1]))
          case Some(nanos) => Ok(Some(ProtoTimestamp(seconds, nanos)))
  }

  /** No integer's decimal text holds a '.'. */
  lemma NoDotInNumber(n: int, width: nat)
    ensures '.' !in IntToString(n) && '.' !in ZeroPad(n, width)
  {
    if n < 0 {
      var d := NatToString(-n);
      assert forall i :: 0 <= i < |d| ==> IsAsciiDigit(d[i]);
      var k := if width > |d| + 1 then width - 1 - |d| else 0;
      var z := Zeros(k) + d;
      assert forall i :: 0 <= i < |z| ==> IsAsciiDigit(z[i]);
      assert ZeroPad(n, width) == "-" + z;
    } else {
      var d := NatToString(n);
      var k := if width > |d| then width - |d| else 0;
      var z := Zeros(k) + d;
      assert forall i :: 0 <= i < |z| ==> IsAsciiDigit(z[i]);
      assert ZeroPad(n, width) == z;
    }
  }

  /** Every timestamp a prost `Timestamp` can hold, negative nanoseconds included, and the
      absent one come back unchanged from their text. */
  lemma RoundTrip(t: Option<ProtoTimestamp>)
    requires t.Some? ==> InRange(t.value)
    ensures Deserialize(Serialize(t)) == Ok(t)
  {
    if t.Some? {
      var ts := t.value;
      var a := IntToString(ts.seconds);
      var b := ZeroPad(ts.nanos, 9);
      NoDotInNumber(ts.seconds, 9);
      NoDotInNumber(ts.nanos, 9);
      SplitAtSep(a, '.', b);
      SplitNoSep(b, '.');
      assert a + "." + b == a + ['.'] + b;
      IntToStringRoundTrip(ts.seconds, I64_MIN, I64_MAX);
      ZeroPadRoundTrip(ts.nanos, 9, I32_MIN, I32_MAX);
    }
  }

  /** The fraction is a count of nanoseconds, not a decimal fraction of a second: "5.1"
      reads as five seconds and one nanosecond, and does not come back as "5.1". */
  lemma FractionIsNanosCount()
    ensures Deserialize(SerStr("5.1")) == Ok(Some(ProtoTimestamp(5, 1)))
    ensures Serialize(Some(ProtoTimestamp(5, 1))) == SerStr("5.000000001")
  {
    ParseFiveDotOne();
    FormatFiveOne();
  }

  lemma FormatFiveOne()
    ensures IntToString(5) == "5" && ZeroPad(1, 9) == "000000001"
  {
    assert NatToString(1) == "1";
    assert NatToString(5) == "5";
    assert Zeros(8) == "00000000";
  }

  lemma ParseFiveDotOne()
    ensures Split("5.1", '.') == ["5", "1"]
    ensures ParseI64("5") == Some(5) && ParseI32("1") == Some(1)
  {
    SplitAtSep("5", '.', "1");
    SplitNoSep("1", '.');
    assert "5" + ['.'] + "1" == "5.1";
    ParseUnsignedDigits("5", I64_MIN, I64_MAX);
    ParseUnsignedDigits("1", I32_MIN, I32_MAX);
  }

  /** A text with no '.' or with more than one is refused. */
  lemma NotTwoParts(a: string, b: string)
    requires '.' !in a && '.' !in b
    ensures Deserialize(SerStr(a)) == Err(InvalidFormat)
    ensures Deserialize(SerStr(a + "." + b + "." + a)) == Err(InvalidFormat)
  {
    SplitNoSep(a, '.');
    SplitAtSep(b, '.', a);
    SplitAtSep(a, '.', b + "." + a);
    assert a + "." + b + "." + a == a + ['.'] + (b + ['.'] + a);
    assert b + "." + a == b + ['.'] + a;
  }
}
