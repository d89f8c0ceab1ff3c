/**
 * `primitive_date_time_serde`: a date-time travels through JSON as its Unix
 * timestamp, the date-time taken to be UTC. The JSON value is reduced to the
 * cases the deserializer tells apart.
 */
module UnixSerde {
  import opened Wrappers
  import opened Ints
  import Civil

  /** The time crate's `PrimitiveDateTime`: a valid date-time within years -9999..9999. */
  type PrimitiveDateTime = dt: Civil.DateTime | Civil.Valid(dt) && Civil.InTimeRange(dt)
    witness Civil.DateTime(1970, 1, 1, 0, 0, 0)

  datatype Json = JNull | JInt(n: int) | JOther

  /** The deserializer's errors: not an `i64`, or a timestamp outside the representable range. */
  datatype DeError = InvalidType | ComponentRange

  /** `serialize`: `assume_utc().unix_timestamp()`. */
  function Serialize(dt: PrimitiveDateTime): (j: Json)
    ensures j.JInt? && IsI64(j.n)
    ensures Civil.TIME_MIN_UNIX <= j.n <= Civil.TIME_MAX_UNIX
    ensures Civil.FromUnix(j.n) == dt
  {
    Civil.TimeRangeIsUnixRange(dt);
    Civil.TimeRangeBounds();
    Civil.FromUnixToUnix(dt);
    JInt(Civil.ToUnix(dt))
  }

  /** `deserialize`: an `i64`, then `from_unix_timestamp`, whose range error becomes a custom error. */
  function Deserialize(j: Json): (r: Result<PrimitiveDateTime, DeError>)
    ensures r.Ok? <==> j.JInt? && Civil.TIME_MIN_UNIX <= j.n <= Civil.TIME_MAX_UNIX
    ensures r.Ok? ==> Civil.ToUnix(r.value) == j.n
    ensures !(j.JInt? && IsI64(j.n)) ==> r == Err(InvalidType)
    ensures j.JInt? && IsI64(j.n) && r.Err? ==> r == Err(ComponentRange)
  {
    Civil.TimeRangeBounds();
    if !(j.JInt? && IsI64(j.n)) then Err(InvalidType)
    else
      match Civil.TimeFromUnix(j.n)
      case None => Err(ComponentRange)
      case Some(dt) => Ok(dt)
  }

  /** Deserializing what was serialized gives the date-time back. */
  lemma DeserializeSerialize(dt: PrimitiveDateTime)
    ensures Deserialize(Serialize(dt)) == Ok(dt)
  {
    var back := Deserialize(Serialize(dt));
    Civil.ToUnixInjective(back.value, dt);
  }

  /** Serializing what was deserialized gives the timestamp back. */
  lemma SerializeDeserialize(j: Json)
    requires Deserialize(j).Ok?
    ensures Serialize(Deserialize(j).value) == j
  {
  }

  /** `option::serialize`: `None` as `null`, `Some` as the timestamp. */
  function SerializeOption(o: Option<PrimitiveDateTime>): (j: Json)
    ensures o.None? <==> j == JNull
    ensures o.Some? ==> j == Serialize(o.value)
  {
    match o
    case None => JNull
    case Some(dt) => Serialize(dt)
  }

  /** `option::deserialize`: `null` is `None`; anything else goes through the plain deserializer. */
  function DeserializeOption(j: Json): (r: Result<Option<PrimitiveDateTime>, DeError>)
    ensures j == JNull ==> r == Ok(None)
    ensures j != JNull ==> (r.Ok? <==> Deserialize(j).Ok?)
    ensures j != JNull && r.Ok? ==> r.value == Some(Deserialize(j).value)
    ensures j != JNull && r.Err? ==> r.error == Deserialize(j).error
  {
    if j == JNull then Ok(None)
    else
      match Deserialize(j)
      case Ok(dt) => Ok(Some(dt))
      case Err(e) => Err(e)
  }

  /** The option variant round-trips both ways. */
  lemma OptionRoundTrips(o: Option<PrimitiveDateTime>, j: Json)
    ensures DeserializeOption(SerializeOption(o)) == Ok(o)
    ensures DeserializeOption(j).Ok? ==> SerializeOption(DeserializeOption(j).value) == j
  {
    if o.Some? {
      DeserializeSerialize(o.value);
    }
  }

  /** Every timestamp outside years -9999..9999 is refused with a range error. */
  lemma OutOfRangeRefused(n: int)
    requires IsI64(n) && (n < Civil.TIME_MIN_UNIX || n > Civil.TIME_MAX_UNIX)
    ensures Deserialize(JInt(n)) == Err(ComponentRange)
    ensures DeserializeOption(JInt(n)) == Err(ComponentRange)
  {
  }
}
