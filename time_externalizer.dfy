/**
 * Codecs for java.util.Date, java.util.Calendar and eight java.time types:
 * a presence byte, then a fixed numeric decomposition of the value.  Each
 * codec is a singleton; the field form wraps it in FieldParentExternalizer.
 */
module TimeExternalizer {
  import opened Results
  import opened DataIO
  import opened JavaTypes

  /** Position of each kind in the `time` test chain. */
  function Order(k: TimeKind): nat
  {
    match k
    case TCalendar => 0
    case TDate => 1
    case TDuration => 2
    case TInstant => 3
    case TLocalDate => 4
    case TLocalDateTime => 5
    case TLocalTime => 6
    case TMonthDay => 7
    case TPeriod => 8
    case TYear => 9
  }

  lemma NoTimeKind(s: set<Library>)
    requires TimeClass(TCalendar) !in s && TimeClass(TDate) !in s && TimeClass(TDuration) !in s
    requires TimeClass(TInstant) !in s && TimeClass(TLocalDate) !in s && TimeClass(TLocalDateTime) !in s
    requires TimeClass(TLocalTime) !in s && TimeClass(TMonthDay) !in s && TimeClass(TPeriod) !in s
    requires TimeClass(TYear) !in s
    ensures forall k: TimeKind :: TimeClass(k) !in s
  {
    forall k: TimeKind
      ensures TimeClass(k) !in s
    {
      match k
      case TCalendar =>
      case TDate =>
      case TDuration =>
      case TInstant =>
      case TLocalDate =>
      case TLocalDateTime =>
      case TLocalTime =>
      case TMonthDay =>
      case TPeriod =>
      case TYear =>
    }
  }

  /**
   * `time(Class)` and `time(Field, Class)`: the first of Calendar, Date,
   * Duration, Instant, LocalDate, LocalDateTime, LocalTime, MonthDay, Period,
   * Year the class is assignable to, or null.
   */
  function Time(c: JClass): (r: Option<TimeKind>)
    ensures r.None? ==> forall k: TimeKind :: TimeClass(k) !in Supertypes(c)
    ensures r.Some? ==> TimeClass(r.value) in Supertypes(c)
    ensures r.Some? ==> forall k: TimeKind :: Order(k) < Order(r.value) ==> TimeClass(k) !in Supertypes(c)
  {
    var s := Supertypes(c);
    if TimeClass(TCalendar) in s then Some(TCalendar)
    else if TimeClass(TDate) in s then Some(TDate)
    else if TimeClass(TDuration) in s then Some(TDuration)
    else if TimeClass(TInstant) in s then Some(TInstant)
    else if TimeClass(TLocalDate) in s then Some(TLocalDate)
    else if TimeClass(TLocalDateTime) in s then Some(TLocalDateTime)
    else if TimeClass(TLocalTime) in s then Some(TLocalTime)
    else if TimeClass(TMonthDay) in s then Some(TMonthDay)
    else if TimeClass(TPeriod) in s then Some(TPeriod)
    else if TimeClass(TYear) in s then Some(TYear)
    else
      NoTimeKind(s);
      None
  }

  /** v is a non-null value of kind k. */
  predicate Matches(k: TimeKind, v: JValue)
  {
    match k
    case TCalendar => v.Calendar?
    case TDate => v.Date?
    case TDuration => v.Duration?
    case TInstant => v.Instant?
    case TLocalDate => v.LocalDate?
    case TLocalDateTime => v.LocalDateTime?
    case TLocalTime => v.LocalTime?
    case TMonthDay => v.MonthDay?
    case TPeriod => v.Period?
    case TYear => v.Year?
  }

  /** The bytes after the presence byte. */
  function Payload(k: TimeKind, v: JValue): Bytes
    requires Matches(k, v)
  {
    match k
    case TCalendar => WriteLong(v.calendarMillis)
    case TDate => WriteLong(v.dateMillis)
    case TDuration => WriteLong(v.seconds) + WriteInt(v.durationNanos)
    case TInstant => WriteLong(v.epochSecond) + WriteInt(v.instantNanos)
    case TLocalDate => WriteLong(v.epochDay)
    case TLocalDateTime => WriteLong(v.dateEpochDay) + WriteLong(v.nanoOfDay)
    case TLocalTime => WriteLong(v.timeNanoOfDay)
    case TMonthDay => WriteByte(v.month) + WriteByte(v.day)
    case TPeriod => WriteInt(v.years) + WriteInt(v.months) + WriteInt(v.days)
    case TYear => WriteInt(v.year)
  }

  /** The payload size of each kind. */
  function PayloadWidth(k: TimeKind): nat
  {
    match k
    case TCalendar => 8
    case TDate => 8
    case TDuration => 12
    case TInstant => 12
    case TLocalDate => 8
    case TLocalDateTime => 16
    case TLocalTime => 8
    case TMonthDay => 2
    case TPeriod => 12
    case TYear => 4
  }

  /** writeExternal: `false` for null, else `true` and the payload. */
  function Write(k: TimeKind, v: JValue): Written
  {
    if v.Null? then Emit(WriteBoolean(false))
    else if !Matches(k, v) then Fail(TypeMismatch)
    else Emit(WriteBoolean(true) + Payload(k, v))
  }

  /** The value rebuilt from the payload, reading its parts in the order they were written. */
  function ReadPayload(k: TimeKind, s: Bytes): Result<Decoded<JValue>>
  {
    match k
    case TCalendar =>
      var m :- ReadLong(s); Success(Decoded(Calendar(m.value), m.rest))
    case TDate =>
      var m :- ReadLong(s); Success(Decoded(Date(m.value), m.rest))
    case TDuration =>
      var a :- ReadLong(s); var b :- ReadInt(a.rest); Success(Decoded(Duration(a.value, b.value), b.rest))
    case TInstant =>
      var a :- ReadLong(s); var b :- ReadInt(a.rest); Success(Decoded(Instant(a.value, b.value), b.rest))
    case TLocalDate =>
      var d :- ReadLong(s); Success(Decoded(LocalDate(d.value), d.rest))
    case TLocalDateTime =>
      var a :- ReadLong(s); var b :- ReadLong(a.rest); Success(Decoded(LocalDateTime(a.value, b.value), b.rest))
    case TLocalTime =>
      var t :- ReadLong(s); Success(Decoded(LocalTime(t.value), t.rest))
    case TMonthDay =>
      var a :- ReadByte(s); var b :- ReadByte(a.rest); Success(Decoded(MonthDay(a.value, b.value), b.rest))
    case TPeriod =>
      var a :- ReadInt(s); var b :- ReadInt(a.rest); var c :- ReadInt(b.rest);
      Success(Decoded(Period(a.value, b.value, c.value), c.rest))
    case TYear =>
      var y :- ReadInt(s); Success(Decoded(Year(y.value), y.rest))
  }

  /** readObject: `in.readBoolean() ? rebuild(...) : null`. */
  function Read(k: TimeKind, s: Bytes): Result<Decoded<JValue>>
  {
    var p :- ReadBoolean(s);
    if !p.value then Success(Decoded(Null, p.rest)) else ReadPayload(k, p.rest)
  }

  /** Two longs read back in the order they were written. */
  lemma TwoLongs(a: int64, b: int64, rest: Bytes)
    ensures ReadLong(WriteLong(a) + WriteLong(b) + rest) == Success(Decoded(a, WriteLong(b) + rest))
    ensures ReadLong(WriteLong(b) + rest) == Success(Decoded(b, rest))
  {
    LongRoundTrip(b, rest);
    LongRoundTrip(a, WriteLong(b) + rest);
    assert WriteLong(a) + WriteLong(b) + rest == WriteLong(a) + (WriteLong(b) + rest);
  }

  /** A long then an int read back in the order they were written. */
  lemma LongThenInt(a: int64, b: int32, rest: Bytes)
    ensures ReadLong(WriteLong(a) + WriteInt(b) + rest) == Success(Decoded(a, WriteInt(b) + rest))
    ensures ReadInt(WriteInt(b) + rest) == Success(Decoded(b, rest))
  {
    IntRoundTrip(b, rest);
    LongRoundTrip(a, WriteInt(b) + rest);
    assert WriteLong(a) + WriteInt(b) + rest == WriteLong(a) + (WriteInt(b) + rest);
  }

  lemma TwoBytes(a: int8, b: int8, rest: Bytes)
    ensures ReadByte(WriteByte(a) + WriteByte(b) + rest) == Success(Decoded(a, WriteByte(b) + rest))
    ensures ReadByte(WriteByte(b) + rest) == Success(Decoded(b, rest))
  {
    ByteRoundTrip(b, rest);
    ByteRoundTrip(a, WriteByte(b) + rest);
    assert WriteByte(a) + WriteByte(b) + rest == WriteByte(a) + (WriteByte(b) + rest);
  }

  lemma ThreeInts(a: int32, b: int32, c: int32, rest: Bytes)
    ensures ReadInt(WriteInt(a) + WriteInt(b) + WriteInt(c) + rest) == Success(Decoded(a, WriteInt(b) + WriteInt(c) + rest))
    ensures ReadInt(WriteInt(b) + WriteInt(c) + rest) == Success(Decoded(b, WriteInt(c) + rest))
    ensures ReadInt(WriteInt(c) + rest) == Success(Decoded(c, rest))
  {
    IntRoundTrip(c, rest);
    IntRoundTrip(b, WriteInt(c) + rest);
    IntRoundTrip(a, WriteInt(b) + WriteInt(c) + rest);
    assert WriteInt(b) + WriteInt(c) + rest == WriteInt(b) + (WriteInt(c) + rest);
    assert WriteInt(a) + WriteInt(b) + WriteInt(c) + rest == WriteInt(a) + (WriteInt(b) + WriteInt(c) + rest);
  }

  /** Each payload has its fixed width, and reading it back rebuilds the value. */
  lemma PayloadRoundTrip(k: TimeKind, v: JValue, rest: Bytes)
    requires Matches(k, v)
    ensures |Payload(k, v)| == PayloadWidth(k)
    ensures ReadPayload(k, Payload(k, v) + rest) == Success(Decoded(v, rest))
  {
    match k
    case TCalendar => LongRoundTrip(v.calendarMillis, rest);
    case TDate => LongRoundTrip(v.dateMillis, rest);
    case TDuration => LongThenInt(v.seconds, v.durationNanos, rest);
    case TInstant => LongThenInt(v.epochSecond, v.instantNanos, rest);
    case TLocalDate => LongRoundTrip(v.epochDay, rest);
    case TLocalDateTime => TwoLongs(v.dateEpochDay, v.nanoOfDay, rest);
    case TLocalTime => LongRoundTrip(v.timeNanoOfDay, rest);
    case TMonthDay => TwoBytes(v.month, v.day, rest);
    case TPeriod => ThreeInts(v.years, v.months, v.days, rest);
    case TYear => IntRoundTrip(v.year, rest);
  }

  /**
   * Every temporal codec writes the single byte `false` for null, and `true`
   * followed by exactly its fixed-width payload otherwise.
   */
  lemma Layout(k: TimeKind, v: JValue)
    ensures Write(k, Null) == Emit([0])
    ensures Matches(k, v) ==> Write(k, v) == Emit([1] + Payload(k, v)) && |Write(k, v).bytes| == 1 + PayloadWidth(k)
  {
    if Matches(k, v) {
      PayloadRoundTrip(k, v, []);
    }
  }

  /** Round trip, null included. */
  lemma RoundTrip(k: TimeKind, v: JValue, rest: Bytes)
    requires v.Null? || Matches(k, v)
    ensures Write(k, v).Ok()
    ensures Read(k, Write(k, v).bytes + rest) == Success(Decoded(v, rest))
  {
    if v.Null? {
      NullRoundTrip(k, rest);
    } else {
      PresentWrite(k, v);
      PresentRoundTrip(k, v, rest);
    }
  }

  lemma NullRoundTrip(k: TimeKind, rest: Bytes)
    ensures Write(k, Null) == Emit([0])
    ensures Read(k, [0] + rest) == Success(Decoded(Null, rest))
  {
    assert ReadBoolean([0] + rest) == Success(Decoded(false, rest));
  }

  lemma PresentWrite(k: TimeKind, v: JValue)
    requires Matches(k, v)
    ensures Write(k, v) == Emit([1] + Payload(k, v))
  {
  }
  lemma PresentRoundTrip(k: TimeKind, v: JValue, rest: Bytes)
    requires Matches(k, v)
    ensures Read(k, [1] + Payload(k, v) + rest) == Success(Decoded(v, rest))
  {
    PayloadRoundTrip(k, v, rest);
    FramedRead(k, Payload(k, v), v, rest);
  }

  lemma FramedRead(k: TimeKind, body: Bytes, v: JValue, rest: Bytes)
    requires ReadPayload(k, body + rest) == Success(Decoded(v, rest))
    ensures Read(k, [1] + body + rest) == Success(Decoded(v, rest))
  {
    assert [1] + body + rest == [1] + (body + rest);
    PresentRead(k, body + rest);
  }

  lemma PresentRead(k: TimeKind, s: Bytes)
    ensures Read(k, [1] + s) == ReadPayload(k, s)
  {
    assert ReadBoolean([1] + s) == Success(Decoded(true, s));
  }
}
