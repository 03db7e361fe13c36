/**
 * Codecs for the eight primitive types: a fixed-width payload and no
 * presence byte, since a primitive field can never hold null.
 */
module PrimitiveExternalizer {
  import opened Results
  import opened DataIO
  import opened JavaTypes

  /**
   * `primitive(Class)` and `primitive(Field, Class)`: the same test chain,
   * int, short, long, float, double, boolean, byte, char, each matching only
   * the TYPE class of its kind; anything else yields null.  Together the
   * tests cover every primitive type and nothing else.
   */
  function Primitive(c: JClass): (r: Option<PrimKind>)
    ensures c.PrimitiveType? ==> r == Some(c.primitive)
    ensures !c.PrimitiveType? ==> r == None
  {
    if c == PrimitiveType(PInt) then Some(PInt)
    else if c == PrimitiveType(PShort) then Some(PShort)
    else if c == PrimitiveType(PLong) then Some(PLong)
    else if c == PrimitiveType(PFloat) then Some(PFloat)
    else if c == PrimitiveType(PDouble) then Some(PDouble)
    else if c == PrimitiveType(PBoolean) then Some(PBoolean)
    else if c == PrimitiveType(PByte) then Some(PByte)
    else if c == PrimitiveType(PChar) then Some(PChar)
    else
      PrimitiveClasses(c);
      None
  }

  /** The eight TYPE classes are exactly the primitive classes. */
  lemma PrimitiveClasses(c: JClass)
    ensures c.PrimitiveType? <==>
      c == PrimitiveType(PInt) || c == PrimitiveType(PShort) || c == PrimitiveType(PLong) || c == PrimitiveType(PFloat) ||
      c == PrimitiveType(PDouble) || c == PrimitiveType(PBoolean) || c == PrimitiveType(PByte) || c == PrimitiveType(PChar)
  {
    if c.PrimitiveType? {
      match c.primitive
      case PInt =>
      case PShort =>
      case PLong =>
      case PFloat =>
      case PDouble =>
      case PBoolean =>
      case PByte =>
      case PChar =>
    }
  }

  /** The number of bytes the DataOutput write of a primitive kind emits. */
  function Width(k: PrimKind): nat
  {
    match k
    case PInt => 4
    case PShort => 2
    case PLong => 8
    case PFloat => 4
    case PDouble => 8
    case PBoolean => 1
    case PByte => 1
    case PChar => 2
  }

  /** v is a (boxed) value of primitive kind k. */
  predicate Matches(k: PrimKind, v: JValue)
  {
    match k
    case PInt => v.Int?
    case PShort => v.Short?
    case PLong => v.Long?
    case PFloat => v.Float?
    case PDouble => v.Double?
    case PBoolean => v.Bool?
    case PByte => v.Byte?
    case PChar => v.Char?
  }

  function Payload(k: PrimKind, v: JValue): Bytes
    requires Matches(k, v)
  {
    match k
    case PInt => WriteInt(v.i)
    case PShort => WriteShort(v.s)
    case PLong => WriteLong(v.l)
    case PFloat => WriteFloat(v.floatBits)
    case PDouble => WriteDouble(v.doubleBits)
    case PBoolean => WriteBoolean(v.z)
    case PByte => WriteByte(v.b)
    case PChar => WriteChar(v.c)
  }

  /**
   * writeExternal of a primitive codec (`out.writeInt(object)`, or
   * `out.writeInt(field.getInt(object))` in the field form): unboxing null
   * throws NullPointerException, a value of another type does not convert.
   */
  function Write(k: PrimKind, v: JValue): Written
  {
    if v.Null? then Fail(NullPointer(""))
    else if !Matches(k, v) then Fail(TypeMismatch)
    else Emit(Payload(k, v))
  }

  /** readObject of a primitive codec: `in.readInt()` and so on. */
  function Read(k: PrimKind, s: Bytes): Result<Decoded<JValue>>
  {
    match k
    case PInt => var d :- ReadInt(s); Success(Decoded(Int(d.value), d.rest))
    case PShort => var d :- ReadShort(s); Success(Decoded(Short(d.value), d.rest))
    case PLong => var d :- ReadLong(s); Success(Decoded(Long(d.value), d.rest))
    case PFloat => var d :- ReadFloat(s); Success(Decoded(Float(d.value), d.rest))
    case PDouble => var d :- ReadDouble(s); Success(Decoded(Double(d.value), d.rest))
    case PBoolean => var d :- ReadBoolean(s); Success(Decoded(Bool(d.value), d.rest))
    case PByte => var d :- ReadByte(s); Success(Decoded(Byte(d.value), d.rest))
    case PChar => var d :- ReadChar(s); Success(Decoded(Char(d.value), d.rest))
  }

  /** A primitive value is written as exactly its fixed-width payload, with no presence byte. */
  lemma WriteWidth(k: PrimKind, v: JValue)
    requires Matches(k, v)
    ensures Write(k, v).Ok() && |Write(k, v).bytes| == Width(k)
  {
    match k
    case PInt => IntRoundTrip(v.i, []);
    case PShort => ShortRoundTrip(v.s, []);
    case PLong => LongRoundTrip(v.l, []);
    case PFloat => FloatRoundTrip(v.floatBits, []);
    case PDouble => DoubleRoundTrip(v.doubleBits, []);
    case PBoolean => BooleanRoundTrip(v.z, []);
    case PByte => ByteRoundTrip(v.b, []);
    case PChar => CharRoundTrip(v.c, []);
  }

  /** Reading what was written gives back the same value and consumes exactly its bytes. */
  lemma RoundTrip(k: PrimKind, v: JValue, rest: Bytes)
    requires Matches(k, v)
    ensures Read(k, Payload(k, v) + rest) == Success(Decoded(v, rest))
  {
    match k
    case PInt => IntRoundTrip(v.i, rest);
    case PShort => ShortRoundTrip(v.s, rest);
    case PLong => LongRoundTrip(v.l, rest);
    case PFloat => FloatRoundTrip(v.floatBits, rest);
    case PDouble => DoubleRoundTrip(v.doubleBits, rest);
    case PBoolean => BooleanRoundTrip(v.z, rest);
    case PByte => ByteRoundTrip(v.b, rest);
    case PChar => CharRoundTrip(v.c, rest);
  }

  /**
   * A read succeeds exactly when Width(k) bytes remain, consumes exactly
   * them, and otherwise fails with EOFException.
   */
  lemma ReadConsumesWidth(k: PrimKind, s: Bytes)
    ensures Read(k, s).Success? <==> Width(k) <= |s|
    ensures Read(k, s).Success? ==> Read(k, s).value.rest == s[Width(k)..] && Matches(k, Read(k, s).value.value)
    ensures Read(k, s).Failure? ==> Read(k, s).error == EndOfStream
  {
    Pow256Values();
  }
}
