/**
 * Codecs for String and the eight boxed java.lang types: a presence byte,
 * then (for a non-null value) the DataOutput write of the value.  The
 * standalone codecs write the presence byte themselves; the field codecs get
 * it from the presence-byte protocol of FieldObjectExternalizer and supply
 * only `writeValue`.
 */
module LangExternalizer {
  import opened Results
  import opened DataIO
  import opened JavaTypes
  import PrimitiveExternalizer

  /** Position of each kind in the `lang` test chain. */
  function Order(k: BoxKind): nat
  {
    match k
    case KString => 0
    case KLong => 1
    case KInteger => 2
    case KShort => 3
    case KDouble => 4
    case KFloat => 5
    case KCharacter => 6
    case KByte => 7
    case KBoolean => 8
  }

  /**
   * `lang(Class)` and `lang(Field, Class)`: the first of String, Long,
   * Integer, Short, Double, Float, Character, Byte, Boolean the class is
   * assignable to, or null when it is none of them (an enum, say).
   */
  function Lang(c: JClass): (r: Option<BoxKind>)
    ensures r.None? ==> forall k: BoxKind :: LangClass(k) !in Supertypes(c)
    ensures r.Some? ==> LangClass(r.value) in Supertypes(c)
    ensures r.Some? ==> forall k: BoxKind :: Order(k) < Order(r.value) ==> LangClass(k) !in Supertypes(c)
  {
    var s := Supertypes(c);
    if LangClass(KString) in s then Some(KString)
    else if LangClass(KLong) in s then Some(KLong)
    else if LangClass(KInteger) in s then Some(KInteger)
    else if LangClass(KShort) in s then Some(KShort)
    else if LangClass(KDouble) in s then Some(KDouble)
    else if LangClass(KFloat) in s then Some(KFloat)
    else if LangClass(KCharacter) in s then Some(KCharacter)
    else if LangClass(KByte) in s then Some(KByte)
    else if LangClass(KBoolean) in s then Some(KBoolean)
    else
      NoLangKind(s);
      None
  }

  lemma NoLangKind(s: set<Library>)
    requires LangClass(KString) !in s && LangClass(KLong) !in s && LangClass(KInteger) !in s
    requires LangClass(KShort) !in s && LangClass(KDouble) !in s && LangClass(KFloat) !in s
    requires LangClass(KCharacter) !in s && LangClass(KByte) !in s && LangClass(KBoolean) !in s
    ensures forall k: BoxKind :: LangClass(k) !in s
  {
    forall k: BoxKind
      ensures LangClass(k) !in s
    {
      match k
      case KString =>
      case KLong =>
      case KInteger =>
      case KShort =>
      case KDouble =>
      case KFloat =>
      case KCharacter =>
      case KByte =>
      case KBoolean =>
    }
  }

  /** The primitive whose DataOutput write a boxed kind uses (Long: writeLong, ...). */
  function Unboxed(k: BoxKind): PrimKind
    requires k != KString
  {
    match k
    case KLong => PLong
    case KInteger => PInt
    case KShort => PShort
    case KDouble => PDouble
    case KFloat => PFloat
    case KCharacter => PChar
    case KByte => PByte
    case KBoolean => PBoolean
  }

  /** v is a non-null value of kind k. */
  predicate Matches(k: BoxKind, v: JValue)
  {
    if k == KString then v.Str? else PrimitiveExternalizer.Matches(Unboxed(k), v)
  }

  /** v can be written without an exception: null, or a value of kind k (a String whose modified UTF-8 fits 65535 bytes). */
  predicate Encodable(k: BoxKind, v: JValue)
  {
    v.Null? || (Matches(k, v) && (k == KString ==> WriteUtf(v.chars).Success?))
  }

  /** `writeValue` of the field codecs: writeUTF for a String, the primitive write otherwise. */
  function WriteValue(k: BoxKind, v: JValue): Written
  {
    if !Matches(k, v) then Fail(TypeMismatch)
    else if k == KString then
      var u := WriteUtf(v.chars);
      if u.Success? then Emit(u.value) else Fail(u.error)
    else Emit(PrimitiveExternalizer.Payload(Unboxed(k), v))
  }

  /** writeExternal of the standalone codecs: `false` for null, else `true` and the value. */
  function Write(k: BoxKind, v: JValue): Written
  {
    if v.Null? then Emit(WriteBoolean(false))
    else if !Matches(k, v) then Fail(TypeMismatch)
    else Emit(WriteBoolean(true)).Then(WriteValue(k, v))
  }

  /** The value after the presence byte: readUTF, or the primitive read. */
  function ReadValue(k: BoxKind, s: Bytes): Result<Decoded<JValue>>
  {
    if k == KString then
      var d :- ReadUtf(s);
      Success(Decoded(Str(d.value), d.rest))
    else PrimitiveExternalizer.Read(Unboxed(k), s)
  }

  /** readObject, identical in the standalone and the field codecs: `in.readBoolean() ? in.readX() : null`. */
  function Read(k: BoxKind, s: Bytes): Result<Decoded<JValue>>
  {
    var p :- ReadBoolean(s);
    if !p.value then Success(Decoded(Null, p.rest)) else ReadValue(k, p.rest)
  }

  /** The value written by writeValue reads back. */
  lemma ValueRoundTrip(k: BoxKind, v: JValue, rest: Bytes)
    requires Matches(k, v) && Encodable(k, v)
    ensures WriteValue(k, v).Ok()
    ensures ReadValue(k, WriteValue(k, v).bytes + rest) == Success(Decoded(v, rest))
  {
    if k == KString {
      UtfRoundTrip(v.chars, rest);
    } else {
      PrimitiveExternalizer.RoundTrip(Unboxed(k), v, rest);
    }
  }

  lemma RoundTrip(k: BoxKind, v: JValue, rest: Bytes)
    requires Encodable(k, v)
    ensures Write(k, v).Ok()
    ensures Read(k, Write(k, v).bytes + rest) == Success(Decoded(v, rest))
  {
    if v.Null? {
      NullRoundTrip(k, rest);
    } else {
      PresentRoundTrip(k, v, rest);
    }
  }

  lemma NullRoundTrip(k: BoxKind, rest: Bytes)
    ensures Write(k, Null) == Emit([0])
    ensures Read(k, [0] + rest) == Success(Decoded(Null, rest))
  {
    assert ReadBoolean([0] + rest) == Success(Decoded(false, rest));
  }

  lemma PresentRoundTrip(k: BoxKind, v: JValue, rest: Bytes)
    requires Matches(k, v) && Encodable(k, v)
    ensures Write(k, v).Ok()
    ensures Read(k, Write(k, v).bytes + rest) == Success(Decoded(v, rest))
  {
    ValueRoundTrip(k, v, rest);
    PresentWrite(k, v);
    FramedRead(k, WriteValue(k, v).bytes, v, rest);
  }

  lemma FramedRead(k: BoxKind, body: Bytes, v: JValue, rest: Bytes)
    requires ReadValue(k, body + rest) == Success(Decoded(v, rest))
    ensures Read(k, [1] + body + rest) == Success(Decoded(v, rest))
  {
    assert [1] + body + rest == [1] + (body + rest);
    PresentRead(k, body + rest);
  }

  lemma PresentWrite(k: BoxKind, v: JValue)
    requires Matches(k, v) && WriteValue(k, v).Ok()
    ensures Write(k, v) == Emit([1] + WriteValue(k, v).bytes)
  {
  }

  lemma PresentRead(k: BoxKind, s: Bytes)
    ensures Read(k, [1] + s) == ReadValue(k, s)
  {
    assert ReadBoolean([1] + s) == Success(Decoded(true, s));
  }

  /**
   * A boxed number, character or boolean is one `true` byte and then exactly
   * the primitive's fixed-width write; null is the single byte `false`.
   */
  lemma BoxedLayout(k: BoxKind, v: JValue)
    requires k != KString && Matches(k, v)
    ensures Write(k, v) == Emit([1] + PrimitiveExternalizer.Payload(Unboxed(k), v))
    ensures |Write(k, v).bytes| == 1 + PrimitiveExternalizer.Width(Unboxed(k))
    ensures Write(k, Null) == Emit([0])
  {
    PrimitiveExternalizer.WriteWidth(Unboxed(k), v);
  }

  /**
   * A String is `true`, the 2-byte length of its modified UTF-8 form, then
   * that form; one whose form exceeds 65535 bytes throws after the presence byte.
   */
  lemma StringLayout(cs: seq<uint16>)
    ensures |UtfBody(cs)| <= 0xFFFF ==>
      Write(KString, Str(cs)) == Emit([1] + BigEndian(2, |UtfBody(cs)|) + UtfBody(cs))
    ensures |UtfBody(cs)| > 0xFFFF ==> Write(KString, Str(cs)) == Written([1], Some(UtfTooLong))
  {
  }
}
