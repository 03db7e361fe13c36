/**
 * The Java side the engine reflects over: declared types (classes with the
 * library types they are assignable to, their declared fields and generic
 * type arguments) and the values those fields hold.
 */
module JavaTypes {
  import opened DataIO

  /** The eight primitive TYPE classes (int.class, short.class, ...). */
  datatype PrimKind = PInt | PShort | PLong | PFloat | PDouble | PBoolean | PByte | PChar

  /** String and the eight boxed classes of java.lang. */
  datatype BoxKind = KString | KLong | KInteger | KShort | KDouble | KFloat | KCharacter | KByte | KBoolean

  /** The java.util and java.time classes with a dedicated codec. */
  datatype TimeKind =
    TCalendar | TDate | TDuration | TInstant | TLocalDate | TLocalDateTime | TLocalTime | TMonthDay | TPeriod | TYear

  /**
   * The library types a dispatcher tests with `X.class.isAssignableFrom(clazz)`:
   * a class is assignable to `LangClass(KString)` exactly when it is String, to
   * `TimeClass(TDate)` when it is Date or a subclass of it, and so on.
   */
  datatype Library = MapInterface | CollectionInterface | LangClass(lang: BoxKind) | TimeClass(time: TimeKind)

  /**
   * A declared type.  `assignableTo` lists the library types the class is a
   * subtype of; `publicNoArgConstructor` is whether `getConstructor()` finds
   * one; `instantiable` is whether `newInstance()` succeeds (false for
   * interfaces, abstract classes and classes without an accessible no-arg
   * constructor); `initial` holds the field values that constructor leaves.
   */
  datatype JClass =
    | PrimitiveType(primitive: PrimKind)
    | ArrayType(component: JClass)
    | ClassType(name: string, assignableTo: set<Library>, publicNoArgConstructor: bool, instantiable: bool,
                declaredFields: seq<Field>, initial: map<string, JValue>)

  /** An actual type argument of a parameterized field type: a plain class, or anything else. */
  datatype TypeArg = ClassArg(argClass: JClass) | OtherArg

  /** A declared field, as `getDeclaredFields()` reports it. */
  datatype Field = Field(name: string, declared: JClass, typeArgs: seq<TypeArg>, isStatic: bool, isTransient: bool)

  /**
   * A value held by a field or an element.  A Java object is the map from its
   * field names to their values; a collection is its elements in iteration
   * order; a map is its entries in iteration order.
   */
  datatype JValue =
    | Null
    | Int(i: int32)
    | Long(l: int64)
    | Short(s: int16)
    | Byte(b: int8)
    | Char(c: uint16)
    | Bool(z: bool)
    | Float(floatBits: uint32)
    | Double(doubleBits: uint64)
    | Str(chars: seq<uint16>)
    | Date(dateMillis: int64)
    | Calendar(calendarMillis: int64)
    | Duration(seconds: int64, durationNanos: int32)
    | Instant(epochSecond: int64, instantNanos: int32)
    | LocalDate(epochDay: int64)
    | LocalDateTime(dateEpochDay: int64, nanoOfDay: int64)
    | LocalTime(timeNanoOfDay: int64)
    | MonthDay(month: int8, day: int8)
    | Period(years: int32, months: int32, days: int32)
    | Year(year: int32)
    | Array(elements: seq<JValue>)
    | Coll(items: seq<JValue>)
    | Entries(entries: seq<(JValue, JValue)>)
    | Object(fields: map<string, JValue>)

  function PrimitiveName(k: PrimKind): string
  {
    match k
    case PInt => "int"
    case PShort => "short"
    case PLong => "long"
    case PFloat => "float"
    case PDouble => "double"
    case PBoolean => "boolean"
    case PByte => "byte"
    case PChar => "char"
  }

  /** The name a build or decode error reports for a type. */
  function TypeName(c: JClass): string
  {
    match c
    case PrimitiveType(k) => PrimitiveName(k)
    case ArrayType(comp) => TypeName(comp) + "[]"
    case ClassType(n, _, _, _, _, _) => n
  }

  /** The library types a declared type is assignable to (none for primitive and array types). */
  function Supertypes(c: JClass): set<Library>
  {
    if c.ClassType? then c.assignableTo else {}
  }
}
