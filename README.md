# externalizor: the per-field binary codec engine

Externalizor serializes Java objects without `java.io.Serializable`. For each class it builds, by reflection, a `ClassExternalizer`: an ordered list of field codecs, one per declared field that is neither static nor transient. Writing an object runs those codecs in order. Each codec appends its field's value to a `java.io.ObjectOutput` through the `DataOutput` calls:

- big-endian `writeInt`, `writeLong`, `writeShort` and `writeChar`;
- a one-byte `writeBoolean`;
- `writeUTF`.

The field codec is chosen by the field's declared type, first match wins: primitive, array, map or collection, `String` or boxed type, `java.util`/`java.time` date and time types, and otherwise a nested class codec.

- A primitive field writes its fixed-width value and nothing else.
- Array, collection, map, `String` and boxed fields write a presence byte (`false` for null). A non-null value is followed by its payload, or by a 4-byte count and the elements or entries.
- Date/time and nested-object fields are a `FieldParentExternalizer`. It adds no byte of its own and hands the field's value to the class-level codec.
  - A time codec writes its own presence byte.
  - A nested class codec writes only the nested object's fields. A null nested object therefore throws, or, when its class has no fields, reads back as a new instance (see Findings).
- `Externalizor` caches one codec per class. Its `serializeRaw` and `deserializeRaw` check their arguments, then run the codec of the class.

The model is split into these modules:

- **`Results`**: the exceptions as an `Error` datatype, plus `Result` and `Option`.
- **`DataIO`**: the `DataOutput`/`DataInput` encodings over bytes.
  - Two's-complement widths are written out explicitly.
  - `writeUTF` is modified UTF-8 with its 65535-byte limit.
  - `Written` is what a run of writes leaves behind: the bytes, and the exception that stopped the run, if any.
- **`JavaTypes`**: declared types, fields and their type arguments, and values.
  - An object is the map from its field names to their values.
- **`PrimitiveExternalizer`, `LangExternalizer`, `TimeExternalizer`**: the dispatchers and the leaf codecs of each file.
- **`Externalizer`**: both `of` dispatchers, the array and collection dispatchers, `getGeneric`, and the construction of a class's schema. A codec is a value of the `Codec` datatype.
- **`Wire`**: what every codec writes (`Write`, `WriteField`) and reads (`ReadObject`, `ReadExternal`), as functions over bytes.
- **`Runtime`**: the same codecs as methods on a mutable output stream, input stream and decoded instance. In the order of the Java code:
  - a `for` loop over the elements;
  - `new T[size]` filled slot by slot;
  - `while (size-- > 0)`;
  - `field.set` on the instance;
  - the constructor's loop over the declared fields.

  Each method is proved to do exactly what the `Wire` function says.
- **`RoundTrip`**: for every well-formed codec and every value it writes without an exception, reading back gives `Restore(c, v)`:
  - the value itself for primitive, `String`, boxed and date/time values;
  - arrays, collections and maps with their elements restored in order;
  - each nested object as a new instance that holds what its constructor set, with its kept fields overwritten by the values read.

  Collections and maps come back only under the corrected reader described below. A null nested object can be written only when its class has no kept fields, and it then reads back as a new instance.
- **`Externalizor`**: the codec cache as a class, and the two raw entry points.
- **`Findings`**: where the code as written does not read back what it wrote.
- **`Properties`**: the remaining properties that relate several operations.

Some behaviour is modelled as corrected; what the code as written does instead is proved beside it, in `Findings` and in `Externalizor.DeserializeGuardAsWritten`:

- the map and collection codecs read their presence byte;
- `deserializeRaw` checks the class.

Nested-object fields are modelled as written, with no presence byte. `Findings` states what a null nested object does, and proves the evidently intended framed alternative (`Findings.NestedCorrected`) beside it.

Some features described in the library's documentation are absent from the code, and are not modelled:

- null/boolean bitmaps;
- block compression;
- enums by name;
- walking superclass fields;
- an opaque `Serializable` fallback.

## Model

Source paths are relative to the repository root.

| member | source | states |
|---|---|---|
| Externalizer.Of | src/main/java/com/qwazr/externalizor/Externalizer.java:25-32 | the class-level codec is a lang codec, a time codec or a class codec, always well formed; building fails only with a missing-constructor or generic-type error |
| Externalizer.OfPrefersLang | src/main/java/com/qwazr/externalizor/Externalizer.java:27-28 | a class assignable to String or a boxed type gets a lang codec, and it is the earliest kind, in the dispatch order, that the class is assignable to |
| Externalizer.OfTimeWhenNotLang | src/main/java/com/qwazr/externalizor/Externalizer.java:29-30 | a class that is no lang type but is a date/time type gets the time codec of the earliest such type in the dispatch order |
| Externalizer.OfClassOtherwise | src/main/java/com/qwazr/externalizor/Externalizer.java:31 | any other class gets its ClassExternalizer |
| Externalizer.ClassOf | src/main/java/com/qwazr/externalizor/ClassExternalizer.java:32-44 | the class codec carries the class's name and is well formed; it fails only with a build error |
| Externalizer.Schema | src/main/java/com/qwazr/externalizor/ClassExternalizer.java:36-43 | every codec of the schema is a well-formed field codec; a failure is a build error |
| Externalizer.SchemaFields | src/main/java/com/qwazr/externalizor/ClassExternalizer.java:34-43 | the schema exists iff every kept (non-static, non-transient) field has a codec; it then has one codec per kept field, in declaration order, each the codec `of(Field, Class)` builds; otherwise the error is that of the first kept field that fails |
| Externalizer.SchemaFailureSticks | src/main/java/com/qwazr/externalizor/ClassExternalizer.java:36-43 | once a field's codec fails, the construction fails with that error, whatever fields follow |
| Externalizer.OfField | src/main/java/com/qwazr/externalizor/Externalizer.java:34-49 | every field gets a well-formed field codec bound to that field (never null); a failure is a build error |
| Externalizer.PrimitiveFieldCodec | src/main/java/com/qwazr/externalizor/Externalizer.java:36-38 | a primitive field always gets the primitive field codec of its kind |
| Externalizer.PrimitiveArrayCodec | src/main/java/com/qwazr/externalizor/ArrayExternalizer.java:25-44 | an array of a primitive type gets the fixed-width array codec of that type |
| Externalizer.BoxedArrayCodec | src/main/java/com/qwazr/externalizor/ArrayExternalizer.java:45-65 | an array of String or of a boxed type gets the array codec over that component's lang codec |
| Externalizer.OtherArrayFallsThrough | src/main/java/com/qwazr/externalizor/Externalizer.java:39-48 | any other array gets no array codec and falls through to a `FieldParentExternalizer` around the ClassExternalizer of the array class (no fields, not instantiable), with no presence byte; the component's codec is still built first, so its error escapes |
| Externalizer.Array | src/main/java/com/qwazr/externalizor/ArrayExternalizer.java:25-67 | the array dispatcher yields an array codec bound to the field, or nothing, or a build error |
| Externalizer.Collection | src/main/java/com/qwazr/externalizor/CollectionExternalizer.java:27-34 | the collection dispatcher yields a map or collection codec bound to the field, or nothing, or a build error |
| Externalizer.MapFieldCodec | src/main/java/com/qwazr/externalizor/CollectionExternalizer.java:27-29 | a Map field (tested before Collection) gets the map codec over the class codecs of its two type arguments |
| Externalizer.CollectionFieldCodec | src/main/java/com/qwazr/externalizor/CollectionExternalizer.java:30-31 | a Collection field gets the collection codec over the class codec of its type argument, fixed at build time |
| Externalizer.MissingConstructorRejected | src/main/java/com/qwazr/externalizor/FieldExternalizer.java:92-99 | a map or collection type without a public no-argument constructor fails the build with an error naming the type |
| Externalizer.RawCollectionRejected | src/main/java/com/qwazr/externalizor/FieldExternalizer.java:101-104 | a collection field without a type argument fails the build |
| Externalizer.GetGeneric | src/main/java/com/qwazr/externalizor/FieldExternalizer.java:101-104 | `getGeneric(pos)` succeeds only for a plain class argument at pos, and is then the class-level codec of that class |
| Externalizer.LangFieldCodec | src/main/java/com/qwazr/externalizor/Externalizer.java:44-45 | a String or boxed field that is no collection gets a lang field codec of a kind it is assignable to |
| Externalizer.TimeFieldCodec | src/main/java/com/qwazr/externalizor/TimeExternalizer.java:60-91 | a date/time field gets the same class-level time codec, wrapped in FieldParentExternalizer |
| Externalizer.NestedClassCodec | src/main/java/com/qwazr/externalizor/Externalizer.java:48 | any other field gets a `FieldParentExternalizer` around the ClassExternalizer of its type, with no presence byte, or that codec's build error |
| PrimitiveExternalizer.Primitive | src/main/java/com/qwazr/externalizor/PrimitiveExternalizer.java:25-43 | the eight tests, in source order, return a codec exactly for the primitive TYPE classes, each the codec of its own kind; any other class gets none |
| PrimitiveExternalizer.WriteWidth | src/main/java/com/qwazr/externalizor/PrimitiveExternalizer.java:197-201 | a primitive field writes no presence byte, only its value: int 4 bytes, long 8, short and char 2, byte and boolean 1, float 4, double 8 |
| PrimitiveExternalizer.RoundTrip | src/main/java/com/qwazr/externalizor/PrimitiveExternalizer.java:197-212 | reading a written primitive gives the value back and leaves the following bytes |
| PrimitiveExternalizer.ReadConsumesWidth | src/main/java/com/qwazr/externalizor/PrimitiveExternalizer.java:209-212 | a primitive read succeeds iff its width of bytes remains, consumes exactly those, and otherwise hits the end of stream |
| PrimitiveExternalizer.Payload | src/main/java/com/qwazr/externalizor/PrimitiveExternalizer.java:191-383 | defined as the one DataOutput write of the kind: writeInt, writeShort, writeLong, writeFloat, writeDouble, writeBoolean, writeByte or writeChar of the value |
| PrimitiveExternalizer.Write | src/main/java/com/qwazr/externalizor/PrimitiveExternalizer.java:197-201 | defined as writeExternal: unboxing null throws NullPointerException, a value of another type does not convert, otherwise the payload alone (width: `PrimitiveExternalizer.WriteWidth`) |
| PrimitiveExternalizer.Read | src/main/java/com/qwazr/externalizor/PrimitiveExternalizer.java:209-212 | defined as readObject: the DataInput read of the kind, boxed (inverse: `PrimitiveExternalizer.RoundTrip`) |
| LangExternalizer.Lang | src/main/java/com/qwazr/externalizor/LangExternalizer.java:31-52 | the lang dispatch yields the earliest of String, Long, Integer, Short, Double, Float, Character, Byte, Boolean the class is assignable to, and nothing iff it is assignable to none |
| LangExternalizer.BoxedLayout | src/main/java/com/qwazr/externalizor/LangExternalizer.java:116-131 | a boxed value is `true` then its primitive payload (1 + width bytes); null is the single byte `false` |
| LangExternalizer.StringLayout | src/main/java/com/qwazr/externalizor/LangExternalizer.java:82-97 | a String is `true`, a 2-byte length and its modified UTF-8; past 65535 bytes the write throws after the presence byte |
| LangExternalizer.RoundTrip | src/main/java/com/qwazr/externalizor/LangExternalizer.java:116-131 | every encodable value, null included, reads back as itself |
| LangExternalizer.NullRoundTrip | src/main/java/com/qwazr/externalizor/LangExternalizer.java:82-97 | null is written as `false` and read back as null |
| LangExternalizer.PresentRoundTrip | src/main/java/com/qwazr/externalizor/LangExternalizer.java:85-96 | a non-null value of the codec's kind reads back as itself |
| LangExternalizer.ValueRoundTrip | src/main/java/com/qwazr/externalizor/LangExternalizer.java:244-259 | what the field form's writeValue writes, its reader reads back |
| LangExternalizer.WriteValue | src/main/java/com/qwazr/externalizor/LangExternalizer.java:250-253 | defined as the field form's writeValue: writeUTF for a String, the primitive write otherwise; a value of another type does not convert (inverse: `LangExternalizer.ValueRoundTrip`) |
| LangExternalizer.Write | src/main/java/com/qwazr/externalizor/LangExternalizer.java:116-126 | defined as writeExternal: `false` for null, else `true` and writeValue (layout: `LangExternalizer.BoxedLayout`, `LangExternalizer.StringLayout`) |
| LangExternalizer.ReadValue | src/main/java/com/qwazr/externalizor/LangExternalizer.java:255-258 | defined as the read after the presence byte: readUTF for a String, the primitive read otherwise |
| LangExternalizer.Read | src/main/java/com/qwazr/externalizor/LangExternalizer.java:128-130 | defined as readObject: `in.readBoolean() ? in.readX() : null` (inverse: `LangExternalizer.RoundTrip`) |
| DataIO.UtfRoundTrip | src/main/java/com/qwazr/externalizor/LangExternalizer.java:252-257 | readUTF returns the string writeUTF wrote and consumes exactly its bytes |
| DataIO.WriteUtf | src/main/java/com/qwazr/externalizor/LangExternalizer.java:252 | writeUTF succeeds iff the modified UTF-8 body fits 65535 bytes, and then writes 2 + body bytes |
| DataIO.ReadUtf | src/main/java/com/qwazr/externalizor/LangExternalizer.java:255-258 | defined as readUTF: the 2-byte unsigned length, then that many bytes decoded as modified UTF-8; a short stream or a malformed byte throws (proved inverse: `DataIO.UtfRoundTrip`) |
| DataIO.UtfCharDecodes | src/main/java/com/qwazr/externalizor/LangExternalizer.java:252-257 | decoding the 1-, 2- or 3-byte modified UTF-8 form of one char followed by more bytes gives that char ahead of what the following bytes decode to, or their error |
| DataIO.UtfBodyDecodes | src/main/java/com/qwazr/externalizor/LangExternalizer.java:252-257 | the modified UTF-8 body of a string decodes back to exactly that string |
| DataIO.WriteBoolean | src/main/java/com/qwazr/externalizor/FieldExternalizer.java:51-57 | defined as writeBoolean: one byte, 1 for true and 0 for false |
| DataIO.ReadBoolean | src/main/java/com/qwazr/externalizor/LangExternalizer.java:94-95 | readBoolean succeeds exactly when a byte remains (an empty stream throws EOFException); by definition any non-zero byte is true |
| DataIO.WriteByte | src/main/java/com/qwazr/externalizor/PrimitiveExternalizer.java:143-146 | defined as writeByte: the byte in two's complement |
| DataIO.ReadByte | src/main/java/com/qwazr/externalizor/PrimitiveExternalizer.java:149-151 | defined as readByte: one byte read back as a signed value; an empty stream throws |
| DataIO.WriteShort | src/main/java/com/qwazr/externalizor/PrimitiveExternalizer.java:101-104 | defined as writeShort: 2 bytes, big-endian two's complement |
| DataIO.ReadShort | src/main/java/com/qwazr/externalizor/PrimitiveExternalizer.java:107-109 | defined as readShort: 2 big-endian bytes as a signed value; fewer than 2 throw |
| DataIO.WriteChar | src/main/java/com/qwazr/externalizor/PrimitiveExternalizer.java:157-160 | defined as writeChar: the UTF-16 code unit in 2 big-endian bytes |
| DataIO.ReadChar | src/main/java/com/qwazr/externalizor/PrimitiveExternalizer.java:163-165 | defined as readChar: 2 big-endian bytes as an unsigned code unit |
| DataIO.WriteInt | src/main/java/com/qwazr/externalizor/PrimitiveExternalizer.java:73-76 | defined as writeInt: 4 bytes, big-endian two's complement |
| DataIO.ReadInt | src/main/java/com/qwazr/externalizor/PrimitiveExternalizer.java:79-81 | defined as readInt: 4 big-endian bytes as a signed value; fewer than 4 throw |
| DataIO.WriteLong | src/main/java/com/qwazr/externalizor/PrimitiveExternalizer.java:87-90 | defined as writeLong: 8 bytes, big-endian two's complement |
| DataIO.ReadLong | src/main/java/com/qwazr/externalizor/PrimitiveExternalizer.java:93-95 | defined as readLong: 8 big-endian bytes as a signed value; fewer than 8 throw |
| DataIO.WriteFloat | src/main/java/com/qwazr/externalizor/PrimitiveExternalizer.java:115-118 | defined as writeFloat: the 32-bit pattern in 4 big-endian bytes |
| DataIO.ReadFloat | src/main/java/com/qwazr/externalizor/PrimitiveExternalizer.java:121-123 | defined as readFloat: 4 big-endian bytes as a 32-bit pattern |
| DataIO.WriteDouble | src/main/java/com/qwazr/externalizor/PrimitiveExternalizer.java:129-132 | defined as writeDouble: the 64-bit pattern in 8 big-endian bytes |
| DataIO.ReadDouble | src/main/java/com/qwazr/externalizor/PrimitiveExternalizer.java:135-137 | defined as readDouble: 8 big-endian bytes as a 64-bit pattern |
| DataIO.BooleanRoundTrip | src/main/java/com/qwazr/externalizor/FieldExternalizer.java:51-57 | readBoolean after writeBoolean gives the value back and leaves the following bytes |
| DataIO.ByteRoundTrip | src/main/java/com/qwazr/externalizor/PrimitiveExternalizer.java:143-151 | readByte after writeByte gives the byte back and leaves the following bytes |
| DataIO.ShortRoundTrip | src/main/java/com/qwazr/externalizor/PrimitiveExternalizer.java:101-109 | readShort after writeShort gives the value back and leaves the following bytes |
| DataIO.CharRoundTrip | src/main/java/com/qwazr/externalizor/PrimitiveExternalizer.java:157-165 | readChar after writeChar gives the code unit back and leaves the following bytes |
| DataIO.IntRoundTrip | src/main/java/com/qwazr/externalizor/PrimitiveExternalizer.java:73-81 | readInt after writeInt gives the value back and leaves the following bytes |
| DataIO.LongRoundTrip | src/main/java/com/qwazr/externalizor/PrimitiveExternalizer.java:87-95 | readLong after writeLong gives the value back and leaves the following bytes |
| DataIO.FloatRoundTrip | src/main/java/com/qwazr/externalizor/PrimitiveExternalizer.java:115-123 | readFloat after writeFloat gives the bit pattern back and leaves the following bytes |
| DataIO.DoubleRoundTrip | src/main/java/com/qwazr/externalizor/PrimitiveExternalizer.java:129-137 | readDouble after writeDouble gives the bit pattern back and leaves the following bytes |
| DataIO.IntIsBigEndian | src/main/java/com/qwazr/externalizor/PrimitiveExternalizer.java:73-76 | the 4 bytes writeInt writes, read as an unsigned big-endian number, are the 32-bit two's-complement pattern of the value (x + 2^32 for a negative x): the most significant byte comes first |
| DataIO.BigEndianOfUnsigned | src/main/java/com/qwazr/externalizor/PrimitiveExternalizer.java:79-81 | any k bytes are the big-endian form of the unsigned number they encode, so reading a value and writing it back gives the same bytes |
| TimeExternalizer.Time | src/main/java/com/qwazr/externalizor/TimeExternalizer.java:35-58 | the time dispatch yields the earliest of Calendar, Date, Duration, Instant, LocalDate, LocalDateTime, LocalTime, MonthDay, Period, Year the class is assignable to, and nothing iff none |
| TimeExternalizer.Layout | src/main/java/com/qwazr/externalizor/TimeExternalizer.java:103-109 | null is `false`; a value is `true` then its payload, of the kind's fixed width (Date, Calendar, LocalDate and LocalTime 8 bytes, Duration and Instant 12, LocalDateTime 16, MonthDay 2, Period 12, Year 4) |
| TimeExternalizer.PayloadRoundTrip | src/main/java/com/qwazr/externalizor/TimeExternalizer.java:140-298 | each payload has its kind's width and reads back as the value (Duration seconds then nanos, LocalDateTime epoch day then nano of day, Period years, months and days) |
| TimeExternalizer.RoundTrip | src/main/java/com/qwazr/externalizor/TimeExternalizer.java:98-298 | every date/time value and null reads back as itself |
| TimeExternalizer.NullRoundTrip | src/main/java/com/qwazr/externalizor/TimeExternalizer.java:103-113 | null is `false` and reads back as null |
| TimeExternalizer.PresentRoundTrip | src/main/java/com/qwazr/externalizor/TimeExternalizer.java:145-157 | `true` and a payload read back as the value |
| TimeExternalizer.Payload | src/main/java/com/qwazr/externalizor/TimeExternalizer.java:103-298 | defined as the writes after the presence byte, part by part in the source's order (Duration seconds then nanos, Period years, months, days, and so on) |
| TimeExternalizer.Write | src/main/java/com/qwazr/externalizor/TimeExternalizer.java:103-109 | defined as writeExternal: `false` for null, else `true` and the payload (layout: `TimeExternalizer.Layout`) |
| TimeExternalizer.ReadPayload | src/main/java/com/qwazr/externalizor/TimeExternalizer.java:112-298 | defined as the factory call on the parts read in the order they were written; `Calendar.getInstance()` is reduced to its milliseconds (inverse: `TimeExternalizer.PayloadRoundTrip`) |
| TimeExternalizer.Read | src/main/java/com/qwazr/externalizor/TimeExternalizer.java:112-114 | defined as readObject: `in.readBoolean() ? rebuild(...) : null` (inverse: `TimeExternalizer.RoundTrip`) |
| Wire.Write | src/main/java/com/qwazr/externalizor/Externalizer.java:51 | defined as writeExternal of a codec on a value: the leaf codecs' writes, a class's field codecs in schema order on the object, and a field codec on the field it reads out of the holder (inverse: `RoundTrip.ObjectRoundTrip`) |
| Wire.WriteField | src/main/java/com/qwazr/externalizor/FieldExternalizer.java:48-58 | defined as a field codec's write of the field value: the primitive write, the lang write, `Wire.Framed` around `Wire.Body` for arrays, collections, maps and framed nested objects, and the class write for a FieldParentExternalizer |
| Wire.Framed | src/main/java/com/qwazr/externalizor/FieldExternalizer.java:51-57 | defined as FieldObjectExternalizer.writeExternal: `false` for null, else `true` then writeValue |
| Wire.Sized | src/main/java/com/qwazr/externalizor/CollectionExternalizer.java:49 | defined as `out.writeInt(size)`; a count above 2^31 - 1 is a `TooManyElements` failure |
| Wire.Body | src/main/java/com/qwazr/externalizor/CollectionExternalizer.java:46-52 | defined as writeValue: the length or size, then each element, or each key and value, with the component codec |
| Wire.WriteElements | src/main/java/com/qwazr/externalizor/CollectionExternalizer.java:50-51 | defined as the element loop, writes concatenated in order, stopping at the first exception (`Wire.ElementsWriteFailureSticks`) |
| Wire.WriteEntries | src/main/java/com/qwazr/externalizor/CollectionExternalizer.java:80-83 | defined as the entry loop, key then value for each entry in order (`Wire.EntriesWriteFailureSticks`) |
| Wire.WriteFields | src/main/java/com/qwazr/externalizor/ClassExternalizer.java:47-51 | defined as ClassExternalizer.writeExternal: each field codec in schema order on the object (`Wire.FieldsWriteFailureSticks`) |
| Wire.Count | src/main/java/com/qwazr/externalizor/CollectionExternalizer.java:57 | defined as the number of iterations of `while (size-- > 0)`: 0 for a negative size, the size otherwise |
| Wire.ReadObject | src/main/java/com/qwazr/externalizor/Externalizer.java:55 | defined as readObject of a codec: the leaf reads, a class's new instance filled by `Wire.ReadFields` (CannotCreateInstance when `newInstance()` fails), and the field codecs' readers (inverse: `RoundTrip.ObjectRoundTrip`) |
| Wire.ReadArray | src/main/java/com/qwazr/externalizor/ArrayExternalizer.java:78-99 | defined as FieldArrayExternalizer.readObject: the presence byte, `false` is null, else the length, a negative length rejected, then that many component reads |
| Wire.ReadCollection | src/main/java/com/qwazr/externalizor/CollectionExternalizer.java:54-61 | defined as written: `newInstance()`, `readInt` as the size with no presence byte, then `Count(size)` element reads appended in order (discrepancy: `Findings.CollectionAsWritten`) |
| Wire.ReadMap | src/main/java/com/qwazr/externalizor/CollectionExternalizer.java:86-93 | defined as written: `newInstance()`, `readInt` as the size with no presence byte, then `Count(size)` entry reads put in order (discrepancy: `Findings.MapAsWritten`) |
| Wire.ReadElements | src/main/java/com/qwazr/externalizor/CollectionExternalizer.java:57-59 | defined as n element reads, in order, ending at the first exception (`Wire.ElementsReadFailureSticks`, count: `Findings.ElementsCount`) |
| Wire.ReadEntries | src/main/java/com/qwazr/externalizor/CollectionExternalizer.java:89-91 | defined as n entry reads, each put into the map built so far (`Wire.EntriesReadFailureSticks`) |
| Wire.ReadEntry | src/main/java/com/qwazr/externalizor/CollectionExternalizer.java:91 | defined as `keyExternalizer.readObject(in)` then `valueExternalizer.readObject(in)`, in that order |
| Wire.Put | src/main/java/com/qwazr/externalizor/CollectionExternalizer.java:91 | defined as `map.put(key, value)` on the entries in insertion order, with keys compared structurally (see "## Left out"); properties: `Wire.PutEntries` |
| Wire.ReadFields | src/main/java/com/qwazr/externalizor/ClassExternalizer.java:54-58 | defined as ClassExternalizer.readExternal: each field codec's readExternal in schema order on the instance (`Wire.FieldsReadFailureSticks`) |
| Wire.ReadExternal | src/main/java/com/qwazr/externalizor/FieldExternalizer.java:42-46 | defined as readExternal: a field codec sets its field to what its readObject returns, a class codec runs its schema, the standalone leaf codecs throw (`Properties.StandaloneReadExternalThrows`) |
| Wire.Get | src/main/java/com/qwazr/externalizor/FieldExternalizer.java:51 | `field.get(object)` gives the field's value of an object that has it, and throws NullPointerException on null |
| Wire.PutEntries | src/main/java/com/qwazr/externalizor/CollectionExternalizer.java:91 | `put` adds the key to the key set; a new key is appended, an existing one has its value replaced in place and the length is unchanged; "existing" is structural equality of the key values, not Java `equals`/`hashCode` |
| Wire.ElementsWriteFailureSticks | src/main/java/com/qwazr/externalizor/CollectionExternalizer.java:50-51 | an exception while writing an element ends the loop: the remaining elements write nothing |
| Wire.EntriesWriteFailureSticks | src/main/java/com/qwazr/externalizor/CollectionExternalizer.java:80-83 | an exception while writing an entry ends the entry loop |
| Wire.FieldsWriteFailureSticks | src/main/java/com/qwazr/externalizor/ClassExternalizer.java:49-50 | an exception in a field codec ends writeExternal: later fields write nothing |
| Wire.ElementsReadFailureSticks | src/main/java/com/qwazr/externalizor/CollectionExternalizer.java:58-59 | an exception while reading an element ends the read loop with that exception |
| Wire.EntriesReadFailureSticks | src/main/java/com/qwazr/externalizor/CollectionExternalizer.java:90-91 | an exception while reading an entry ends the map read with that exception |
| Wire.FieldsReadFailureSticks | src/main/java/com/qwazr/externalizor/ClassExternalizer.java:56-57 | an exception in a field's readExternal ends the class's readExternal |
| RoundTrip.ObjectRoundTrip | src/main/java/com/qwazr/externalizor/ClassExternalizer.java:46-70 | for any well-formed codec and any value of its shape, writeExternal throws nothing and readObject of its bytes gives back `Restore(c, v)` and leaves the following bytes: each nested object is a new instance holding what its constructor set, overwritten by its kept fields; collections and maps use the corrected reader; a null nested object fits only a class without kept fields, and reads back as a new instance |
| RoundTrip.ClassRoundTrip | src/main/java/com/qwazr/externalizor/ClassExternalizer.java:60-70 | a class codec reads back a new instance whose kept fields hold what was written |
| RoundTrip.FieldsRoundTrip | src/main/java/com/qwazr/externalizor/ClassExternalizer.java:47-58 | the fields written in schema order are read back in the same order, each into its own field |
| RoundTrip.FieldsStep | src/main/java/com/qwazr/externalizor/ClassExternalizer.java:56-57 | one more field codec sets its field to what its readObject decodes |
| RoundTrip.FieldRoundTrip | src/main/java/com/qwazr/externalizor/FieldExternalizer.java:42-58 | a field codec reads back what it wrote for the field |
| RoundTrip.ValueRoundTrip | src/main/java/com/qwazr/externalizor/FieldExternalizer.java:51-57 | given the field's value, a field codec reads back what it wrote |
| RoundTrip.NullField | src/main/java/com/qwazr/externalizor/FieldExternalizer.java:51-55 | a null value of a presence-framed field is exactly one `false` byte, and that byte reads back as null |
| RoundTrip.PresentField | src/main/java/com/qwazr/externalizor/FieldExternalizer.java:56-57 | a non-null value is `true` followed by exactly writeValue's output |
| RoundTrip.LangFieldRoundTrip | src/main/java/com/qwazr/externalizor/LangExternalizer.java:244-259 | a lang field reads back its value, null included |
| RoundTrip.LangFieldSameBytes | src/main/java/com/qwazr/externalizor/LangExternalizer.java:244-259 | the field form and the standalone form of a lang codec write the same bytes |
| RoundTrip.ReadPresent | src/main/java/com/qwazr/externalizor/ArrayExternalizer.java:79-83 | after a `true` presence byte, array, collection and map fields read the count and the elements |
| RoundTrip.SizedFrame | src/main/java/com/qwazr/externalizor/CollectionExternalizer.java:47-52 | a present container field is `true`, the count as an int, then the elements |
| RoundTrip.ReadArraySized | src/main/java/com/qwazr/externalizor/ArrayExternalizer.java:94-99 | a count and n elements read as the array of those n elements |
| RoundTrip.ReadCollectionSized | src/main/java/com/qwazr/externalizor/CollectionExternalizer.java:55-61 | a count and n elements read as the collection of those n elements in stream order |
| RoundTrip.ReadMapSized | src/main/java/com/qwazr/externalizor/CollectionExternalizer.java:87-93 | a count and n entries read as the map those `put`s build |
| RoundTrip.ArrayRoundTrip | src/main/java/com/qwazr/externalizor/ArrayExternalizer.java:94-107 | an array field, null or not, reads back with its elements in index order |
| RoundTrip.CollectionRoundTrip | src/main/java/com/qwazr/externalizor/CollectionExternalizer.java:46-61 | a collection field, null or not, reads back with its elements in iteration order (presence byte read, as corrected) |
| RoundTrip.MapRoundTrip | src/main/java/com/qwazr/externalizor/CollectionExternalizer.java:76-93 | a map field whose keys stay distinct reads back with its entries in iteration order (presence byte read, as corrected) |
| RoundTrip.NullableRoundTrip | src/main/java/com/qwazr/externalizor/Externalizer.java:48 | the evidently intended nested-object field (a presence byte, then the class codec) reads back, null included; the dispatch itself builds the unframed codec |
| RoundTrip.ElementsRoundTrip | src/main/java/com/qwazr/externalizor/CollectionExternalizer.java:50-59 | elements written one after another by the element codec throw nothing, and reading as many back gives each element, in order, rebuilt by its codec |
| RoundTrip.EntriesRoundTrip | src/main/java/com/qwazr/externalizor/CollectionExternalizer.java:80-91 | the entries, each key then value, read back in order when their keys are distinct |
| RoundTrip.EntryRoundTrip | src/main/java/com/qwazr/externalizor/CollectionExternalizer.java:81-82 | one key then one value read back in that order |
| RoundTrip.EntriesStep | src/main/java/com/qwazr/externalizor/CollectionExternalizer.java:91 | putting a new key appends its entry |
| RoundTrip.ElementsStep | src/main/java/com/qwazr/externalizor/CollectionExternalizer.java:59 | one more element read is appended after the ones before |
| Runtime.ObjectOutput.constructor | src/main/java/com/qwazr/externalizor/Externalizor.java:71 | a new output stream holds nothing |
| Runtime.ObjectOutput.Append | src/main/java/com/qwazr/externalizor/PrimitiveExternalizer.java:197-201 | a straight-line run of DataOutput writes appends its bytes and reports its exception |
| Runtime.ObjectInput.constructor | src/main/java/com/qwazr/externalizor/Externalizor.java:118 | a new input stream holds the given bytes |
| Runtime.ObjectInput.Take | src/main/java/com/qwazr/externalizor/PrimitiveExternalizer.java:209-212 | a straight-line run of DataInput reads returns its value and consumes exactly its bytes; a run that throws returns the exception and leaves the input as it was |
| Runtime.JObject.constructor | src/main/java/com/qwazr/externalizor/ClassExternalizer.java:64 | `newInstance()` gives an instance whose fields hold what the constructor sets |
| Runtime.WriteExternal | src/main/java/com/qwazr/externalizor/Externalizer.java:51 | writeExternal appends exactly `Wire.Write`'s bytes to the output and returns its exception |
| Runtime.WriteField | src/main/java/com/qwazr/externalizor/FieldExternalizer.java:48-58 | a field codec appends exactly `Wire.WriteField`'s bytes |
| Runtime.WriteFramed | src/main/java/com/qwazr/externalizor/FieldExternalizer.java:49-57 | `false` for null, else `true` and writeValue, appended as `Wire.Framed` says |
| Runtime.WriteValue | src/main/java/com/qwazr/externalizor/CollectionExternalizer.java:46-52 | writeValue appends the count then the elements or entries, as `Wire.Body` says |
| Runtime.WriteElements | src/main/java/com/qwazr/externalizor/CollectionExternalizer.java:50-51 | the element loop appends exactly `Wire.WriteElements`'s bytes and stops at the first exception (loop invariant on the written prefix) |
| Runtime.WriteNext | src/main/java/com/qwazr/externalizor/CollectionExternalizer.java:51 | writing element i extends the output from the first i elements to the first i + 1 |
| Runtime.WriteEntries | src/main/java/com/qwazr/externalizor/CollectionExternalizer.java:80-83 | the entry loop appends exactly `Wire.WriteEntries`'s bytes |
| Runtime.WriteEntry | src/main/java/com/qwazr/externalizor/CollectionExternalizer.java:81-82 | an entry appends its key's bytes then its value's bytes |
| Runtime.WriteFields | src/main/java/com/qwazr/externalizor/ClassExternalizer.java:47-51 | ClassExternalizer.writeExternal appends the field codecs' bytes in schema order, stopping at the first exception |
| Runtime.WriteNextField | src/main/java/com/qwazr/externalizor/ClassExternalizer.java:50 | running field codec i extends the output from the first i codecs to the first i + 1 |
| Runtime.ReadObject | src/main/java/com/qwazr/externalizor/Externalizer.java:55 | readObject returns `Wire.ReadObject`'s value and leaves exactly its remaining bytes unread, or returns its exception |
| Runtime.ReadArray | src/main/java/com/qwazr/externalizor/ArrayExternalizer.java:79-83 | the length, a rejected negative length, then the slots, as `Wire.ReadArray` says |
| Runtime.ReadSlots | src/main/java/com/qwazr/externalizor/ArrayExternalizer.java:94-99 | `new T[size]` filled by index reads holds exactly the first `size` elements `Wire.ReadElements` reads |
| Runtime.ReadNext | src/main/java/com/qwazr/externalizor/ArrayExternalizer.java:97 | one more element read extends the n elements read so far to n + 1 |
| Runtime.ReadCollection | src/main/java/com/qwazr/externalizor/CollectionExternalizer.java:55-61 | `newInstance()`, the size, then the elements, as `Wire.ReadCollection` says |
| Runtime.ReadItems | src/main/java/com/qwazr/externalizor/CollectionExternalizer.java:57-59 | `while (size-- > 0)` adds exactly `Count(size)` elements (none for a negative size) in stream order |
| Runtime.ReadMap | src/main/java/com/qwazr/externalizor/CollectionExternalizer.java:87-93 | `newInstance()`, the size, then the entries, as `Wire.ReadMap` says |
| Runtime.ReadEntries | src/main/java/com/qwazr/externalizor/CollectionExternalizer.java:89-91 | the put loop builds exactly the map `Wire.ReadEntries` reads |
| Runtime.ReadEntry | src/main/java/com/qwazr/externalizor/CollectionExternalizer.java:91 | an entry is its key, then its value, as read |
| Runtime.ReadExternal | src/main/java/com/qwazr/externalizor/FieldExternalizer.java:42-46 | readExternal sets the instance's fields as `Wire.ReadExternal` says, and consumes its bytes |
| Runtime.ReadFields | src/main/java/com/qwazr/externalizor/ClassExternalizer.java:54-58 | each field codec in schema order reads its field into the instance, as `Wire.ReadFields` says |
| Runtime.NewClassExternalizer | src/main/java/com/qwazr/externalizor/ClassExternalizer.java:32-44 | the constructor's loop over the declared fields builds exactly `ClassOf`'s schema |
| Externalizor.Externalizor.constructor | src/main/java/com/qwazr/externalizor/Externalizor.java:26 | the cache starts empty |
| Externalizor.Externalizor.Of | src/main/java/com/qwazr/externalizor/Externalizor.java:28-30 | `of(c)` returns `Externalizer.of(c)`; a cached codec is returned and nothing changes; otherwise the new codec is added for c alone and every other entry stays; a failed build caches nothing |
| Externalizor.Externalizor.SerializeRaw | src/main/java/com/qwazr/externalizor/Externalizor.java:66-74 | a null object, then a null stream, is rejected with its message; a codec that cannot be built writes nothing; otherwise exactly the codec's writeExternal bytes are appended and its exception returned; after the checks the cache is as `of` leaves it (a hit unchanged, a successful miss adds the class's codec alone, a failed build unchanged), and a rejected call leaves the cache unchanged |
| Externalizor.Externalizor.DeserializeRaw | src/main/java/com/qwazr/externalizor/Externalizor.java:113-122 | a null stream or class is rejected (class check corrected); a rejected call leaves the cache and the stream unchanged; a codec that cannot be built fails with its error and reads nothing; otherwise the result is the class codec's readObject and the stream is left exactly where it stops; the cache is as `of` leaves it (a hit unchanged, a successful miss adds the class's codec alone, a failed build unchanged) |
| Externalizor.DeserializeGuard | src/main/java/com/qwazr/externalizor/Externalizor.java:115-116 | the corrected checks pass iff both the stream and the class are present, each failure with its own message |
| Externalizor.DeserializeGuardAsWritten | src/main/java/com/qwazr/externalizor/Externalizor.java:115-117 | as written, a null stream is rejected with its message, and a null class passes the checks and fails in the cache lookup |
| Externalizor.GuardsDiffer | src/main/java/com/qwazr/externalizor/Externalizor.java:90-91 | the two versions differ exactly for a present stream and a null class, where the message is lost |
| Findings.ElementsCount | src/main/java/com/qwazr/externalizor/CollectionExternalizer.java:57-59 | a successful read of n elements holds exactly n elements |
| Findings.EntriesNonEmpty | src/main/java/com/qwazr/externalizor/CollectionExternalizer.java:90-91 | after at least one `put` the map is not empty |
| Findings.ZeroSize | src/main/java/com/qwazr/externalizor/CollectionExternalizer.java:49 | the size 0 is four zero bytes and reads back as 0 |
| Findings.EmptyFieldBytes | src/main/java/com/qwazr/externalizor/CollectionExternalizer.java:46-52 | an empty collection or map field writes `true` and the size 0: bytes 1, 0, 0, 0, 0 |
| Findings.MisreadSize | src/main/java/com/qwazr/externalizor/CollectionExternalizer.java:57 | read as a size, the presence byte and the next three bytes 1, 0, 0, 0 give 0x01000000 |
| Findings.CollectionAsWritten | src/main/java/com/qwazr/externalizor/CollectionExternalizer.java:54-61 | as written, a null collection field never reads back as null; an empty one reads the size 0x01000000 and then either throws (for instance at the end of the stream) or returns a non-null collection of 0x01000000 elements, never the empty collection |
| Findings.MapAsWritten | src/main/java/com/qwazr/externalizor/CollectionExternalizer.java:86-93 | as written, a null map field never reads back as null; an empty one reads the size 0x01000000 and then either throws or returns a non-null, non-empty map, never the empty map |
| Findings.ReadPresenceFirst | src/main/java/com/qwazr/externalizor/ArrayExternalizer.java:79-83 | the corrected collection read: `false` is null, `true` is followed by the collection |
| Findings.ReadEmptyCollection | src/main/java/com/qwazr/externalizor/CollectionExternalizer.java:55-61 | the size 0 reads as an empty collection |
| Findings.CollectionCorrected | src/main/java/com/qwazr/externalizor/CollectionExternalizer.java:54-61 | corrected, both a null and an empty collection field read back as written |
| Findings.FieldsOfNull | src/main/java/com/qwazr/externalizor/ClassExternalizer.java:47-51 | writeExternal of a class with fields on a null object throws NullPointerException at its first field |
| Findings.NestedNullAsWritten | src/main/java/com/qwazr/externalizor/FieldExternalizer.java:81-85 | as written, a null nested object throws NullPointerException when its class has fields; without fields it writes nothing and reads back as a new instance |
| Findings.NestedNullCorrected | src/main/java/com/qwazr/externalizor/FieldExternalizer.java:51-55 | corrected, a null nested object is one `false` byte and reads back as null |
| Findings.NestedCorrected | src/main/java/com/qwazr/externalizor/Externalizer.java:48 | defined as the evidently intended nested-object codec: the class codec framed by a presence byte, as the other object fields are (`Findings.NestedNullCorrected`) |
| Properties.PrimitiveElementsWidth | src/main/java/com/qwazr/externalizor/ArrayExternalizer.java:101-107 | the elements of a primitive array take width × count bytes, with no exception |
| Properties.PrimitiveElementsStep | src/main/java/com/qwazr/externalizor/ArrayExternalizer.java:105-106 | one more primitive element adds exactly its width |
| Properties.PrimitiveArrayLayout | src/main/java/com/qwazr/externalizor/ArrayExternalizer.java:94-107 | a present primitive array of n elements takes 1 + 4 + width × n bytes (int[] 1 + 4 + 4n, boolean[] 1 + 4 + n, with no bit packing) and starts with `true` and n |
| Properties.EmptyArrayRoundTrip | src/main/java/com/qwazr/externalizor/ArrayExternalizer.java:95-97 | an empty array reads back as an empty array, not as null |
| Properties.NegativeSizeReadsEmptyCollection | src/main/java/com/qwazr/externalizor/CollectionExternalizer.java:57-59 | a negative size reads as an empty collection, consuming only the size |
| Properties.NegativeSizeReadsEmptyMap | src/main/java/com/qwazr/externalizor/CollectionExternalizer.java:89-91 | a negative size reads as an empty map, consuming only the size |
| Properties.NegativeSizeRejectsArray | src/main/java/com/qwazr/externalizor/ArrayExternalizer.java:95 | a negative array length throws NegativeArraySizeException |
| Properties.ReadExternalSetsOnlyItsField | src/main/java/com/qwazr/externalizor/FieldExternalizer.java:42-46 | a field codec's readExternal succeeds iff its readObject does, sets its own field to the decoded value, and leaves every other field as it was |
| Properties.StandaloneReadExternalThrows | src/main/java/com/qwazr/externalizor/PrimitiveExternalizer.java:65-68 | readExternal of a standalone primitive codec throws "Not implemented", and of a lang or time codec "Not available" (LangExternalizer.java:77-80, TimeExternalizer.java:93-96) |
| Properties.ParentAddsNothing | src/main/java/com/qwazr/externalizor/FieldExternalizer.java:70-85 | FieldParentExternalizer writes and reads exactly what its delegate does, with no framing |
| Properties.UninstantiableClassRejected | src/main/java/com/qwazr/externalizor/ClassExternalizer.java:61-67 | readObject of a class whose `newInstance()` fails throws, naming the class |
| Properties.KeptFieldsDeclared | src/main/java/com/qwazr/externalizor/ClassExternalizer.java:34-40 | the kept fields are declared fields that are neither static nor transient; superclass fields are never added |
| Properties.RestoreFieldsKeeps | src/main/java/com/qwazr/externalizor/ClassExternalizer.java:54-58 | a field no codec of the schema names keeps, after readExternal, what the new instance had |
| Properties.SkippedFieldKeepsConstructorValue | src/test/java/com/qwazr/externalizor/ExternalizerTest.java:84 | a transient or static field is not carried over: after a round trip it holds what the no-argument constructor set |

## Left out

- The GZIP `serialize` and `deserialize` entry points (Externalizor.java:43-53, 88-98) are left out. They make the same null checks and call the same codec as `serializeRaw`/`deserializeRaw`, inside a GZIP stream; compression is a foreign library. The null-class check in `deserialize` repeats the one in `deserializeRaw`, and `Externalizor.GuardsDiffer` shows it.
- `ObjectOutputStream`/`ObjectInputStream` framing is left out: the stream header, block-data framing and closing. The model is the logical sequence of `DataOutput` writes.
- Floating-point values are left out: `float` and `double` are carried as their raw 32- and 64-bit patterns (`floatToIntBits`/`doubleToLongBits`).
- `Calendar.getInstance()` and the time zone are left out: a Calendar is its millisecond value only.
- java.time range validation is left out (`Duration.ofSeconds`, `MonthDay.of`, `LocalTime.ofNanoOfDay`): decoded parts are kept as read, with no normalisation.
- Reflection is left out, because it is runtime machinery: `setAccessible`, `Field.get/set` and generic-signature inspection. A class is a datatype of its name, the library types it is assignable to, its declared fields, whether it has a public no-argument constructor and whether `newInstance()` succeeds. An object is the map of its field values.
- Constructor side effects are left out: what `newInstance()` leaves in the fields is the fixed map `initial` of the class.
- Concurrency of `ConcurrentHashMap.computeIfAbsent` is left out: the cache is modelled sequentially.
- The type of the object being serialized is not modelled. `SerializeRaw` takes `objectClass`, the class `object.getClass()` returns, as a parameter.
- `ClassExternalizer.of` is not part of this model: it is called at Externalizer.java:31 and 48 but not defined in ClassExternalizer.java. It is modelled as the constructor at ClassExternalizer.java:32-44 (`Externalizer.ClassOf`, `Runtime.NewClassExternalizer`).
- AutoExternalizor.java is left out: a decorator that forwards to the cache.
- Collection contents are left out. A collection is its elements in iteration order, and a map its entries in iteration order; `add` appends and `put` replaces or appends. A `Set`'s deduplication and a `HashMap`'s iteration order are not modelled: the map round trip assumes distinct keys.
- Resource limits are left out: an `OutOfMemoryError` on a huge decoded size, and stack overflow on cyclic object graphs. Codecs are finite values, so a class containing itself is not modelled.
- The standalone primitive codecs (PrimitiveExternalizer.java:70-180) appear only as array components, because `Externalizer.of(Class)` never returns one. Their readObject and writeExternal are those of the component codec.
- Runtime.ReadItems: `while (size-- > 0)` is modelled as a loop of `Count(size)` iterations: zero for a negative size, `size` otherwise. The post-decrement wrap-around at `Integer.MIN_VALUE` does not occur, because the loop stops first.
- Runtime.ObjectInput.Take: after a read that throws, the model leaves the input where it was, whereas a real stream may have consumed part of the bytes. Nothing reads after an exception, so no property depends on it.
- RoundTrip.ObjectRoundTrip: a field whose declared type is a proper subclass of `Date` (`java.sql.Timestamp`, say) or of `Calendar` (`GregorianCalendar`, when `Calendar.getInstance()` builds another class) gets the `Date` or `Calendar` codec (TimeExternalizer.java:64-65). Its read builds a plain `Date` (TimeExternalizer.java:113) or the `Calendar.getInstance()` object, and `field.set` (FieldExternalizer.java:76-78) then throws IllegalArgumentException. The model keeps only the kind and the milliseconds of a date/time value, so it reads such a field back as written. The round trip is not promised by the source for these fields.
- Wire.Put: map keys are compared structurally, as values, not by the key class's `equals`/`hashCode`. For a key class without `equals` (identity), two distinct but equal-valued keys are two entries in Java and one in the model. `RoundTrip.MapRoundTrip` assumes distinct keys, which avoids the case; the as-written readers (`Wire.ReadMap`, `Findings.MapAsWritten`) do not.
- Sizes (RoundTrip.ObjectRoundTrip and the container round trips): a container of more than 2^31 - 1 elements is written as a `TooManyElements` failure. Java cannot hold one.

## Findings

| source | as written | input that shows it | evidently intended | confidence | as-written member | corrected member |
|---|---|---|---|---|---|---|
| src/main/java/com/qwazr/externalizor/CollectionExternalizer.java:54-61 | the collection codec's readObject starts with `readInt`, but writeExternal (FieldExternalizer.java:51-57) wrote a presence byte first | an empty `ArrayList` field is written as 1, 0, 0, 0, 0 and read as the size 0x01000000, after which the read throws (for instance at the end of the stream) or returns a non-null collection of 0x01000000 elements; a null field is written as 0 and never reads back as null | read the presence byte first, as FieldArrayExternalizer.readObject does (ArrayExternalizer.java:79-83) | not executed | Findings.CollectionAsWritten | Findings.CollectionCorrected |
| src/main/java/com/qwazr/externalizor/CollectionExternalizer.java:86-93 | the map codec's readObject starts with `readInt` and skips the presence byte | an empty `HashMap` field is written as 1, 0, 0, 0, 0 and read as the size 0x01000000, after which the read throws or returns a non-null, non-empty map; a null field never reads back as null | read the presence byte first | not executed | Findings.MapAsWritten | RoundTrip.MapRoundTrip |
| src/main/java/com/qwazr/externalizor/Externalizer.java:48 | a nested-object field is a FieldParentExternalizer around ClassExternalizer, with no presence byte (FieldExternalizer.java:81-85) | a null field whose class has fields throws NullPointerException on write; one whose class has no fields writes nothing and reads back as a new instance | frame the nested object with a presence byte like the other object fields | not executed | Findings.NestedNullAsWritten | Findings.NestedNullCorrected |
| src/main/java/com/qwazr/externalizor/Externalizor.java:115-116 | both null checks test `input`, so the class is never checked (the same at lines 90-91) | a present stream and a null class pass the checks and then fail in `computeIfAbsent(null)` with no message | check `clazz` with "The class is null" | not executed | Externalizor.DeserializeGuardAsWritten | Externalizor.DeserializeGuard |

The collection and map rows are used corrected in the rest of the model. The nested-object row is not: the unframed layout is the library's wire format for every non-null nested object, so `Externalizer.OfField` keeps it as written. The framed codec is `Findings.NestedCorrected`.
