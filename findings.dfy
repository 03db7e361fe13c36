/**
 * Two places where the codecs as written do not read back what they wrote:
 * the collection and map codecs, and nested-object fields.  Each is stated
 * on the as-written behaviour beside the evidently intended one.  The rest
 * of the model reads collections and maps as corrected, and builds nested
 * object fields as written.
 */
module Findings {
  import opened Results
  import opened DataIO
  import opened JavaTypes
  import opened Externalizer
  import opened Wire

  // ---- FieldCollectionExternalizer / FieldMapExternalizer: the presence byte is written but not read

  /** n elements read successfully are n elements. */
  lemma {:induction false} ElementsCount(e: Codec, n: nat, s: Bytes)
    requires ReadElements(e, n, s).Success?
    ensures |ReadElements(e, n, s).value.value| == n
    decreases n
  {
    if n > 0 {
      ElementsCount(e, n - 1, s);
    }
  }

  /** At least one successful `put` leaves the map non-empty. */
  lemma EntriesNonEmpty(c: Codec, n: nat, s: Bytes)
    requires c.MapField? && n > 0 && ReadEntries(c, n, s).Success?
    ensures ReadEntries(c, n, s).value.value != []
  {
    var d := ReadEntries(c, n - 1, s).value;
    var e := ReadEntry(c, d.rest).value;
    PutEntries(d.value, e.value.0, e.value.1);
    assert e.value.0 in Keys(ReadEntries(c, n, s).value.value);
  }

  /** The size 0 is four zero bytes, and reads back as 0. */
  lemma ZeroSize(rest: Bytes)
    ensures WriteInt(0) == [0, 0, 0, 0]
    ensures ReadInt([0, 0, 0, 0] + rest) == Success(Decoded(0 as int32, rest))
  {
    Pow256Values();
    assert BigEndian(1, 0) == [0];
    assert BigEndian(2, 0) == [0, 0];
    assert BigEndian(3, 0) == [0, 0, 0];
    assert BigEndian(4, 0) == [0, 0, 0, 0];
    ReadUnsignedOfBigEndian(4, 0, rest);
  }

  /** The five bytes an empty collection or map field writes: `true`, then the size 0. */
  lemma EmptyFieldBytes(c: Codec, w: JValue)
    requires (c.CollectionField? && w == Coll([])) || (c.MapField? && w == Entries([]))
    ensures WriteField(c, w) == Emit([1, 0, 0, 0, 0])
  {
    ZeroSize([]);
    assert Sized(0) == Emit([0, 0, 0, 0]);
    assert Body(c, w) == Emit([0, 0, 0, 0]);
  }

  /** Read as a size, the presence byte `true` and three zero bytes make 0x0100_0000. */
  lemma MisreadSize(rest: Bytes)
    ensures ReadInt([1, 0, 0, 0, 0] + rest) == Success(Decoded(0x0100_0000 as int32, [0] + rest))
  {
    Pow256Values();
    var s := [1, 0, 0, 0, 0] + rest;
    assert s[..4] == [1, 0, 0, 0];
    assert s[4..] == [0] + rest;
    assert [1, 0, 0, 0][..3] == [1, 0, 0];
    assert [1, 0, 0][..2] == [1, 0];
    assert [1, 0][..1] == [1];
    assert Unsigned([1, 0, 0, 0]) == 0x0100_0000;
  }

  /**
   * As written, readObject of a collection field starts with the size and
   * ignores the presence byte: a null field (written as the single byte
   * `false`) never reads back as null, and an empty collection (written as
   * `true` and the size 0) is read as a collection of 0x0100_0000 elements,
   * so it never reads back as the empty collection.
   */
  lemma CollectionAsWritten(c: Codec, rest: Bytes)
    requires c.CollectionField? && c.implInstantiable
    ensures WriteField(c, Null) == Emit([0])
    ensures ReadCollection(c, [0] + rest).Success? ==> ReadCollection(c, [0] + rest).value.value != Null
    ensures WriteField(c, Coll([])) == Emit([1, 0, 0, 0, 0])
    ensures ReadCollection(c, [1, 0, 0, 0, 0] + rest) != Success(Decoded(Coll([]), rest))
    ensures ReadCollection(c, [1, 0, 0, 0, 0] + rest).Success? ==>
      |ReadCollection(c, [1, 0, 0, 0, 0] + rest).value.value.items| == 0x0100_0000
  {
    EmptyFieldBytes(c, Coll([]));
    MisreadSize(rest);
    if ReadElements(c.element, 0x0100_0000, [0] + rest).Success? {
      ElementsCount(c.element, 0x0100_0000, [0] + rest);
    }
  }

  /** The same for a map field: null never reads back as null, and the empty map reads as a non-empty one. */
  lemma MapAsWritten(c: Codec, rest: Bytes)
    requires c.MapField? && c.implInstantiable
    ensures WriteField(c, Null) == Emit([0])
    ensures ReadMap(c, [0] + rest).Success? ==> ReadMap(c, [0] + rest).value.value != Null
    ensures WriteField(c, Entries([])) == Emit([1, 0, 0, 0, 0])
    ensures ReadMap(c, [1, 0, 0, 0, 0] + rest) != Success(Decoded(Entries([]), rest))
  {
    EmptyFieldBytes(c, Entries([]));
    MisreadSize(rest);
    if ReadEntries(c, 0x0100_0000, [0] + rest).Success? {
      EntriesNonEmpty(c, 0x0100_0000, [0] + rest);
    }
  }

  /** The corrected readObject of a collection field: `false` is null, `true` is followed by the collection. */
  lemma ReadPresenceFirst(c: Codec, tail: Bytes)
    requires c.CollectionField?
    ensures ReadObject(c, [0] + tail) == Success(Decoded(Null, tail))
    ensures ReadObject(c, [1] + tail) == ReadCollection(c, tail)
  {
    assert ([1] + tail)[1..] == tail;
    assert ([0] + tail)[1..] == tail;
  }

  /** The size 0 reads as the empty collection. */
  lemma ReadEmptyCollection(c: Codec, rest: Bytes)
    requires c.CollectionField? && c.implInstantiable
    ensures ReadCollection(c, [0, 0, 0, 0] + rest) == Success(Decoded(Coll([]), rest))
  {
    ZeroSize(rest);
  }

  /** The evidently intended readObject reads the presence byte first: null and the empty collection come back. */
  lemma CollectionCorrected(c: Codec, rest: Bytes)
    requires c.CollectionField? && c.implInstantiable
    ensures ReadObject(c, WriteField(c, Null).bytes + rest) == Success(Decoded(Null, rest))
    ensures ReadObject(c, WriteField(c, Coll([])).bytes + rest) == Success(Decoded(Coll([]), rest))
  {
    EmptyFieldBytes(c, Coll([]));
    assert [1, 0, 0, 0, 0] + rest == [1] + ([0, 0, 0, 0] + rest);
    ReadPresenceFirst(c, [0, 0, 0, 0] + rest);
    ReadPresenceFirst(c, rest);
    ReadEmptyCollection(c, rest);
  }

  // ---- Externalizer.of(Field, Class): a nested object field is delegated without a presence byte

  /** A class codec's field codecs all throw on a null object: the first `field.get(null)` throws. */
  lemma {:induction false} FieldsOfNull(schema: seq<Codec>)
    requires schema != [] && IsFieldCodec(schema[0])
    ensures WriteFields(schema, Null) == Fail(NullPointer(""))
    decreases |schema|
  {
    var prefix := schema[..|schema| - 1];
    if prefix != [] {
      assert prefix[0] == schema[0];
      FieldsOfNull(prefix);
    }
  }

  /**
   * As written, a field whose type is some other class gets
   * FieldParentExternalizer(ClassExternalizer.of(type)), which writes the
   * nested object's fields with no presence byte.  When the nested object is
   * null, a class with fields makes writeExternal throw NullPointerException,
   * and a class without fields writes nothing and reads back a new instance
   * instead of null.
   */
  lemma NestedNullAsWritten(name: string, cls: Codec, holder: JValue, rest: Bytes)
    requires cls.Class? && WellFormed(cls)
    requires holder.Object? && name in holder.fields && holder.fields[name] == Null
    ensures cls.schema != [] ==> Write(Fallback(name, cls), holder) == Fail(NullPointer(""))
    ensures cls.schema == [] ==> Write(Fallback(name, cls), holder) == Emit([])
    ensures cls.schema == [] && cls.instantiable ==>
      ReadObject(Fallback(name, cls), rest) == Success(Decoded(Object(cls.initial), rest))
  {
    assert Get(name, holder) == Success(Null);
    var c := Fallback(name, cls);
    assert c == ParentField(name, cls);
    assert Write(c, holder) == WriteField(c, Null);
    assert WriteField(c, Null) == Write(cls, Null) == WriteFields(cls.schema, Null);
    if cls.schema != [] {
      FieldsOfNull(cls.schema);
    } else {
      assert ReadFields(cls.schema, cls.initial, rest) == Success(Decoded(cls.initial, rest));
    }
  }

  /**
   * The evidently intended last step of `of(Field, Class)`: the nested object
   * behind a presence byte, like the other object fields.
   */
  function NestedCorrected(name: string, cls: Codec): Codec
  {
    NullableField(name, cls)
  }

  /** The evidently intended codec frames the nested object with a presence byte: null is one byte and reads back as null. */
  lemma NestedNullCorrected(name: string, cls: Codec, holder: JValue, rest: Bytes)
    requires cls.Class? && WellFormed(cls)
    requires holder.Object? && name in holder.fields && holder.fields[name] == Null
    ensures Write(NestedCorrected(name, cls), holder) == Emit([0])
    ensures ReadObject(NestedCorrected(name, cls), [0] + rest) == Success(Decoded(Null, rest))
  {
    assert ReadBoolean([0] + rest) == Success(Decoded(false, rest));
  }
}
