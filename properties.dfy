/**
 * Properties of the codecs that relate several operations: the byte layout
 * of primitive arrays, how sizes are read, what a class codec leaves alone,
 * and which codecs can be the target of readExternal.
 */
module Properties {
  import opened Results
  import opened DataIO
  import opened JavaTypes
  import opened Externalizer
  import opened Wire
  import RoundTrip
  import PrimitiveExternalizer

  // ---- ArrayExternalizer: a primitive array is its length, then fixed-width elements

  /** One more element adds exactly the width of its primitive type. */
  lemma PrimitiveElementsStep(k: PrimKind, xs: seq<JValue>)
    requires xs != [] && PrimitiveExternalizer.Matches(k, xs[|xs| - 1])
    requires WriteElements(Primitive(k), xs[..|xs| - 1]).Ok()
    requires |WriteElements(Primitive(k), xs[..|xs| - 1]).bytes| == PrimitiveExternalizer.Width(k) * (|xs| - 1)
    ensures WriteElements(Primitive(k), xs).Ok()
    ensures |WriteElements(Primitive(k), xs).bytes| == PrimitiveExternalizer.Width(k) * |xs|
  {
    PrimitiveExternalizer.WriteWidth(k, xs[|xs| - 1]);
    var w := PrimitiveExternalizer.Width(k);
    assert w * |xs| == w * (|xs| - 1) + w;
  }

  /** Each element of a primitive array takes exactly the width of its primitive type. */
  lemma {:induction false} PrimitiveElementsWidth(k: PrimKind, xs: seq<JValue>)
    requires forall i :: 0 <= i < |xs| ==> PrimitiveExternalizer.Matches(k, xs[i])
    ensures WriteElements(Primitive(k), xs).Ok()
    ensures |WriteElements(Primitive(k), xs).bytes| == PrimitiveExternalizer.Width(k) * |xs|
    decreases |xs|
  {
    if xs != [] {
      var prefix := xs[..|xs| - 1];
      assert forall i :: 0 <= i < |prefix| ==> prefix[i] == xs[i];
      PrimitiveElementsWidth(k, prefix);
      PrimitiveElementsStep(k, xs);
    }
  }

  /**
   * A present primitive array field is the byte `true`, the length as an
   * int, then Width(k) bytes per element: an int[] of n elements takes
   * 1 + 4 + 4n bytes, a boolean[] 1 + 4 + n.
   */
  lemma PrimitiveArrayLayout(name: string, k: PrimKind, xs: seq<JValue>)
    requires |xs| <= MaxSize
    requires forall i :: 0 <= i < |xs| ==> PrimitiveExternalizer.Matches(k, xs[i])
    ensures WriteField(ArrayField(name, Primitive(k)), Array(xs)).Ok()
    ensures |WriteField(ArrayField(name, Primitive(k)), Array(xs)).bytes| == 1 + 4 + PrimitiveExternalizer.Width(k) * |xs|
    ensures WriteField(ArrayField(name, Primitive(k)), Array(xs)).bytes[..5] == [1] + WriteInt(|xs| as int32)
  {
    IntRoundTrip(|xs| as int32, []);
    PrimitiveElementsWidth(k, xs);
  }

  /** An empty array comes back as an empty array, not as null: the presence byte is `true` and the length 0. */
  lemma EmptyArrayRoundTrip(name: string, component: Codec, rest: Bytes)
    requires WellFormed(ArrayField(name, component))
    ensures WriteField(ArrayField(name, component), Array([])).Ok()
    ensures ReadObject(ArrayField(name, component), WriteField(ArrayField(name, component), Array([])).bytes + rest) ==
      Success(Decoded(Array([]), rest))
  {
    RoundTrip.ArrayRoundTrip(ArrayField(name, component), Array([]), rest);
  }

  // ---- CollectionExternalizer: the `while (size-- > 0)` loops

  /** A negative size reads as an empty collection, consuming only the size. */
  lemma NegativeSizeReadsEmptyCollection(c: Codec, n: int32, rest: Bytes)
    requires c.CollectionField? && c.implInstantiable && n < 0
    ensures ReadCollection(c, WriteInt(n) + rest) == Success(Decoded(Coll([]), rest))
  {
    IntRoundTrip(n, rest);
  }

  /** A negative size reads as an empty map, consuming only the size. */
  lemma NegativeSizeReadsEmptyMap(c: Codec, n: int32, rest: Bytes)
    requires c.MapField? && c.implInstantiable && n < 0
    ensures ReadMap(c, WriteInt(n) + rest) == Success(Decoded(Entries([]), rest))
  {
    IntRoundTrip(n, rest);
  }

  /** Where arrays differ: a negative length is rejected, as `new T[size]` throws. */
  lemma NegativeSizeRejectsArray(c: Codec, n: int32, rest: Bytes)
    requires c.ArrayField? && n < 0
    ensures ReadArray(c, WriteInt(n) + rest) == Failure(NegativeArraySize)
  {
    IntRoundTrip(n, rest);
  }

  // ---- FieldExternalizer.readExternal: a field codec sets its own field and no other

  /**
   * A field codec's readExternal succeeds exactly when its readObject does;
   * it then adds or replaces its own field and leaves every other field of
   * the instance as it was.
   */
  lemma ReadExternalSetsOnlyItsField(c: Codec, m: map<string, JValue>, s: Bytes)
    requires IsFieldCodec(c)
    ensures ReadExternal(c, m, s).Success? <==> ReadObject(c, s).Success?
    ensures ReadExternal(c, m, s).Failure? ==> ReadExternal(c, m, s).error == ReadObject(c, s).error
    ensures ReadExternal(c, m, s).Success? ==>
      var r := ReadExternal(c, m, s).value;
      r.value.Keys == m.Keys + {c.field} &&
      r.value[c.field] == ReadObject(c, s).value.value &&
      r.rest == ReadObject(c, s).value.rest &&
      forall n :: n in m && n != c.field ==> r.value[n] == m[n]
  {
  }

  /**
   * The standalone codecs cannot fill in an existing object: readExternal
   * throws "Not implemented" for the primitive ones and "Not available" for
   * the java.lang and java.time ones, whatever the stream holds.
   */
  lemma StandaloneReadExternalThrows(c: Codec, m: map<string, JValue>, s: Bytes)
    requires c.Primitive? || c.Lang? || c.Time?
    ensures c.Primitive? ==> ReadExternal(c, m, s) == Failure(NotImplemented)
    ensures !c.Primitive? ==> ReadExternal(c, m, s) == Failure(NotAvailable)
  {
  }

  /** FieldParentExternalizer adds nothing: it writes and reads exactly what its delegate does. */
  lemma ParentAddsNothing(name: string, d: Codec, v: JValue, s: Bytes)
    requires v.Object? && name in v.fields
    ensures Write(ParentField(name, d), v) == Write(d, v.fields[name])
    ensures ReadObject(ParentField(name, d), s) == ReadObject(d, s)
  {
  }

  // ---- ClassExternalizer: static and transient fields keep what the constructor left

  /** readObject of a class whose `newInstance()` fails reads nothing and reports the class. */
  lemma UninstantiableClassRejected(c: Codec, s: Bytes)
    requires c.Class? && !c.instantiable
    ensures ReadObject(c, s) == Failure(CannotCreateInstance(c.className))
  {
  }

  /** A kept field is one of the declared fields. */
  lemma {:induction false} KeptFieldsDeclared(fields: seq<Field>)
    ensures forall i :: 0 <= i < |KeptFields(fields)| ==> KeptFields(fields)[i] in fields && Kept(KeptFields(fields)[i])
    decreases |fields|
  {
    if fields != [] {
      var prefix := fields[..|fields| - 1];
      KeptFieldsDeclared(prefix);
      assert forall g :: g in prefix ==> g in fields;
    }
  }

  /** A field no codec of the schema names keeps, in the rebuilt object, what the new instance had. */
  lemma {:induction false} RestoreFieldsKeeps(schema: seq<Codec>, v: JValue, m: map<string, JValue>, n: string)
    requires forall i :: 0 <= i < |schema| && IsFieldCodec(schema[i]) ==> schema[i].field != n
    ensures n in RoundTrip.RestoreFields(schema, v, m) <==> n in m
    ensures n in m ==> RoundTrip.RestoreFields(schema, v, m)[n] == m[n]
    decreases |schema|
  {
    if schema != [] {
      var prefix := schema[..|schema| - 1];
      assert forall i :: 0 <= i < |prefix| ==> prefix[i] == schema[i];
      RestoreFieldsKeeps(prefix, v, m, n);
    }
  }

  /**
   * A transient or static field is not written, so after a round trip it
   * holds what the no-argument constructor set it to (absent if it set
   * nothing), provided no written field has the same name.
   */
  lemma SkippedFieldKeepsConstructorValue(c: JClass, v: JValue, f: Field, rest: Bytes)
    requires c.ClassType? && ClassOf(c).Success? && RoundTrip.Fits(ClassOf(c).value, v)
    requires f in c.declaredFields && !Kept(f)
    requires forall g :: g in c.declaredFields && Kept(g) ==> g.name != f.name
    ensures c.instantiable ==>
      var codec := ClassOf(c).value;
      var d := ReadObject(codec, Write(codec, v).bytes + rest);
      d.Success? && d.value.value.Object? &&
      (f.name in d.value.value.fields <==> f.name in c.initial) &&
      (f.name in c.initial ==> d.value.value.fields[f.name] == c.initial[f.name])
  {
    var codec := ClassOf(c).value;
    RoundTrip.ObjectRoundTrip(codec, v, rest);
    SchemaFields(c.declaredFields);
    KeptFieldsDeclared(c.declaredFields);
    var kept := KeptFields(c.declaredFields);
    forall i | 0 <= i < |codec.schema| && IsFieldCodec(codec.schema[i])
      ensures codec.schema[i].field != f.name
    {
      assert codec.schema[i] == OfField(kept[i]).value;
      assert kept[i] in c.declaredFields && Kept(kept[i]);
    }
    RestoreFieldsKeeps(codec.schema, v, c.initial, f.name);
  }
}
