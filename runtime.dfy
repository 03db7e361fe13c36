/**
 * The codecs as the Java objects run them: an ObjectOutput that bytes are
 * appended to, an ObjectInput that is consumed from the front, object
 * instances whose fields readExternal sets one by one, and the loops of
 * ClassExternalizer, FieldArrayExternalizer, FieldCollectionExternalizer and
 * FieldMapExternalizer.  Every method is proved against the Wire functions:
 * what it appends, consumes, returns or sets is exactly what they compute.
 */
module Runtime {
  import opened Results
  import opened DataIO
  import opened JavaTypes
  import opened Externalizer
  import Wire
  import PrimitiveExternalizer
  import LangExternalizer
  import TimeExternalizer

  /** A java.io.ObjectOutput: everything written so far. */
  class ObjectOutput {
    var written: Bytes

    constructor ()
      ensures written == []
    {
      written := [];
    }

    /** Runs a straight-line sequence of DataOutput writes: its bytes are appended, its exception (if any) returned. */
    method Append(w: Written) returns (failure: Option<Error>)
      modifies this
      ensures written == old(written) + w.bytes
      ensures failure == w.failure
    {
      written := written + w.bytes;
      failure := w.failure;
    }
  }

  /** A java.io.ObjectInput: the bytes not read yet. */
  class ObjectInput {
    var remaining: Bytes

    constructor (s: Bytes)
      ensures remaining == s
    {
      remaining := s;
    }

    /** Runs a straight-line sequence of DataInput reads whose outcome on the remaining bytes is d. */
    method Take<T>(d: Result<Decoded<T>>) returns (r: Result<T>)
      modifies this
      ensures Outcome(r, d, remaining)
      ensures d.Failure? ==> remaining == old(remaining)
    {
      if d.Success? {
        remaining := d.value.rest;
        r := Success(d.value.value);
      } else {
        r := Failure(d.error);
      }
    }
  }

  /** An instance of a class being decoded: the values of its fields. */
  class JObject {
    var fields: map<string, JValue>

    /** The public no-argument constructor: the fields hold what that constructor sets. */
    constructor (initial: map<string, JValue>)
      ensures fields == initial
    {
      fields := initial;
    }
  }

  /** A read returned r and left `remaining` unread, as the decoding d says (a failed read reports d's exception). */
  ghost predicate Outcome<T>(r: Result<T>, d: Result<Decoded<T>>, remaining: Bytes)
  {
    match d
    case Success(x) => r == Success(x.value) && remaining == x.rest
    case Failure(e) => r == Failure(e)
  }

  /** readExternal left the object's fields and the input as the decoding d says. */
  ghost predicate Applied(failure: Option<Error>, d: Result<Decoded<map<string, JValue>>>,
                          fields: map<string, JValue>, remaining: Bytes)
  {
    match d
    case Success(x) => failure.None? && fields == x.value && remaining == x.rest
    case Failure(e) => failure == Some(e)
  }

  // ---------------------------------------------------------------- writing

  /** writeExternal(v, output) of codec c. */
  method WriteExternal(c: Codec, v: JValue, output: ObjectOutput) returns (failure: Option<Error>)
    modifies output
    ensures output.written == old(output.written) + Wire.Write(c, v).bytes
    ensures failure == Wire.Write(c, v).failure
    decreases c, 5
  {
    match c
    case Primitive(k) =>
      failure := output.Append(PrimitiveExternalizer.Write(k, v));
    case Lang(k) =>
      failure := output.Append(LangExternalizer.Write(k, v));
    case Time(k) =>
      failure := output.Append(TimeExternalizer.Write(k, v));
    case Class(_, _, _, schema) =>
      failure := WriteFields(schema, v, output);
    case _ =>
      var w := Wire.Get(c.field, v);
      if w.Failure? {
        failure := output.Append(Fail(w.error));
      } else {
        failure := WriteField(c, w.value, output);
      }
  }

  /** A field codec's writeExternal once `field.get(instance)` returned w. */
  method WriteField(c: Codec, w: JValue, output: ObjectOutput) returns (failure: Option<Error>)
    requires IsFieldCodec(c)
    modifies output
    ensures output.written == old(output.written) + Wire.WriteField(c, w).bytes
    ensures failure == Wire.WriteField(c, w).failure
    decreases c, 4
  {
    match c
    case PrimitiveField(_, k) =>
      failure := output.Append(PrimitiveExternalizer.Write(k, w));
    case ParentField(_, d) =>
      failure := WriteExternal(d, w, output);
    case LangField(_, _) =>
      failure := WriteFramed(c, w, output);
    case ArrayField(_, _) =>
      failure := WriteFramed(c, w, output);
    case CollectionField(_, _, _, _) =>
      failure := WriteFramed(c, w, output);
    case MapField(_, _, _, _, _) =>
      failure := WriteFramed(c, w, output);
    case NullableField(_, _) =>
      failure := WriteFramed(c, w, output);
  }

  /** FieldObjectExternalizer.writeExternal: `false` for null, else `true` then writeValue. */
  method WriteFramed(c: Codec, w: JValue, output: ObjectOutput) returns (failure: Option<Error>)
    requires Wire.IsFramed(c)
    modifies output
    ensures output.written == old(output.written) + Wire.Framed(w, Wire.Body(c, w)).bytes
    ensures failure == Wire.Framed(w, Wire.Body(c, w)).failure
    decreases c, 3
  {
    if w.Null? {
      failure := output.Append(Emit(WriteBoolean(false)));
    } else {
      ghost var before := output.written;
      var _ := output.Append(Emit(WriteBoolean(true)));
      failure := WriteValue(c, w, output);
      assert output.written == before + ([1] + Wire.Body(c, w).bytes);
    }
  }

  /** writeValue of a presence-framed codec, for a non-null w. */
  method WriteValue(c: Codec, w: JValue, output: ObjectOutput) returns (failure: Option<Error>)
    requires Wire.IsFramed(c)
    modifies output
    ensures output.written == old(output.written) + Wire.Body(c, w).bytes
    ensures failure == Wire.Body(c, w).failure
    decreases c, 2
  {
    match c
    case LangField(_, k) =>
      failure := output.Append(LangExternalizer.WriteValue(k, w));
    case NullableField(_, d) =>
      failure := WriteExternal(d, w, output);
    case ArrayField(_, comp) =>
      if !w.Array? {
        failure := output.Append(Fail(TypeMismatch));
      } else {
        ghost var before := output.written;
        failure := output.Append(Wire.Sized(|w.elements|));
        if failure.None? {
          failure := WriteElements(comp, w.elements, output);
          assert output.written == before + (Wire.Sized(|w.elements|).bytes + Wire.WriteElements(comp, w.elements).bytes);
        }
      }
    case CollectionField(_, _, _, element) =>
      if !w.Coll? {
        failure := output.Append(Fail(TypeMismatch));
      } else {
        ghost var before := output.written;
        failure := output.Append(Wire.Sized(|w.items|));
        if failure.None? {
          failure := WriteElements(element, w.items, output);
          assert output.written == before + (Wire.Sized(|w.items|).bytes + Wire.WriteElements(element, w.items).bytes);
        }
      }
    case MapField(_, _, _, _, _) =>
      if !w.Entries? {
        failure := output.Append(Fail(TypeMismatch));
      } else {
        ghost var before := output.written;
        failure := output.Append(Wire.Sized(|w.entries|));
        if failure.None? {
          failure := WriteEntries(c, w.entries, output);
          assert output.written == before + (Wire.Sized(|w.entries|).bytes + Wire.WriteEntries(c, w.entries).bytes);
        }
      }
  }

  /** `for (item : value) externalizer.writeExternal(item, out)`: stops at the first exception. */
  method WriteElements(element: Codec, xs: seq<JValue>, output: ObjectOutput) returns (failure: Option<Error>)
    modifies output
    ensures output.written == old(output.written) + Wire.WriteElements(element, xs).bytes
    ensures failure == Wire.WriteElements(element, xs).failure
    decreases element, 7
  {
    for i := 0 to |xs|
      invariant Wire.WriteElements(element, xs[..i]).Ok()
      invariant output.written == old(output.written) + Wire.WriteElements(element, xs[..i]).bytes
    {
      failure := WriteNext(element, xs, i, old(output.written), output);
      if failure.Some? {
        Wire.ElementsWriteFailureSticks(element, xs, i + 1);
        return;
      }
    }
    assert xs[..|xs|] == xs;
    failure := None;
  }

  /** Element i, once elements 0 to i - 1 were written after `start`. */
  method WriteNext(element: Codec, xs: seq<JValue>, i: nat, ghost start: Bytes, output: ObjectOutput)
    returns (failure: Option<Error>)
    requires i < |xs| && Wire.WriteElements(element, xs[..i]).Ok()
    requires output.written == start + Wire.WriteElements(element, xs[..i]).bytes
    modifies output
    ensures output.written == start + Wire.WriteElements(element, xs[..i + 1]).bytes
    ensures failure == Wire.WriteElements(element, xs[..i + 1]).failure
    decreases element, 6
  {
    Wire.ElementsWriteStep(element, xs, i);
    ghost var prefix := Wire.WriteElements(element, xs[..i]).bytes;
    failure := WriteExternal(element, xs[i], output);
    assert output.written == start + (prefix + Wire.Write(element, xs[i]).bytes);
  }

  /** The entry loop of FieldMapExternalizer.writeValue: key then value, stopping at the first exception. */
  method WriteEntries(c: Codec, es: seq<(JValue, JValue)>, output: ObjectOutput) returns (failure: Option<Error>)
    requires c.MapField?
    modifies output
    ensures output.written == old(output.written) + Wire.WriteEntries(c, es).bytes
    ensures failure == Wire.WriteEntries(c, es).failure
    decreases c, 1
  {
    for i := 0 to |es|
      invariant Wire.WriteEntries(c, es[..i]).Ok()
      invariant output.written == old(output.written) + Wire.WriteEntries(c, es[..i]).bytes
    {
      Wire.EntriesWriteStep(c, es, i);
      ghost var prefix := Wire.WriteEntries(c, es[..i]).bytes;
      failure := WriteEntry(c, es[i], output);
      if failure.Some? {
        Wire.EntriesWriteFailureSticks(c, es, i + 1);
        return;
      }
    }
    assert es[..|es|] == es;
    failure := None;
  }

  /** One entry of a map: `keyExternalizer.writeExternal(key)`, then `valueExternalizer.writeExternal(value)`. */
  method WriteEntry(c: Codec, e: (JValue, JValue), output: ObjectOutput) returns (failure: Option<Error>)
    requires c.MapField?
    modifies output
    ensures output.written == old(output.written) + Wire.Write(c.keyCodec, e.0).Then(Wire.Write(c.valueCodec, e.1)).bytes
    ensures failure == Wire.Write(c.keyCodec, e.0).Then(Wire.Write(c.valueCodec, e.1)).failure
    decreases c, 0
  {
    failure := WriteExternal(c.keyCodec, e.0, output);
    if failure.None? {
      failure := WriteExternal(c.valueCodec, e.1, output);
      assert output.written == old(output.written) + (Wire.Write(c.keyCodec, e.0).bytes + Wire.Write(c.valueCodec, e.1).bytes);
    }
  }

  /** ClassExternalizer.writeExternal: every field codec on the same object, stopping at the first exception. */
  method WriteFields(schema: seq<Codec>, v: JValue, output: ObjectOutput) returns (failure: Option<Error>)
    modifies output
    ensures output.written == old(output.written) + Wire.WriteFields(schema, v).bytes
    ensures failure == Wire.WriteFields(schema, v).failure
    decreases schema, 1
  {
    for i := 0 to |schema|
      invariant Wire.WriteFields(schema[..i], v).Ok()
      invariant output.written == old(output.written) + Wire.WriteFields(schema[..i], v).bytes
    {
      failure := WriteNextField(schema, v, i, old(output.written), output);
      if failure.Some? {
        Wire.FieldsWriteFailureSticks(schema, v, i + 1);
        return;
      }
    }
    assert schema[..|schema|] == schema;
    failure := None;
  }

  /** Field codec i of the schema, once codecs 0 to i - 1 wrote after `start`. */
  method WriteNextField(schema: seq<Codec>, v: JValue, i: nat, ghost start: Bytes, output: ObjectOutput)
    returns (failure: Option<Error>)
    requires i < |schema| && Wire.WriteFields(schema[..i], v).Ok()
    requires output.written == start + Wire.WriteFields(schema[..i], v).bytes
    modifies output
    ensures output.written == start + Wire.WriteFields(schema[..i + 1], v).bytes
    ensures failure == Wire.WriteFields(schema[..i + 1], v).failure
    decreases schema, 0
  {
    Wire.FieldsWriteStep(schema, v, i);
    ghost var prefix := Wire.WriteFields(schema[..i], v).bytes;
    failure := WriteExternal(schema[i], v, output);
    assert output.written == start + (prefix + Wire.Write(schema[i], v).bytes);
  }

  // ---------------------------------------------------------------- reading

  /** readObject(input) of codec c. */
  method ReadObject(c: Codec, input: ObjectInput) returns (r: Result<JValue>)
    modifies input
    ensures Outcome(r, Wire.ReadObject(c, old(input.remaining)), input.remaining)
    decreases c, 3
  {
    match c
    case Primitive(k) =>
      r := input.Take(PrimitiveExternalizer.Read(k, input.remaining));
    case Lang(k) =>
      r := input.Take(LangExternalizer.Read(k, input.remaining));
    case Time(k) =>
      r := input.Take(TimeExternalizer.Read(k, input.remaining));
    case PrimitiveField(_, k) =>
      r := input.Take(PrimitiveExternalizer.Read(k, input.remaining));
    case LangField(_, k) =>
      r := input.Take(LangExternalizer.Read(k, input.remaining));
    case Class(name, inst, init, schema) =>
      if !inst {
        r := Failure(CannotCreateInstance(name));
      } else {
        var instance := new JObject(init);
        var failure := ReadFields(schema, instance, input);
        r := if failure.Some? then Failure(failure.value) else Success(Object(instance.fields));
      }
    case ParentField(_, d) =>
      r := ReadObject(d, input);
    case ArrayField(_, _) =>
      var present := input.Take(ReadBoolean(input.remaining));
      if present.Failure? {
        r := Failure(present.error);
      } else if !present.value {
        r := Success(Null);
      } else {
        r := ReadArray(c, input);
      }
    case CollectionField(_, _, _, _) =>
      var present := input.Take(ReadBoolean(input.remaining));
      if present.Failure? {
        r := Failure(present.error);
      } else if !present.value {
        r := Success(Null);
      } else {
        r := ReadCollection(c, input);
      }
    case MapField(_, _, _, _, _) =>
      var present := input.Take(ReadBoolean(input.remaining));
      if present.Failure? {
        r := Failure(present.error);
      } else if !present.value {
        r := Success(Null);
      } else {
        r := ReadMap(c, input);
      }
    case NullableField(_, d) =>
      var present := input.Take(ReadBoolean(input.remaining));
      if present.Failure? {
        r := Failure(present.error);
      } else if !present.value {
        r := Success(Null);
      } else {
        r := ReadObject(d, input);
      }
  }

  /** FieldArrayExternalizer.readArray: the length, `new T[size]`, then `slots[i] = readObject(input)` for each slot. */
  method ReadArray(c: Codec, input: ObjectInput) returns (r: Result<JValue>)
    requires c.ArrayField?
    modifies input
    ensures Outcome(r, Wire.ReadArray(c, old(input.remaining)), input.remaining)
    decreases c, 2
  {
    var size := input.Take(ReadInt(input.remaining));
    if size.Failure? {
      r := Failure(size.error);
      return;
    }
    if size.value < 0 {
      r := Failure(NegativeArraySize);
      return;
    }
    var elements := ReadSlots(c.component, size.value as nat, input);
    r := if elements.Failure? then Failure(elements.error) else Success(Array(elements.value));
  }

  /** `T[] array = new T[size]`, then `array[i] = componentExternalizer.readObject(in)` for i from 0 to size - 1. */
  method ReadSlots(component: Codec, size: nat, input: ObjectInput) returns (r: Result<seq<JValue>>)
    modifies input
    ensures Outcome(r, Wire.ReadElements(component, size, old(input.remaining)), input.remaining)
    decreases component, 5
  {
    var slots := new JValue[size](_ => Null);
    for i := 0 to size
      invariant Wire.ReadElements(component, i, old(input.remaining)) == Success(Decoded(slots[..i], input.remaining))
    {
      ghost var prefix := slots[..i];
      var x := ReadNext(component, i, old(input.remaining), prefix, input);
      if x.Failure? {
        Wire.ElementsReadFailureSticks(component, size, i + 1, old(input.remaining));
        return Failure(x.error);
      }
      slots[i] := x.value;
      assert slots[..i + 1] == prefix + [x.value];
    }
    assert slots[..size] == slots[..];
    r := Success(slots[..]);
  }

  /** FieldCollectionExternalizer.readObject: `newInstance()`, the size, then the add loop. */
  method ReadCollection(c: Codec, input: ObjectInput) returns (r: Result<JValue>)
    requires c.CollectionField?
    modifies input
    ensures Outcome(r, Wire.ReadCollection(c, old(input.remaining)), input.remaining)
    decreases c, 2
  {
    if !c.implInstantiable {
      r := Failure(InstantiationFailure(c.implName));
      return;
    }
    var n := input.Take(ReadInt(input.remaining));
    if n.Failure? {
      r := Failure(n.error);
      return;
    }
    var items := ReadItems(c.element, n.value, input);
    r := if items.Failure? then Failure(items.error) else Success(Coll(items.value));
  }

  /** `while (size-- > 0) collection.add(externalizer.readObject(in))`. */
  method ReadItems(element: Codec, size: int32, input: ObjectInput) returns (r: Result<seq<JValue>>)
    modifies input
    ensures Outcome(r, Wire.ReadElements(element, Wire.Count(size), old(input.remaining)), input.remaining)
    decreases element, 5
  {
    var items: seq<JValue> := [];
    // `size-- > 0` holds for exactly Count(size) iterations: none when size is negative.
    for i := 0 to Wire.Count(size)
      invariant |items| == i
      invariant Wire.ReadElements(element, i, old(input.remaining)) == Success(Decoded(items, input.remaining))
    {
      var x := ReadNext(element, i, old(input.remaining), items, input);
      if x.Failure? {
        Wire.ElementsReadFailureSticks(element, Wire.Count(size), i + 1, old(input.remaining));
        return Failure(x.error);
      }
      items := items + [x.value];
    }
    r := Success(items);
  }

  /** One more element after the n elements xs already read from `start`. */
  method ReadNext(element: Codec, ghost n: nat, ghost start: Bytes, ghost xs: seq<JValue>, input: ObjectInput)
    returns (x: Result<JValue>)
    requires Wire.ReadElements(element, n, start) == Success(Decoded(xs, input.remaining))
    modifies input
    ensures x.Success? ==> Wire.ReadElements(element, n + 1, start) == Success(Decoded(xs + [x.value], input.remaining))
    ensures x.Failure? ==> Wire.ReadElements(element, n + 1, start) == Failure(x.error)
    decreases element, 4
  {
    Wire.ElementsReadStep(element, n, start, xs, input.remaining);
    x := ReadObject(element, input);
  }

  /** FieldMapExternalizer.readObject: `newInstance()`, the size, then `put(key, value)` while `size-- > 0`. */
  method ReadMap(c: Codec, input: ObjectInput) returns (r: Result<JValue>)
    requires c.MapField?
    modifies input
    ensures Outcome(r, Wire.ReadMap(c, old(input.remaining)), input.remaining)
    decreases c, 2
  {
    if !c.implInstantiable {
      r := Failure(InstantiationFailure(c.implName));
      return;
    }
    var n := input.Take(ReadInt(input.remaining));
    if n.Failure? {
      r := Failure(n.error);
      return;
    }
    var entries := ReadEntries(c, n.value, input);
    r := if entries.Failure? then Failure(entries.error) else Success(Entries(entries.value));
  }

  /** The `while (size-- > 0) map.put(keyExternalizer.readObject(in), valueExternalizer.readObject(in))` loop. */
  method ReadEntries(c: Codec, size: int32, input: ObjectInput) returns (r: Result<seq<(JValue, JValue)>>)
    requires c.MapField?
    modifies input
    ensures Outcome(r, Wire.ReadEntries(c, Wire.Count(size), old(input.remaining)), input.remaining)
    decreases c, 1
  {
    var entries: seq<(JValue, JValue)> := [];
    // `size-- > 0` holds for exactly Count(size) iterations: none when size is negative.
    for i := 0 to Wire.Count(size)
      invariant Wire.ReadEntries(c, i, old(input.remaining)) == Success(Decoded(entries, input.remaining))
    {
      Wire.EntriesReadStep(c, i, old(input.remaining), entries, input.remaining);
      var entry := ReadEntry(c, input);
      if entry.Failure? {
        Wire.EntriesReadFailureSticks(c, Wire.Count(size), i + 1, old(input.remaining), entry.error);
        return Failure(entry.error);
      }
      entries := Wire.Put(entries, entry.value.0, entry.value.1);
    }
    r := Success(entries);
  }

  /** One entry: the key codec reads the key, then the value codec reads its value. */
  method ReadEntry(c: Codec, input: ObjectInput) returns (r: Result<(JValue, JValue)>)
    requires c.MapField?
    modifies input
    ensures Outcome(r, Wire.ReadEntry(c, old(input.remaining)), input.remaining)
    decreases c, 0
  {
    var key := ReadObject(c.keyCodec, input);
    if key.Failure? {
      return Failure(key.error);
    }
    var value := ReadObject(c.valueCodec, input);
    if value.Failure? {
      return Failure(value.error);
    }
    r := Success((key.value, value.value));
  }

  /** readExternal(instance, input) of codec c. */
  method ReadExternal(c: Codec, instance: JObject, input: ObjectInput) returns (failure: Option<Error>)
    modifies instance, input
    ensures Applied(failure, Wire.ReadExternal(c, old(instance.fields), old(input.remaining)), instance.fields, input.remaining)
    decreases c, 4
  {
    match c
    case Primitive(_) =>
      failure := Some(NotImplemented);
    case Lang(_) =>
      failure := Some(NotAvailable);
    case Time(_) =>
      failure := Some(NotAvailable);
    case Class(_, _, _, schema) =>
      failure := ReadFields(schema, instance, input);
    case _ =>
      var x := ReadObject(c, input);
      if x.Failure? {
        failure := Some(x.error);
      } else {
        instance.fields := instance.fields[c.field := x.value];
        failure := None;
      }
  }

  /** ClassExternalizer.readExternal: every field codec reads its field into the instance, in schema order. */
  method ReadFields(schema: seq<Codec>, instance: JObject, input: ObjectInput) returns (failure: Option<Error>)
    modifies instance, input
    ensures Applied(failure, Wire.ReadFields(schema, old(instance.fields), old(input.remaining)), instance.fields, input.remaining)
    decreases schema
  {
    ghost var m := instance.fields;
    ghost var s := input.remaining;
    failure := None;
    for i := 0 to |schema|
      invariant failure.None?
      invariant Wire.ReadFields(schema[..i], m, s) == Success(Decoded(instance.fields, input.remaining))
    {
      Wire.FieldsReadStep(schema, m, s, i, instance.fields, input.remaining);
      failure := ReadExternal(schema[i], instance, input);
      if failure.Some? {
        Wire.FieldsReadFailureSticks(schema, m, i + 1, s);
        return;
      }
    }
    assert schema[..|schema|] == schema;
  }

  // ---------------------------------------------------------------- building

  /**
   * The ClassExternalizer constructor: one field codec per declared field
   * that is neither static nor transient, in declaration order; the first
   * field without a codec aborts the construction.
   */
  method NewClassExternalizer(c: JClass) returns (r: Result<Codec>)
    ensures r == ClassOf(c)
  {
    if !c.ClassType? {
      r := Success(Class(TypeName(c), false, map[], []));
      return;
    }
    var fields := c.declaredFields;
    var externalizers: seq<Codec> := [];
    for i := 0 to |fields|
      invariant Schema(fields[..i]) == Success(externalizers)
    {
      assert fields[..i + 1][..i] == fields[..i];
      if Kept(fields[i]) {
        var fc := OfField(fields[i]);
        if fc.Failure? {
          SchemaFailureSticks(fields, i + 1);
          r := Failure(fc.error);
          return;
        }
        externalizers := externalizers + [fc.value];
      }
    }
    assert fields[..|fields|] == fields;
    r := Success(Class(c.name, c.instantiable, c.initial, externalizers));
  }
}
