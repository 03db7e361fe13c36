/**
 * What a built codec writes and reads: writeExternal, readObject and
 * readExternal of every codec in the engine, over the DataOutput/DataInput
 * byte format.  Writing returns the bytes emitted before any exception
 * (a stream keeps what was written); reading returns the value and the
 * bytes left unread.
 */
module Wire {
  import opened Results
  import opened DataIO
  import opened JavaTypes
  import opened Externalizer
  import PrimitiveExternalizer
  import LangExternalizer
  import TimeExternalizer

  /** Integer.MAX_VALUE: the largest size writeInt can carry. */
  const MaxSize: int := 0x7FFF_FFFF

  /**
   * `field.get(object)`: a null holder throws NullPointerException, a holder
   * that does not declare the field is rejected.
   */
  function Get(name: string, holder: JValue): (r: Result<JValue>)
    ensures r.Success? <==> holder.Object? && name in holder.fields
    ensures r.Success? ==> r.value == holder.fields[name]
    ensures holder.Null? ==> r == Failure(NullPointer(""))
  {
    if holder.Null? then Failure(NullPointer(""))
    else if holder.Object? && name in holder.fields then Success(holder.fields[name])
    else Failure(TypeMismatch)
  }

  /** FieldObjectExternalizer.writeExternal: `false` for a null value, else `true` and then writeValue. */
  function Framed(w: JValue, body: Written): Written
  {
    if w.Null? then Emit(WriteBoolean(false)) else Emit(WriteBoolean(true)).Then(body)
  }

  /** `out.writeInt(size)` for an array length or a collection size. */
  function Sized(n: nat): Written
  {
    if n > MaxSize then Fail(TooManyElements) else Emit(WriteInt(n as int32))
  }

  /**
   * writeExternal.  A class-level codec writes the value v itself (the
   * ClassExternalizer runs its field codecs on v in schema order); a field
   * codec reads its field out of the holder v first.
   */
  function Write(c: Codec, v: JValue): Written
    decreases c, 3
  {
    match c
    case Primitive(k) => PrimitiveExternalizer.Write(k, v)
    case Lang(k) => LangExternalizer.Write(k, v)
    case Time(k) => TimeExternalizer.Write(k, v)
    case Class(_, _, _, schema) => WriteFields(schema, v)
    case _ =>
      match Get(c.field, v)
      case Failure(e) => Fail(e)
      case Success(w) => WriteField(c, w)
  }

  /** The field codecs behind the presence-byte protocol of FieldObjectExternalizer. */
  predicate IsFramed(c: Codec)
  {
    c.LangField? || c.ArrayField? || c.CollectionField? || c.MapField? || c.NullableField?
  }

  /** What a field codec writes once it holds the field's value w. */
  function WriteField(c: Codec, w: JValue): Written
    requires IsFieldCodec(c)
    decreases c, 2
  {
    match c
    case PrimitiveField(_, k) => PrimitiveExternalizer.Write(k, w)
    case ParentField(_, d) => Write(d, w)
    case LangField(_, _) => Framed(w, Body(c, w))
    case ArrayField(_, _) => Framed(w, Body(c, w))
    case CollectionField(_, _, _, _) => Framed(w, Body(c, w))
    case MapField(_, _, _, _, _) => Framed(w, Body(c, w))
    case NullableField(_, _) => Framed(w, Body(c, w))
  }

  /** `writeValue` of a presence-framed codec, for a non-null value w. */
  function Body(c: Codec, w: JValue): Written
    requires IsFramed(c)
    decreases c, 1
  {
    match c
    case LangField(_, k) => LangExternalizer.WriteValue(k, w)
    case ArrayField(_, comp) =>
      if w.Array? then Sized(|w.elements|).Then(WriteElements(comp, w.elements)) else Fail(TypeMismatch)
    case CollectionField(_, _, _, element) =>
      if w.Coll? then Sized(|w.items|).Then(WriteElements(element, w.items)) else Fail(TypeMismatch)
    case MapField(_, _, _, _, _) =>
      if w.Entries? then Sized(|w.entries|).Then(WriteEntries(c, w.entries)) else Fail(TypeMismatch)
    case NullableField(_, d) => Write(d, w)
  }

  /** The `for (item : value) externalizer.writeExternal(item, out)` loop, in order. */
  function WriteElements(element: Codec, xs: seq<JValue>): Written
    decreases element, 4, |xs|
  {
    if xs == [] then Emit([])
    else WriteElements(element, xs[..|xs| - 1]).Then(Write(element, xs[|xs| - 1]))
  }

  /** The entry loop of FieldMapExternalizer.writeValue: each key, then its value. */
  function WriteEntries(c: Codec, es: seq<(JValue, JValue)>): Written
    requires c.MapField?
    decreases c, 0, |es|
  {
    if es == [] then Emit([])
    else
      var e := es[|es| - 1];
      WriteEntries(c, es[..|es| - 1]).Then(Write(c.keyCodec, e.0)).Then(Write(c.valueCodec, e.1))
  }

  /** ClassExternalizer.writeExternal: every field codec of the schema on the same object, in order. */
  function WriteFields(schema: seq<Codec>, v: JValue): Written
    decreases schema
  {
    if schema == [] then Emit([])
    else WriteFields(schema[..|schema| - 1], v).Then(Write(schema[|schema| - 1], v))
  }

  /** The loop count of `while (size-- > 0)`: a negative size reads nothing. */
  function Count(n: int32): nat
  {
    if n < 0 then 0 else n as nat
  }

  /**
   * readObject.  The field codecs of arrays, collections and maps read the
   * presence byte first (the collection and map codecs as corrected: see
   * ReadCollection); a ClassExternalizer creates the instance, then lets
   * each field codec read its field into it.
   */
  function ReadObject(c: Codec, s: Bytes): Result<Decoded<JValue>>
    decreases c, 3
  {
    match c
    case Primitive(k) => PrimitiveExternalizer.Read(k, s)
    case Lang(k) => LangExternalizer.Read(k, s)
    case Time(k) => TimeExternalizer.Read(k, s)
    case Class(name, inst, init, schema) =>
      if !inst then Failure(CannotCreateInstance(name))
      else
        var d :- ReadFields(schema, init, s);
        Success(Decoded(Object(d.value), d.rest))
    case PrimitiveField(_, k) => PrimitiveExternalizer.Read(k, s)
    case LangField(_, k) => LangExternalizer.Read(k, s)
    case ArrayField(_, _) =>
      var p :- ReadBoolean(s);
      if !p.value then Success(Decoded(Null, p.rest)) else ReadArray(c, p.rest)
    case CollectionField(_, _, _, _) =>
      var p :- ReadBoolean(s);
      if !p.value then Success(Decoded(Null, p.rest)) else ReadCollection(c, p.rest)
    case MapField(_, _, _, _, _) =>
      var p :- ReadBoolean(s);
      if !p.value then Success(Decoded(Null, p.rest)) else ReadMap(c, p.rest)
    case ParentField(_, d) => ReadObject(d, s)
    case NullableField(_, d) =>
      var p :- ReadBoolean(s);
      if !p.value then Success(Decoded(Null, p.rest)) else ReadObject(d, p.rest)
  }

  /** FieldArrayExternalizer after the presence byte: the length, `new T[size]`, then each element. */
  function ReadArray(c: Codec, s: Bytes): Result<Decoded<JValue>>
    requires c.ArrayField?
    decreases c, 2
  {
    var n :- ReadInt(s);
    if n.value < 0 then Failure(NegativeArraySize)
    else
      var d :- ReadElements(c.component, n.value as nat, n.rest);
      Success(Decoded(Array(d.value), d.rest))
  }

  /**
   * FieldCollectionExternalizer.readObject as written: `newInstance()`, the
   * size, then `add` for each element, with no presence byte.
   */
  function ReadCollection(c: Codec, s: Bytes): Result<Decoded<JValue>>
    requires c.CollectionField?
    decreases c, 2
  {
    if !c.implInstantiable then Failure(InstantiationFailure(c.implName))
    else
      var n :- ReadInt(s);
      var d :- ReadElements(c.element, Count(n.value), n.rest);
      Success(Decoded(Coll(d.value), d.rest))
  }

  /** FieldMapExternalizer.readObject as written: `newInstance()`, the size, then `put(key, value)`, with no presence byte. */
  function ReadMap(c: Codec, s: Bytes): Result<Decoded<JValue>>
    requires c.MapField?
    decreases c, 2
  {
    if !c.implInstantiable then Failure(InstantiationFailure(c.implName))
    else
      var n :- ReadInt(s);
      var d :- ReadEntries(c, Count(n.value), n.rest);
      Success(Decoded(Entries(d.value), d.rest))
  }

  /** n element reads in a row, in order. */
  function ReadElements(element: Codec, n: nat, s: Bytes): Result<Decoded<seq<JValue>>>
    decreases element, 4, n
  {
    if n == 0 then Success(Decoded([], s))
    else
      var d :- ReadElements(element, n - 1, s);
      var x :- ReadObject(element, d.rest);
      Success(Decoded(d.value + [x.value], x.rest))
  }

  /** n `put(key.readObject(in), value.readObject(in))` calls in a row. */
  function ReadEntries(c: Codec, n: nat, s: Bytes): Result<Decoded<seq<(JValue, JValue)>>>
    requires c.MapField?
    decreases c, 1, n
  {
    if n == 0 then Success(Decoded([], s))
    else
      var d :- ReadEntries(c, n - 1, s);
      var e :- ReadEntry(c, d.rest);
      Success(Decoded(Put(d.value, e.value.0, e.value.1), e.rest))
  }

  /** The operands of one `put`: `keyExternalizer.readObject(in)`, then `valueExternalizer.readObject(in)`. */
  function ReadEntry(c: Codec, s: Bytes): Result<Decoded<(JValue, JValue)>>
    requires c.MapField?
    decreases c, 0
  {
    var k :- ReadObject(c.keyCodec, s);
    var v :- ReadObject(c.valueCodec, k.rest);
    Success(Decoded((k.value, v.value), v.rest))
  }

  /** The keys of a map's entries. */
  function Keys(es: seq<(JValue, JValue)>): set<JValue>
  {
    set i | 0 <= i < |es| :: es[i].0
  }

  /**
   * `Map.put`: a key already present keeps its place and takes the new value;
   * a new key is added after the others.
   */
  function Put(es: seq<(JValue, JValue)>, k: JValue, v: JValue): seq<(JValue, JValue)>
  {
    if k in Keys(es) then seq(|es|, i requires 0 <= i < |es| => if es[i].0 == k then (k, v) else es[i])
    else es + [(k, v)]
  }

  /** After `put(k, v)` the keys are the old ones and k; k maps to v; every other entry stays where it was. */
  lemma PutEntries(es: seq<(JValue, JValue)>, k: JValue, v: JValue)
    ensures Keys(Put(es, k, v)) == Keys(es) + {k}
    ensures k !in Keys(es) ==> Put(es, k, v) == es + [(k, v)]
    ensures k in Keys(es) ==> |Put(es, k, v)| == |es|
    ensures k in Keys(es) ==> forall i :: 0 <= i < |es| ==> Put(es, k, v)[i] == if es[i].0 == k then (k, v) else es[i]
  {
    var r := Put(es, k, v);
    if k in Keys(es) {
      forall x | x in Keys(es) + {k} ensures x in Keys(r) {
        var i :| 0 <= i < |es| && es[i].0 == (if x == k then k else x);
        assert r[i].0 == x;
      }
    } else {
      assert r[|es|].0 == k;
      forall x | x in Keys(es) ensures x in Keys(r) {
        var i :| 0 <= i < |es| && es[i].0 == x;
        assert r[i].0 == x;
      }
    }
  }

  /** ClassExternalizer.readExternal: each field codec reads into the same object, in order. */
  function ReadFields(schema: seq<Codec>, m: map<string, JValue>, s: Bytes): Result<Decoded<map<string, JValue>>>
    decreases schema
  {
    if schema == [] then Success(Decoded(m, s))
    else
      var d :- ReadFields(schema[..|schema| - 1], m, s);
      ReadExternal(schema[|schema| - 1], d.value, d.rest)
  }

  /**
   * readExternal into an object with fields m: a field codec sets its field
   * to what its readObject returns; a ClassExternalizer runs its schema; the
   * standalone primitive, lang and time codecs throw.
   */
  function ReadExternal(c: Codec, m: map<string, JValue>, s: Bytes): Result<Decoded<map<string, JValue>>>
    decreases c, 4
  {
    match c
    case Primitive(_) => Failure(NotImplemented)
    case Lang(_) => Failure(NotAvailable)
    case Time(_) => Failure(NotAvailable)
    case Class(_, _, _, schema) => ReadFields(schema, m, s)
    case _ =>
      var d :- ReadObject(c, s);
      Success(Decoded(m[c.field := d.value], d.rest))
  }

  /** A loop over the elements ends at the first failing write: the rest of the elements are not written. */
  lemma {:induction false} ElementsWriteFailureSticks(e: Codec, xs: seq<JValue>, j: nat)
    requires j <= |xs| && !WriteElements(e, xs[..j]).Ok()
    ensures WriteElements(e, xs) == WriteElements(e, xs[..j])
    decreases |xs|
  {
    if j < |xs| {
      var prefix := xs[..|xs| - 1];
      assert prefix[..j] == xs[..j];
      ElementsWriteFailureSticks(e, prefix, j);
    } else {
      assert xs[..j] == xs;
    }
  }

  /** The same for the entries of a map. */
  lemma {:induction false} EntriesWriteFailureSticks(c: Codec, es: seq<(JValue, JValue)>, j: nat)
    requires c.MapField? && j <= |es| && !WriteEntries(c, es[..j]).Ok()
    ensures WriteEntries(c, es) == WriteEntries(c, es[..j])
    decreases |es|
  {
    if j < |es| {
      var prefix := es[..|es| - 1];
      assert prefix[..j] == es[..j];
      EntriesWriteFailureSticks(c, prefix, j);
    } else {
      assert es[..j] == es;
    }
  }

  /** The same for the field codecs of a schema. */
  lemma {:induction false} FieldsWriteFailureSticks(schema: seq<Codec>, v: JValue, j: nat)
    requires j <= |schema| && !WriteFields(schema[..j], v).Ok()
    ensures WriteFields(schema, v) == WriteFields(schema[..j], v)
    decreases |schema|
  {
    if j < |schema| {
      var prefix := schema[..|schema| - 1];
      assert prefix[..j] == schema[..j];
      FieldsWriteFailureSticks(prefix, v, j);
    } else {
      assert schema[..j] == schema;
    }
  }

  /** A read loop ends at the first failing read, with its exception. */
  lemma {:induction false} ElementsReadFailureSticks(e: Codec, n: nat, j: nat, s: Bytes)
    requires j <= n && ReadElements(e, j, s).Failure?
    ensures ReadElements(e, n, s) == ReadElements(e, j, s)
    decreases n
  {
    if j < n {
      ElementsReadFailureSticks(e, n - 1, j, s);
    }
  }

  lemma {:induction false} EntriesReadFailureSticks(c: Codec, n: nat, j: nat, s: Bytes, e: Error)
    requires c.MapField? && j <= n && ReadEntries(c, j, s) == Failure(e)
    ensures ReadEntries(c, n, s) == Failure(e)
    decreases n
  {
    if j < n {
      EntriesReadFailureSticks(c, n - 1, j, s, e);
      EntriesReadFailureStep(c, n, s, e);
    }
  }

  lemma EntriesReadFailureStep(c: Codec, n: nat, s: Bytes, e: Error)
    requires c.MapField? && 0 < n && ReadEntries(c, n - 1, s) == Failure(e)
    ensures ReadEntries(c, n, s) == Failure(e)
  {
  }

  lemma {:induction false} FieldsReadFailureSticks(schema: seq<Codec>, m: map<string, JValue>, j: nat, s: Bytes)
    requires j <= |schema| && ReadFields(schema[..j], m, s).Failure?
    ensures ReadFields(schema, m, s) == ReadFields(schema[..j], m, s)
    decreases |schema|
  {
    if j < |schema| {
      var prefix := schema[..|schema| - 1];
      assert prefix[..j] == schema[..j];
      FieldsReadFailureSticks(prefix, m, j, s);
    } else {
      assert schema[..j] == schema;
    }
  }

  // One more iteration of each loop, for the imperative versions.

  lemma ElementsWriteStep(e: Codec, xs: seq<JValue>, i: nat)
    requires i < |xs| && WriteElements(e, xs[..i]).Ok()
    ensures WriteElements(e, xs[..i + 1]) ==
      Written(WriteElements(e, xs[..i]).bytes + Write(e, xs[i]).bytes, Write(e, xs[i]).failure)
  {
    assert xs[..i + 1][..i] == xs[..i];
  }

  lemma EntriesWriteStep(c: Codec, es: seq<(JValue, JValue)>, i: nat)
    requires c.MapField? && i < |es| && WriteEntries(c, es[..i]).Ok()
    ensures var entry := Write(c.keyCodec, es[i].0).Then(Write(c.valueCodec, es[i].1));
            WriteEntries(c, es[..i + 1]) == Written(WriteEntries(c, es[..i]).bytes + entry.bytes, entry.failure)
  {
    assert es[..i + 1][..i] == es[..i];
  }

  lemma FieldsWriteStep(schema: seq<Codec>, v: JValue, i: nat)
    requires i < |schema| && WriteFields(schema[..i], v).Ok()
    ensures WriteFields(schema[..i + 1], v) ==
      Written(WriteFields(schema[..i], v).bytes + Write(schema[i], v).bytes, Write(schema[i], v).failure)
  {
    assert schema[..i + 1][..i] == schema[..i];
  }

  lemma ElementsReadStep(e: Codec, n: nat, s: Bytes, xs: seq<JValue>, mid: Bytes)
    requires ReadElements(e, n, s) == Success(Decoded(xs, mid))
    ensures ReadElements(e, n + 1, s) ==
      match ReadObject(e, mid)
      case Success(x) => Success(Decoded(xs + [x.value], x.rest))
      case Failure(err) => Failure(err)
  {
  }

  lemma EntriesReadStep(c: Codec, n: nat, s: Bytes, es: seq<(JValue, JValue)>, mid: Bytes)
    requires c.MapField? && ReadEntries(c, n, s) == Success(Decoded(es, mid))
    ensures ReadEntries(c, n + 1, s) ==
      match ReadEntry(c, mid)
      case Failure(err) => Failure(err)
      case Success(e) => Success(Decoded(Put(es, e.value.0, e.value.1), e.rest))
  {
  }

  lemma FieldsReadStep(schema: seq<Codec>, m: map<string, JValue>, s: Bytes, i: nat, fields: map<string, JValue>, mid: Bytes)
    requires i < |schema| && ReadFields(schema[..i], m, s) == Success(Decoded(fields, mid))
    ensures ReadFields(schema[..i + 1], m, s) == ReadExternal(schema[i], fields, mid)
  {
    assert schema[..i + 1][..i] == schema[..i];
  }
}
