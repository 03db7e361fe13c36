/**
 * The round trip of the engine: for every codec dispatch can build and
 * every value the codec writes without an exception, reading the bytes back
 * returns the value the reader reconstructs (`Restore`) and consumes exactly
 * those bytes.  Restore keeps every value as it was, except that an object
 * is rebuilt by its no-argument constructor, so its transient and static
 * fields (those no field codec writes) take the constructor's values, and
 * likewise for objects nested anywhere inside it.
 */
module RoundTrip {
  import opened Results
  import opened DataIO
  import opened JavaTypes
  import opened Externalizer
  import opened Wire
  import PrimitiveExternalizer
  import LangExternalizer
  import TimeExternalizer

  /** The keys are pairwise distinct, as in any Map. */
  predicate DistinctKeys(es: seq<(JValue, JValue)>)
  {
    forall i, j :: 0 <= i < j < |es| ==> es[i].0 != es[j].0
  }

  /**
   * The values a codec writes without an exception and whose reading then
   * needs no instance it cannot create.  For a field codec, v is the holder.
   */
  predicate Fits(c: Codec, v: JValue)
    decreases c, 1
  {
    match c
    case Primitive(k) => PrimitiveExternalizer.Matches(k, v)
    case Lang(k) => LangExternalizer.Encodable(k, v)
    case Time(k) => v.Null? || TimeExternalizer.Matches(k, v)
    case Class(_, inst, _, schema) => inst && forall i :: 0 <= i < |schema| ==> Fits(schema[i], v)
    case _ => v.Object? && c.field in v.fields && ValueFits(c, v.fields[c.field])
  }

  /** Fits for a field codec, given the field's value w. */
  predicate ValueFits(c: Codec, w: JValue)
    requires IsFieldCodec(c)
    decreases c, 0
  {
    match c
    case PrimitiveField(_, k) => PrimitiveExternalizer.Matches(k, w)
    case LangField(_, k) => LangExternalizer.Encodable(k, w)
    case ArrayField(_, comp) =>
      w.Null? || (w.Array? && |w.elements| <= MaxSize && AllFit(comp, w.elements))
    case CollectionField(_, _, inst, element) =>
      w.Null? || (w.Coll? && inst && |w.items| <= MaxSize && AllFit(element, w.items))
    case MapField(_, _, inst, kc, vc) =>
      w.Null? ||
      (w.Entries? && inst && |w.entries| <= MaxSize &&
       EntriesFit(c, w.entries) &&
       DistinctKeys(RestoreEntries(c, w.entries)))
    case ParentField(_, d) => Fits(d, w)
    case NullableField(_, d) => w.Null? || Fits(d, w)
  }

  /** Every element fits the element codec. */
  predicate AllFit(e: Codec, xs: seq<JValue>)
    decreases e, 2, |xs|
  {
    xs == [] || (AllFit(e, xs[..|xs| - 1]) && Fits(e, xs[|xs| - 1]))
  }

  /** Every key fits the key codec and every value the value codec. */
  predicate EntriesFit(c: Codec, es: seq<(JValue, JValue)>)
    requires c.MapField?
    decreases c, 0, |es|
  {
    es == [] || (EntriesFit(c, es[..|es| - 1]) && Fits(c.keyCodec, es[|es| - 1].0) && Fits(c.valueCodec, es[|es| - 1].1))
  }

  /** AllFit is the pointwise condition. */
  lemma {:induction false} AllFitPointwise(e: Codec, xs: seq<JValue>)
    ensures AllFit(e, xs) <==> forall i :: 0 <= i < |xs| ==> Fits(e, xs[i])
    decreases |xs|
  {
    if xs != [] {
      var prefix := xs[..|xs| - 1];
      AllFitPointwise(e, prefix);
      assert forall i :: 0 <= i < |prefix| ==> prefix[i] == xs[i];
    }
  }

  /** What the reader rebuilds from what a codec wrote for v (for a field codec: what the field is set to). */
  function Restore(c: Codec, v: JValue): JValue
    decreases c, 2
  {
    match c
    case Primitive(_) => v
    case Lang(_) => v
    case Time(_) => v
    case Class(_, _, init, schema) => Object(RestoreFields(schema, v, init))
    case _ => if v.Object? && c.field in v.fields then RestoreValue(c, v.fields[c.field]) else Null
  }

  /** Restore for a field codec, given the field's value w. */
  function RestoreValue(c: Codec, w: JValue): JValue
    requires IsFieldCodec(c)
    decreases c, 1
  {
    match c
    case PrimitiveField(_, _) => w
    case LangField(_, _) => w
    case ArrayField(_, comp) => if w.Array? then Array(RestoreAll(comp, w.elements)) else w
    case CollectionField(_, _, _, element) => if w.Coll? then Coll(RestoreAll(element, w.items)) else w
    case MapField(_, _, _, _, _) => if w.Entries? then Entries(RestoreEntries(c, w.entries)) else w
    case ParentField(_, d) => Restore(d, w)
    case NullableField(_, d) => if w.Null? then Null else Restore(d, w)
  }

  function RestoreAll(element: Codec, xs: seq<JValue>): (r: seq<JValue>)
    ensures |r| == |xs|
    decreases element, 3, |xs|
  {
    if xs == [] then [] else RestoreAll(element, xs[..|xs| - 1]) + [Restore(element, xs[|xs| - 1])]
  }

  function RestoreEntries(c: Codec, es: seq<(JValue, JValue)>): (r: seq<(JValue, JValue)>)
    requires c.MapField?
    ensures |r| == |es|
    decreases c, 0, |es|
  {
    if es == [] then []
    else
      var e := es[|es| - 1];
      RestoreEntries(c, es[..|es| - 1]) + [(Restore(c.keyCodec, e.0), Restore(c.valueCodec, e.1))]
  }

  /** The fields of the new instance m after each field codec of the schema has set its field. */
  function RestoreFields(schema: seq<Codec>, v: JValue, m: map<string, JValue>): map<string, JValue>
    decreases schema
  {
    if schema == [] then m
    else
      var prior := RestoreFields(schema[..|schema| - 1], v, m);
      var last := schema[|schema| - 1];
      if IsFieldCodec(last) then prior[last.field := Restore(last, v)] else prior
  }

  /** The round trip for any built codec. */
  lemma {:induction false} ObjectRoundTrip(c: Codec, v: JValue, rest: Bytes)
    requires WellFormed(c) && Fits(c, v)
    ensures Write(c, v).Ok()
    ensures ReadObject(c, Write(c, v).bytes + rest) == Success(Decoded(Restore(c, v), rest))
    decreases c, 5
  {
    match c
    case Primitive(k) =>
      PrimitiveExternalizer.WriteWidth(k, v);
      PrimitiveExternalizer.RoundTrip(k, v, rest);
    case Lang(k) => LangExternalizer.RoundTrip(k, v, rest);
    case Time(k) => TimeExternalizer.RoundTrip(k, v, rest);
    case Class(_, _, _, _) => ClassRoundTrip(c, v, rest);
    case _ => FieldRoundTrip(c, v, rest);
  }

  lemma {:induction false} ClassRoundTrip(c: Codec, v: JValue, rest: Bytes)
    requires c.Class? && WellFormed(c) && Fits(c, v)
    ensures Write(c, v).Ok()
    ensures ReadObject(c, Write(c, v).bytes + rest) == Success(Decoded(Restore(c, v), rest))
    decreases c, 4
  {
    FieldsRoundTrip(c.schema, v, c.initial, rest);
  }

  /** One more field codec read after the first ones. */
  lemma FieldsStep(schema: seq<Codec>, m: map<string, JValue>, s: Bytes, m1: map<string, JValue>, mid: Bytes, x: JValue, rest: Bytes)
    requires schema != [] && IsFieldCodec(schema[|schema| - 1])
    requires ReadFields(schema[..|schema| - 1], m, s) == Success(Decoded(m1, mid))
    requires ReadObject(schema[|schema| - 1], mid) == Success(Decoded(x, rest))
    ensures ReadFields(schema, m, s) == Success(Decoded(m1[schema[|schema| - 1].field := x], rest))
  {
  }

  /** The field codecs of a schema write one after the other and read back in the same order. */
  lemma {:induction false} FieldsRoundTrip(schema: seq<Codec>, v: JValue, m: map<string, JValue>, rest: Bytes)
    requires forall i :: 0 <= i < |schema| ==> IsFieldCodec(schema[i]) && WellFormed(schema[i]) && Fits(schema[i], v)
    ensures WriteFields(schema, v).Ok()
    ensures ReadFields(schema, m, WriteFields(schema, v).bytes + rest) == Success(Decoded(RestoreFields(schema, v, m), rest))
    decreases schema
  {
    if schema != [] {
      var prefix := schema[..|schema| - 1];
      var last := schema[|schema| - 1];
      assert forall i :: 0 <= i < |prefix| ==> prefix[i] == schema[i];
      var a := WriteFields(prefix, v);
      var b := Write(last, v);
      FieldsRoundTrip(prefix, v, m, b.bytes + rest);
      FieldRoundTrip(last, v, rest);
      ThenBytes(a, b, rest);
      assert WriteFields(schema, v) == a.Then(b);
      assert RestoreFields(schema, v, m) == RestoreFields(prefix, v, m)[last.field := Restore(last, v)];
      FieldsStep(schema, m, a.bytes + (b.bytes + rest), RestoreFields(prefix, v, m), b.bytes + rest, Restore(last, v), rest);
    } else {
      assert WriteFields(schema, v).bytes + rest == rest;
    }
  }

  lemma {:induction false} FieldRoundTrip(c: Codec, v: JValue, rest: Bytes)
    requires IsFieldCodec(c) && WellFormed(c) && Fits(c, v)
    ensures Write(c, v).Ok()
    ensures ReadObject(c, Write(c, v).bytes + rest) == Success(Decoded(Restore(c, v), rest))
    decreases c, 4
  {
    ValueRoundTrip(c, v.fields[c.field], rest);
  }

  /** The round trip of a field codec, for the field's value w. */
  lemma {:induction false} ValueRoundTrip(c: Codec, w: JValue, rest: Bytes)
    requires IsFieldCodec(c) && WellFormed(c) && ValueFits(c, w)
    ensures WriteField(c, w).Ok()
    ensures ReadObject(c, WriteField(c, w).bytes + rest) == Success(Decoded(RestoreValue(c, w), rest))
    decreases c, 3
  {
    match c
    case PrimitiveField(_, k) =>
      PrimitiveExternalizer.WriteWidth(k, w);
      PrimitiveExternalizer.RoundTrip(k, w, rest);
    case LangField(_, k) => LangFieldRoundTrip(c, w, rest);
    case ArrayField(_, _) => ArrayRoundTrip(c, w, rest);
    case CollectionField(_, _, _, _) => CollectionRoundTrip(c, w, rest);
    case MapField(_, _, _, _, _) => MapRoundTrip(c, w, rest);
    case ParentField(_, d) => ObjectRoundTrip(d, w, rest);
    case NullableField(_, _) => NullableRoundTrip(c, w, rest);
  }

  /** A null field of a presence-framed codec is the single byte `false`, and reads back as null. */
  lemma NullField(c: Codec, rest: Bytes)
    requires IsFramed(c)
    ensures WriteField(c, Null) == Emit([0])
    ensures ReadObject(c, [0] + rest) == Success(Decoded(Null, rest))
  {
    assert ReadBoolean([0] + rest) == Success(Decoded(false, rest));
  }

  /** A non-null field of a presence-framed codec is the byte `true`, then exactly what writeValue writes. */
  lemma PresentField(c: Codec, w: JValue)
    requires IsFramed(c) && !w.Null?
    ensures WriteField(c, w) == Emit([1]).Then(Body(c, w))
  {
  }

  lemma LangFieldRoundTrip(c: Codec, w: JValue, rest: Bytes)
    requires c.LangField? && LangExternalizer.Encodable(c.lang, w)
    ensures WriteField(c, w).Ok()
    ensures ReadObject(c, WriteField(c, w).bytes + rest) == Success(Decoded(w, rest))
    decreases c, 2
  {
    if w.Null? {
      NullField(c, rest);
    } else {
      LangFieldSameBytes(c, w);
      LangExternalizer.PresentRoundTrip(c.lang, w, rest);
    }
  }

  /** A lang field writes exactly what the standalone lang codec writes for its value. */
  lemma LangFieldSameBytes(c: Codec, w: JValue)
    requires c.LangField? && LangExternalizer.Encodable(c.lang, w)
    ensures WriteField(c, w) == LangExternalizer.Write(c.lang, w)
  {
  }

  /** The presence byte `true` hands the rest of the input to the codec's body reader. */
  lemma ReadPresent(c: Codec, s: Bytes)
    requires IsFramed(c) && !c.LangField?
    ensures c.ArrayField? ==> ReadObject(c, [1] + s) == ReadArray(c, s)
    ensures c.CollectionField? ==> ReadObject(c, [1] + s) == ReadCollection(c, s)
    ensures c.MapField? ==> ReadObject(c, [1] + s) == ReadMap(c, s)
    ensures c.NullableField? ==> ReadObject(c, [1] + s) == ReadObject(c.delegate, s)
  {
    assert ReadBoolean([1] + s) == Success(Decoded(true, s));
  }

  /** What a framed, sized field writes: `true`, the size, then the body. */
  lemma SizedFrame(c: Codec, w: JValue, n: nat, body: Written, rest: Bytes)
    requires IsFramed(c) && !w.Null? && n <= MaxSize && body.Ok()
    requires WriteField(c, w) == Emit([1]).Then(Sized(n).Then(body))
    ensures WriteField(c, w).Ok()
    ensures WriteField(c, w).bytes + rest == [1] + (WriteInt(n as int32) + (body.bytes + rest))
  {
  }

  lemma ReadArraySized(c: Codec, n: nat, x: Bytes, xs: seq<JValue>, rest: Bytes)
    requires c.ArrayField? && n <= MaxSize
    requires ReadElements(c.component, n, x) == Success(Decoded(xs, rest))
    ensures ReadArray(c, WriteInt(n as int32) + x) == Success(Decoded(Array(xs), rest))
  {
    IntRoundTrip(n as int32, x);
  }

  lemma ReadCollectionSized(c: Codec, n: nat, x: Bytes, xs: seq<JValue>, rest: Bytes)
    requires c.CollectionField? && c.implInstantiable && n <= MaxSize
    requires ReadElements(c.element, n, x) == Success(Decoded(xs, rest))
    ensures ReadCollection(c, WriteInt(n as int32) + x) == Success(Decoded(Coll(xs), rest))
  {
    IntRoundTrip(n as int32, x);
    assert Count(n as int32) == n;
  }

  lemma ReadMapSized(c: Codec, n: nat, x: Bytes, es: seq<(JValue, JValue)>, rest: Bytes)
    requires c.MapField? && c.implInstantiable && n <= MaxSize
    requires ReadEntries(c, n, x) == Success(Decoded(es, rest))
    ensures ReadMap(c, WriteInt(n as int32) + x) == Success(Decoded(Entries(es), rest))
  {
    IntRoundTrip(n as int32, x);
    assert Count(n as int32) == n;
  }

  /** The length, then the elements. */
  lemma {:induction false} ArrayRoundTrip(c: Codec, w: JValue, rest: Bytes)
    requires c.ArrayField? && WellFormed(c) && ValueFits(c, w)
    ensures WriteField(c, w).Ok()
    ensures ReadObject(c, WriteField(c, w).bytes + rest) == Success(Decoded(RestoreValue(c, w), rest))
    decreases c, 2
  {
    if w.Null? {
      NullField(c, rest);
    } else {
      var xs := w.elements;
      var body := WriteElements(c.component, xs);
      ElementsRoundTrip(c.component, xs, rest);
      PresentField(c, w);
      SizedFrame(c, w, |xs|, body, rest);
      ReadPresent(c, WriteInt(|xs| as int32) + (body.bytes + rest));
      ReadArraySized(c, |xs|, body.bytes + rest, RestoreAll(c.component, xs), rest);
    }
  }

  lemma {:induction false} CollectionRoundTrip(c: Codec, w: JValue, rest: Bytes)
    requires c.CollectionField? && WellFormed(c) && ValueFits(c, w)
    ensures WriteField(c, w).Ok()
    ensures ReadObject(c, WriteField(c, w).bytes + rest) == Success(Decoded(RestoreValue(c, w), rest))
    decreases c, 2
  {
    if w.Null? {
      NullField(c, rest);
    } else {
      var xs := w.items;
      var body := WriteElements(c.element, xs);
      ElementsRoundTrip(c.element, xs, rest);
      PresentField(c, w);
      SizedFrame(c, w, |xs|, body, rest);
      ReadPresent(c, WriteInt(|xs| as int32) + (body.bytes + rest));
      ReadCollectionSized(c, |xs|, body.bytes + rest, RestoreAll(c.element, xs), rest);
    }
  }

  lemma {:induction false} MapRoundTrip(c: Codec, w: JValue, rest: Bytes)
    requires c.MapField? && WellFormed(c) && ValueFits(c, w)
    ensures WriteField(c, w).Ok()
    ensures ReadObject(c, WriteField(c, w).bytes + rest) == Success(Decoded(RestoreValue(c, w), rest))
    decreases c, 2
  {
    if w.Null? {
      NullField(c, rest);
    } else {
      var es := w.entries;
      var body := WriteEntries(c, es);
      EntriesRoundTrip(c, es, rest);
      PresentField(c, w);
      SizedFrame(c, w, |es|, body, rest);
      ReadPresent(c, WriteInt(|es| as int32) + (body.bytes + rest));
      ReadMapSized(c, |es|, body.bytes + rest, RestoreEntries(c, es), rest);
    }
  }

  lemma {:induction false} NullableRoundTrip(c: Codec, w: JValue, rest: Bytes)
    requires c.NullableField? && WellFormed(c) && ValueFits(c, w)
    ensures WriteField(c, w).Ok()
    ensures ReadObject(c, WriteField(c, w).bytes + rest) == Success(Decoded(RestoreValue(c, w), rest))
    decreases c, 2
  {
    if w.Null? {
      NullField(c, rest);
    } else {
      var body := Write(c.delegate, w);
      ObjectRoundTrip(c.delegate, w, rest);
      PresentField(c, w);
      assert WriteField(c, w).bytes + rest == [1] + (body.bytes + rest);
      ReadPresent(c, body.bytes + rest);
    }
  }

  /** A written sequence that ends with one more write. */
  lemma ThenBytes(a: Written, b: Written, rest: Bytes)
    requires a.Ok() && b.Ok()
    ensures a.Then(b).Ok()
    ensures a.Then(b).bytes + rest == a.bytes + (b.bytes + rest)
  {
  }

  /** One more element read after n of them. */
  lemma ElementsStep(e: Codec, n: nat, s: Bytes, xs: seq<JValue>, mid: Bytes, x: JValue, rest: Bytes)
    requires ReadElements(e, n, s) == Success(Decoded(xs, mid))
    requires ReadObject(e, mid) == Success(Decoded(x, rest))
    ensures ReadElements(e, n + 1, s) == Success(Decoded(xs + [x], rest))
  {
  }

  /** The elements of an array or collection, written in order and read back in order. */
  lemma {:induction false} ElementsRoundTrip(e: Codec, xs: seq<JValue>, rest: Bytes)
    requires WellFormed(e) && AllFit(e, xs)
    ensures WriteElements(e, xs).Ok()
    ensures ReadElements(e, |xs|, WriteElements(e, xs).bytes + rest) == Success(Decoded(RestoreAll(e, xs), rest))
    decreases e, 6, |xs|
  {
    if xs != [] {
      var prefix := xs[..|xs| - 1];
      var last := xs[|xs| - 1];
      var a := WriteElements(e, prefix);
      var b := Write(e, last);
      ElementsRoundTrip(e, prefix, b.bytes + rest);
      ObjectRoundTrip(e, last, rest);
      ThenBytes(a, b, rest);
      assert WriteElements(e, xs) == a.Then(b);
      assert RestoreAll(e, xs) == RestoreAll(e, prefix) + [Restore(e, last)];
      ElementsStep(e, |prefix|, a.bytes + (b.bytes + rest), RestoreAll(e, prefix), b.bytes + rest, Restore(e, last), rest);
    } else {
      assert WriteElements(e, xs).bytes + rest == rest;
    }
  }

  /** The keys of a sequence of entries extended by one more entry. */
  lemma DistinctPrefix(es: seq<(JValue, JValue)>)
    requires es != [] && DistinctKeys(es)
    ensures DistinctKeys(es[..|es| - 1]) && es[|es| - 1].0 !in Keys(es[..|es| - 1])
  {
    assert forall i :: 0 <= i < |es| - 1 ==> es[..|es| - 1][i] == es[i];
  }

  /** One more `put` of a new key after n entries. */
  lemma EntriesStep(c: Codec, n: nat, s: Bytes, es: seq<(JValue, JValue)>, mid: Bytes, k: JValue, mid2: Bytes, v: JValue, rest: Bytes)
    requires c.MapField? && k !in Keys(es)
    requires ReadEntries(c, n, s) == Success(Decoded(es, mid))
    requires ReadObject(c.keyCodec, mid) == Success(Decoded(k, mid2))
    requires ReadObject(c.valueCodec, mid2) == Success(Decoded(v, rest))
    ensures ReadEntries(c, n + 1, s) == Success(Decoded(es + [(k, v)], rest))
  {
    PutEntries(es, k, v);
  }

  /** The last entry's key and value. */
  lemma EntryRoundTrip(c: Codec, e: (JValue, JValue), rest: Bytes)
    requires c.MapField? && WellFormed(c) && Fits(c.keyCodec, e.0) && Fits(c.valueCodec, e.1)
    ensures Write(c.keyCodec, e.0).Ok() && Write(c.valueCodec, e.1).Ok()
    ensures ReadObject(c.keyCodec, Write(c.keyCodec, e.0).bytes + (Write(c.valueCodec, e.1).bytes + rest)) ==
      Success(Decoded(Restore(c.keyCodec, e.0), Write(c.valueCodec, e.1).bytes + rest))
    ensures ReadObject(c.valueCodec, Write(c.valueCodec, e.1).bytes + rest) == Success(Decoded(Restore(c.valueCodec, e.1), rest))
    decreases c, 0
  {
    ObjectRoundTrip(c.keyCodec, e.0, Write(c.valueCodec, e.1).bytes + rest);
    ObjectRoundTrip(c.valueCodec, e.1, rest);
  }

  /** The entries of a map, each key before its value; distinct keys make each `put` add a new entry. */
  lemma {:induction false} EntriesRoundTrip(c: Codec, es: seq<(JValue, JValue)>, rest: Bytes)
    requires c.MapField? && WellFormed(c) && EntriesFit(c, es)
    requires DistinctKeys(RestoreEntries(c, es))
    ensures WriteEntries(c, es).Ok()
    ensures ReadEntries(c, |es|, WriteEntries(c, es).bytes + rest) == Success(Decoded(RestoreEntries(c, es), rest))
    decreases c, 1, |es|
  {
    if es != [] {
      var prefix := es[..|es| - 1];
      var e := es[|es| - 1];
      var restored := RestoreEntries(c, es);
      assert restored == RestoreEntries(c, prefix) + [(Restore(c.keyCodec, e.0), Restore(c.valueCodec, e.1))];
      assert restored[..|es| - 1] == RestoreEntries(c, prefix);
      DistinctPrefix(restored);
      var a := WriteEntries(c, prefix);
      var kw := Write(c.keyCodec, e.0);
      var vw := Write(c.valueCodec, e.1);
      EntriesRoundTrip(c, prefix, kw.bytes + (vw.bytes + rest));
      EntryRoundTrip(c, e, rest);
      assert WriteEntries(c, es) == a.Then(kw).Then(vw);
      ThenBytes(a, kw, vw.bytes + rest);
      ThenBytes(a.Then(kw), vw, rest);
      EntriesStep(c, |prefix|, a.bytes + (kw.bytes + (vw.bytes + rest)), RestoreEntries(c, prefix), kw.bytes + (vw.bytes + rest),
                  Restore(c.keyCodec, e.0), vw.bytes + rest, Restore(c.valueCodec, e.1), rest);
    } else {
      assert WriteEntries(c, es).bytes + rest == rest;
    }
  }
}
