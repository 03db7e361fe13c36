/**
 * The codec objects the engine builds, and the dispatch that builds them:
 * `Externalizer.of(Class)`, `Externalizer.of(Field, Class)`, the `array` and
 * `collection` dispatchers, `getGeneric`, the public no-argument constructor
 * check, and the ClassExternalizer schema.  Dispatch is a pure function of
 * the declared types; its only failures are the build-time exceptions.
 */
module Externalizer {
  import opened Results
  import opened JavaTypes
  import PrimitiveExternalizer
  import LangExternalizer
  import TimeExternalizer

  /**
   * A built codec.  Primitive, Lang, Time and Class are class-level codecs:
   * their writeExternal takes the value itself.  The others are bound to a
   * field: their writeExternal takes the object holding the field.
   */
  datatype Codec =
      /** PrimitiveExternalizer.IntegerExternalizer, ... (standalone primitive codecs) */
    | Primitive(prim: PrimKind)
      /** LangExternalizer.StringExternalizer, LongExternalizer, ... */
    | Lang(lang: BoxKind)
      /** TimeExternalizer.CalendarExternalizer.INSTANCE, ... */
    | Time(time: TimeKind)
      /** ClassExternalizer: the class, whether newInstance() succeeds, what it leaves in the fields, and the field codecs */
    | Class(className: string, instantiable: bool, initial: map<string, JValue>, schema: seq<Codec>)
      /** PrimitiveExternalizer.FieldIntegerExternalizer, ... */
    | PrimitiveField(field: string, prim: PrimKind)
      /** LangExternalizer.FieldStringExternalizer, ... */
    | LangField(field: string, lang: BoxKind)
      /**
       * ArrayExternalizer.FieldArrayIntegerExternalizer, ... and
       * FieldArrayLangStringExternalizer, ...: the elements go through the
       * fixed-width primitive codec, or through the component's class-level codec.
       */
    | ArrayField(field: string, component: Codec)
      /** CollectionExternalizer.FieldCollectionExternalizer, with the element codec of type argument 0 */
    | CollectionField(field: string, implName: string, implInstantiable: bool, element: Codec)
      /** CollectionExternalizer.FieldMapExternalizer, with the codecs of type arguments 0 and 1 */
    | MapField(field: string, implName: string, implInstantiable: bool, keyCodec: Codec, valueCodec: Codec)
      /** FieldExternalizer.FieldParentExternalizer: delegates to a class-level codec, adding nothing */
    | ParentField(field: string, delegate: Codec)
      /** a class-level codec behind the presence-byte protocol of FieldObjectExternalizer */
    | NullableField(field: string, delegate: Codec)

  /** The codecs `of(Field, Class)` can return: each is bound to a field. */
  predicate IsFieldCodec(c: Codec)
  {
    !(c.Primitive? || c.Lang? || c.Time? || c.Class?)
  }

  /** The codecs `of(Class)` can return. */
  predicate IsClassLevel(c: Codec)
  {
    c.Lang? || c.Time? || c.Class?
  }

  /**
   * The shape every built codec has: a ClassExternalizer holds field codecs;
   * the element, key, value and delegate codecs of a field codec are
   * class-level (an array element may also be a primitive codec).
   */
  predicate WellFormed(c: Codec)
    decreases c
  {
    match c
    case Primitive(_) => true
    case Lang(_) => true
    case Time(_) => true
    case Class(_, _, _, schema) => forall i :: 0 <= i < |schema| ==> IsFieldCodec(schema[i]) && WellFormed(schema[i])
    case PrimitiveField(_, _) => true
    case LangField(_, _) => true
    case ArrayField(_, comp) => (comp.Primitive? || IsClassLevel(comp)) && WellFormed(comp)
    case CollectionField(_, _, _, element) => IsClassLevel(element) && WellFormed(element)
    case MapField(_, _, _, kc, vc) => IsClassLevel(kc) && WellFormed(kc) && IsClassLevel(vc) && WellFormed(vc)
    case ParentField(_, d) => IsClassLevel(d) && WellFormed(d)
    case NullableField(_, d) => IsClassLevel(d) && WellFormed(d)
  }

  /** The errors dispatch can raise: both are raised while building, none while encoding. */
  predicate BuildError(e: Error)
  {
    e.MissingConstructor? || e.GenericTypeError?
  }

  function Instantiable(c: JClass): bool
  {
    c.ClassType? && c.instantiable
  }

  /** `Externalizer.of(Class)`: lang, then time, then the class codec; the first non-null wins. */
  function Of(c: JClass): (r: Result<Codec>)
    ensures r.Success? ==> IsClassLevel(r.value) && WellFormed(r.value)
    ensures r.Failure? ==> BuildError(r.error)
    decreases c, 1
  {
    match LangExternalizer.Lang(c)
    case Some(k) => Success(Lang(k))
    case None =>
      match TimeExternalizer.Time(c)
      case Some(k) => Success(Time(k))
      case None => ClassOf(c)
  }

  /**
   * The ClassExternalizer built for a class: one field codec per declared
   * field that is neither static nor transient.  A primitive or array class
   * declares no fields, and newInstance() fails on it.
   */
  function ClassOf(c: JClass): (r: Result<Codec>)
    ensures r.Success? ==> r.value.Class? && r.value.className == TypeName(c)
    ensures r.Success? ==> WellFormed(r.value)
    ensures r.Failure? ==> BuildError(r.error)
    decreases c, 0
  {
    match c
    case ClassType(name, _, _, inst, fields, init) =>
      var schema :- Schema(fields);
      Success(Class(name, inst, init, schema))
    case _ => Success(Class(TypeName(c), false, map[], []))
  }

  /** Whether the constructor loop keeps a field. */
  predicate Kept(f: Field)
  {
    !f.isStatic && !f.isTransient
  }

  /** The field codecs of the kept fields, in declaration order; the first failing field aborts the build. */
  function Schema(fields: seq<Field>): (r: Result<seq<Codec>>)
    ensures r.Success? ==> forall i :: 0 <= i < |r.value| ==> IsFieldCodec(r.value[i]) && WellFormed(r.value[i])
    ensures r.Failure? ==> BuildError(r.error)
    decreases fields, 0
  {
    if fields == [] then Success([])
    else
      var prefix :- Schema(fields[..|fields| - 1]);
      var f := fields[|fields| - 1];
      if !Kept(f) then Success(prefix)
      else
        var fc :- OfField(f);
        Success(prefix + [fc])
  }

  /**
   * `Externalizer.of(Field, Class)` for the field's declared type: primitive,
   * array, collection or map, lang, time, and finally the class codec; the
   * first non-null result wins, and an array lookup that yields null falls
   * through to the later checks.
   */
  function OfField(f: Field): (r: Result<Codec>)
    ensures r.Success? ==> IsFieldCodec(r.value) && WellFormed(r.value) && r.value.field == f.name
    ensures r.Failure? ==> BuildError(r.error)
    decreases f, 2
  {
    var c := f.declared;
    match PrimitiveExternalizer.Primitive(c)
    case Some(k) => Success(PrimitiveField(f.name, k))
    case None =>
      var arr :- if c.ArrayType? then Array(f) else Success(None);
      if arr.Some? then Success(arr.value)
      else
        var coll :- Collection(f);
        if coll.Some? then Success(coll.value)
        else
          match LangExternalizer.Lang(c)
          case Some(k) => Success(LangField(f.name, k))
          case None =>
            match TimeExternalizer.Time(c)
            case Some(k) => Success(ParentField(f.name, Time(k)))
            case None =>
              var cls :- ClassOf(c);
              Success(Fallback(f.name, cls))
  }

  /**
   * The last step of `of(Field, Class)`: a FieldParentExternalizer around the
   * class codec, which writes no presence byte and hands the nested object,
   * null included, to the class codec.
   */
  function Fallback(name: string, cls: Codec): Codec
  {
    ParentField(name, cls)
  }

  /**
   * `array(field, clazz)`: a primitive component selects the matching
   * primitive-array codec; otherwise the component's class-level codec is
   * built, and the array gets a codec only when the component is String or
   * a boxed type.  The nine boxed/String array classes differ only in their
   * Java element type, so the order of their tests does not change the codec.
   */
  function Array(f: Field): (r: Result<Option<Codec>>)
    requires f.declared.ArrayType?
    ensures r.Success? && r.value.Some? ==> r.value.value.ArrayField? && WellFormed(r.value.value) && r.value.value.field == f.name
    ensures r.Failure? ==> BuildError(r.error)
    decreases f, 1
  {
    var comp := f.declared.component;
    match PrimitiveExternalizer.Primitive(comp)
    case Some(k) => Success(Some(ArrayField(f.name, Primitive(k))))
    case None =>
      var ext :- Of(comp);
      if LangExternalizer.Lang(comp).Some? then Success(Some(ArrayField(f.name, ext))) else Success(None)
  }

  /** The FieldConstructorExternalizer check: `clazz.getConstructor()` must find a public no-argument constructor. */
  predicate HasPublicNoArgConstructor(c: JClass)
  {
    c.ClassType? && c.publicNoArgConstructor
  }

  /**
   * `collection(field, clazz)`: Map is tested before Collection; each checks
   * the public no-argument constructor, then resolves its element (or key and
   * value) codecs from the field's type arguments, once, at build time.
   */
  function Collection(f: Field): (r: Result<Option<Codec>>)
    ensures r.Success? && r.value.Some? ==> (r.value.value.MapField? || r.value.value.CollectionField?) && WellFormed(r.value.value) && r.value.value.field == f.name
    ensures r.Failure? ==> BuildError(r.error)
    decreases f, 1
  {
    var c := f.declared;
    var s := Supertypes(c);
    if MapInterface in s then
      if !HasPublicNoArgConstructor(c) then Failure(MissingConstructor(TypeName(c)))
      else
        var key :- GetGeneric(f, 0);
        var value :- GetGeneric(f, 1);
        Success(Some(MapField(f.name, TypeName(c), Instantiable(c), key, value)))
    else if CollectionInterface in s then
      if !HasPublicNoArgConstructor(c) then Failure(MissingConstructor(TypeName(c)))
      else
        var element :- GetGeneric(f, 0);
        Success(Some(CollectionField(f.name, TypeName(c), Instantiable(c), element)))
    else Success(None)
  }

  /**
   * `getGeneric(pos)`: the class-level codec of the field's pos-th actual type
   * argument.  A raw field type, a missing argument, or an argument that is
   * not a plain class (a wildcard, a type variable, a parameterized type)
   * fails the casts.
   */
  function GetGeneric(f: Field, pos: nat): (r: Result<Codec>)
    ensures r.Success? ==> pos < |f.typeArgs| && f.typeArgs[pos].ClassArg? && r == Of(f.typeArgs[pos].argClass)
    ensures r.Failure? ==> BuildError(r.error)
    decreases f, 0
  {
    if pos < |f.typeArgs| && f.typeArgs[pos].ClassArg? then Of(f.typeArgs[pos].argClass)
    else Failure(GenericTypeError(f.name))
  }

  /** The constructor's loop ends at the first field without a codec, with that field's exception. */
  lemma {:induction false} SchemaFailureSticks(fields: seq<Field>, j: nat)
    requires j <= |fields| && Schema(fields[..j]).Failure?
    ensures Schema(fields) == Schema(fields[..j])
    decreases |fields|
  {
    if j < |fields| {
      var prefix := fields[..|fields| - 1];
      assert prefix[..j] == fields[..j];
      SchemaFailureSticks(prefix, j);
    } else {
      assert fields[..j] == fields;
    }
  }

  /** The fields the ClassExternalizer constructor keeps, in declaration order. */
  function KeptFields(fields: seq<Field>): seq<Field>
  {
    if fields == [] then []
    else
      var prefix := KeptFields(fields[..|fields| - 1]);
      if Kept(fields[|fields| - 1]) then prefix + [fields[|fields| - 1]] else prefix
  }

  /**
   * The schema holds one codec per kept field, in declaration order, each the
   * codec `of(Field, Class)` builds for that field; it is built exactly when
   * every kept field's codec is, and otherwise the build fails with the error
   * of the first kept field that fails.
   */
  lemma {:induction false} SchemaFields(fields: seq<Field>)
    ensures Schema(fields).Success? <==> forall i :: 0 <= i < |KeptFields(fields)| ==> OfField(KeptFields(fields)[i]).Success?
    ensures Schema(fields).Success? ==>
      |Schema(fields).value| == |KeptFields(fields)| &&
      forall i :: 0 <= i < |KeptFields(fields)| ==> Schema(fields).value[i] == OfField(KeptFields(fields)[i]).value
    ensures Schema(fields).Failure? ==>
      exists i :: 0 <= i < |KeptFields(fields)| && OfField(KeptFields(fields)[i]) == Failure(Schema(fields).error) &&
        forall j :: 0 <= j < i ==> OfField(KeptFields(fields)[j]).Success?
    decreases |fields|
  {
    if fields != [] {
      var init := fields[..|fields| - 1];
      var f := fields[|fields| - 1];
      SchemaFields(init);
      var kept := KeptFields(init);
      if Kept(f) {
        var all := KeptFields(fields);
        assert all == kept + [f];
        assert forall i :: 0 <= i < |kept| ==> all[i] == kept[i];
        if Schema(init).Failure? {
          var i :| 0 <= i < |kept| && OfField(kept[i]) == Failure(Schema(init).error) &&
            forall j :: 0 <= j < i ==> OfField(kept[j]).Success?;
          assert all[i] == kept[i];
        } else if OfField(f).Failure? {
          assert all[|kept|] == f;
        } else {
          assert Schema(fields).value == Schema(init).value + [OfField(f).value];
        }
      } else {
        assert KeptFields(fields) == kept;
        assert Schema(fields) == Schema(init);
      }
    }
  }

  /** A class-level codec is built for every java.lang type first, whatever else the class is. */
  lemma OfPrefersLang(c: JClass, k: BoxKind)
    requires LangClass(k) in Supertypes(c)
    ensures Of(c).Success? && Of(c).value.Lang? && LangClass(Of(c).value.lang) in Supertypes(c)
    ensures LangExternalizer.Order(Of(c).value.lang) <= LangExternalizer.Order(k)
  {
  }

  /** A class that is no java.lang type but is a time type gets the time codec of the earliest time type it is. */
  lemma OfTimeWhenNotLang(c: JClass, t: TimeKind)
    requires forall k: BoxKind :: LangClass(k) !in Supertypes(c)
    requires TimeClass(t) in Supertypes(c)
    ensures Of(c).Success? && Of(c).value.Time? && TimeClass(Of(c).value.time) in Supertypes(c)
    ensures TimeExternalizer.Order(Of(c).value.time) <= TimeExternalizer.Order(t)
  {
  }

  /** Any other class gets its ClassExternalizer. */
  lemma OfClassOtherwise(c: JClass)
    requires forall k: BoxKind :: LangClass(k) !in Supertypes(c)
    requires forall t: TimeKind :: TimeClass(t) !in Supertypes(c)
    ensures Of(c) == ClassOf(c)
  {
  }

  /** A primitive field always gets the matching primitive field codec. */
  lemma PrimitiveFieldCodec(f: Field)
    requires f.declared.PrimitiveType?
    ensures OfField(f) == Success(PrimitiveField(f.name, f.declared.primitive))
  {
  }

  /** An array of a primitive type gets the fixed-width array codec of that type. */
  lemma PrimitiveArrayCodec(f: Field, k: PrimKind)
    requires f.declared == ArrayType(PrimitiveType(k))
    ensures OfField(f) == Success(ArrayField(f.name, Primitive(k)))
  {
  }

  /** An array of String or of a boxed type gets the array codec over that type's lang codec. */
  lemma BoxedArrayCodec(f: Field, comp: JClass, k: BoxKind)
    requires f.declared == ArrayType(comp)
    requires LangClass(k) in Supertypes(comp)
    ensures OfField(f).Success? && OfField(f).value.ArrayField? && OfField(f).value.component.Lang?
    ensures LangClass(OfField(f).value.component.lang) in Supertypes(comp)
  {
    OfPrefersLang(comp, k);
  }

  /**
   * Any other array gets no array codec and falls through to the class
   * fallback (an array class is no collection, lang or time type), yet the
   * component's class codec is still built first, so its build errors escape.
   */
  lemma OtherArrayFallsThrough(f: Field, comp: JClass)
    requires f.declared == ArrayType(comp)
    requires !comp.PrimitiveType?
    requires forall k: BoxKind :: LangClass(k) !in Supertypes(comp)
    ensures Of(comp).Success? ==> OfField(f) == Success(ParentField(f.name, Class(TypeName(f.declared), false, map[], [])))
    ensures Of(comp).Failure? ==> OfField(f) == Failure(Of(comp).error)
  {
    assert LangExternalizer.Lang(comp).None?;
  }

  /** Neither a primitive nor an array type: the types the later dispatchers see. */
  predicate IsReference(c: JClass)
  {
    c.ClassType?
  }

  /**
   * A Map field (even one that is also a Collection) gets the map codec over
   * the codecs of its two type arguments, provided its type has a public
   * no-argument constructor.
   */
  lemma MapFieldCodec(f: Field, key: JClass, value: JClass)
    requires IsReference(f.declared) && MapInterface in Supertypes(f.declared)
    requires HasPublicNoArgConstructor(f.declared)
    requires |f.typeArgs| >= 2 && f.typeArgs[0] == ClassArg(key) && f.typeArgs[1] == ClassArg(value)
    requires Of(key).Success? && Of(value).Success?
    ensures OfField(f) == Success(MapField(f.name, f.declared.name, f.declared.instantiable, Of(key).value, Of(value).value))
  {
    assert Collection(f) == Success(Some(MapField(f.name, f.declared.name, f.declared.instantiable, Of(key).value, Of(value).value)));
  }

  /** A Collection field gets the collection codec over the codec of its type argument. */
  lemma CollectionFieldCodec(f: Field, element: JClass)
    requires IsReference(f.declared) && MapInterface !in Supertypes(f.declared) && CollectionInterface in Supertypes(f.declared)
    requires HasPublicNoArgConstructor(f.declared)
    requires |f.typeArgs| >= 1 && f.typeArgs[0] == ClassArg(element)
    requires Of(element).Success?
    ensures OfField(f) == Success(CollectionField(f.name, f.declared.name, f.declared.instantiable, Of(element).value))
  {
    assert Collection(f) == Success(Some(CollectionField(f.name, f.declared.name, f.declared.instantiable, Of(element).value)));
  }

  /** A collection or map type without a public no-argument constructor is rejected before its type arguments are looked at. */
  lemma MissingConstructorRejected(f: Field)
    requires IsReference(f.declared)
    requires MapInterface in Supertypes(f.declared) || CollectionInterface in Supertypes(f.declared)
    requires !HasPublicNoArgConstructor(f.declared)
    ensures OfField(f) == Failure(MissingConstructor(TypeName(f.declared)))
  {
  }

  /** A raw collection field (no actual type argument) is rejected. */
  lemma RawCollectionRejected(f: Field)
    requires IsReference(f.declared) && CollectionInterface in Supertypes(f.declared)
    requires HasPublicNoArgConstructor(f.declared)
    requires f.typeArgs == []
    ensures OfField(f) == Failure(GenericTypeError(f.name))
  {
    assert GetGeneric(f, 0) == Failure(GenericTypeError(f.name));
    assert Collection(f) == Failure(GenericTypeError(f.name));
  }

  /** A field of String or a boxed type (and no collection) gets the lang field codec. */
  lemma LangFieldCodec(f: Field, k: BoxKind)
    requires IsReference(f.declared)
    requires MapInterface !in Supertypes(f.declared) && CollectionInterface !in Supertypes(f.declared)
    requires LangClass(k) in Supertypes(f.declared)
    ensures OfField(f).Success? && OfField(f).value.LangField? && LangClass(OfField(f).value.lang) in Supertypes(f.declared)
  {
  }

  /** A field of a time type gets its class-level time codec behind a FieldParentExternalizer. */
  lemma TimeFieldCodec(f: Field, t: TimeKind)
    requires IsReference(f.declared)
    requires MapInterface !in Supertypes(f.declared) && CollectionInterface !in Supertypes(f.declared)
    requires forall k: BoxKind :: LangClass(k) !in Supertypes(f.declared)
    requires TimeClass(t) in Supertypes(f.declared)
    ensures OfField(f).Success? && OfField(f).value.ParentField? && OfField(f).value.delegate.Time?
    ensures OfField(f).value.delegate == Of(f.declared).value
  {
    OfTimeWhenNotLang(f.declared, t);
  }

  /**
   * Any other field nests the ClassExternalizer of its declared type behind a
   * FieldParentExternalizer, with no presence byte of its own.
   */
  lemma NestedClassCodec(f: Field)
    requires IsReference(f.declared)
    requires MapInterface !in Supertypes(f.declared) && CollectionInterface !in Supertypes(f.declared)
    requires forall k: BoxKind :: LangClass(k) !in Supertypes(f.declared)
    requires forall t: TimeKind :: TimeClass(t) !in Supertypes(f.declared)
    ensures ClassOf(f.declared).Success? ==> OfField(f) == Success(ParentField(f.name, ClassOf(f.declared).value))
    ensures ClassOf(f.declared).Failure? ==> OfField(f) == ClassOf(f.declared)
  {
    assert LangExternalizer.Lang(f.declared).None?;
    assert TimeExternalizer.Time(f.declared).None?;
  }
}
