/**
 * The public entry points of Externalizor: the per-class cache of codecs and
 * the raw (uncompressed) serialize and deserialize calls.  A Java null
 * reference is `null` for the streams, `Null` for the object and `None` for
 * the class.
 */
module Externalizor {
  import opened Results
  import opened JavaTypes
  import opened Externalizer
  import Wire
  import Runtime

  /** The checks deserializeRaw makes before it looks up a codec: the input stream, then the class. */
  function DeserializeGuard(inputPresent: bool, clazz: Option<JClass>): (r: Option<Error>)
    ensures r.None? <==> inputPresent && clazz.Some?
    ensures !inputPresent ==> r == Some(NullPointer("The input stream is null"))
    ensures inputPresent && clazz.None? ==> r == Some(NullPointer("The class is null"))
  {
    if !inputPresent then Some(NullPointer("The input stream is null"))
    else if clazz.None? then Some(NullPointer("The class is null"))
    else None
  }

  /**
   * The same checks as written: both test the input stream, so a null class
   * passes them and reaches `externalizerMap.computeIfAbsent(null, ...)`,
   * where ConcurrentHashMap throws a NullPointerException without a message.
   */
  function DeserializeGuardAsWritten(inputPresent: bool, clazz: Option<JClass>): (r: Option<Error>)
    ensures !inputPresent ==> r == Some(NullPointer("The input stream is null"))
    ensures inputPresent ==> (r.None? <==> clazz.Some?)
  {
    if !inputPresent then Some(NullPointer("The input stream is null"))
    else if clazz.None? then Some(NullPointer(""))
    else None
  }

  /** The two versions differ exactly for a present stream and a null class, where the message is lost. */
  lemma GuardsDiffer(inputPresent: bool, clazz: Option<JClass>)
    ensures DeserializeGuardAsWritten(inputPresent, clazz) != DeserializeGuard(inputPresent, clazz) <==>
      inputPresent && clazz.None?
    ensures inputPresent && clazz.None? ==>
      DeserializeGuardAsWritten(inputPresent, clazz) == Some(NullPointer("")) &&
      DeserializeGuard(inputPresent, clazz) == Some(NullPointer("The class is null"))
  {
  }

  /** The static state of Externalizor: `externalizerMap`, the codec built for each class so far. */
  class Externalizor {
    var externalizerMap: map<JClass, Codec>

    /** Every cached codec is the one Externalizer.of builds for its class. */
    ghost predicate Valid()
      reads this
    {
      forall c :: c in externalizerMap ==> Externalizer.Of(c) == Success(externalizerMap[c])
    }

    constructor ()
      ensures externalizerMap == map[] && Valid()
    {
      externalizerMap := map[];
    }

    /**
     * `of(clazz)`: `computeIfAbsent(clazz, Externalizer::of)`.  A cached codec
     * is returned as it is; otherwise a new one is built and cached, unless
     * building it throws, which leaves the cache unchanged.
     */
    method Of(c: JClass) returns (r: Result<Codec>)
      requires Valid()
      modifies this
      ensures Valid()
      ensures r == Externalizer.Of(c)
      ensures c in old(externalizerMap) ==> externalizerMap == old(externalizerMap) && r == Success(old(externalizerMap)[c])
      ensures c !in old(externalizerMap) && r.Success? ==> externalizerMap == old(externalizerMap)[c := r.value]
      ensures r.Failure? ==> externalizerMap == old(externalizerMap)
    {
      if c in externalizerMap {
        r := Success(externalizerMap[c]);
      } else {
        r := Externalizer.Of(c);
        if r.Success? {
          externalizerMap := externalizerMap[c := r.value];
        }
      }
    }

    /**
     * serializeRaw(object, output): the object, then the stream, must not be
     * null; then the codec of the object's class writes it.
     */
    method SerializeRaw(instance: JValue, objectClass: JClass, output: Runtime.ObjectOutput?) returns (failure: Option<Error>)
      requires Valid()
      modifies this, output
      ensures Valid()
      ensures instance.Null? ==> failure == Some(NullPointer("The serializable object is null"))
      ensures !instance.Null? && output == null ==> failure == Some(NullPointer("The output stream is null"))
      ensures (instance.Null? || output == null) ==> externalizerMap == old(externalizerMap)
      ensures output != null && (instance.Null? || Externalizer.Of(objectClass).Failure?) ==>
        output.written == old(output.written)
      ensures !instance.Null? && output != null && Externalizer.Of(objectClass).Failure? ==>
        failure == Some(Externalizer.Of(objectClass).error)
      ensures !instance.Null? && output != null && Externalizer.Of(objectClass).Success? ==>
        var w := Wire.Write(Externalizer.Of(objectClass).value, instance);
        output.written == old(output.written) + w.bytes && failure == w.failure
      ensures !instance.Null? && output != null && objectClass in old(externalizerMap) ==>
        externalizerMap == old(externalizerMap)
      ensures !instance.Null? && output != null && objectClass !in old(externalizerMap) && Externalizer.Of(objectClass).Success? ==>
        externalizerMap == old(externalizerMap)[objectClass := Externalizer.Of(objectClass).value]
      ensures !instance.Null? && output != null && Externalizer.Of(objectClass).Failure? ==>
        externalizerMap == old(externalizerMap)
    {
      if instance.Null? {
        return Some(NullPointer("The serializable object is null"));
      }
      if output == null {
        return Some(NullPointer("The output stream is null"));
      }
      var externalizer := Of(objectClass);
      if externalizer.Failure? {
        return Some(externalizer.error);
      }
      failure := Runtime.WriteExternal(externalizer.value, instance, output);
    }

    /**
     * deserializeRaw(input, clazz), with the class check corrected to test
     * the class: the codec of clazz reads one object from the stream.
     */
    method DeserializeRaw(input: Runtime.ObjectInput?, clazz: Option<JClass>) returns (r: Result<JValue>)
      requires Valid()
      modifies this, input
      ensures Valid()
      ensures DeserializeGuard(input != null, clazz).Some? ==>
        r == Failure(DeserializeGuard(input != null, clazz).value) && externalizerMap == old(externalizerMap)
      ensures DeserializeGuard(input != null, clazz).Some? && input != null ==> input.remaining == old(input.remaining)
      ensures input != null && clazz.Some? && Externalizer.Of(clazz.value).Failure? ==>
        r == Failure(Externalizer.Of(clazz.value).error) && input.remaining == old(input.remaining)
      ensures input != null && clazz.Some? && Externalizer.Of(clazz.value).Success? ==>
        Runtime.Outcome(r, Wire.ReadObject(Externalizer.Of(clazz.value).value, old(input.remaining)), input.remaining)
      ensures input != null && clazz.Some? && clazz.value in old(externalizerMap) ==>
        externalizerMap == old(externalizerMap)
      ensures input != null && clazz.Some? && clazz.value !in old(externalizerMap) && Externalizer.Of(clazz.value).Success? ==>
        externalizerMap == old(externalizerMap)[clazz.value := Externalizer.Of(clazz.value).value]
      ensures input != null && clazz.Some? && Externalizer.Of(clazz.value).Failure? ==>
        externalizerMap == old(externalizerMap)
    {
      var guard := DeserializeGuard(input != null, clazz);
      if guard.Some? {
        return Failure(guard.value);
      }
      var externalizer := Of(clazz.value);
      if externalizer.Failure? {
        return Failure(externalizer.error);
      }
      r := Runtime.ReadObject(externalizer.value, input);
    }
  }
}
