/**
 * The java.io.DataOutput / DataInput contract the codecs write through:
 * big-endian fixed-width integers, one-byte booleans and `writeUTF`'s
 * 2-byte length plus modified UTF-8 body.  A stream is the logical byte
 * sequence of these writes.
 */
module DataIO {
  import opened Results

  newtype byte = x: int | 0 <= x < 0x100
  /** Java `byte` */
  newtype int8 = x: int | -0x80 <= x < 0x80
  /** Java `short` */
  newtype int16 = x: int | -0x8000 <= x < 0x8000
  /** Java `char`: one UTF-16 code unit */
  newtype uint16 = x: int | 0 <= x < 0x1_0000
  /** Java `int` */
  newtype int32 = x: int | -0x8000_0000 <= x < 0x8000_0000
  /** Java `long` */
  newtype int64 = x: int | -0x8000_0000_0000_0000 <= x < 0x8000_0000_0000_0000
  /** the raw bits of a Java `float` (Float.floatToIntBits) */
  newtype uint32 = x: int | 0 <= x < 0x1_0000_0000
  /** the raw bits of a Java `double` (Double.doubleToLongBits) */
  newtype uint64 = x: int | 0 <= x < 0x1_0000_0000_0000_0000

  type Bytes = seq<byte>

  /** What a read yields: the value, and the input that follows it. */
  datatype Decoded<+T> = Decoded(value: T, rest: Bytes)

  function Pow256(k: nat): (r: nat)
    ensures r >= 1
  {
    if k == 0 then 1 else 256 * Pow256(k - 1)
  }

  /** Half the range of a k-byte number: the bound of its signed values. */
  function Half(k: nat): (h: nat)
    requires k >= 1
    ensures Pow256(k) == 2 * h
  {
    128 * Pow256(k - 1)
  }

  /** The k-byte big-endian form of the unsigned number u. */
  function BigEndian(k: nat, u: nat): (r: Bytes)
    requires u < Pow256(k)
    ensures |r| == k
  {
    if k == 0 then []
    else
      assert u / 256 < Pow256(k - 1);
      BigEndian(k - 1, u / 256) + [(u % 256) as byte]
  }

  /** The unsigned number whose big-endian form is s. */
  function Unsigned(s: Bytes): (u: nat)
    ensures u < Pow256(|s|)
  {
    if s == [] then 0
    else
      var p := Unsigned(s[..|s| - 1]);
      assert p * 256 + s[|s| - 1] as int < Pow256(|s|) by {
        assert p <= Pow256(|s| - 1) - 1;
        assert p * 256 <= Pow256(|s| - 1) * 256 - 256;
      }
      p * 256 + s[|s| - 1] as nat
  }

  lemma {:induction false} UnsignedOfBigEndian(k: nat, u: nat)
    requires u < Pow256(k)
    ensures Unsigned(BigEndian(k, u)) == u
  {
    if k > 0 {
      var r := BigEndian(k, u);
      assert r[..k - 1] == BigEndian(k - 1, u / 256);
      UnsignedOfBigEndian(k - 1, u / 256);
    }
  }

  lemma {:induction false} BigEndianOfUnsigned(s: Bytes)
    ensures BigEndian(|s|, Unsigned(s)) == s
  {
    if s != [] {
      var n := |s|;
      var p := Unsigned(s[..n - 1]);
      DivMod256(p, s[n - 1] as nat);
      BigEndianOfUnsigned(s[..n - 1]);
      assert s == s[..n - 1] + [s[n - 1]];
    }
  }

  lemma DivMod256(p: nat, b: nat)
    requires b < 256
    ensures (p * 256 + b) / 256 == p && (p * 256 + b) % 256 == b
  {
  }

  /** Two's complement: the k-byte unsigned pattern of the signed x. */
  function ToUnsigned(k: nat, x: int): (u: nat)
    requires k >= 1 && -(Half(k) as int) <= x < Half(k)
    ensures u < Pow256(k)
    ensures (x >= 0 ==> u == x) && (x < 0 ==> u == x + Pow256(k))
  {
    if x < 0 then x + Pow256(k) else x
  }

  /** The signed value of the k-byte pattern u. */
  function ToSigned(k: nat, u: nat): (x: int)
    requires k >= 1 && u < Pow256(k)
    ensures -(Half(k) as int) <= x < Half(k)
    ensures ToUnsigned(k, x) == u
  {
    if u < Half(k) then u else u - Pow256(k)
  }

  lemma SignedOfUnsigned(k: nat, x: int)
    requires k >= 1 && -(Half(k) as int) <= x < Half(k)
    ensures ToSigned(k, ToUnsigned(k, x)) == x
  {
  }

  /** Takes n bytes off the front of the input, or fails with EOFException. */
  function ReadFully(n: nat, s: Bytes): (r: Result<Decoded<Bytes>>)
    ensures r.Success? <==> n <= |s|
    ensures r.Success? ==> |r.value.value| == n && s == r.value.value + r.value.rest
  {
    if |s| < n then Failure(EndOfStream) else Success(Decoded(s[..n], s[n..]))
  }

  function ReadUnsigned(k: nat, s: Bytes): (r: Result<Decoded<nat>>)
    ensures r.Success? <==> k <= |s|
    ensures r.Success? ==> r.value.value < Pow256(k) && r.value.rest == s[k..]
    ensures r.Failure? ==> r.error == EndOfStream
  {
    var d :- ReadFully(k, s);
    Success(Decoded(Unsigned(d.value), d.rest))
  }

  lemma ReadUnsignedOfBigEndian(k: nat, u: nat, rest: Bytes)
    requires u < Pow256(k)
    ensures ReadUnsigned(k, BigEndian(k, u) + rest) == Success(Decoded(u, rest))
  {
    var s := BigEndian(k, u) + rest;
    assert s[..k] == BigEndian(k, u);
    assert s[k..] == rest;
    UnsignedOfBigEndian(k, u);
  }

  lemma Pow256Values()
    ensures Pow256(1) == 0x100 && Pow256(2) == 0x1_0000
    ensures Pow256(4) == 0x1_0000_0000 && Pow256(8) == 0x1_0000_0000_0000_0000
  {
  }

  /**
   * What a run of DataOutput writes leaves behind: the bytes written, and the
   * exception that stopped the run, if one did.  Bytes written before the
   * exception stay written.
   */
  datatype Written = Written(bytes: Bytes, failure: Option<Error>) {
    predicate Ok() {
      failure.None?
    }

    /** This run, then `next` unless this run threw. */
    function Then(next: Written): Written {
      if failure.Some? then this else Written(bytes + next.bytes, next.failure)
    }
  }

  function Emit(b: Bytes): Written { Written(b, None) }

  function Fail(e: Error): Written { Written([], Some(e)) }

  lemma ThenAssociative(a: Written, b: Written, c: Written)
    ensures a.Then(b).Then(c) == a.Then(b.Then(c))
  {
  }

  // ---- DataOutput ----

  function WriteBoolean(b: bool): Bytes { [if b then 1 else 0] }

  function WriteByte(x: int8): Bytes { Pow256Values(); BigEndian(1, ToUnsigned(1, x as int)) }

  function WriteShort(x: int16): Bytes { Pow256Values(); BigEndian(2, ToUnsigned(2, x as int)) }

  function WriteChar(x: uint16): Bytes { Pow256Values(); BigEndian(2, x as nat) }

  function WriteInt(x: int32): Bytes { Pow256Values(); BigEndian(4, ToUnsigned(4, x as int)) }

  function WriteLong(x: int64): Bytes { Pow256Values(); BigEndian(8, ToUnsigned(8, x as int)) }

  /** writeFloat: writeInt of the float's bit pattern */
  function WriteFloat(bits: uint32): Bytes { Pow256Values(); BigEndian(4, bits as nat) }

  /** writeDouble: writeLong of the double's bit pattern */
  function WriteDouble(bits: uint64): Bytes { Pow256Values(); BigEndian(8, bits as nat) }

  // ---- DataInput ----

  /** readBoolean: any non-zero byte reads as true */
  function ReadBoolean(s: Bytes): (r: Result<Decoded<bool>>)
    ensures r.Success? <==> |s| >= 1
  {
    if |s| < 1 then Failure(EndOfStream) else Success(Decoded(s[0] != 0, s[1..]))
  }

  function ReadByte(s: Bytes): Result<Decoded<int8>>
  {
    Pow256Values();
    var d :- ReadUnsigned(1, s);
    Success(Decoded(ToSigned(1, d.value) as int8, d.rest))
  }

  function ReadShort(s: Bytes): Result<Decoded<int16>>
  {
    Pow256Values();
    var d :- ReadUnsigned(2, s);
    Success(Decoded(ToSigned(2, d.value) as int16, d.rest))
  }

  function ReadChar(s: Bytes): Result<Decoded<uint16>>
  {
    Pow256Values();
    var d :- ReadUnsigned(2, s);
    Success(Decoded(d.value as uint16, d.rest))
  }

  function ReadInt(s: Bytes): Result<Decoded<int32>>
  {
    Pow256Values();
    var d :- ReadUnsigned(4, s);
    Success(Decoded(ToSigned(4, d.value) as int32, d.rest))
  }

  function ReadLong(s: Bytes): Result<Decoded<int64>>
  {
    Pow256Values();
    var d :- ReadUnsigned(8, s);
    Success(Decoded(ToSigned(8, d.value) as int64, d.rest))
  }

  function ReadFloat(s: Bytes): Result<Decoded<uint32>>
  {
    Pow256Values();
    var d :- ReadUnsigned(4, s);
    Success(Decoded(d.value as uint32, d.rest))
  }

  function ReadDouble(s: Bytes): Result<Decoded<uint64>>
  {
    Pow256Values();
    var d :- ReadUnsigned(8, s);
    Success(Decoded(d.value as uint64, d.rest))
  }

  // ---- each read undoes its write, and each write has its fixed width ----

  lemma BooleanRoundTrip(b: bool, rest: Bytes)
    ensures |WriteBoolean(b)| == 1
    ensures ReadBoolean(WriteBoolean(b) + rest) == Success(Decoded(b, rest))
  {
    assert (WriteBoolean(b) + rest)[1..] == rest;
  }

  lemma ByteRoundTrip(x: int8, rest: Bytes)
    ensures |WriteByte(x)| == 1
    ensures ReadByte(WriteByte(x) + rest) == Success(Decoded(x, rest))
  {
    Pow256Values();
    ReadUnsignedOfBigEndian(1, ToUnsigned(1, x as int), rest);
  }

  lemma ShortRoundTrip(x: int16, rest: Bytes)
    ensures |WriteShort(x)| == 2
    ensures ReadShort(WriteShort(x) + rest) == Success(Decoded(x, rest))
  {
    Pow256Values();
    ReadUnsignedOfBigEndian(2, ToUnsigned(2, x as int), rest);
  }

  lemma CharRoundTrip(x: uint16, rest: Bytes)
    ensures |WriteChar(x)| == 2
    ensures ReadChar(WriteChar(x) + rest) == Success(Decoded(x, rest))
  {
    Pow256Values();
    ReadUnsignedOfBigEndian(2, x as nat, rest);
  }

  lemma IntRoundTrip(x: int32, rest: Bytes)
    ensures |WriteInt(x)| == 4
    ensures ReadInt(WriteInt(x) + rest) == Success(Decoded(x, rest))
  {
    Pow256Values();
    ReadUnsignedOfBigEndian(4, ToUnsigned(4, x as int), rest);
  }

  lemma LongRoundTrip(x: int64, rest: Bytes)
    ensures |WriteLong(x)| == 8
    ensures ReadLong(WriteLong(x) + rest) == Success(Decoded(x, rest))
  {
    Pow256Values();
    ReadUnsignedOfBigEndian(8, ToUnsigned(8, x as int), rest);
  }

  lemma FloatRoundTrip(x: uint32, rest: Bytes)
    ensures |WriteFloat(x)| == 4
    ensures ReadFloat(WriteFloat(x) + rest) == Success(Decoded(x, rest))
  {
    Pow256Values();
    ReadUnsignedOfBigEndian(4, x as nat, rest);
  }

  lemma DoubleRoundTrip(x: uint64, rest: Bytes)
    ensures |WriteDouble(x)| == 8
    ensures ReadDouble(WriteDouble(x) + rest) == Success(Decoded(x, rest))
  {
    Pow256Values();
    ReadUnsignedOfBigEndian(8, x as nat, rest);
  }

  /** The int written for x is its big-endian two's complement, most significant byte first. */
  lemma IntIsBigEndian(x: int32)
    ensures Unsigned(WriteInt(x)) == (if x < 0 then x as int + 0x1_0000_0000 else x as int)
  {
    Pow256Values();
    UnsignedOfBigEndian(4, ToUnsigned(4, x as int));
  }

  // ---- writeUTF / readUTF: 2-byte length, then modified UTF-8 ----

  /** One char in modified UTF-8: 1..0x7F in one byte, 0 and 0x80..0x7FF in two, the rest in three. */
  function UtfChar(c: uint16): (r: Bytes)
    ensures 1 <= |r| <= 3
  {
    var n := c as int;
    if 0x01 <= n <= 0x7F then [n as byte]
    else if n <= 0x7FF then [(0xC0 + n / 64) as byte, (0x80 + n % 64) as byte]
    else [(0xE0 + n / 4096) as byte, (0x80 + (n / 64) % 64) as byte, (0x80 + n % 64) as byte]
  }

  function UtfBody(s: seq<uint16>): Bytes
  {
    if s == [] then [] else UtfChar(s[0]) + UtfBody(s[1..])
  }

  /** Decodes a whole modified UTF-8 body the way DataInputStream.readUTF does. */
  function DecodeUtf(body: Bytes): (r: Result<seq<uint16>>)
    decreases |body|
  {
    if body == [] then Success([])
    else
      var b := body[0] as int;
      if b / 16 < 8 then
        var tail :- DecodeUtf(body[1..]);
        Success([b as uint16] + tail)
      else if b / 16 == 12 || b / 16 == 13 then
        if |body| < 2 || body[1] as int / 64 != 2 then Failure(MalformedUtf)
        else
          var tail :- DecodeUtf(body[2..]);
          Success([((b % 32) * 64 + body[1] as int % 64) as uint16] + tail)
      else if b / 16 == 14 then
        if |body| < 3 || body[1] as int / 64 != 2 || body[2] as int / 64 != 2 then Failure(MalformedUtf)
        else
          var tail :- DecodeUtf(body[3..]);
          Success([((b % 16) * 4096 + (body[1] as int % 64) * 64 + body[2] as int % 64) as uint16] + tail)
      else Failure(MalformedUtf)
  }

  /** writeUTF: fails with UTFDataFormatException when the body exceeds 65535 bytes. */
  function WriteUtf(s: seq<uint16>): (r: Result<Bytes>)
    ensures r.Success? <==> |UtfBody(s)| <= 0xFFFF
    ensures r.Success? ==> |r.value| == 2 + |UtfBody(s)|
  {
    var body := UtfBody(s);
    if |body| > 0xFFFF then Failure(UtfTooLong)
    else Pow256Values(); Success(BigEndian(2, |body|) + body)
  }

  function ReadUtf(s: Bytes): Result<Decoded<seq<uint16>>>
  {
    var len :- ReadUnsigned(2, s);
    var body :- ReadFully(len.value, len.rest);
    var chars :- DecodeUtf(body.value);
    Success(Decoded(chars, body.rest))
  }

  lemma UtfCharDecodes(c: uint16, tail: Bytes)
    ensures DecodeUtf(UtfChar(c) + tail) ==
      (match DecodeUtf(tail)
       case Success(t) => Success([c] + t)
       case Failure(e) => Failure(e))
  {
    var n := c as int;
    var s := UtfChar(c) + tail;
    if 0x01 <= n <= 0x7F {
      assert s[1..] == tail;
    } else if n <= 0x7FF {
      assert s[2..] == tail;
      assert (s[0] as int) / 16 == 12 || (s[0] as int) / 16 == 13;
      assert (s[0] as int) % 32 == n / 64;
      assert (n / 64) * 64 + n % 64 == n;
    } else {
      assert s[3..] == tail;
      assert n / 4096 < 16;
      assert (s[0] as int) / 16 == 14;
      assert (s[0] as int) % 16 == n / 4096;
      assert (n / 64) / 64 == n / 4096;
      assert (n / 4096) * 4096 + ((n / 64) % 64) * 64 + n % 64 == n by {
        assert n / 64 == (n / 4096) * 64 + (n / 64) % 64;
        assert n == (n / 64) * 64 + n % 64;
      }
    }
  }

  lemma {:induction false} UtfBodyDecodes(s: seq<uint16>)
    ensures DecodeUtf(UtfBody(s)) == Success(s)
  {
    if s != [] {
      UtfBodyDecodes(s[1..]);
      UtfCharDecodes(s[0], UtfBody(s[1..]));
      assert [s[0]] + s[1..] == s;
    }
  }

  /** readUTF returns the string writeUTF wrote, and consumes exactly its bytes. */
  lemma UtfRoundTrip(s: seq<uint16>, rest: Bytes)
    requires WriteUtf(s).Success?
    ensures ReadUtf(WriteUtf(s).value + rest) == Success(Decoded(s, rest))
  {
    Pow256Values();
    var body := UtfBody(s);
    var w := BigEndian(2, |body|) + body + rest;
    assert WriteUtf(s).value + rest == BigEndian(2, |body|) + (body + rest);
    ReadUnsignedOfBigEndian(2, |body|, body + rest);
    assert (body + rest)[..|body|] == body;
    assert (body + rest)[|body|..] == rest;
    UtfBodyDecodes(s);
  }
}
