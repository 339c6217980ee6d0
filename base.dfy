/**
 * Shared vocabulary of the record layer: results and errors (the Java
 * exceptions the code throws), raw byte buffers, and the fixed-width
 * integer encodings the codec and the typed setters use.
 */
module Base {

  /** A raw byte buffer (Java `byte[]`, the content of a `BData`). */
  type Bytes = seq<bv8>

  /** A Java `int` and a Java `long`. */
  type Int32 = x: int | -0x8000_0000 <= x < 0x8000_0000
  type Int64 = x: int | -0x8000_0000_0000_0000 <= x < 0x8000_0000_0000_0000

  datatype Option<+T> = None | Some(value: T)

  /** Rules of the schema check, one per exception `validateColumns` throws. */
  datatype SchemaRule =
    | NoColumns
    | NameLength(index: nat)
    | PrimaryKeyNullable(name: string)
    | PrimaryKeyDynamic(name: string)
    | DuplicateName(first: nat, second: nat)

  /** Rules of the row check, one per exception `validateRowData` throws. */
  datatype DataRule =
    | MissingValue(name: string)
    | LongerThanLimit(name: string)
    | LongerThanFixedSize(name: string)

  /** What can go wrong; the last five are Java runtime exceptions. */
  datatype Error =
    | NullColumn
    | Schema(schemaRule: SchemaRule)
    | Data(dataRule: DataRule)
    | NullPointer
    | IndexOutOfBounds
    | IllegalArgument
    | ClassCast
    | AssertionFailure

  datatype Result<+T> = Ok(value: T) | Err(error: Error) {
    predicate IsFailure() { Err? }
    function PropagateFailure<U>(): Result<U> requires Err? { Err(error) }
    function Extract(): T requires Ok? { value }
  }

  datatype Outcome = Pass | Fail(error: Error) {
    predicate IsFailure() { Fail? }
    function PropagateFailure(): Outcome requires Fail? { this }
  }

  /** `new byte[n]`: n zero bytes. */
  function Zeros(n: nat): (z: Bytes)
    ensures |z| == n && forall i :: 0 <= i < n ==> z[i] == 0
  {
    if n == 0 then [] else Zeros(n - 1) + [0]
  }

  function Pow256(n: nat): (p: nat)
    ensures p >= 1
  {
    if n == 0 then 1 else 256 * Pow256(n - 1)
  }

  /** A Java `byte` read as a signed number. */
  function SignedByte(b: bv8): (v: int)
    ensures -128 <= v < 128
    ensures (v < 0) == (b >= 128)
  {
    if b < 128 then b as int else b as int - 256
  }

  /** Big-endian unsigned value of a byte run. */
  function UnsignedBE(b: Bytes): (u: nat)
    ensures u < Pow256(|b|)
  {
    if b == [] then 0 else UnsignedBE(b[..|b| - 1]) * 256 + b[|b| - 1] as nat
  }

  /** The n low bytes of u, most significant first. */
  function EncodeBE(u: nat, n: nat): (b: Bytes)
    requires u < Pow256(n)
    ensures |b| == n
  {
    if n == 0 then [] else EncodeBE(u / 256, n - 1) + [ByteOf(u % 256)]
  }

  /**
   * The byte of value v, counted up from zero. Built by recursion rather
   * than by `v as bv8`, so that the solver keeps to linear arithmetic.
   */
  function ByteOf(v: nat): (b: bv8)
    requires v < 256
    ensures b as int == v
  {
    if v == 0 then 0 else ByteOf(v - 1) + 1
  }

  lemma DivBound(u: nat, p: nat)
    requires u < 256 * p
    ensures u / 256 < p && u == (u / 256) * 256 + u % 256
  {
  }

  lemma {:induction false} UnsignedBERoundTrip(u: nat, n: nat)
    requires u < Pow256(n)
    ensures UnsignedBE(EncodeBE(u, n)) == u
  {
    if n > 0 {
      var b := EncodeBE(u, n);
      DivBound(u, Pow256(n - 1));
      assert b[..n - 1] == EncodeBE(u / 256, n - 1);
      assert b[n - 1] as nat == u % 256;
      UnsignedBERoundTrip(u / 256, n - 1);
      assert UnsignedBE(b) == (u / 256) * 256 + u % 256;
    }
  }

  /** Big-endian two's complement value of a byte run. */
  function SignedBE(b: Bytes): (v: int)
    ensures b != [] ==> 0 <= v + Pow256(|b|) / 2 < Pow256(|b|)
  {
    var u := UnsignedBE(b);
    if b != [] then
      HalfPow(|b|);
      if u >= Pow256(|b|) / 2 then u - Pow256(|b|) else u
    else u
  }

  lemma HalfPow(n: nat)
    requires n > 0
    ensures Pow256(n) == 2 * (Pow256(n) / 2)
  {
    assert Pow256(n) == 2 * (128 * Pow256(n - 1));
  }

  /** v in n bytes, big-endian two's complement. */
  function EncodeSignedBE(v: int, n: nat): (b: Bytes)
    requires n > 0 && 0 <= v + Pow256(n) / 2 < Pow256(n)
    ensures |b| == n
  {
    EncodeBE(if v < 0 then v + Pow256(n) else v, n)
  }

  lemma SignedBERoundTrip(v: int, n: nat)
    requires n > 0 && 0 <= v + Pow256(n) / 2 < Pow256(n)
    ensures SignedBE(EncodeSignedBE(v, n)) == v
  {
    UnsignedBERoundTrip(if v < 0 then v + Pow256(n) else v, n);
  }

  /**
   * UtilConversor.intToByteArray / longToByteArray: that class is not part
   * of this model; the encodings are taken to be the big-endian two's
   * complement images Java's ByteBuffer writes by default.
   */
  function IntToBytes(v: Int32): (b: Bytes)
    ensures |b| == 4 && SignedBE(b) == v
  {
    assert Pow256(4) == 0x1_0000_0000;
    SignedBERoundTrip(v, 4);
    EncodeSignedBE(v, 4)
  }

  function LongToBytes(v: Int64): (b: Bytes)
    ensures |b| == 8 && SignedBE(b) == v
  {
    assert Pow256(8) == 0x1_0000_0000_0000_0000;
    SignedBERoundTrip(v, 8);
    EncodeSignedBE(v, 8)
  }

  /** Little-endian unsigned value of a byte run. */
  function UnsignedLE(b: Bytes): (u: nat)
    ensures u < Pow256(|b|)
  {
    if b == [] then 0 else b[0] as nat + 256 * UnsignedLE(b[1..])
  }

  /** The n low bytes of u, least significant first. */
  function EncodeLE(u: nat, n: nat): (b: Bytes)
    requires u < Pow256(n)
    ensures |b| == n
  {
    if n == 0 then [] else [ByteOf(u % 256)] + EncodeLE(u / 256, n - 1)
  }

  lemma {:induction false} UnsignedLERoundTrip(u: nat, n: nat)
    requires u < Pow256(n)
    ensures UnsignedLE(EncodeLE(u, n)) == u
  {
    if n > 0 {
      var b := EncodeLE(u, n);
      DivBound(u, Pow256(n - 1));
      assert b[1..] == EncodeLE(u / 256, n - 1);
      assert b[0] as nat == u % 256;
      UnsignedLERoundTrip(u / 256, n - 1);
      assert UnsignedLE(b) == u % 256 + 256 * (u / 256);
    }
  }

  /**
   * The 4-byte length prefix of a variable-length value: the low 32 bits of
   * an array length, written little-endian (a Java array is shorter than
   * 2^31, so nothing is lost there).
   */
  function LengthPrefix(n: nat): (b: Bytes)
    ensures |b| == 4
  {
    assert Pow256(4) == 0x1_0000_0000;
    EncodeLE(n % 0x1_0000_0000, 4)
  }

  /**
   * UtilConversor.byteArrayToInt, which is not part of this model: taken to
   * be the exact inverse of the little-endian prefix the encoder writes,
   * read as a signed 32-bit number.
   */
  function ReadLengthPrefix(b: Bytes): (n: int)
    requires |b| == 4
    ensures -0x8000_0000 <= n < 0x8000_0000
  {
    assert Pow256(4) == 0x1_0000_0000;
    var u := UnsignedLE(b);
    if u >= 0x8000_0000 then u - 0x1_0000_0000 else u
  }

  lemma LengthPrefixRoundTrip(n: nat)
    requires n < 0x8000_0000
    ensures ReadLengthPrefix(LengthPrefix(n)) == n
  {
    assert Pow256(4) == 0x1_0000_0000;
    assert n % 0x1_0000_0000 == n;
    UnsignedLERoundTrip(n, 4);
  }

  /**
   * Arrays.copyOfRange(a, from, to): the slice, padded with zeros past the
   * end of `a`; IllegalArgumentException when from > to, and an index
   * exception when `from` lies outside `a`.
   */
  function CopyOfRange(a: Bytes, from: int, to: int): (r: Result<Bytes>)
    ensures r.Ok? <==> 0 <= from <= |a| && from <= to
    ensures r.Ok? ==> |r.value| == to - from
    ensures r.Ok? ==> forall i :: 0 <= i < to - from ==>
      r.value[i] == if from + i < |a| then a[from + i] else 0
  {
    if from > to then Err(IllegalArgument)
    else if from < 0 || from > |a| then Err(IndexOutOfBounds)
    else
      var end := if to <= |a| then to else |a|;
      Ok(a[from..end] + Zeros(to - end))
  }

  /** Exact slices come back unchanged. */
  lemma CopyOfRangeSlice(a: Bytes, from: nat, to: nat)
    requires from <= to <= |a|
    ensures CopyOfRange(a, from, to) == Ok(a[from..to])
  {
    var r := CopyOfRange(a, from, to);
    assert r.value == a[from..to];
  }
}
