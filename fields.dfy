/**
 * Typed values (the Field hierarchy) and the comparison rules of the
 * LongField, BooleanField, NullField and BinaryField variants. A field wraps
 * its stored bytes and the metadata it was built with; a NullField has no
 * bytes at all.
 */
module Fields {
  import opened Base
  import opened Columns

  /**
   * Field.NULL_COMPARE ("the operand is null") and Field.NOT_DEFINED ("the
   * types are not comparable"). The Field base class that defines them is not
   * part of this model, so their values are left open.
   */
  const NULL_COMPARE: int
  const NOT_DEFINED: int

  datatype Field =
    | IntegerField(meta: Metadata, data: Bytes)
    | LongField(meta: Metadata, data: Bytes)
    | FloatField(meta: Metadata, data: Bytes)
    | DoubleField(meta: Metadata, data: Bytes)
    | StringField(meta: Metadata, data: Bytes)
    | BooleanField(meta: Metadata, data: Bytes)
    | BinaryField(meta: Metadata, data: Bytes)
    | NullField(meta: Metadata)
  {
    /** getType(): the type tag of the variant. */
    function GetType(): ColumnType {
      match this
      case IntegerField(_, _) => INTEGER
      case LongField(_, _) => LONG
      case FloatField(_, _) => FLOAT
      case DoubleField(_, _) => DOUBLE
      case StringField(_, _) => STRING
      case BooleanField(_, _) => BOOLEAN
      case BinaryField(_, _) => BINARY
      case NullField(_) => NULL
    }

    /** getBData().getData(): the stored bytes, or null for a NullField. */
    function BData(): Option<Bytes> {
      if NullField? then None else Some(data)
    }

    /** bufferByteSize(): the length of the stored bytes (none for a NullField). */
    function BufferByteSize(): nat {
      if NullField? then 0 else |data|
    }
  }

  /** The NullField of the no-argument constructor and of NullField.generic. */
  const NullGeneric := NullField(IntegerGeneric)

  /**
   * Field.createField(meta, data): the variant chosen by the metadata's type.
   * The factory lives in the Field base class, which is not part of this
   * model; NULL metadata gives a NullField, BINARY and UNKNOWN a BinaryField.
   */
  function CreateField(meta: Metadata, data: Bytes): (f: Field)
    ensures f.meta == meta
    ensures meta.ctype != NULL ==> f.BData() == Some(data)
    ensures meta.ctype != UNKNOWN ==> f.GetType() == meta.ctype
  {
    match meta.ctype
    case INTEGER => IntegerField(meta, data)
    case LONG => LongField(meta, data)
    case FLOAT => FloatField(meta, data)
    case DOUBLE => DoubleField(meta, data)
    case STRING => StringField(meta, data)
    case BOOLEAN => BooleanField(meta, data)
    case NULL => NullField(meta)
    case _ => BinaryField(meta, data)
  }

  // ---------------------------------------------------------------------
  // Native values and the fields the setters build from them

  /**
   * A native Java value: what the typed setters and setValue take, and what
   * the getters give back. Floating-point values are kept as the bytes
   * UtilConversor produces for them.
   */
  datatype Value =
    | IntV(i: Int32)
    | LongV(l: Int64)
    | FloatV(floatBits: Bytes)
    | DoubleV(doubleBits: Bytes)
    | StringV(s: string)
    | BoolV(b: bool)
    | BinV(bytes: Bytes)
    | NullV

  /**
   * UtilConversor.stringToByteArray, which is not part of this model: one
   * byte per character, its code modulo 256 (exact for 8-bit text).
   */
  function StringToBytes(s: string): (b: Bytes)
    ensures |b| == |s|
  {
    if s == [] then [] else [(s[0] as int % 256) as bv8] + StringToBytes(s[1..])
  }

  function BytesToString(b: Bytes): (s: string)
    ensures |s| == |b|
  {
    if b == [] then [] else [(b[0] as int) as char] + BytesToString(b[1..])
  }

  /** Text whose characters all fit in a byte. */
  predicate Latin1(s: string) {
    forall i :: 0 <= i < |s| ==> s[i] as int < 256
  }

  lemma {:induction false} StringRoundTrip(s: string)
    requires Latin1(s)
    ensures BytesToString(StringToBytes(s)) == s
  {
    if s != [] {
      var b := StringToBytes(s);
      assert b[0] == (s[0] as int % 256) as bv8 && b[1..] == StringToBytes(s[1..]);
      assert Latin1(s[1..]) by {
        forall i | 0 <= i < |s| - 1 ensures s[1..][i] as int < 256 {
          assert s[1..][i] == s[i + 1];
        }
      }
      StringRoundTrip(s[1..]);
      CharByte(s[0]);
      assert s == [s[0]] + s[1..];
    }
  }

  lemma CharByte(c: char)
    requires c as int < 256
    ensures (((c as int % 256) as bv8) as int) as char == c
  {
    var n := c as int;
    assert n % 256 == n;
    assert ((n as bv8) as int) == n;
  }

  /** The byte the boolean setters store: 1 for true, 0 for false. */
  function BooleanBytes(v: bool): (b: Bytes)
    ensures |b| == 1
  {
    [if v then 1 else 0]
  }

  /** BData.getBoolean(), not part of this model: a non-zero first byte. */
  function BoolOf(b: Bytes): bool {
    b != [] && b[0] != 0
  }

  lemma BooleanRoundTrip(v: bool)
    ensures BoolOf(BooleanBytes(v)) == v
  {
  }

  /**
   * BData.getInt() / getLong(), not part of this model: the first n bytes
   * read big-endian; fewer bytes underflow the buffer.
   */
  function ReadSigned(d: Bytes, n: nat): (r: Result<int>)
    requires n > 0
    ensures r.Ok? <==> n <= |d|
    ensures r.Ok? ==> 0 <= r.value + Pow256(n) / 2 < Pow256(n)
  {
    if |d| < n then Err(IndexOutOfBounds) else Ok(SignedBE(d[..n]))
  }

  /**
   * constructData() of each variant: the value read from the stored bytes.
   * A NullField materialises to null, a BinaryField to its bytes.
   */
  function Materialize(f: Field): (r: Result<Value>)
    ensures f.NullField? ==> r == Ok(NullV)
    ensures f.BinaryField? ==> r == Ok(BinV(f.data))
    ensures r.Ok? && r.value == NullV ==> f.NullField?
  {
    match f
    case IntegerField(_, d) =>
      assert Pow256(4) == 0x1_0000_0000;
      var v :- ReadSigned(d, 4);
      Ok(IntV(v))
    case LongField(_, d) =>
      assert Pow256(8) == 0x1_0000_0000_0000_0000;
      var v :- ReadSigned(d, 8);
      Ok(LongV(v))
    case FloatField(_, d) => Ok(FloatV(d))
    case DoubleField(_, d) => Ok(DoubleV(d))
    case StringField(_, d) => Ok(StringV(BytesToString(d)))
    case BooleanField(_, d) => Ok(BoolV(BoolOf(d)))
    case BinaryField(_, d) => Ok(BinV(d))
    case NullField(_) => Ok(NullV)
  }

  /**
   * The bytes a setter stores for a value; a null value is dereferenced
   * (NullPointerException).
   */
  function ValueBytes(v: Value): (r: Result<Bytes>)
    ensures r.Err? <==> v == NullV
  {
    match v
    case IntV(i) => Ok(IntToBytes(i))
    case LongV(l) => Ok(LongToBytes(l))
    case FloatV(b) => Ok(b)
    case DoubleV(b) => Ok(b)
    case StringV(s) => Ok(StringToBytes(s))
    case BoolV(b) => Ok(BooleanBytes(b))
    case BinV(b) => Ok(b)
    case NullV => Err(NullPointer)
  }

  /**
   * The metadata size setData computes, as written: `data.length >> 8 + 1`,
   * which Java parses as `data.length >> (8 + 1)`.
   */
  function BinarySizeAsWritten(n: nat): int {
    ToShort(n / 512)
  }

  /**
   * The evident intent, `(data.length >> 8) + 1`: a size counted in
   * 256-byte units (the LSHIFT_8_SIZE_COLUMN flag) that covers the data.
   */
  function BinarySize(n: nat): (s: int)
    ensures n < 0x7FFF * 256 ==> n < s * 256 <= n + 256
  {
    ToShort(n / 256 + 1)
  }

  /** As written, a 300-byte array gets a size of zero units. */
  lemma BinarySizeAsWrittenTooSmall()
    ensures BinarySizeAsWritten(300) == 0 && BinarySizeAsWritten(300) * 256 < 300
    ensures BinarySize(300) == 2
  {
  }

  /**
   * The field the setters without a column build: setInt, setLong,
   * setString, setFloat, setDouble and setBoolean use the generic metadata
   * of their type, setData a BinaryField.
   */
  function NativeField(v: Value): (r: Result<Field>)
    ensures r.Err? <==> v == NullV
    ensures r.Ok? ==> r.value.BData() == Some(ValueBytes(v).value)
  {
    match v
    case IntV(i) => Ok(CreateField(IntegerGeneric, IntToBytes(i)))
    case LongV(l) => Ok(CreateField(LongGeneric, LongToBytes(l)))
    case FloatV(b) => Ok(CreateField(FloatGeneric, b))
    case DoubleV(b) => Ok(CreateField(DoubleGeneric, b))
    case StringV(s) => Ok(CreateField(StringMetadata(JavaLength(s)), StringToBytes(s)))
    case BoolV(b) => Ok(CreateField(BooleanGeneric, BooleanBytes(b)))
    case BinV(b) => Ok(BinaryField(Metadata(BINARY, BinarySize(|b|)), b))
    case NullV => Err(NullPointer)
  }

  /** The field the setters that take a column build: the value's bytes under the column's metadata. */
  function ColumnField(v: Value, col: Column): (r: Result<Field>)
    ensures r.Err? <==> v == NullV
    ensures r.Ok? ==> r.value.meta == col.Meta()
  {
    var b :- ValueBytes(v);
    Ok(CreateField(col.Meta(), b))
  }

  /** The column types the switches of setValue and adjustField handle. */
  predicate Settable(t: ColumnType) {
    t == STRING || t == BOOLEAN || t == INTEGER || t == FLOAT || t == DOUBLE || t == LONG
  }

  /** The value's Java class is the one the column type's case casts to. */
  predicate OfType(t: ColumnType, v: Value) {
    match t
    case STRING => v.StringV?
    case BOOLEAN => v.BoolV?
    case INTEGER => v.IntV?
    case FLOAT => v.FloatV?
    case DOUBLE => v.DoubleV?
    case LONG => v.LongV?
    case _ => false
  }

  /**
   * The cast of a case of setValue or adjustField: a null passes the cast
   * and is dereferenced by the setter; a value of another class fails it.
   */
  function Cast(t: ColumnType, v: Value): (r: Result<Value>)
    requires Settable(t)
    ensures r.Ok? <==> OfType(t, v)
    ensures r.Ok? ==> r.value == v
    ensures r.Err? ==> (r.error == NullPointer <==> v == NullV)
  {
    if v == NullV then Err(NullPointer)
    else if OfType(t, v) then Ok(v)
    else Err(ClassCast)
  }

  /** The type of column a value of each class belongs to. */
  function TypeOf(v: Value): ColumnType {
    match v
    case IntV(_) => INTEGER
    case LongV(_) => LONG
    case FloatV(_) => FLOAT
    case DoubleV(_) => DOUBLE
    case StringV(_) => STRING
    case BoolV(_) => BOOLEAN
    case BinV(_) => BINARY
    case NullV => NULL
  }

  /**
   * A value a typed setter stores reads back unchanged through the getter
   * of its type (for text, when every character fits in a byte).
   */
  lemma SetterRoundTrip(v: Value, col: Column)
    requires v != NullV && (v.StringV? ==> Latin1(v.s))
    requires col.ctype == TypeOf(v)
    ensures NativeField(v).Ok? && Materialize(NativeField(v).value) == Ok(v)
    ensures ColumnField(v, col).Ok? && Materialize(ColumnField(v, col).value) == Ok(v)
  {
    match v
    case IntV(i) =>
      assert IntToBytes(i)[..4] == IntToBytes(i);
    case LongV(l) =>
      assert LongToBytes(l)[..8] == LongToBytes(l);
    case StringV(s) =>
      StringRoundTrip(s);
    case _ =>
  }

  // ---------------------------------------------------------------------
  // Comparison

  /** Long.compare and Boolean.compare: -1, 0 or 1. */
  function CompareInts(x: int, y: int): (r: int)
    ensures -1 <= r <= 1 && (r < 0 <==> x < y) && (r == 0 <==> x == y)
  {
    if x < y then -1 else if x == y then 0 else 1
  }

  function CompareBools(x: bool, y: bool): (r: int)
    ensures -1 <= r <= 1 && (r < 0 <==> !x && y) && (r == 0 <==> x == y)
  {
    if x == y then 0 else if x then 1 else -1
  }

  /**
   * compareTo of the variants outside this model (IntegerField, FloatField,
   * DoubleField, StringField): a parameter, f.compareTo(g).
   */
  type Foreign = (Field, Option<Field>) -> Result<int>

  /**
   * The width LongField.compareTo reads its operand with: getLong() for an
   * operand whose metadata size is 8, getInt() otherwise.
   */
  function OperandWidth(g: Field): (n: nat)
    ensures n == 4 || n == 8
  {
    if g.meta.size == 8 then 8 else 4
  }

  /**
   * f.getLong() (n = 8) or f.getInt() (n = 4): the operand's first n bytes
   * read big-endian; a NullField has no bytes to read.
   */
  function NumberOf(f: Field, n: nat): (r: Result<int>)
    requires n > 0
    ensures r.Ok? <==> !f.NullField? && n <= |f.data|
    ensures r.Ok? ==> r == ReadSigned(f.data, n)
  {
    if f.NullField? then Err(NullPointer) else ReadSigned(f.data, n)
  }

  /**
   * LongField.compareTo(f). The operand is read first, then the receiver's
   * own value, getBufferedData(), which is its first 8 bytes as in
   * Materialize.
   */
  function LongCompareTo(self: Field, f: Option<Field>, foreign: Foreign): (r: Result<int>)
    requires self.LongField?
    ensures f.None? ==> r == Ok(NULL_COMPARE)
    ensures f.Some? && f.value.meta.IsInt() ==>
      (r.Ok? <==> NumberOf(f.value, OperandWidth(f.value)).Ok? && 8 <= |self.data|)
    ensures f.Some? && f.value.meta.IsInt() && r.Ok? ==>
      var x := ReadSigned(self.data, 8).value;
      var y := NumberOf(f.value, OperandWidth(f.value)).value;
      -1 <= r.value <= 1 && (r.value < 0 <==> x < y) && (r.value == 0 <==> x == y)
  {
    match f
    case None => Ok(NULL_COMPARE)
    case Some(g) =>
      if g.meta.IsString() || g.meta.IsFloat() then foreign(g, Some(self))
      else if !g.meta.IsInt() then Ok(NOT_DEFINED)
      else
        var val :- NumberOf(g, OperandWidth(g));
        var own :- ReadSigned(self.data, 8);
        Ok(CompareInts(own, val))
  }

  /** A string or floating-point operand gets the last word, unnegated. */
  lemma LongCompareDelegates(self: Field, g: Field, foreign: Foreign)
    requires self.LongField? && (g.meta.IsString() || g.meta.IsFloat())
    ensures LongCompareTo(self, Some(g), foreign) == foreign(g, Some(self))
  {
  }

  /** An operand that is neither integer, floating point nor string is not comparable. */
  lemma LongCompareNotDefined(self: Field, g: Field, foreign: Foreign)
    requires self.LongField? && !g.meta.IsInt() && !g.meta.IsFloat() && !g.meta.IsString()
    ensures LongCompareTo(self, Some(g), foreign) == Ok(NOT_DEFINED)
  {
  }

  /**
   * A long with 8-byte metadata and at least 8 bytes compares equal to
   * itself (with other metadata sizes the operand is read as an int).
   */
  lemma LongCompareReflexive(self: Field, foreign: Foreign)
    requires self.LongField? && self.meta.IsInt() && self.meta.size == 8 && 8 <= |self.data|
    ensures LongCompareTo(self, Some(self), foreign) == Ok(0)
  {
  }

  /** Between two 8-byte longs the comparison is antisymmetric. */
  lemma LongCompareAntisymmetric(a: Field, b: Field, foreign: Foreign)
    requires a.LongField? && b.LongField? && a.meta.IsInt() && b.meta.IsInt()
    requires a.meta.size == 8 && b.meta.size == 8 && 8 <= |a.data| && 8 <= |b.data|
    ensures LongCompareTo(a, Some(b), foreign).Ok? && LongCompareTo(b, Some(a), foreign).Ok?
    ensures LongCompareTo(a, Some(b), foreign).value == -LongCompareTo(b, Some(a), foreign).value
  {
  }

  /**
   * The comparison agrees with the values the fields materialise to: for
   * long fields built by setLong, compareTo is Long.compare of the values.
   */
  lemma LongCompareMatchesValues(x: Int64, y: Int64, foreign: Foreign)
    ensures var a := NativeField(LongV(x)).value;
            var b := NativeField(LongV(y)).value;
            && Materialize(a) == Ok(LongV(x)) && Materialize(b) == Ok(LongV(y))
            && LongCompareTo(a, Some(b), foreign) == Ok(CompareInts(x, y))
  {
    assert LongToBytes(x)[..8] == LongToBytes(x);
    assert LongToBytes(y)[..8] == LongToBytes(y);
  }

  /**
   * Widening is exact: an int operand compares exactly as the long with the
   * same value does.
   */
  lemma LongCompareWidening(self: Field, v: Int32, foreign: Foreign)
    requires self.LongField?
    ensures LongCompareTo(self, Some(IntegerField(IntegerGeneric, IntToBytes(v))), foreign)
         == LongCompareTo(self, Some(LongField(LongGeneric, LongToBytes(v))), foreign)
    ensures 8 <= |self.data| ==>
      LongCompareTo(self, Some(IntegerField(IntegerGeneric, IntToBytes(v))), foreign)
      == Ok(CompareInts(ReadSigned(self.data, 8).value, v))
  {
    assert IntToBytes(v)[..4] == IntToBytes(v);
    assert LongToBytes(v)[..8] == LongToBytes(v);
  }

  /** BooleanField.compareTo(f). */
  function BooleanCompareTo(self: Field, f: Option<Field>): (r: Result<int>)
    requires self.BooleanField?
    ensures f.None? ==> r == Ok(NULL_COMPARE)
    ensures f.Some? && !f.value.meta.IsBoolean() ==> r == Ok(NOT_DEFINED)
    ensures f.Some? && f.value.meta.IsBoolean() && !f.value.NullField? ==>
      r.Ok? && -1 <= r.value <= 1
      && (r.value < 0 <==> !BoolOf(self.data) && BoolOf(f.value.data))
      && (r.value == 0 <==> BoolOf(self.data) == BoolOf(f.value.data))
  {
    match f
    case None => Ok(NULL_COMPARE)
    case Some(g) =>
      if !g.meta.IsBoolean() then Ok(NOT_DEFINED)
      else if g.NullField? then Err(NullPointer)
      else Ok(CompareBools(BoolOf(self.data), BoolOf(g.data)))
  }

  /** Built by the boolean setter: false sorts before true. */
  lemma BooleanFalseBeforeTrue()
    ensures BooleanCompareTo(BooleanField(BooleanGeneric, BooleanBytes(false)),
                             Some(BooleanField(BooleanGeneric, BooleanBytes(true)))) == Ok(-1)
    ensures BooleanCompareTo(BooleanField(BooleanGeneric, BooleanBytes(true)),
                             Some(BooleanField(BooleanGeneric, BooleanBytes(false)))) == Ok(1)
  {
  }

  lemma BooleanCompareAntisymmetric(a: Field, b: Field)
    requires a.BooleanField? && b.BooleanField? && a.meta.IsBoolean() && b.meta.IsBoolean()
    ensures BooleanCompareTo(a, Some(b)).Ok? && BooleanCompareTo(b, Some(a)).Ok?
    ensures BooleanCompareTo(a, Some(b)).value == -BooleanCompareTo(b, Some(a)).value
  {
  }

  /** NullField.compareTo(f): 0 against null, -NULL_COMPARE against any field. */
  function NullCompareTo(f: Option<Field>): (r: int)
    ensures f.None? ==> r == 0
    ensures f.Some? ==> r + NULL_COMPARE == 0
  {
    if f.None? then 0 else NULL_COMPARE * -1
  }

  /**
   * Arrays.compare on two byte arrays: at the first index where they differ,
   * the difference of the two signed bytes; otherwise the difference of the
   * lengths.
   */
  function ArraysCompare(a: Bytes, b: Bytes): int {
    if a == [] || b == [] then |a| - |b|
    else if a[0] != b[0] then SignedByte(a[0]) - SignedByte(b[0])
    else ArraysCompare(a[1..], b[1..])
  }

  lemma {:induction false} ArraysCompareZeroIff(a: Bytes, b: Bytes)
    ensures ArraysCompare(a, b) == 0 <==> a == b
  {
    if a != [] && b != [] {
      if a[0] == b[0] {
        ArraysCompareZeroIff(a[1..], b[1..]);
        assert a == [a[0]] + a[1..] && b == [b[0]] + b[1..];
      } else {
        assert SignedByte(a[0]) != SignedByte(b[0]);
      }
    }
  }

  lemma {:induction false} ArraysCompareAntisymmetric(a: Bytes, b: Bytes)
    ensures ArraysCompare(a, b) == -ArraysCompare(b, a)
  {
    if a != [] && b != [] && a[0] == b[0] {
      ArraysCompareAntisymmetric(a[1..], b[1..]);
    }
  }

  /** A proper prefix compares less than the longer run. */
  lemma {:induction false} ArraysComparePrefix(a: Bytes, b: Bytes)
    requires |a| < |b| && a == b[..|a|]
    ensures ArraysCompare(a, b) == |a| - |b| < 0
  {
    if a != [] {
      assert a[1..] == b[1..][..|a| - 1];
      ArraysComparePrefix(a[1..], b[1..]);
    }
  }

  /**
   * At the first difference the sign follows the signed byte order
   * (so 0x80 sorts before 0x01).
   */
  lemma {:induction false} ArraysCompareFirstDifference(a: Bytes, b: Bytes, i: nat)
    requires i < |a| && i < |b| && a[..i] == b[..i] && a[i] != b[i]
    ensures ArraysCompare(a, b) == SignedByte(a[i]) - SignedByte(b[i])
    ensures ArraysCompare(a, b) < 0 <==> SignedByte(a[i]) < SignedByte(b[i])
  {
    if i > 0 {
      assert a[0] == a[..i][0] && b[0] == b[..i][0];
      assert a[1..][..i - 1] == a[..i][1..] && b[1..][..i - 1] == b[..i][1..];
      ArraysCompareFirstDifference(a[1..], b[1..], i - 1);
    }
  }

  /** BinaryField.compareTo(f): 0 against null, otherwise Arrays.compare. */
  function BinaryCompareTo(self: Field, f: Option<Field>): (r: Result<int>)
    requires self.BinaryField?
    ensures f.None? ==> r == Ok(0)
    ensures f.Some? && f.value.NullField? ==> r == Err(NullPointer)
    ensures f.Some? && !f.value.NullField? ==> r.Ok? && (r.value == 0 <==> self.data == f.value.data)
  {
    match f
    case None => Ok(0)
    case Some(g) =>
      match g.BData()
      case None => Err(NullPointer)
      case Some(d) =>
        ArraysCompareZeroIff(self.data, d);
        Ok(ArraysCompare(self.data, d))
  }

  lemma BinaryCompareAntisymmetric(a: Field, b: Field)
    requires a.BinaryField? && b.BinaryField?
    ensures BinaryCompareTo(a, Some(b)).Ok? && BinaryCompareTo(b, Some(a)).Ok?
    ensures BinaryCompareTo(a, Some(b)).value == -BinaryCompareTo(b, Some(a)).value
  {
    ArraysCompareAntisymmetric(a.data, b.data);
  }

  /**
   * f.compareTo(g) for the variant f belongs to; the variants outside this
   * model answer through `foreign`.
   */
  function FieldCompareTo(self: Field, f: Option<Field>, foreign: Foreign): (r: Result<int>)
    ensures self.NullField? ==> r == Ok(NullCompareTo(f))
    ensures (self.BinaryField? || self.NullField?) && f.None? ==> r == Ok(0)
    ensures (self.LongField? || self.BooleanField?) && f.None? ==> r == Ok(NULL_COMPARE)
  {
    match self
    case LongField(_, _) => LongCompareTo(self, f, foreign)
    case BooleanField(_, _) => BooleanCompareTo(self, f)
    case NullField(_) => Ok(NullCompareTo(f))
    case BinaryField(_, _) => BinaryCompareTo(self, f)
    case _ => foreign(self, f)
  }
}
