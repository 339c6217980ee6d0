/**
 * The two stateful classes of the record layer: DataRow, a row under
 * construction (fields by column name, their metadata, a running byte
 * count, a validity flag, values of not-yet-known type and the schema it
 * is bound to), and Prototype, the table schema with its codec. They refer
 * to each other, so they share this module.
 */
module Records {
  import opened Base
  import opened Columns
  import opened Fields
  import opened Layout
  import opened Encoding
  import opened Decoding
  import opened Rows

  // ---------------------------------------------------------------------
  // What setMetadata(prototype) converts

  /** The unknown-type values whose column the schema knows and whose type adjustField handles. */
  function Adoptees(unknown: map<string, Value>, dic: map<string, Column>): set<string> {
    set k | k in unknown && k in dic && Settable(dic[k].ctype)
  }

  /** Some such value is of another class than its column's type (or null). */
  predicate AdoptionFails(unknown: map<string, Value>, dic: map<string, Column>) {
    exists k :: k in Adoptees(unknown, dic) && !OfType(dic[k].ctype, unknown[k])
  }

  /** The fields adjustField builds for the values it converts that are of their column's class. */
  function Conversions(unknown: map<string, Value>, dic: map<string, Column>): Row {
    map k | k in Adoptees(unknown, dic) && OfType(dic[k].ctype, unknown[k]) :: ColumnField(unknown[k], dic[k]).value
  }

  /**
   * Every value converted is adoptable; all of them are converted exactly
   * when no cast fails; each field is stored under its column's metadata
   * and holds the value's bytes.
   */
  lemma ConversionsSpec(unknown: map<string, Value>, dic: map<string, Column>)
    ensures Conversions(unknown, dic).Keys <= Adoptees(unknown, dic)
    ensures Conversions(unknown, dic).Keys == Adoptees(unknown, dic) <==> !AdoptionFails(unknown, dic)
    ensures forall k :: k in Conversions(unknown, dic) ==>
      && Conversions(unknown, dic)[k].meta == dic[k].Meta()
      && Conversions(unknown, dic)[k].BData() == Some(ValueBytes(unknown[k]).value)
  {
    var conv := Conversions(unknown, dic);
    var adopted := Adoptees(unknown, dic);
    if conv.Keys != adopted {
      var k :| k in adopted && k !in conv;
      assert !OfType(dic[k].ctype, unknown[k]);
    }
  }

  /** The entries of m under the names in s. */
  function Pick(m: Row, s: set<string>): Row {
    map k | k in s && k in m :: m[k]
  }

  /** The metadata entries adjustField stores for the names in s. */
  function ConvertedMeta(dic: map<string, Column>, s: set<string>): map<string, Option<Column>>
    requires s <= dic.Keys
  {
    map k | k in s :: Some(dic[k])
  }

  /** The entries the second loop of setMetadata(prototype) adds among some field names: no entry yet, and a column. */
  function Missing(names: set<string>, metadata: map<string, Option<Column>>, dic: map<string, Column>)
    : (r: map<string, Option<Column>>)
    ensures r.Keys == set n | n in names && n !in metadata && n in dic
  {
    map n | n in names && n !in metadata && n in dic :: Some(dic[n])
  }

  lemma MissingGrows(done: set<string>, n: string, metadata: map<string, Option<Column>>, dic: map<string, Column>)
    requires n !in done
    ensures Missing(done + {n}, metadata, dic)
         == if n !in metadata && n in dic then Missing(done, metadata, dic)[n := Some(dic[n])]
            else Missing(done, metadata, dic)
  {
    var a := Missing(done + {n}, metadata, dic);
    var b := if n !in metadata && n in dic then Missing(done, metadata, dic)[n := Some(dic[n])]
             else Missing(done, metadata, dic);
    assert a.Keys == b.Keys;
  }

  /** Picking every name of m that is in s, when s holds all of them, is m. */
  lemma PickAll(m: Row, s: set<string>)
    requires m.Keys <= s
    ensures Pick(m, s) == m
  {
    assert Pick(m, s).Keys == m.Keys;
  }

  /** When every adoptable value has been converted, no cast failed and the conversions are all there is. */
  lemma AdoptionComplete(unknown: map<string, Value>, dic: map<string, Column>, done: set<string>)
    requires done == Adoptees(unknown, dic) && done <= Conversions(unknown, dic).Keys
    ensures !AdoptionFails(unknown, dic)
    ensures Pick(Conversions(unknown, dic), done) == Conversions(unknown, dic)
  {
    ConversionsSpec(unknown, dic);
    PickAll(Conversions(unknown, dic), done);
  }

  lemma PickGrows(m: Row, before: set<string>, k: string)
    requires k in m
    ensures Pick(m, before + {k}) == Pick(m, before)[k := m[k]]
  {
    var a := Pick(m, before + {k});
    var b := Pick(m, before)[k := m[k]];
    assert a.Keys == b.Keys;
  }

  lemma ConvertedMetaGrows(dic: map<string, Column>, before: set<string>, k: string)
    requires before <= dic.Keys && k in dic
    ensures ConvertedMeta(dic, before + {k}) == ConvertedMeta(dic, before)[k := Some(dic[k])]
  {
    var c := ConvertedMeta(dic, before + {k});
    var d := ConvertedMeta(dic, before)[k := Some(dic[k])];
    assert c.Keys == d.Keys;
  }

  /**
   * The metadata setMetadata(prototype) leaves when no cast fails: the
   * column of every adopted value, then the schema's column for every other
   * field (names) that has no entry yet.
   */
  function MetadataAfter(meta0: map<string, Option<Column>>, unknown: map<string, Value>,
                         dic: map<string, Column>, names: set<string>): map<string, Option<Column>>
  {
    var meta1 := meta0 + ConvertedMeta(dic, Adoptees(unknown, dic));
    meta1 + Missing(names, meta1, dic)
  }

  /** Every field whose name the schema knows ends up with a metadata entry. */
  lemma MetadataAfterCovers(meta0: map<string, Option<Column>>, unknown: map<string, Value>,
                            dic: map<string, Column>, names: set<string>)
    ensures forall n :: n in names && n in dic ==> n in MetadataAfter(meta0, unknown, dic, names)
  {
    var meta1 := meta0 + ConvertedMeta(dic, Adoptees(unknown, dic));
    forall n | n in names && n in dic
      ensures n in MetadataAfter(meta0, unknown, dic, names)
    {
      if n !in meta1 {
        assert n in Missing(names, meta1, dic);
      }
    }
  }

  /** An adopted value's column is the schema's; other existing entries are kept as they were. */
  lemma MetadataAfterKeeps(meta0: map<string, Option<Column>>, unknown: map<string, Value>,
                           dic: map<string, Column>, names: set<string>)
    ensures forall n :: n in Adoptees(unknown, dic) ==>
      n in MetadataAfter(meta0, unknown, dic, names) && MetadataAfter(meta0, unknown, dic, names)[n] == Some(dic[n])
    ensures forall n :: n in meta0 && n !in Adoptees(unknown, dic) ==>
      n in MetadataAfter(meta0, unknown, dic, names) && MetadataAfter(meta0, unknown, dic, names)[n] == meta0[n]
  {
    var adopted := Adoptees(unknown, dic);
    var meta1 := meta0 + ConvertedMeta(dic, adopted);
    var miss := Missing(names, meta1, dic);
    forall n | n in adopted
      ensures n in MetadataAfter(meta0, unknown, dic, names) && MetadataAfter(meta0, unknown, dic, names)[n] == Some(dic[n])
    {
      assert n in meta1 && meta1[n] == Some(dic[n]);
      assert n !in miss;
    }
    forall n | n in meta0 && n !in adopted
      ensures n in MetadataAfter(meta0, unknown, dic, names) && MetadataAfter(meta0, unknown, dic, names)[n] == meta0[n]
    {
      assert n in meta1 && meta1[n] == meta0[n];
      assert n !in miss;
    }
  }

  /** Storing into an overriding map is storing into the override. */
  lemma OverrideGrows<V>(base: map<string, V>, m: map<string, V>, k: string, v: V, m2: map<string, V>)
    requires m2 == m[k := v]
    ensures (base + m)[k := v] == base + m2
  {
  }

  // ---------------------------------------------------------------------
  // What the decoder puts in a row

  /** The fields convertBinaryToRowData stores: createField(c, bytes) per decoded name. */
  function FieldsOf(d: Decoded): (r: Row)
    ensures r.Keys == d.Keys
  {
    map n | n in d :: CreateField(d[n].0.Meta(), d[n].1)
  }

  function MetaOf(d: Decoded): (r: map<string, Option<Column>>)
    ensures r.Keys == d.Keys
  {
    map n | n in d :: Some(d[n].0)
  }

  /** Storing one more decoded column. */
  lemma FieldsOfPut(acc: Decoded, c: Column, b: Bytes)
    ensures FieldsOf(acc[c.name := (c, b)]) == FieldsOf(acc)[c.name := CreateField(c.Meta(), b)]
  {
    var f1 := FieldsOf(acc[c.name := (c, b)]);
    var f2 := FieldsOf(acc)[c.name := CreateField(c.Meta(), b)];
    forall n | n in f1 ensures f1[n] == f2[n] { }
  }

  lemma MetaOfPut(acc: Decoded, c: Column, b: Bytes)
    ensures MetaOf(acc[c.name := (c, b)]) == MetaOf(acc)[c.name := Some(c)]
  {
    var m1 := MetaOf(acc[c.name := (c, b)]);
    var m2 := MetaOf(acc)[c.name := Some(c)];
    forall n | n in m1 ensures m1[n] == m2[n] { }
  }

  function KeysOf(meta: Option<map<string, Column>>): Option<set<string>> {
    if meta.None? then None else Some(meta.value.Keys)
  }

  // ---------------------------------------------------------------------
  // What createPKRow copies

  /**
   * The field createPKRow stores for a key column found in the row: the
   * value read through the getter of the column's type (string, int, long
   * or float; any other type is an AssertionError), stored under the
   * column by the matching setter.
   */
  function KeyField(col: Column, f: Field): (r: Result<Field>)
    ensures r.Ok? ==> r.value.meta == col.Meta()
    ensures r.Err? && r.error == AssertionFailure <==>
      !(col.ctype == STRING || col.ctype == INTEGER || col.ctype == LONG || col.ctype == FLOAT)
  {
    if !(col.ctype == STRING || col.ctype == INTEGER || col.ctype == LONG || col.ctype == FLOAT) then
      Err(AssertionFailure)
    else
      var v :- Materialize(f);
      var w :- Cast(col.ctype, v);
      ColumnField(w, col)
  }

  /** The loop of createPKRow from column i on, with the fields copied so far. */
  function KeyRowFrom(cols: seq<Column>, i: nat, row: Row, acc: Row): Result<Row>
    requires i <= |cols|
    decreases |cols| - i
  {
    if i == |cols| then Ok(acc)
    else
      var c := cols[i];
      if c.name !in row || !c.pk then KeyRowFrom(cols, i + 1, row, acc)
      else
        var f :- KeyField(c, row[c.name]);
        KeyRowFrom(cols, i + 1, row, acc[c.name := f])
  }

  /** The names of the key columns from column i on that the row holds. */
  function KeyNamesFrom(cols: seq<Column>, i: nat, row: Row): set<string> {
    set j | i <= j < |cols| && cols[j].pk && cols[j].name in row :: cols[j].name
  }

  /** createPKRow succeeds exactly when every key column the row holds can be copied. */
  lemma {:induction false} KeyRowFromOk(cols: seq<Column>, i: nat, row: Row, acc: Row)
    requires i <= |cols|
    ensures KeyRowFrom(cols, i, row, acc).Ok? <==>
      forall j :: i <= j < |cols| && cols[j].pk && cols[j].name in row ==> KeyField(cols[j], row[cols[j].name]).Ok?
    decreases |cols| - i
  {
    if i < |cols| {
      var c := cols[i];
      if c.name !in row || !c.pk {
        KeyRowFromOk(cols, i + 1, row, acc);
      } else if KeyField(c, row[c.name]).Ok? {
        KeyRowFromOk(cols, i + 1, row, acc[c.name := KeyField(c, row[c.name]).value]);
      }
    }
  }

  /** The copy holds the fields it started with and exactly the key columns the row holds. */
  lemma {:induction false} KeyRowFromKeys(cols: seq<Column>, i: nat, row: Row, acc: Row)
    requires i <= |cols|
    ensures KeyRowFrom(cols, i, row, acc).Ok? ==>
      KeyRowFrom(cols, i, row, acc).value.Keys == acc.Keys + KeyNamesFrom(cols, i, row)
    decreases |cols| - i
  {
    if i < |cols| {
      var c := cols[i];
      if c.name !in row || !c.pk {
        KeyRowFromKeys(cols, i + 1, row, acc);
        assert KeyNamesFrom(cols, i, row) == KeyNamesFrom(cols, i + 1, row);
      } else if KeyField(c, row[c.name]).Ok? {
        KeyRowFromKeys(cols, i + 1, row, acc[c.name := KeyField(c, row[c.name]).value]);
        assert KeyNamesFrom(cols, i, row) == {c.name} + KeyNamesFrom(cols, i + 1, row);
      }
    } else {
      assert KeyNamesFrom(cols, i, row) == {};
    }
  }

  // ---------------------------------------------------------------------
  // DataRow

  class DataRow {
    /** Column name to field (a TreeMap: walked in ascending name order). */
    var data: Row
    /** Values whose column type is not known yet; null in a copy. */
    var unknownData: Option<map<string, Value>>
    /** Column name to column; unset leaves a null entry behind. */
    var metadata: map<string, Option<Column>>
    var byteSize: int
    var prototype: Prototype?
    var len: int
    var valid: bool

    /** The byte counter equals the total buffer size of the fields. */
    ghost predicate Counted()
      reads this
    {
      byteSize == Total(data)
    }

    constructor ()
      ensures data == map[] && unknownData == Some(map[]) && metadata == map[]
      ensures byteSize == 0 && prototype == null && len == 0 && !valid
      ensures Counted()
    {
      data := map[];
      unknownData := Some(map[]);
      metadata := map[];
      byteSize := 0;
      prototype := null;
      len := 0;
      valid := false;
    }

    /**
     * DataRow(cloneData): fields, metadata and byte count are copied; the
     * rest starts afresh, and the unknown-type map is left null.
     */
    constructor CopyOf(other: DataRow)
      ensures data == other.data && metadata == other.metadata && byteSize == other.byteSize
      ensures unknownData == None && prototype == null && len == 0 && !valid
      ensures other.Counted() ==> Counted()
    {
      data := other.data;
      metadata := other.metadata;
      byteSize := other.byteSize;
      unknownData := None;
      prototype := null;
      len := 0;
      valid := false;
    }

    /** clone(). */
    method Clone() returns (r: DataRow)
      ensures fresh(r)
      ensures r.data == data && r.metadata == metadata && r.byteSize == byteSize
      ensures r.unknownData == None && r.prototype == null && r.len == 0 && !r.valid
      ensures Counted() ==> r.Counted()
    {
      r := new DataRow.CopyOf(this);
    }

    /**
     * setField(column, field): clears `valid`, takes the current field's
     * size off the counter, then stores the new field and adds its size. A
     * null field is not stored, and the current one stays in the map.
     */
    method SetField(column: string, field: Option<Field>)
      modifies this
      ensures !valid
      ensures data == if field.Some? then old(data)[column := field.value] else old(data)
      ensures byteSize == old(byteSize)
        - (if column in old(data) then old(data)[column].BufferByteSize() else 0)
        + (if field.Some? then field.value.BufferByteSize() else 0)
      ensures unknownData == old(unknownData) && metadata == old(metadata)
      ensures prototype == old(prototype) && len == old(len)
      ensures old(Counted()) && field.Some? ==> Counted()
    {
      valid := false;
      if column in data {
        byteSize := byteSize - data[column].BufferByteSize();
      }
      if field.None? {
        return;
      }
      data := data[column := field.value];
      byteSize := byteSize + field.value.BufferByteSize();
      TotalPut(old(data), column, field.value);
    }

    /** setMetadata(column, meta). */
    method SetMetadata(column: string, meta: Option<Column>)
      modifies this
      ensures metadata == old(metadata)[column := meta]
      ensures data == old(data) && byteSize == old(byteSize) && valid == old(valid)
      ensures unknownData == old(unknownData) && prototype == old(prototype) && len == old(len)
    {
      metadata := metadata[column := meta];
    }

    /** setField(column, field, meta): the field, then its metadata. */
    method SetFieldWith(column: string, field: Field, meta: Column)
      modifies this
      ensures !valid
      ensures data == old(data)[column := field]
      ensures metadata == old(metadata)[column := Some(meta)]
      ensures byteSize == old(byteSize)
        - (if column in old(data) then old(data)[column].BufferByteSize() else 0)
        + field.BufferByteSize()
      ensures unknownData == old(unknownData) && prototype == old(prototype) && len == old(len)
      ensures old(Counted()) ==> Counted()
    {
      SetField(column, Some(field));
      SetMetadata(column, Some(meta));
    }

    /**
     * setInt, setLong, setString, setFloat, setDouble, setBoolean (without
     * a column) and setData: the value's field under generic metadata. A
     * null value is dereferenced and nothing changes.
     */
    method SetNative(column: string, v: Value) returns (o: Outcome)
      modifies this
      ensures o.Fail? <==> v == NullV
      ensures o.Fail? ==> o.error == NullPointer && unchanged(this)
      ensures o.Pass? ==> !valid && data == old(data)[column := NativeField(v).value]
      ensures o.Pass? ==> (byteSize == old(byteSize)
        - (if column in old(data) then old(data)[column].BufferByteSize() else 0)
        + |ValueBytes(v).value|)
      ensures metadata == old(metadata) && unknownData == old(unknownData)
      ensures prototype == old(prototype) && len == old(len)
      ensures old(Counted()) ==> Counted()
    {
      var f := NativeField(v);
      if f.Err? {
        return Fail(f.error);
      }
      SetField(column, Some(f.value));
      return Pass;
    }

    /**
     * setInt, setLong, setString, setFloat, setDouble and setBoolean with a
     * column: the value's bytes under the column's metadata, and the column
     * recorded as the name's metadata.
     */
    method SetWithColumn(column: string, v: Value, meta: Column) returns (o: Outcome)
      modifies this
      ensures o.Fail? <==> v == NullV
      ensures o.Fail? ==> o.error == NullPointer && unchanged(this)
      ensures o.Pass? ==> !valid && data == old(data)[column := ColumnField(v, meta).value]
      ensures o.Pass? ==> metadata == old(metadata)[column := Some(meta)]
      ensures o.Pass? ==> data[column].meta == meta.Meta()
      ensures unknownData == old(unknownData) && prototype == old(prototype) && len == old(len)
      ensures old(Counted()) ==> Counted()
    {
      var f := ColumnField(v, meta);
      if f.Err? {
        return Fail(f.error);
      }
      SetFieldWith(column, f.value, meta);
      return Pass;
    }

    /** The column the bound schema has under a name, if there is a schema. */
    function SchemaColumn(column: string): (r: Option<Column>)
      reads this, prototype
      ensures r.Some? <==> prototype != null && column in prototype.columnsDic
    {
      if prototype == null then None else prototype.GetColumn(column)
    }

    /**
     * setValue(column, data): without a schema, or for a name the schema
     * lacks, the value waits in the unknown-type map (a copy has none: a
     * NullPointerException). Otherwise the setter of the column's type is
     * called after a cast; types without a case are ignored.
     */
    method SetValue(column: string, v: Value) returns (o: Outcome)
      modifies this
      ensures SchemaColumn(column).None? ==>
        && o == (if old(unknownData).None? then Fail(NullPointer) else Pass)
        && unknownData == (if old(unknownData).None? then None else Some(old(unknownData).value[column := v]))
        && data == old(data) && byteSize == old(byteSize) && valid == old(valid)
      ensures SchemaColumn(column).Some? && !Settable(SchemaColumn(column).value.ctype) ==>
        o.Pass? && unchanged(this)
      ensures SchemaColumn(column).Some? && Settable(SchemaColumn(column).value.ctype) ==>
        && (o.Pass? <==> OfType(SchemaColumn(column).value.ctype, v))
        && (o.Fail? ==> o.error == Cast(SchemaColumn(column).value.ctype, v).error && unchanged(this))
        && (o.Pass? ==> !valid && data == old(data)[column := NativeField(v).value])
        && unknownData == old(unknownData)
      ensures metadata == old(metadata) && prototype == old(prototype) && len == old(len)
      ensures old(Counted()) ==> Counted()
    {
      var col := SchemaColumn(column);
      if col.None? {
        if unknownData.None? {
          return Fail(NullPointer);
        }
        unknownData := Some(unknownData.value[column := v]);
        return Pass;
      }
      var t := col.value.ctype;
      if !Settable(t) {
        return Pass;
      }
      var cast := Cast(t, v);
      if cast.Err? {
        return Fail(cast.error);
      }
      o := SetNative(column, cast.value);
    }

    /**
     * unset(column): the field that was there (or null); afterwards the
     * name has no field and a null metadata entry, and the counter has
     * lost the field's size.
     */
    method Unset(column: string) returns (f: Option<Field>)
      modifies this
      ensures f == if column in old(data) then Some(old(data)[column]) else None
      ensures data == old(data) - {column}
      ensures !ContainsColumn(column)
      ensures metadata == old(metadata)[column := None]
      ensures byteSize == old(byteSize) - (if f.Some? then f.value.BufferByteSize() else 0)
      ensures !valid && unknownData == old(unknownData) && prototype == old(prototype) && len == old(len)
      ensures old(Counted()) ==> Counted()
    {
      f := GetField(column);
      SetField(column, None);
      SetMetadata(column, None);
      data := data - {column};
      TotalDrop(old(data), column);
    }

    /** getField(column). */
    function GetField(column: string): (r: Option<Field>)
      reads this
      ensures r.Some? <==> column in data
      ensures r.Some? ==> r.value == data[column]
    {
      if column in data then Some(data[column]) else None
    }

    /**
     * getData(column) and getBData(column): the bytes of the field, null
     * when there is no field or it is a NullField.
     */
    function GetData(column: string): (r: Option<Bytes>)
      reads this
      ensures r.Some? <==> column in RowValues(data)
      ensures r.Some? ==> r.value == RowValues(data)[column]
    {
      if column in data && !data[column].NullField? then Some(data[column].data) else None
    }

    /**
     * getInt, getLong, getFloat, getDouble, getString, getBoolean and
     * getValue: null exactly when the name has no field; otherwise the
     * field's value.
     */
    function GetValue(column: string): (r: Result<Option<Value>>)
      reads this
      ensures column !in data ==> r == Ok(None)
      ensures column in data && r.Ok? ==> r.value.Some?
      ensures column in data && data[column].NullField? ==> r == Ok(Some(NullV))
    {
      if column !in data then Ok(None)
      else
        var v :- Materialize(data[column]);
        Ok(Some(v))
    }

    /** getMetadata(column): null both for no entry and for a null entry. */
    function GetMetadata(column: string): (r: Option<Column>)
      reads this
      ensures r.Some? ==> column in metadata && metadata[column] == r
    {
      if column in metadata then metadata[column] else None
    }

    function ContainsColumn(column: string): (b: bool)
      reads this
      ensures b <==> GetField(column).Some?
    {
      column in data
    }

    /** size(): the number of fields. */
    function Size(): nat
      reads this
    {
      |data|
    }

    /** getByteSize(): the running byte count, which is the total buffer size of the fields. */
    function GetByteSize(): (n: int)
      reads this
      ensures Counted() ==> n == Total(data)
    {
      byteSize
    }

    /** len(): the maximum record size recorded when the row was bound to a schema. */
    function Len(): int
      reads this
    {
      len
    }

    function IsValid(): bool
      reads this
    {
      valid
    }

    /** setValid(): the only way `valid` becomes true. */
    method SetValid()
      modifies this
      ensures valid
      ensures data == old(data) && metadata == old(metadata) && byteSize == old(byteSize)
      ensures unknownData == old(unknownData) && prototype == old(prototype) && len == old(len)
    {
      valid := true;
    }

    /**
     * adjustField(col, value): the setter (with column) of the column's
     * type, after a cast; types without a case are ignored.
     */
    method AdjustField(col: Column, v: Value) returns (o: Outcome)
      modifies this
      ensures !Settable(col.ctype) ==> o.Pass? && unchanged(this)
      ensures Settable(col.ctype) ==>
        && (o.Pass? <==> OfType(col.ctype, v))
        && (o.Fail? ==> o.error == Cast(col.ctype, v).error && unchanged(this))
        && (o.Pass? ==> !valid && data == old(data)[col.name := ColumnField(v, col).value]
                        && metadata == old(metadata)[col.name := Some(col)])
      ensures unknownData == old(unknownData) && prototype == old(prototype) && len == old(len)
      ensures old(Counted()) ==> Counted()
    {
      if !Settable(col.ctype) {
        return Pass;
      }
      var cast := Cast(col.ctype, v);
      if cast.Err? {
        return Fail(cast.error);
      }
      o := SetWithColumn(col.name, cast.value, col);
    }

    /**
     * One round of the first loop of setMetadata(prototype): the value under
     * k goes through adjustField when the schema knows k. The ghost
     * parameters describe the row before the loop and the names converted
     * so far.
     */
    method AdoptOne(unknown: map<string, Value>, p: Prototype, k: string,
                    ghost data0: Row, ghost meta0: map<string, Option<Column>>, ghost valid0: bool,
                    ghost before: set<string>)
      returns (o: Outcome, ghost after: set<string>)
      requires p.Consistent() && k in unknown
      requires before <= Conversions(unknown, p.columnsDic).Keys
      requires data == data0 + Pick(Conversions(unknown, p.columnsDic), before)
      requires metadata == meta0 + ConvertedMeta(p.columnsDic, before)
      requires valid == (valid0 && before == {})
      modifies this
      ensures after == if k in Adoptees(unknown, p.columnsDic) then before + {k} else before
      ensures o.Fail? <==> k in Adoptees(unknown, p.columnsDic) && !OfType(p.columnsDic[k].ctype, unknown[k])
      ensures o.Fail? ==> o.error == NullPointer || o.error == ClassCast
      ensures o.Pass? ==>
        && after <= Conversions(unknown, p.columnsDic).Keys
        && data == data0 + Pick(Conversions(unknown, p.columnsDic), after)
        && metadata == meta0 + ConvertedMeta(p.columnsDic, after)
        && valid == (valid0 && after == {})
      ensures unknownData == old(unknownData) && prototype == old(prototype) && len == old(len)
      ensures old(Counted()) ==> Counted()
    {
      var dic := p.columnsDic;
      ghost var conv := Conversions(unknown, dic);
      after := before;
      var col := p.GetColumn(k);
      if col.None? || !Settable(col.value.ctype) {
        return Pass, after;
      }
      o := AdjustField(col.value, unknown[k]);
      after := before + {k};
      if o.Pass? {
        assert k in conv && conv[k] == ColumnField(unknown[k], dic[k]).value;
        PickGrows(conv, before, k);
        OverrideGrows(data0, Pick(conv, before), k, conv[k], Pick(conv, after));
        ConvertedMetaGrows(dic, before, k);
        OverrideGrows(meta0, ConvertedMeta(dic, before), k, Some(dic[k]), ConvertedMeta(dic, after));
      }
    }

    /**
     * The first loop of setMetadata(prototype): the unknown-type values
     * whose column the schema knows go through adjustField, in ascending
     * name order; the first cast that fails ends the loop. On success,
     * `done` is the set of names converted.
     */
    method AdoptEach(unknown: map<string, Value>, p: Prototype) returns (o: Outcome, ghost done: set<string>)
      requires p.Consistent()
      modifies this
      ensures o.Fail? ==> AdoptionFails(unknown, p.columnsDic) && (o.error == NullPointer || o.error == ClassCast)
      ensures o.Pass? ==>
        && done == Adoptees(unknown, p.columnsDic) && done <= Conversions(unknown, p.columnsDic).Keys
        && data == old(data) + Pick(Conversions(unknown, p.columnsDic), done)
        && metadata == old(metadata) + ConvertedMeta(p.columnsDic, done)
        && valid == (old(valid) && done == {})
      ensures unknownData == old(unknownData) && prototype == old(prototype) && len == old(len)
      ensures old(Counted()) ==> Counted()
    {
      ghost var dic := p.columnsDic;
      ghost var adopted := Adoptees(unknown, dic);
      ghost var conv := Conversions(unknown, dic);
      done := {};
      assert Pick(conv, {}) == map[];
      var pending := unknown.Keys;
      while pending != {}
        invariant pending <= unknown.Keys
        invariant done == adopted - pending && done <= conv.Keys
        invariant data == old(data) + Pick(conv, done)
        invariant metadata == old(metadata) + ConvertedMeta(dic, done)
        invariant valid == (old(valid) && done == {})
        invariant unknownData == old(unknownData) && prototype == old(prototype) && len == old(len)
        invariant old(Counted()) ==> Counted()
        decreases pending
      {
        LeastExists(pending);
        var k :| IsLeast(k, pending);
        pending := pending - {k};
        o, done := AdoptOne(unknown, p, k, old(data), old(metadata), old(valid), done);
        if o.Fail? {
          return;
        }
      }
      return Pass, done;
    }

    /**
     * The first loop of setMetadata(prototype), as a whole: it succeeds
     * exactly when every adoptable value is of its column's class, and then
     * every one of them has been converted.
     */
    method AdoptUnknown(unknown: map<string, Value>, p: Prototype) returns (o: Outcome)
      requires p.Consistent()
      modifies this
      ensures o.Pass? <==> !AdoptionFails(unknown, p.columnsDic)
      ensures o.Fail? ==> o.error == NullPointer || o.error == ClassCast
      ensures o.Pass? ==>
        && data == old(data) + Conversions(unknown, p.columnsDic)
        && metadata == old(metadata) + ConvertedMeta(p.columnsDic, Adoptees(unknown, p.columnsDic))
        && valid == (old(valid) && Adoptees(unknown, p.columnsDic) == {})
      ensures unknownData == old(unknownData) && prototype == old(prototype) && len == old(len)
      ensures old(Counted()) ==> Counted()
    {
      ghost var done;
      o, done := AdoptEach(unknown, p);
      if o.Pass? {
        AdoptionComplete(unknown, p.columnsDic, done);
      }
    }

    /**
     * The second loop of setMetadata(prototype): each field without a
     * metadata entry whose name the schema knows gets the schema's column.
     */
    method FillMetadata(p: Prototype)
      modifies this
      ensures metadata == old(metadata) + Missing(data.Keys, old(metadata), p.columnsDic)
      ensures data == old(data) && byteSize == old(byteSize) && valid == old(valid)
      ensures unknownData == old(unknownData) && prototype == old(prototype) && len == old(len)
    {
      var dic := p.columnsDic;
      var names := data.Keys;
      while names != {}
        invariant names <= data.Keys
        invariant metadata == old(metadata) + Missing(data.Keys - names, old(metadata), dic)
        invariant data == old(data) && byteSize == old(byteSize) && valid == old(valid)
        invariant unknownData == old(unknownData) && prototype == old(prototype) && len == old(len)
        decreases names
      {
        var n :| n in names;
        ghost var done := data.Keys - names;
        names := names - {n};
        assert data.Keys - names == done + {n};
        MissingGrows(done, n, old(metadata), dic);
        if n !in metadata {
          var col := p.GetColumn(n);
          if col.Some? {
            OverrideGrows(old(metadata), Missing(done, old(metadata), dic), n, Some(dic[n]),
                          Missing(done + {n}, old(metadata), dic));
            metadata := metadata[n := col];
          }
        }
      }
      assert data.Keys - names == data.Keys;
    }

    /**
     * The two loops of setMetadata(prototype): the unknown-type values whose
     * column the schema knows are converted, then every field without a
     * metadata entry gets the schema's column.
     */
    method AdoptAndFill(unknown: map<string, Value>, p: Prototype) returns (o: Outcome)
      requires p.Consistent()
      modifies this
      ensures o.Pass? <==> !AdoptionFails(unknown, p.columnsDic)
      ensures o.Fail? ==> o.error == NullPointer || o.error == ClassCast
      ensures o.Pass? ==>
        && data == old(data) + Conversions(unknown, p.columnsDic)
        && metadata == MetadataAfter(old(metadata), unknown, p.columnsDic, data.Keys)
        && valid == (old(valid) && Adoptees(unknown, p.columnsDic) == {})
      ensures unknownData == old(unknownData) && prototype == old(prototype) && len == old(len)
      ensures old(Counted()) ==> Counted()
    {
      o := AdoptUnknown(unknown, p);
      if o.Pass? {
        FillMetadata(p);
      }
    }

    /**
     * setMetadata(prototype): converts the unknown-type values whose column
     * the schema knows, gives every field without a metadata entry the
     * schema's column, and binds the row to the schema. A copy of a row has
     * no unknown-type map and fails on it.
     */
    method SetMetadataFrom(p: Prototype) returns (o: Outcome)
      requires p.Consistent()
      modifies this
      ensures o.Pass? <==> old(unknownData).Some? && !AdoptionFails(old(unknownData).value, p.columnsDic)
      ensures o.Fail? ==> o.error == NullPointer || o.error == ClassCast
      ensures o.Fail? ==> prototype == old(prototype) && len == old(len)
      ensures o.Pass? ==>
        var unknown := old(unknownData).value;
        && data == old(data) + Conversions(unknown, p.columnsDic)
        && metadata == MetadataAfter(old(metadata), unknown, p.columnsDic, data.Keys)
        && valid == (old(valid) && Adoptees(unknown, p.columnsDic) == {})
        && prototype == p && len == p.headerSize + ColumnsMaxSize(p.columns)
      ensures unknownData == old(unknownData)
      ensures old(Counted()) ==> Counted()
    {
      if unknownData.None? {
        return Fail(NullPointer);
      }
      o := AdoptAndFill(unknownData.value, p);
      if o.Pass? {
        Bind(p);
      }
    }

    /** The end of setMetadata(prototype): the row keeps the schema and its maximum record size. */
    method Bind(p: Prototype)
      modifies this
      ensures prototype == p && len == p.headerSize + ColumnsMaxSize(p.columns)
      ensures data == old(data) && metadata == old(metadata) && byteSize == old(byteSize) && valid == old(valid)
      ensures unknownData == old(unknownData)
    {
      var size := p.MaxRecordSize();
      prototype := p;
      len := size;
    }
  }

  // ---------------------------------------------------------------------
  // Prototype

  /**
   * `new byte[size]`, the prefix copied to its start, then each queued
   * array copied right after the previous one; System.arraycopy throws
   * when an array would run past the end of the buffer.
   */
  method Assemble(prefix: Bytes, dados: seq<Bytes>, size: nat) returns (r: Result<Bytes>)
    requires |prefix| <= size
    ensures |prefix| + |Flatten(dados)| <= size ==>
      r == Ok(prefix + Flatten(dados) + Zeros(size - |prefix| - |Flatten(dados)|))
    ensures |prefix| + |Flatten(dados)| > size ==> r == Err(IndexOutOfBounds)
  {
    var buf := prefix + Zeros(size - |prefix|);
    var offset := |prefix|;
    var j := 0;
    while j < |dados|
      invariant 0 <= j <= |dados|
      invariant offset == |prefix| + |Flatten(dados[..j])| <= size
      invariant buf == prefix + Flatten(dados[..j]) + Zeros(size - offset)
    {
      var d := dados[j];
      FlattenPush(dados[..j], d);
      assert dados[..j + 1] == dados[..j] + [d];
      if offset + |d| > size {
        FlattenPrefix(dados, j + 1);
        return Err(IndexOutOfBounds);
      }
      assert buf[offset + |d|..] == Zeros(size - offset - |d|);
      buf := buf[..offset] + d + buf[offset + |d|..];
      offset := offset + |d|;
      j := j + 1;
    }
    assert dados[..j] == dados;
    return Ok(buf);
  }

  class Prototype {
    var columns: seq<Column>
    /** Column name to column (a HashMap filled by addColumn). */
    var columnsDic: map<string, Column>
    var stat: bool
    var headerSize: nat
    var primaryKeySize: int
    /** Column index to header bit; null until the sizes are calculated. */
    var headerPosition: Option<map<int, nat>>

    /**
     * What addColumn keeps true: the static flag says that no column has a
     * variable length, and the dictionary holds, under its own name, a
     * column of the list for every name in the list and no other.
     */
    ghost predicate Consistent()
      reads this
    {
      && (stat <==> forall c :: c in columns ==> !c.dynamic)
      && (forall n :: n in columnsDic ==> columnsDic[n].name == n && columnsDic[n] in columns)
      && (forall c :: c in columns ==> c.name in columnsDic)
    }

    /**
     * What validateColumns leaves: the rules hold, the key columns lead,
     * and the header layout and key size are those of the column list.
     */
    ghost predicate Validated()
      reads this
    {
      && SchemaOk(columns) && DistinctNames(columns) && PkFirst(columns)
      && LaidOut(columns, headerSize, headerPosition)
      && primaryKeySize == PrimaryKeySizeOf(columns)
    }

    constructor ()
      ensures columns == [] && columnsDic == map[] && stat
      ensures headerSize == 0 && primaryKeySize == 0 && headerPosition == None
      ensures Consistent()
    {
      columns := [];
      columnsDic := map[];
      stat := true;
      headerSize := 0;
      primaryKeySize := 0;
      headerPosition := None;
    }

    /** addColumn(c): a null column is refused. */
    method AddColumn(c: Option<Column>) returns (o: Outcome)
      modifies this
      ensures c.None? ==> o == Fail(NullColumn) && unchanged(this)
      ensures c.Some? ==> && o.Pass?
                          && columns == old(columns) + [c.value]
                          && columnsDic == old(columnsDic)[c.value.name := c.value]
                          && stat == (old(stat) && !c.value.dynamic)
      ensures headerSize == old(headerSize) && primaryKeySize == old(primaryKeySize)
      ensures headerPosition == old(headerPosition)
      ensures old(Consistent()) ==> Consistent()
    {
      if c.None? {
        return Fail(NullColumn);
      }
      columns := columns + [c.value];
      if c.value.dynamic {
        stat := false;
      }
      columnsDic := columnsDic[c.value.name := c.value];
      return Pass;
    }

    /** isStatic(). */
    function IsStatic(): (b: bool)
      reads this
      ensures Consistent() ==> (b <==> forall c :: c in columns ==> !c.dynamic)
    {
      stat
    }

    /** getColumn(i): null for an index outside the list. */
    function GetColumnAt(i: int): (r: Option<Column>)
      reads this
      ensures r.Some? <==> 0 <= i < |columns|
      ensures r.Some? ==> r.value == columns[i]
    {
      if 0 <= i < |columns| then Some(columns[i]) else None
    }

    /** getColumn(name): null when no column has that name. */
    function GetColumn(name: string): (r: Option<Column>)
      reads this
      ensures r.Some? <==> name in columnsDic
      ensures Consistent() ==> (r.Some? <==> exists c :: c in columns && c.name == name)
      ensures Consistent() && r.Some? ==> r.value.name == name && r.value in columns
    {
      if name in columnsDic then Some(columnsDic[name]) else None
    }

    /** size(): the column count, cast to a short. */
    function Size(): (n: int)
      reads this
      ensures |columns| < 0x8000 ==> n == |columns|
    {
      ToShort(|columns|)
    }

    /** getPrimaryKeySize(). */
    function GetPrimaryKeySize(): (n: int)
      reads this
      ensures Validated() ==> n == PrimaryKeySizeOf(columns) <= ColumnsMaxSize(columns)
    {
      MaxSizeCoversPrimaryKey(columns);
      primaryKeySize
    }

    /**
     * validateColumns(): the first broken rule is thrown and nothing
     * changes; otherwise the columns are sorted into the canonical order
     * and the header layout and key size are calculated.
     */
    method ValidateColumns() returns (o: Outcome)
      modifies this
      ensures FirstViolation(old(columns)).Some? ==>
        o == Fail(Schema(FirstViolation(old(columns)).value)) && unchanged(this)
      ensures FirstViolation(old(columns)).None? ==>
        && o == Pass
        && columns == CanonicalSort(old(columns))
        && multiset(columns) == multiset(old(columns))
        && Validated()
      ensures columnsDic == old(columnsDic) && stat == old(stat)
      ensures old(Consistent()) ==> Consistent()
    {
      if |columns| == 0 {
        return Fail(Schema(NoColumns));
      }
      var x := 0;
      while x < |columns|
        invariant 0 <= x <= |columns|
        invariant CheckFrom(columns, 0) == CheckFrom(columns, x)
      {
        var col := columns[x];
        var len := JavaLength(col.name);
        if len > 240 || len < 1 {
          return Fail(Schema(NameLength(x)));
        }
        if col.pk && col.nullable {
          return Fail(Schema(PrimaryKeyNullable(col.name)));
        }
        if col.pk && col.dynamic {
          return Fail(Schema(PrimaryKeyDynamic(col.name)));
        }
        var y := x + 1;
        while y < |columns|
          invariant x + 1 <= y <= |columns|
          invariant DuplicateFrom(columns, x, x + 1) == DuplicateFrom(columns, x, y)
        {
          if EqualsIgnoreCase(col.name, columns[y].name) {
            return Fail(Schema(DuplicateName(x, y)));
          }
          y := y + 1;
        }
        x := x + 1;
      }
      SortedSchema(columns);
      columns := CanonicalSort(columns);
      CalculateSizes();
      return Pass;
    }

    /** What sorting a list that passed the checks gives calculateSizes and the class invariant. */
    static lemma SortedSchema(cols: seq<Column>)
      requires CheckFrom(cols, 0).None? && |cols| > 0
      ensures SchemaOk(CanonicalSort(cols)) && DistinctNames(CanonicalSort(cols)) && PkFirst(CanonicalSort(cols))
      ensures FirstViolation(cols).None?
      ensures multiset(CanonicalSort(cols)) == multiset(cols)
      ensures forall c :: c in CanonicalSort(cols) <==> c in cols
    {
      FirstViolationIffInvalid(cols);
      CanonicalSortSpec(cols);
      CanonicalSortKeepsRules(cols);
      CanonicalSortKeysFirst(cols);
      assert forall c :: c in CanonicalSort(cols) <==> c in multiset(CanonicalSort(cols));
    }

    /**
     * calculateSizes(): bit 0 of the header is reserved; each nullable
     * column gets the next bit; the header grows a byte whenever the bit
     * counter reaches 8; the key size adds up the key column sizes.
     */
    method CalculateSizes()
      requires DistinctNames(columns)
      modifies this
      ensures headerSize == HeaderSizeOf(columns)
      ensures headerPosition == Some(Positions(columns))
      ensures primaryKeySize == PrimaryKeySizeOf(columns)
      ensures columns == old(columns) && columnsDic == old(columnsDic) && stat == old(stat)
    {
      var bytes, positions, sizePk := SizesOf(columns);
      headerSize := bytes;
      headerPosition := Some(positions);
      primaryKeySize := sizePk;
    }

    /**
     * The loop of calculateSizes: a bit counter that starts at 1 (bit 0 of
     * the header is the validity flag) and rolls over into a new header
     * byte at 8, the counter value of each nullable column stored under its
     * index, and the sum of the key column sizes.
     */
    static method SizesOf(cols: seq<Column>) returns (headerSizeAux: nat, positions: map<int, nat>, sizePk: int)
      requires DistinctNames(cols)
      ensures headerSizeAux == HeaderSizeOf(cols)
      ensures positions == Positions(cols)
      ensures sizePk == PrimaryKeySizeOf(cols)
    {
      headerSizeAux := 1;
      positions := map[];
      var aux := 1;
      sizePk := 0;
      for i := 0 to |cols|
        invariant 1 <= headerSizeAux && 0 <= aux < 8
        invariant (headerSizeAux - 1) * 8 + aux == 1 + NullableCount(cols[..i])
        invariant positions == PositionsUpTo(cols, i)
        invariant sizePk == PrimaryKeySizeOf(cols[..i])
      {
        var c := cols[i];
        LayoutStep(cols, i);
        if c.nullable {
          IndexOfDistinct(cols, i);
          ghost var before := positions;
          positions := positions[IndexOf(cols, c) := (headerSizeAux - 1) * 8 + aux];
          assert positions == before[i := Position(cols, i)];
          aux := aux + 1;
        }
        if aux >= 8 {
          headerSizeAux := headerSizeAux + 1;
          aux := 0;
        }
        if c.pk {
          sizePk := sizePk + c.size;
        }
      }
      assert cols[..|cols|] == cols;
      PositionsComplete(cols);
      HeaderBytes(headerSizeAux, aux, NullableCount(cols));
    }

    /** The byte count and bit counter of calculateSizes give the header size. */
    static lemma HeaderBytes(bytes: int, aux: int, nullable: nat)
      requires 0 <= aux < 8 && (bytes - 1) * 8 + aux == 1 + nullable
      ensures bytes == 1 + (nullable + 1) / 8
    {
    }

    /** getPKColumns(): the key column names in column order. */
    method GetPKColumns() returns (names: seq<string>)
      ensures names == PkNames(columns)
    {
      names := [];
      for i := 0 to |columns|
        invariant names + PkNames(columns[i..]) == PkNames(columns)
      {
        assert columns[i..][1..] == columns[i + 1..];
        if columns[i].pk {
          names := names + [columns[i].name];
        }
      }
    }

    /**
     * isPKPrefix(names): counts the leading key columns the list names and
     * compares the count with the list's length.
     */
    method IsPKPrefix(names: seq<string>) returns (b: bool)
      ensures b == Layout.IsPKPrefix(columns, names)
    {
      var count := 0;
      while count < |columns| && columns[count].pk && columns[count].name in names
        invariant 0 <= count <= |columns|
        invariant forall j :: 0 <= j < count ==> columns[j].pk && columns[j].name in names
      {
        count := count + 1;
      }
      b := |names| == count;
    }

    /** maxRecordSize(): the header plus each column's size, and 4 more bytes per variable-length column. */
    method MaxRecordSize() returns (size: int)
      ensures size == headerSize + ColumnsMaxSize(columns)
      ensures Validated() ==> size >= headerSize + primaryKeySize
    {
      size := headerSize;
      for i := 0 to |columns|
        invariant size == headerSize + ColumnsMaxSize(columns[..i])
      {
        assert columns[..i + 1][..i] == columns[..i];
        size := size + columns[i].size;
        if columns[i].dynamic {
          size := size + 4;
        }
      }
      assert columns[..|columns|] == columns;
      MaxSizeCoversPrimaryKey(columns);
    }

    /**
     * validateRowData(row): a row already marked valid is accepted as it
     * is; otherwise the first column that misfits is thrown, and a row
     * where every column fits is marked valid.
     */
    method ValidateRowData(row: DataRow) returns (o: Outcome)
      modifies row
      ensures o == if old(row.valid) || RowViolation(columns, RowValues(old(row.data))).None? then Pass
                   else Fail(Data(RowViolation(columns, RowValues(old(row.data))).value))
      ensures row.valid == (old(row.valid) || o.Pass?)
      ensures row.data == old(row.data) && row.metadata == old(row.metadata) && row.byteSize == old(row.byteSize)
      ensures row.unknownData == old(row.unknownData) && row.prototype == old(row.prototype) && row.len == old(row.len)
    {
      if row.IsValid() {
        return Pass;
      }
      ghost var vals := RowValues(row.data);
      for i := 0 to |columns|
        invariant RowViolation(columns, vals) == RowViolationFrom(columns, vals, i)
      {
        var c := columns[i];
        var data := row.GetData(c.name);
        if data.None? {
          if !c.nullable {
            return Fail(Data(MissingValue(c.name)));
          } else if c.pk {
            return Fail(Data(MissingValue(c.name)));
          }
        } else if c.dynamic {
          if |data.value| > c.size {
            return Fail(Data(LongerThanLimit(c.name)));
          }
        } else {
          if |data.value| > c.size {
            return Fail(Data(LongerThanFixedSize(c.name)));
          }
        }
      }
      row.SetValid();
      return Pass;
    }

    /** The reading of one column's value at `offset`, as convertBinaryToRowData does it. */
    static method ReadBytes(c: Column, data: Bytes, offset: int, check: bool) returns (r: Result<(int, Option<Bytes>)>)
      ensures r == ReadValue(c, data, offset, check)
    {
      var size := c.size;
      var at := offset;
      if c.dynamic {
        var prefix := CopyOfRange(data, at, at + 4);
        if prefix.Err? {
          return Err(prefix.error);
        }
        size := ReadLengthPrefix(prefix.value);
        at := at + 4;
      }
      if !check {
        return Ok((at + size, None));
      }
      var arr := CopyOfRange(data, at, at + size);
      if arr.Err? {
        return Err(arr.error);
      }
      return Ok((at + size, Some(arr.value)));
    }

    /**
     * One pass of convertBinaryToRowData's loop over column c: count it if
     * selected, test its null bit, read it, and store the bytes read in the
     * row under the column's name.
     */
    static method ReadColumn(row: DataRow, c: Column, data: Bytes, header: Bytes, keys: Option<set<string>>,
                             hasHeader: bool, cur: Cursor, ghost acc: Decoded)
      returns (r: Result<Cursor>, ghost v: Option<Bytes>)
      modifies row
      requires row.data == FieldsOf(acc) && row.metadata == MetaOf(acc) && row.Counted() && !row.valid
      ensures r.Err? <==> ColumnStep(c, data, header, keys, hasHeader, cur).Err?
      ensures r.Err? ==> r.error == ColumnStep(c, data, header, keys, hasHeader, cur).error
      ensures r.Ok? ==> ColumnStep(c, data, header, keys, hasHeader, cur) == Ok((r.value, v))
      ensures r.Ok? ==> row.data == FieldsOf(Put(acc, c, v)) && row.metadata == MetaOf(Put(acc, c, v))
      ensures row.Counted() && !row.valid
      ensures row.unknownData == old(row.unknownData) && row.prototype == old(row.prototype) && row.len == old(row.len)
    {
      v := None;
      var check := keys.None? || c.name in keys.value;
      var selecteds := if check then cur.sel + 1 else cur.sel;
      var headerPointer := cur.hp;
      var isNull := false;
      if c.nullable && hasHeader {
        if headerPointer / 8 >= |header| {
          return Err(IndexOutOfBounds), v;
        }
        isNull := BitSet(header, headerPointer);
        headerPointer := headerPointer + 1;
      }
      if isNull {
        return Ok(Cursor(cur.offset, headerPointer, selecteds)), v;
      }
      var step := ReadBytes(c, data, cur.offset, check);
      if step.Err? {
        return Err(step.error), v;
      }
      var arr := step.value.1;
      v := arr;
      if arr.Some? {
        FieldsOfPut(acc, c, arr.value);
        MetaOfPut(acc, c, arr.value);
        row.SetFieldWith(c.name, CreateField(c.Meta(), arr.value), c);
      }
      return Ok(Cursor(step.value.0, headerPointer, selecteds)), v;
    }

    /**
     * convertBinaryToRowData(data, meta, hasHeader, onlyPrimaryKey): a new
     * row holding, for each column read, the field createField builds from
     * its bytes and the column as metadata. Columns are read in order until
     * every selected column has been counted or, with onlyPrimaryKey, the
     * first non-key column; a nullable column whose header bit is set is
     * skipped without reading.
     */
    method ConvertBinaryToRowData(data: Bytes, meta: Option<map<string, Column>>, hasHeader: bool, onlyPK: bool)
      returns (r: Result<DataRow>)
      ensures r.Err? <==> Decode(columns, headerSize, data, KeysOf(meta), hasHeader, onlyPK).Err?
      ensures r.Err? ==> r.error == Decode(columns, headerSize, data, KeysOf(meta), hasHeader, onlyPK).error
      ensures r.Ok? ==>
        var d := Decode(columns, headerSize, data, KeysOf(meta), hasHeader, onlyPK).value;
        && fresh(r.value)
        && r.value.data == FieldsOf(d) && r.value.metadata == MetaOf(d) && r.value.Counted()
        && r.value.unknownData == Some(map[]) && r.value.prototype == null && r.value.len == 0 && !r.value.valid
    {
      var keys := KeysOf(meta);
      ghost var result := Decode(columns, headerSize, data, keys, hasHeader, onlyPK);
      var row := new DataRow();
      if hasHeader && |data| < headerSize {
        return Err(IndexOutOfBounds);
      }
      var header := if hasHeader then data[..headerSize] else Zeros(headerSize);
      var cur := Cursor(if hasHeader then headerSize else 0, 1, 0);
      ghost var acc: Decoded := map[];
      var i := 0;
      while !Stops(columns, i, keys, onlyPK, cur)
        invariant i <= |columns|
        invariant result == DecodeFrom(columns, i, data, header, keys, hasHeader, onlyPK, cur, acc)
        invariant fresh(row) && row.data == FieldsOf(acc) && row.metadata == MetaOf(acc) && row.Counted()
        invariant row.unknownData == Some(map[]) && row.prototype == null && row.len == 0 && !row.valid
        decreases |columns| - i
      {
        var next, v := ReadColumn(row, columns[i], data, header, keys, hasHeader, cur, acc);
        if next.Err? {
          return Err(next.error);
        }
        DecodeStepsOn(columns, i, data, header, keys, hasHeader, onlyPK, cur, acc);
        acc := Put(acc, columns[i], v);
        cur := next.value;
        i := i + 1;
      }
      return Ok(row);
    }

    /**
     * The header bit work of convertToArray for column i: for an absent
     * nullable column, the bit at the position the layout gives its index.
     */
    method MarkColumn(i: nat, present: bool, header: Bytes, ghost vals: map<string, Bytes>) returns (r: Result<Bytes>)
      requires i < |columns| && present == (columns[i].name in vals)
      requires HeaderUpTo(columns, vals, headerSize, headerPosition, i) == Ok(header)
      ensures r == HeaderUpTo(columns, vals, headerSize, headerPosition, i + 1)
    {
      var c := columns[i];
      if present || !c.nullable {
        return Ok(header);
      }
      var idx := IndexOf(columns, c);
      if headerPosition.None? || idx !in headerPosition.value {
        return Err(NullPointer);
      }
      var posHeader := headerPosition.value[idx];
      if posHeader / 8 >= headerSize {
        return Err(IndexOutOfBounds);
      }
      return Ok(SetBit(header, posHeader));
    }

    /** The arrays convertToArray queues for a present value d of column c, and the size they add. */
    static method QueueValue(c: Column, d: Bytes, dados: seq<Bytes>, size: nat, ghost vals: map<string, Bytes>)
      returns (dados': seq<Bytes>, size': nat)
      requires c.name in vals && vals[c.name] == d
      ensures Flatten(dados') == Flatten(dados) + Segment(c, vals)
      ensures size' == size + (if c.dynamic then 4 + |d| else c.size)
    {
      if c.dynamic {
        dados' := dados + [LengthPrefix(|d|), d];
        size' := size + 4 + |d|;
      } else {
        dados' := dados + [d];
        size' := size + c.size;
        if |d| < c.size {
          dados' := dados' + [Zeros(c.size - |d|)];
        }
      }
      assert dados' == dados + Chunks(c, vals);
      ChunksAreSegment(dados, c, vals);
    }

    /**
     * The loop of convertToArray: the header (bit 0 set, and the bit of
     * each absent nullable column), and the arrays queued for the values
     * with the size of header and values added up.
     */
    method CollectParts(row: DataRow) returns (header: Result<Bytes>, dados: seq<Bytes>, size: nat)
      ensures header == Header(columns, RowValues(row.data), headerSize, headerPosition)
      ensures header.Ok? ==> Flatten(dados) == Body(columns, RowValues(row.data))
      ensures header.Ok? ==> size == headerSize + PayloadSize(columns, RowValues(row.data))
    {
      ghost var vals := RowValues(row.data);
      dados, size := [], headerSize;
      if headerSize == 0 {
        HeaderErrorSticks(columns, vals, headerSize, headerPosition, 0, |columns|);
        return Err(IndexOutOfBounds), dados, size;
      }
      var h := SetBit(Zeros(headerSize), 0);
      for i := 0 to |columns|
        invariant HeaderUpTo(columns, vals, headerSize, headerPosition, i) == Ok(h)
        invariant Flatten(dados) == Body(columns[..i], vals)
        invariant size == headerSize + PayloadSize(columns[..i], vals)
      {
        var c := columns[i];
        var data := row.GetData(c.name);
        BodyStepOn(columns, vals, i);
        var marked := MarkColumn(i, data.Some?, h, vals);
        if marked.Err? {
          HeaderErrorSticks(columns, vals, headerSize, headerPosition, i + 1, |columns|);
          return marked, dados, size;
        }
        h := marked.value;
        if data.Some? {
          dados, size := QueueValue(c, data.value, dados, size, vals);
        }
      }
      assert columns[..|columns|] == columns;
      return Ok(h), dados, size;
    }

    /** The encoding half of convertToArray: the header and the queued arrays copied into one buffer of the size added up. */
    method EncodeRow(row: DataRow) returns (r: Result<Bytes>)
      ensures r == Encode(columns, headerSize, headerPosition, RowValues(row.data))
    {
      var header, dados, size := CollectParts(row);
      if header.Err? {
        return Err(header.error);
      }
      EncodeInBuffer(columns, headerSize, headerPosition, RowValues(row.data), header.value);
      r := Assemble(header.value, dados, size);
    }

    /** convertToArray(row): the row check (which may mark the row valid), then the encoding. */
    method ConvertToArray(row: DataRow) returns (r: Result<Bytes>)
      modifies row
      ensures r == Encoding.ConvertToArray(columns, headerSize, headerPosition, RowValues(old(row.data)), old(row.valid))
      ensures row.valid == (old(row.valid) || RowViolation(columns, RowValues(old(row.data))).None?)
      ensures row.data == old(row.data) && row.metadata == old(row.metadata) && row.byteSize == old(row.byteSize)
      ensures row.unknownData == old(row.unknownData) && row.prototype == old(row.prototype) && row.len == old(row.len)
    {
      var o := ValidateRowData(row);
      if o.Fail? {
        return Err(o.error);
      }
      r := EncodeRow(row);
    }

    /** The arrays convertPrimaryKeyToByteArray queues for the value d of key column c. */
    static method QueueKey(c: Column, d: Bytes, dados: seq<Bytes>) returns (dados': seq<Bytes>)
      ensures Flatten(dados') == Flatten(dados) + Padded(d, c.size)
    {
      FlattenPush(dados, d);
      dados' := dados + [d];
      if |d| < c.size {
        FlattenPush(dados', Zeros(c.size - |d|));
        dados' := dados' + [Zeros(c.size - |d|)];
      }
    }

    /**
     * convertPrimaryKeyToByteArray(row): the key values in column order,
     * each padded to its column size, copied into a buffer of the key size.
     * A missing key value is dereferenced; a key value longer than its
     * column overruns the buffer.
     */
    method ConvertPrimaryKeyToByteArray(row: DataRow) returns (r: Result<Bytes>)
      ensures r == PrimaryKeyBytes(columns, RowValues(row.data))
    {
      ghost var vals := RowValues(row.data);
      var dados: seq<Bytes> := [];
      var size := 0;
      for i := 0 to |columns|
        invariant forall j :: 0 <= j < i && columns[j].pk ==> columns[j].name in vals
        invariant Flatten(dados) == KeyBody(columns[..i], vals)
        invariant size == PrimaryKeySizeOf(columns[..i])
      {
        var c := columns[i];
        KeyBodyStep(columns, vals, i);
        LayoutStep(columns, i);
        if c.pk {
          var data := row.GetData(c.name);
          if data.None? {
            return Err(NullPointer);
          }
          dados := QueueKey(c, data.value, dados);
          size := size + c.size;
        }
      }
      assert columns[..|columns|] == columns;
      KeyInBuffer(columns, vals);
      r := Assemble([], dados, size);
    }

    /**
     * One key column of createPKRow: the getter of the column's type on the
     * original row, then the setter taking the column on the key row.
     */
    static method CopyKey(keyData: DataRow, row: DataRow, column: Column) returns (o: Outcome)
      modifies keyData
      requires keyData != row && column.name in row.data && keyData.Counted() && !keyData.valid
      ensures o.Fail? <==> KeyField(column, row.data[column.name]).Err?
      ensures o.Fail? ==> o.error == KeyField(column, row.data[column.name]).error
      ensures o.Pass? ==> keyData.data == old(keyData.data)[column.name := KeyField(column, row.data[column.name]).value]
      ensures o.Pass? ==> keyData.metadata == old(keyData.metadata)[column.name := Some(column)]
      ensures keyData.Counted() && !keyData.valid
      ensures keyData.unknownData == old(keyData.unknownData) && keyData.prototype == old(keyData.prototype)
      ensures keyData.len == old(keyData.len)
    {
      if !(column.ctype == STRING || column.ctype == INTEGER || column.ctype == LONG || column.ctype == FLOAT) {
        return Fail(AssertionFailure);
      }
      var v := row.GetValue(column.name);
      if v.Err? {
        return Fail(v.error);
      }
      var w := Cast(column.ctype, v.value.value);
      if w.Err? {
        return Fail(w.error);
      }
      o := keyData.SetWithColumn(column.name, w.value, column);
    }

    /**
     * createPKRow(row): a new row holding a copy of each key column the
     * row has, read through the getter of the column's type and stored
     * with the column as metadata; a key column of another type than
     * string, int, long or float is an AssertionError.
     */
    method CreatePKRow(row: DataRow) returns (r: Result<DataRow>)
      ensures r.Err? <==> KeyRowFrom(columns, 0, row.data, map[]).Err?
      ensures r.Err? ==> r.error == KeyRowFrom(columns, 0, row.data, map[]).error
      ensures r.Ok? ==>
        && fresh(r.value)
        && r.value.data == KeyRowFrom(columns, 0, row.data, map[]).value && r.value.Counted()
        && r.value.metadata.Keys == r.value.data.Keys
        && (forall n :: n in r.value.metadata ==>
              r.value.metadata[n].Some? && r.value.metadata[n].value.name == n
              && r.value.metadata[n].value.pk && r.value.metadata[n].value in columns)
        && r.value.unknownData == Some(map[]) && r.value.prototype == null && r.value.len == 0 && !r.value.valid
    {
      var keyData := new DataRow();
      for i := 0 to |columns|
        invariant KeyRowFrom(columns, 0, row.data, map[]) == KeyRowFrom(columns, i, row.data, keyData.data)
        invariant fresh(keyData) && keyData.Counted() && keyData.metadata.Keys == keyData.data.Keys
        invariant forall n :: n in keyData.metadata ==>
          keyData.metadata[n].Some? && keyData.metadata[n].value.name == n
          && keyData.metadata[n].value.pk && keyData.metadata[n].value in columns
        invariant keyData.unknownData == Some(map[]) && keyData.prototype == null && keyData.len == 0 && !keyData.valid
      {
        var column := columns[i];
        if row.ContainsColumn(column.name) && column.pk {
          var o := CopyKey(keyData, row, column);
          if o.Fail? {
            return Err(o.error);
          }
        }
      }
      return Ok(keyData);
    }
  }
}
