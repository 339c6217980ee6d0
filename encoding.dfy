/**
 * The record encoder: the row check a DataRow must pass before it is
 * written, the null-bitmap header, the column payload, and the
 * primary-key image. A row is given by the bytes its fields hold, by
 * column name; a field without bytes (a NullField) counts as absent.
 */
module Encoding {
  import opened Base
  import opened Columns
  import opened Fields
  import opened Layout

  /** getData(name) for every name: the bytes of each field that has some. */
  function RowValues(data: map<string, Field>): (vals: map<string, Bytes>)
    ensures forall n :: n in vals <==> n in data && !data[n].NullField?
    ensures forall n :: n in vals ==> vals[n] == data[n].data
  {
    map n | n in data && data[n].BData().Some? :: data[n].BData().value
  }

  // ---------------------------------------------------------------------
  // The row check

  /** A column's value is acceptable: present unless the column may be null, and not too long. */
  predicate ColumnFits(c: Column, vals: map<string, Bytes>) {
    (c.name in vals || (c.nullable && !c.pk))
    && (c.name in vals ==> |vals[c.name]| <= c.size)
  }

  predicate RowFits(cols: seq<Column>, vals: map<string, Bytes>) {
    forall i :: 0 <= i < |cols| ==> ColumnFits(cols[i], vals)
  }

  /** The rule the first misfitting column from index i on breaks, if any. */
  function RowViolationFrom(cols: seq<Column>, vals: map<string, Bytes>, i: nat): (r: Option<DataRule>)
    requires i <= |cols|
    ensures r.None? <==> forall j :: i <= j < |cols| ==> ColumnFits(cols[j], vals)
    ensures r.Some? ==> exists j :: (
      && i <= j < |cols| && !ColumnFits(cols[j], vals)
      && r.value.name == cols[j].name
      && (forall k :: i <= k < j ==> ColumnFits(cols[k], vals))
      && (r.value.MissingValue? <==> cols[j].name !in vals)
      && (r.value.LongerThanLimit? <==> cols[j].name in vals && cols[j].dynamic))
    decreases |cols| - i
  {
    if i == |cols| then None
    else
      var c := cols[i];
      if c.name !in vals then
        if !c.nullable || c.pk then Some(MissingValue(c.name))
        else RowViolationFrom(cols, vals, i + 1)
      else if |vals[c.name]| > c.size then
        Some(if c.dynamic then LongerThanLimit(c.name) else LongerThanFixedSize(c.name))
      else RowViolationFrom(cols, vals, i + 1)
  }

  /** validateRowData on a row not yet marked valid. */
  function RowViolation(cols: seq<Column>, vals: map<string, Bytes>): (r: Option<DataRule>)
    ensures r.None? <==> RowFits(cols, vals)
  {
    RowViolationFrom(cols, vals, 0)
  }

  // ---------------------------------------------------------------------
  // The header

  /** columns.indexOf(c), with value equality standing in for Column.equals. */
  function IndexOf(cols: seq<Column>, c: Column): (k: int)
    ensures -1 <= k < |cols|
    ensures k >= 0 ==> cols[k] == c && forall j :: 0 <= j < k ==> cols[j] != c
    ensures k == -1 <==> c !in cols
  {
    if cols == [] then -1
    else if cols[0] == c then 0
    else
      var k := IndexOf(cols[1..], c);
      assert forall j :: 1 <= j < |cols| ==> cols[1..][j - 1] == cols[j];
      if k == -1 then -1 else k + 1
  }

  lemma IndexOfDistinct(cols: seq<Column>, i: nat)
    requires DistinctNames(cols) && i < |cols|
    ensures IndexOf(cols, cols[i]) == i
  {
  }

  /**
   * The header after the first k columns: bit 0 set, then the bit of every
   * absent nullable column, at the position the layout map gives it.
   */
  function HeaderUpTo(cols: seq<Column>, vals: map<string, Bytes>, hs: nat,
                      positions: Option<map<int, nat>>, k: nat): (r: Result<Bytes>)
    requires k <= |cols|
    ensures r.Ok? ==> |r.value| == hs
  {
    if k == 0 then
      if hs == 0 then Err(IndexOutOfBounds) else Ok(SetBit(Zeros(hs), 0))
    else
      var h :- HeaderUpTo(cols, vals, hs, positions, k - 1);
      var c := cols[k - 1];
      if c.name in vals || !c.nullable then Ok(h)
      else
        var idx := IndexOf(cols, c);
        if positions.None? || idx !in positions.value then Err(NullPointer)
        else
          var p := positions.value[idx];
          if p / 8 >= hs then Err(IndexOutOfBounds) else Ok(SetBit(h, p))
  }

  /** The layout a validated schema holds for its columns. */
  predicate LaidOut(cols: seq<Column>, hs: nat, positions: Option<map<int, nat>>) {
    hs == HeaderSizeOf(cols) && positions == Some(Positions(cols))
  }

  /**
   * With the layout of a schema of distinct names the header is built
   * without error, and its set bits are bit 0 and the positions of the
   * absent nullable columns among the first k, nothing else.
   */
  lemma {:induction false} HeaderUpToBits(cols: seq<Column>, vals: map<string, Bytes>, hs: nat,
                                          positions: Option<map<int, nat>>, k: nat)
    requires DistinctNames(cols) && LaidOut(cols, hs, positions) && k <= |cols|
    ensures HeaderUpTo(cols, vals, hs, positions, k).Ok?
    ensures forall p :: BitSet(HeaderUpTo(cols, vals, hs, positions, k).value, p) <==>
      p == 0 || exists i :: 0 <= i < k && cols[i].nullable && cols[i].name !in vals && Position(cols, i) == p
  {
    if k == 0 {
      forall p ensures BitSet(SetBit(Zeros(hs), 0), p) <==> p == 0 {
        SetBitSpec(Zeros(hs), 0, p);
        ZerosHaveNoBits(hs, p);
      }
    } else {
      HeaderUpToBits(cols, vals, hs, positions, k - 1);
      var h := HeaderUpTo(cols, vals, hs, positions, k - 1).value;
      var c := cols[k - 1];
      if c.name !in vals && c.nullable {
        IndexOfDistinct(cols, k - 1);
        PositionInHeader(cols, k - 1);
        var q := Position(cols, k - 1);
        forall p ensures BitSet(SetBit(h, q), p) <==> BitSet(h, p) || p == q {
          SetBitSpec(h, q, p);
        }
      }
    }
  }

  function Header(cols: seq<Column>, vals: map<string, Bytes>, hs: nat,
                  positions: Option<map<int, nat>>): Result<Bytes>
  {
    HeaderUpTo(cols, vals, hs, positions, |cols|)
  }

  /** Once building the header has failed, it fails with the same error up to the last column. */
  lemma {:induction false} HeaderErrorSticks(cols: seq<Column>, vals: map<string, Bytes>, hs: nat,
                                             positions: Option<map<int, nat>>, k: nat, n: nat)
    requires k <= n <= |cols| && HeaderUpTo(cols, vals, hs, positions, k).Err?
    ensures HeaderUpTo(cols, vals, hs, positions, n) == HeaderUpTo(cols, vals, hs, positions, k)
    decreases n
  {
    if n > k {
      HeaderErrorSticks(cols, vals, hs, positions, k, n - 1);
    }
  }

  /** The header marks exactly the absent nullable columns (and bit 0). */
  lemma HeaderMarksAbsent(cols: seq<Column>, vals: map<string, Bytes>, i: nat)
    requires DistinctNames(cols) && i < |cols| && cols[i].nullable
    ensures Header(cols, vals, HeaderSizeOf(cols), Some(Positions(cols))).Ok?
    ensures BitSet(Header(cols, vals, HeaderSizeOf(cols), Some(Positions(cols))).value, 0)
    ensures BitSet(Header(cols, vals, HeaderSizeOf(cols), Some(Positions(cols))).value, Position(cols, i))
      <==> cols[i].name !in vals
  {
    HeaderUpToBits(cols, vals, HeaderSizeOf(cols), Some(Positions(cols)), |cols|);
    var h := Header(cols, vals, HeaderSizeOf(cols), Some(Positions(cols))).value;
    if BitSet(h, Position(cols, i)) {
      var j :| 0 <= j < |cols| && cols[j].nullable && cols[j].name !in vals && Position(cols, j) == Position(cols, i);
      if j < i {
        PositionsIncrease(cols, j, i);
      } else if i < j {
        PositionsIncrease(cols, i, j);
      }
    }
  }

  // ---------------------------------------------------------------------
  // The payload

  /** A fixed-size value padded with zeros up to the column size (never cut). */
  function Padded(d: Bytes, size: nat): (r: Bytes)
    ensures |d| <= size ==> |r| == size
    ensures |d| > size ==> r == d
    ensures r[..|d|] == d
    ensures forall i :: |d| <= i < |r| ==> r[i] == 0
  {
    if |d| < size then d + Zeros(size - |d|) else d
  }

  /** What one column contributes to the payload. */
  function Segment(c: Column, vals: map<string, Bytes>): (s: Bytes)
    ensures c.name !in vals ==> s == []
    ensures c.name in vals && c.dynamic ==> |s| == 4 + |vals[c.name]| && s[4..] == vals[c.name]
    ensures c.name in vals && !c.dynamic ==> |vals[c.name]| <= |s| && s[..|vals[c.name]|] == vals[c.name]
    ensures c.name in vals && !c.dynamic && |vals[c.name]| <= c.size ==> |s| == c.size
  {
    if c.name !in vals then []
    else if c.dynamic then LengthPrefix(|vals[c.name]|) + vals[c.name]
    else Padded(vals[c.name], c.size)
  }

  function Body(cols: seq<Column>, vals: map<string, Bytes>): Bytes {
    if cols == [] then []
    else Body(cols[..|cols| - 1], vals) + Segment(cols[|cols| - 1], vals)
  }

  /** The arrays queued one after the other, as the copy loop lays them out. */
  function Flatten(dados: seq<Bytes>): Bytes {
    if dados == [] then [] else Flatten(dados[..|dados| - 1]) + dados[|dados| - 1]
  }

  lemma FlattenPush(dados: seq<Bytes>, d: Bytes)
    ensures Flatten(dados + [d]) == Flatten(dados) + d
  {
    assert (dados + [d])[..|dados|] == dados;
  }

  lemma {:induction false} FlattenPrefix(dados: seq<Bytes>, k: nat)
    requires k <= |dados|
    ensures |Flatten(dados[..k])| <= |Flatten(dados)|
    decreases |dados| - k
  {
    if k < |dados| {
      FlattenPrefix(dados, k + 1);
      FlattenPush(dados[..k], dados[k]);
      assert dados[..k + 1] == dados[..k] + [dados[k]];
    } else {
      assert dados[..k] == dados;
    }
  }

  /**
   * What convertToArray queues for column c: nothing for an absent value;
   * the length prefix and the bytes of a variable-length one; the bytes,
   * then the zero padding up to the column size, of a fixed-size one.
   */
  function Chunks(c: Column, vals: map<string, Bytes>): seq<Bytes> {
    if c.name !in vals then []
    else if c.dynamic then [LengthPrefix(|vals[c.name]|), vals[c.name]]
    else if |vals[c.name]| < c.size then [vals[c.name], Zeros(c.size - |vals[c.name]|)]
    else [vals[c.name]]
  }

  /** The queued chunks of a column lay out its segment. */
  lemma ChunksAreSegment(dados: seq<Bytes>, c: Column, vals: map<string, Bytes>)
    ensures Flatten(dados + Chunks(c, vals)) == Flatten(dados) + Segment(c, vals)
  {
    var ch := Chunks(c, vals);
    if |ch| == 1 {
      FlattenPush(dados, ch[0]);
    } else if |ch| == 2 {
      FlattenPush(dados, ch[0]);
      FlattenPush(dados + [ch[0]], ch[1]);
      assert dados + ch == dados + [ch[0]] + [ch[1]];
    } else {
      assert dados + ch == dados;
    }
  }

  /** The payload of one more column. */
  lemma BodyStepOn(cols: seq<Column>, vals: map<string, Bytes>, i: nat)
    requires i < |cols|
    ensures Body(cols[..i + 1], vals) == Body(cols[..i], vals) + Segment(cols[i], vals)
    ensures PayloadSize(cols[..i + 1], vals) == PayloadSize(cols[..i], vals)
      + (if cols[i].name !in vals then 0 else if cols[i].dynamic then 4 + |vals[cols[i].name]| else cols[i].size)
  {
    assert cols[..i + 1][..i] == cols[..i];
  }

  /**
   * The payload is never shorter than the sizes convertToArray adds up,
   * and longer exactly when a fixed-size value overruns its column.
   */
  lemma {:induction false} BodyAgainstPayload(cols: seq<Column>, vals: map<string, Bytes>)
    ensures |Body(cols, vals)| >= PayloadSize(cols, vals)
    ensures |Body(cols, vals)| == PayloadSize(cols, vals) <==> !Oversized(cols, vals)
  {
    if cols != [] {
      var init, c := cols[..|cols| - 1], cols[|cols| - 1];
      BodyAgainstPayload(init, vals);
      OversizedStep(cols, vals);
      assert |Body(cols, vals)| == |Body(init, vals)| + |Segment(c, vals)|;
    }
  }

  /** Overrunning values among the columns: among all but the last, or the last one. */
  lemma OversizedStep(cols: seq<Column>, vals: map<string, Bytes>)
    requires cols != []
    ensures var c := cols[|cols| - 1];
      Oversized(cols, vals) <==>
        (Oversized(cols[..|cols| - 1], vals) || (!c.dynamic && c.name in vals && |vals[c.name]| > c.size))
  {
    var init := cols[..|cols| - 1];
    forall i | 0 <= i < |init| ensures init[i] == cols[i] { }
    if Oversized(cols, vals) && !Oversized(init, vals) {
      var i :| 0 <= i < |cols| && !cols[i].dynamic && cols[i].name in vals && |vals[cols[i].name]| > cols[i].size;
      assert i == |cols| - 1;
    }
  }

  /** A present fixed-size value longer than its column (the copy then overruns the buffer). */
  predicate Oversized(cols: seq<Column>, vals: map<string, Bytes>) {
    exists i :: 0 <= i < |cols| && !cols[i].dynamic && cols[i].name in vals
      && |vals[cols[i].name]| > cols[i].size
  }

  /** The record bytes convertToArray produces once the row check has passed. */
  function Encode(cols: seq<Column>, hs: nat, positions: Option<map<int, nat>>,
                  vals: map<string, Bytes>): Result<Bytes>
  {
    var header :- Header(cols, vals, hs, positions);
    if Oversized(cols, vals) then Err(IndexOutOfBounds) else Ok(header + Body(cols, vals))
  }

  /**
   * The buffer convertToArray sizes (header size plus the sizes added up)
   * holds the header and the payload exactly when no fixed-size value
   * overruns its column, and then it holds the encoded record.
   */
  lemma EncodeInBuffer(cols: seq<Column>, hs: nat, positions: Option<map<int, nat>>,
                       vals: map<string, Bytes>, header: Bytes)
    requires Header(cols, vals, hs, positions) == Ok(header)
    ensures |header| == hs
    ensures |header| + |Body(cols, vals)| <= hs + PayloadSize(cols, vals) <==> !Oversized(cols, vals)
    ensures !Oversized(cols, vals) ==>
      Encode(cols, hs, positions, vals) == Ok(header + Body(cols, vals) + Zeros(hs + PayloadSize(cols, vals) - |header| - |Body(cols, vals)|))
    ensures Oversized(cols, vals) ==> Encode(cols, hs, positions, vals) == Err(IndexOutOfBounds)
  {
    BodyAgainstPayload(cols, vals);
    var b := Body(cols, vals);
    assert Zeros(0) == [];
    assert header + b + [] == header + b;
  }

  /**
   * With every key value present, the buffer of the key size holds the key
   * image exactly when no key value overruns its column, and then it holds
   * the primary-key bytes.
   */
  lemma KeyInBuffer(cols: seq<Column>, vals: map<string, Bytes>)
    requires forall i :: 0 <= i < |cols| && cols[i].pk ==> cols[i].name in vals
    ensures |KeyBody(cols, vals)| <= PrimaryKeySizeOf(cols) ==>
      PrimaryKeyBytes(cols, vals) == Ok([] + KeyBody(cols, vals) + Zeros(PrimaryKeySizeOf(cols) - |KeyBody(cols, vals)|))
    ensures |KeyBody(cols, vals)| > PrimaryKeySizeOf(cols) ==> PrimaryKeyBytes(cols, vals) == Err(IndexOutOfBounds)
  {
    KeyBodyAgainstKeySize(cols, vals);
    assert Zeros(0) == [];
    assert [] + KeyBody(cols, vals) + [] == KeyBody(cols, vals);
  }

  /** convertToArray(row): the row check (skipped for a row already marked valid), then the encoding. */
  function ConvertToArray(cols: seq<Column>, hs: nat, positions: Option<map<int, nat>>,
                          vals: map<string, Bytes>, valid: bool): (r: Result<Bytes>)
    ensures !valid && !RowFits(cols, vals) ==> r.Err? && r.error.Data?
  {
    if !valid && RowViolation(cols, vals).Some? then Err(Data(RowViolation(cols, vals).value))
    else Encode(cols, hs, positions, vals)
  }

  /** Bytes a column takes in the record: nothing when absent, its size or its prefixed length otherwise. */
  function PayloadSize(cols: seq<Column>, vals: map<string, Bytes>): nat {
    if cols == [] then 0
    else
      var c := cols[|cols| - 1];
      PayloadSize(cols[..|cols| - 1], vals)
        + (if c.name !in vals then 0 else if c.dynamic then 4 + |vals[c.name]| else c.size)
  }

  lemma {:induction false} BodyLength(cols: seq<Column>, vals: map<string, Bytes>)
    requires !Oversized(cols, vals)
    ensures |Body(cols, vals)| == PayloadSize(cols, vals)
  {
    if cols != [] {
      var init := cols[..|cols| - 1];
      assert !Oversized(init, vals) by {
        forall i | 0 <= i < |init| ensures init[i] == cols[i] { }
      }
      BodyLength(init, vals);
    }
  }

  lemma {:induction false} PayloadWithinMax(cols: seq<Column>, vals: map<string, Bytes>)
    requires RowFits(cols, vals)
    ensures PayloadSize(cols, vals) <= ColumnsMaxSize(cols)
  {
    if cols != [] {
      var init := cols[..|cols| - 1];
      assert RowFits(init, vals) by {
        forall i | 0 <= i < |init| ensures init[i] == cols[i] { }
      }
      PayloadWithinMax(init, vals);
      assert ColumnFits(cols[|cols| - 1], vals);
    }
  }

  /**
   * A row that passes the check encodes, under the schema's layout, into
   * header plus payload, never longer than maxRecordSize().
   */
  lemma EncodeLength(cols: seq<Column>, vals: map<string, Bytes>)
    requires DistinctNames(cols) && RowFits(cols, vals)
    ensures Encode(cols, HeaderSizeOf(cols), Some(Positions(cols)), vals).Ok?
    ensures |Encode(cols, HeaderSizeOf(cols), Some(Positions(cols)), vals).value|
      == HeaderSizeOf(cols) + PayloadSize(cols, vals)
    ensures |Encode(cols, HeaderSizeOf(cols), Some(Positions(cols)), vals).value|
      <= HeaderSizeOf(cols) + ColumnsMaxSize(cols)
  {
    HeaderUpToBits(cols, vals, HeaderSizeOf(cols), Some(Positions(cols)), |cols|);
    assert !Oversized(cols, vals) by {
      forall i | 0 <= i < |cols| ensures ColumnFits(cols[i], vals) { }
    }
    BodyLength(cols, vals);
    PayloadWithinMax(cols, vals);
  }

  /** Under a schema's layout, encoding fails exactly when a fixed-size value is too long. */
  lemma EncodeFailsOnlyWhenOversized(cols: seq<Column>, vals: map<string, Bytes>)
    requires DistinctNames(cols)
    ensures Encode(cols, HeaderSizeOf(cols), Some(Positions(cols)), vals).Err?
      <==> Oversized(cols, vals)
  {
    HeaderUpToBits(cols, vals, HeaderSizeOf(cols), Some(Positions(cols)), |cols|);
  }

  // ---------------------------------------------------------------------
  // The primary-key image

  /** The padded primary-key values, in column order. */
  function KeyBody(cols: seq<Column>, vals: map<string, Bytes>): Bytes {
    if cols == [] then []
    else
      var c := cols[|cols| - 1];
      KeyBody(cols[..|cols| - 1], vals)
        + (if c.pk && c.name in vals then Padded(vals[c.name], c.size) else [])
  }

  /**
   * convertPrimaryKeyToByteArray(row): a missing key value is dereferenced
   * (NullPointerException); a value longer than its column overruns the
   * buffer the column sizes add up to.
   */
  function PrimaryKeyBytes(cols: seq<Column>, vals: map<string, Bytes>): (r: Result<Bytes>)
    ensures r.Ok? <==> forall i :: 0 <= i < |cols| && cols[i].pk ==>
      cols[i].name in vals && |vals[cols[i].name]| <= cols[i].size
  {
    if exists i :: 0 <= i < |cols| && cols[i].pk && cols[i].name !in vals then Err(NullPointer)
    else if exists i :: 0 <= i < |cols| && cols[i].pk && |vals[cols[i].name]| > cols[i].size then Err(IndexOutOfBounds)
    else Ok(KeyBody(cols, vals))
  }

  lemma {:induction false} KeyBodyLength(cols: seq<Column>, vals: map<string, Bytes>)
    requires forall i :: 0 <= i < |cols| && cols[i].pk ==>
      cols[i].name in vals && |vals[cols[i].name]| <= cols[i].size
    ensures |KeyBody(cols, vals)| == PrimaryKeySizeOf(cols)
  {
    if cols != [] {
      var init := cols[..|cols| - 1];
      forall i | 0 <= i < |init| ensures init[i] == cols[i] { }
      KeyBodyLength(init, vals);
    }
  }

  /** The key image of one more column. */
  lemma KeyBodyStep(cols: seq<Column>, vals: map<string, Bytes>, i: nat)
    requires i < |cols|
    ensures KeyBody(cols[..i + 1], vals) == KeyBody(cols[..i], vals)
      + (if cols[i].pk && cols[i].name in vals then Padded(vals[cols[i].name], cols[i].size) else [])
  {
    assert cols[..i + 1][..i] == cols[..i];
  }

  /**
   * With every key value present, the key image is never shorter than the
   * key size, and it is longer exactly when some key value overruns its
   * column.
   */
  lemma {:induction false} KeyBodyAgainstKeySize(cols: seq<Column>, vals: map<string, Bytes>)
    requires forall i :: 0 <= i < |cols| && cols[i].pk ==> cols[i].name in vals
    ensures |KeyBody(cols, vals)| >= PrimaryKeySizeOf(cols)
    ensures |KeyBody(cols, vals)| == PrimaryKeySizeOf(cols) <==>
      forall i :: 0 <= i < |cols| && cols[i].pk ==> |vals[cols[i].name]| <= cols[i].size
  {
    if cols != [] {
      var init, c := cols[..|cols| - 1], cols[|cols| - 1];
      forall i | 0 <= i < |init| ensures init[i] == cols[i] { }
      KeyBodyAgainstKeySize(init, vals);
      if |KeyBody(cols, vals)| == PrimaryKeySizeOf(cols) {
        forall i | 0 <= i < |cols| && cols[i].pk
          ensures |vals[cols[i].name]| <= cols[i].size
        {
          if i < |init| {
            assert init[i] == cols[i];
          }
        }
      }
    }
  }

  lemma {:induction false} KeyBodyStopsAtKeys(cols: seq<Column>, vals: map<string, Bytes>, k: nat)
    requires k <= |cols| && forall i :: k <= i < |cols| ==> !cols[i].pk
    ensures KeyBody(cols, vals) == KeyBody(cols[..k], vals)
  {
    if k < |cols| {
      var init := cols[..|cols| - 1];
      assert init[..k] == cols[..k];
      forall i | k <= i < |init| ensures init[i] == cols[i] { }
      KeyBodyStopsAtKeys(init, vals, k);
    } else {
      assert cols[..k] == cols;
    }
  }

  /** Over a run of present, fixed-size key columns, payload and key image coincide. */
  lemma {:induction false} KeyBodyIsBody(cols: seq<Column>, vals: map<string, Bytes>)
    requires forall i :: 0 <= i < |cols| ==> cols[i].pk && !cols[i].dynamic && cols[i].name in vals
    ensures KeyBody(cols, vals) == Body(cols, vals)
  {
    if cols != [] {
      var init := cols[..|cols| - 1];
      forall i | 0 <= i < |init| ensures init[i] == cols[i] { }
      KeyBodyIsBody(init, vals);
    }
  }

  /** The payload of a prefix of the columns is a prefix of the payload. */
  lemma {:induction false} BodyPrefix(cols: seq<Column>, vals: map<string, Bytes>, k: nat)
    requires k <= |cols|
    ensures |Body(cols[..k], vals)| <= |Body(cols, vals)|
    ensures Body(cols, vals)[..|Body(cols[..k], vals)|] == Body(cols[..k], vals)
  {
    if k < |cols| {
      var init := cols[..|cols| - 1];
      assert init[..k] == cols[..k];
      BodyPrefix(init, vals, k);
    } else {
      assert cols[..k] == cols;
    }
  }

  /** When the key columns lead, they are the first n for some n. */
  lemma KeyRun(cols: seq<Column>) returns (n: nat)
    requires PkFirst(cols)
    ensures n <= |cols|
    ensures forall i :: 0 <= i < n ==> cols[i].pk
    ensures forall i :: n <= i < |cols| ==> !cols[i].pk
  {
    n := 0;
    while n < |cols| && cols[n].pk
      invariant n <= |cols| && forall i :: 0 <= i < n ==> cols[i].pk
    {
      n := n + 1;
    }
  }

  /** Leading, fixed-size, present key columns: the key image starts the payload. */
  lemma KeyBodyStartsBody(cols: seq<Column>, vals: map<string, Bytes>)
    requires PkFirst(cols)
    requires forall i :: 0 <= i < |cols| && cols[i].pk ==> !cols[i].dynamic && cols[i].name in vals
    ensures |KeyBody(cols, vals)| <= |Body(cols, vals)|
    ensures Body(cols, vals)[..|KeyBody(cols, vals)|] == KeyBody(cols, vals)
  {
    var n := KeyRun(cols);
    KeyBodyStopsAtKeys(cols, vals, n);
    KeyBodyIsBody(cols[..n], vals);
    BodyPrefix(cols, vals, n);
  }

  /** Key columns are fixed-size. */
  predicate KeysFixed(cols: seq<Column>) {
    forall i :: 0 <= i < |cols| && cols[i].pk ==> !cols[i].dynamic
  }

  /**
   * With distinct names and leading fixed-size key columns, the primary-key
   * image of a row that passes the check is exactly the primaryKeySize bytes
   * that follow the header in its record.
   */
  lemma KeyImageInRecord(cols: seq<Column>, vals: map<string, Bytes>)
    requires DistinctNames(cols) && KeysFixed(cols) && PkFirst(cols) && RowFits(cols, vals)
    ensures Encode(cols, HeaderSizeOf(cols), Some(Positions(cols)), vals).Ok?
    ensures PrimaryKeyBytes(cols, vals).Ok?
    ensures var record := Encode(cols, HeaderSizeOf(cols), Some(Positions(cols)), vals).value;
      HeaderSizeOf(cols) + PrimaryKeySizeOf(cols) <= |record|
      && PrimaryKeyBytes(cols, vals).value
         == record[HeaderSizeOf(cols)..HeaderSizeOf(cols) + PrimaryKeySizeOf(cols)]
  {
    var header, body := EncodeParts(cols, vals);
    var key := KeysPresent(cols, vals);
    PrefixAfter(header, body, key);
    var record := Encode(cols, HeaderSizeOf(cols), Some(Positions(cols)), vals).value;
    assert record == header + body;
    assert record[|header|..|header| + |key|] == key;
  }

  /** A valid schema whose key columns come first places the key image right after the header. */
  lemma PrimaryKeyBytesInRecord(cols: seq<Column>, vals: map<string, Bytes>)
    requires SchemaOk(cols) && PkFirst(cols) && RowFits(cols, vals)
    ensures Encode(cols, HeaderSizeOf(cols), Some(Positions(cols)), vals).Ok?
    ensures PrimaryKeyBytes(cols, vals).Ok?
    ensures var record := Encode(cols, HeaderSizeOf(cols), Some(Positions(cols)), vals).value;
      HeaderSizeOf(cols) + PrimaryKeySizeOf(cols) <= |record|
      && PrimaryKeyBytes(cols, vals).value
         == record[HeaderSizeOf(cols)..HeaderSizeOf(cols) + PrimaryKeySizeOf(cols)]
  {
    SchemaOkDistinctNames(cols);
    KeyImageInRecord(cols, vals);
  }

  /** A prefix of b is found right after h in h + b. */
  lemma PrefixAfter(h: Bytes, b: Bytes, key: Bytes)
    requires |key| <= |b| && b[..|key|] == key
    ensures |h| + |key| <= |h + b| && (h + b)[|h|..|h| + |key|] == key
  {
    assert (h + b)[|h|..|h| + |key|] == b[..|key|];
  }

  /** With leading fixed-size keys, a row that passes the check has a key image of primaryKeySize bytes that starts its payload. */
  lemma KeysPresent(cols: seq<Column>, vals: map<string, Bytes>) returns (key: Bytes)
    requires KeysFixed(cols) && PkFirst(cols) && RowFits(cols, vals)
    ensures PrimaryKeyBytes(cols, vals) == Ok(key)
    ensures |key| == PrimaryKeySizeOf(cols) <= |Body(cols, vals)|
    ensures Body(cols, vals)[..|key|] == key
  {
    forall i | 0 <= i < |cols| && cols[i].pk
      ensures cols[i].name in vals && |vals[cols[i].name]| <= cols[i].size && !cols[i].dynamic
    {
      assert ColumnFits(cols[i], vals);
    }
    KeyBodyLength(cols, vals);
    KeyBodyStartsBody(cols, vals);
    key := KeyBody(cols, vals);
  }

  /** A row that passes the check encodes to its header followed by its payload. */
  lemma EncodeParts(cols: seq<Column>, vals: map<string, Bytes>) returns (header: Bytes, body: Bytes)
    requires DistinctNames(cols) && RowFits(cols, vals)
    ensures Encode(cols, HeaderSizeOf(cols), Some(Positions(cols)), vals) == Ok(header + body)
    ensures Header(cols, vals, HeaderSizeOf(cols), Some(Positions(cols))) == Ok(header)
    ensures |header| == HeaderSizeOf(cols) && body == Body(cols, vals)
  {
    EncodeLength(cols, vals);
    header := Header(cols, vals, HeaderSizeOf(cols), Some(Positions(cols))).value;
    body := Body(cols, vals);
  }
}
