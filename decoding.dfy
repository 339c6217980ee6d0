/**
 * The record decoder (convertBinaryToRowData): walks the columns in schema
 * order with a byte offset, a header bit pointer and a count of selected
 * columns, and collects, per column name, the column and the bytes read
 * for it. The decoder's own shortcuts (a projection onto some names, the
 * primary-key-only mode) are proved to agree with the full decode.
 */
module Decoding {
  import opened Base
  import opened Columns
  import opened Fields
  import opened Layout
  import opened Encoding

  /** What the decoder puts in the row: per name, the column and the bytes read for it. */
  type Decoded = map<string, (Column, Bytes)>

  /** The decoder's position: byte offset, header bit pointer, columns selected so far. */
  datatype Cursor = Cursor(offset: int, hp: nat, sel: nat)

  /** `(header[hp / 8] & (1 << hp % 8)) != 0`; an index past the header is an error. */
  function TestBit(header: Bytes, hp: nat): (r: Result<bool>)
    ensures r.Ok? <==> hp / 8 < |header|
    ensures r.Ok? ==> r.value == BitSet(header, hp)
  {
    if hp / 8 >= |header| then Err(IndexOutOfBounds) else Ok(BitSet(header, hp))
  }

  /**
   * Reading one column at `offset`: a variable-length column first reads
   * its 4-byte length; the value bytes are copied only when the column is
   * selected. Gives the next offset and the bytes copied, if any.
   */
  function ReadValue(c: Column, data: Bytes, offset: int, check: bool): (r: Result<(int, Option<Bytes>)>)
    ensures r.Ok? ==> (r.value.1.Some? <==> check)
  {
    if c.dynamic then
      var prefix :- CopyOfRange(data, offset, offset + 4);
      var size := ReadLengthPrefix(prefix);
      if check then
        var arr :- CopyOfRange(data, offset + 4, offset + 4 + size);
        Ok((offset + 4 + size, Some(arr)))
      else Ok((offset + 4 + size, None))
    else if check then
      var arr :- CopyOfRange(data, offset, offset + c.size);
      Ok((offset + c.size, Some(arr)))
    else Ok((offset + c.size, None))
  }

  /** Where the loop breaks: past the last column, every selected column read, or the keys done. */
  predicate Stops(cols: seq<Column>, i: nat, meta: Option<set<string>>, onlyPK: bool, cur: Cursor)
    requires i <= |cols|
  {
    i == |cols| || (meta.Some? && cur.sel >= |meta.value|) || (onlyPK && !cols[i].pk)
  }

  /**
   * One pass of the loop body for column c: count it if selected, test its
   * null bit (when it has one and the record has a header), then read it.
   * Gives the new cursor and the bytes to store, if any.
   */
  function ColumnStep(c: Column, data: Bytes, header: Bytes, meta: Option<set<string>>,
                      hasHeader: bool, cur: Cursor): (r: Result<(Cursor, Option<Bytes>)>)
  {
    var check := meta.None? || c.name in meta.value;
    var sel := if check then cur.sel + 1 else cur.sel;
    var bitRead := c.nullable && hasHeader;
    var isNull :- if bitRead then TestBit(header, cur.hp) else Ok(false);
    var hp := if bitRead then cur.hp + 1 else cur.hp;
    if isNull then Ok((Cursor(cur.offset, hp, sel), None))
    else
      var step :- ReadValue(c, data, cur.offset, check);
      Ok((Cursor(step.0, hp, sel), step.1))
  }

  /** row.setField(c.getName(), ..., c) when bytes were read. */
  function Put(acc: Decoded, c: Column, v: Option<Bytes>): Decoded {
    if v.Some? then acc[c.name := (c, v.value)] else acc
  }

  /** The decoding loop from column i on. */
  function DecodeFrom(cols: seq<Column>, i: nat, data: Bytes, header: Bytes, meta: Option<set<string>>,
                      hasHeader: bool, onlyPK: bool, cur: Cursor, acc: Decoded): Result<Decoded>
    requires i <= |cols|
    decreases |cols| - i
  {
    if Stops(cols, i, meta, onlyPK, cur) then Ok(acc)
    else
      var step :- ColumnStep(cols[i], data, header, meta, hasHeader, cur);
      DecodeFrom(cols, i + 1, data, header, meta, hasHeader, onlyPK, step.0, Put(acc, cols[i], step.1))
  }

  /**
   * convertBinaryToRowData(data, meta, hasHeader, onlyPrimaryKey) under a
   * header of hs bytes: the header is copied out first (an error when the
   * data is shorter), then the columns are read.
   */
  function Decode(cols: seq<Column>, hs: nat, data: Bytes, meta: Option<set<string>>,
                  hasHeader: bool, onlyPK: bool): Result<Decoded>
  {
    if hasHeader && |data| < hs then Err(IndexOutOfBounds)
    else
      var header := if hasHeader then data[..hs] else Zeros(hs);
      DecodeFrom(cols, 0, data, header, meta, hasHeader, onlyPK, Cursor(if hasHeader then hs else 0, 1, 0), map[])
  }

  // ---------------------------------------------------------------------
  // Round trip

  /** What decoding gives back for a value: a fixed-size value comes back padded to its column size. */
  function Restored(c: Column, d: Bytes): Bytes {
    if c.dynamic then d else Padded(d, c.size)
  }

  /** The value the decoder should store for column c of the row `vals`. */
  function Stored(c: Column, vals: map<string, Bytes>): Option<Bytes> {
    if c.name in vals then Some(Restored(c, vals[c.name])) else None
  }

  /** The row a record of `vals` should decode to. */
  function Expected(cols: seq<Column>, vals: map<string, Bytes>): Decoded {
    if cols == [] then map[]
    else
      var c := cols[|cols| - 1];
      Put(Expected(cols[..|cols| - 1], vals), c, Stored(c, vals))
  }

  /** Expected holds every present column of the schema, with its value restored, and nothing else. */
  lemma {:induction false} ExpectedMeaning(cols: seq<Column>, vals: map<string, Bytes>)
    requires DistinctNames(cols)
    ensures forall n :: n in Expected(cols, vals) <==> n in vals && n in NamesSet(cols)
    ensures forall i :: 0 <= i < |cols| && cols[i].name in vals ==>
      cols[i].name in Expected(cols, vals)
      && Expected(cols, vals)[cols[i].name] == (cols[i], Restored(cols[i], vals[cols[i].name]))
  {
    if cols != [] {
      var init := cols[..|cols| - 1];
      assert DistinctNames(init);
      ExpectedMeaning(init, vals);
      forall i | 0 <= i < |init| ensures init[i] == cols[i] { }
    }
  }

  /** The bytes of e from offset o on begin with seg. */
  predicate SliceIs(e: Bytes, o: nat, seg: Bytes) {
    o + |seg| <= |e| && e[o..o + |seg|] == seg
  }

  /** Reading a present column at the start of its own segment gives the restored value back. */
  lemma ReadSegment(c: Column, vals: map<string, Bytes>, e: Bytes, o: nat)
    requires c.name in vals && |vals[c.name]| <= c.size
    requires SliceIs(e, o, Segment(c, vals))
    ensures ReadValue(c, e, o, true) == Ok((o + |Segment(c, vals)|, Some(Restored(c, vals[c.name]))))
  {
    if c.dynamic {
      ReadDynamicSegment(c, vals, e, o);
    } else {
      CopyOfRangeSlice(e, o, o + c.size);
    }
  }

  /** The variable-length case: the length prefix reads back, then the value is copied out. */
  lemma ReadDynamicSegment(c: Column, vals: map<string, Bytes>, e: Bytes, o: nat)
    requires c.dynamic && c.name in vals && |vals[c.name]| <= c.size
    requires SliceIs(e, o, Segment(c, vals))
    ensures ReadValue(c, e, o, true) == Ok((o + |Segment(c, vals)|, Some(vals[c.name])))
  {
    var d := vals[c.name];
    var seg := Segment(c, vals);
    CopyOfRangeSlice(e, o, o + 4);
    assert e[o..o + 4] == seg[..4] == LengthPrefix(|d|);
    LengthPrefixRoundTrip(|d|);
    CopyOfRangeSlice(e, o + 4, o + 4 + |d|);
    assert e[o + 4..o + 4 + |d|] == seg[4..] == d;
  }

  /** One loop pass over a column whose segment sits at the cursor and whose null bit is right. */
  lemma StepOnRecord(c: Column, vals: map<string, Bytes>, e: Bytes, header: Bytes, cur: Cursor, next: Cursor)
    requires ColumnFits(c, vals)
    requires cur.offset >= 0 && SliceIs(e, cur.offset, Segment(c, vals))
    requires c.nullable ==> cur.hp / 8 < |header| && (BitSet(header, cur.hp) <==> c.name !in vals)
    requires next == Cursor(cur.offset + |Segment(c, vals)|, if c.nullable then cur.hp + 1 else cur.hp, cur.sel + 1)
    ensures ColumnStep(c, e, header, None, true, cur) == Ok((next, Stored(c, vals)))
  {
    if c.nullable {
      assert TestBit(header, cur.hp) == Ok(c.name !in vals);
    }
    if c.name in vals {
      ReadSegment(c, vals, e, cur.offset);
    } else {
      assert Segment(c, vals) == [];
    }
  }

  /** A slice of b that equals seg is found |h| bytes further on in h + b. */
  lemma SliceOfConcat(h: Bytes, b: Bytes, k: nat, seg: Bytes)
    requires SliceIs(b, k, seg)
    ensures SliceIs(h + b, |h| + k, seg)
  {
    assert (h + b)[|h| + k..|h| + k + |seg|] == b[k..k + |seg|];
  }

  lemma SliceAtEnd(a: Bytes, seg: Bytes)
    ensures SliceIs(a + seg, |a|, seg)
  {
    assert (a + seg)[|a|..|a| + |seg|] == seg;
  }

  lemma SliceOfPrefix(b: Bytes, p: Bytes, k: nat, seg: Bytes)
    requires |p| <= |b| && b[..|p|] == p && SliceIs(p, k, seg)
    ensures SliceIs(b, k, seg)
  {
    assert b[k..k + |seg|] == p[k..k + |seg|];
  }

  /** The segment of column i sits right after the payload of the columns before it. */
  lemma SegmentInBody(cols: seq<Column>, vals: map<string, Bytes>, i: nat)
    requires i < |cols|
    ensures SliceIs(Body(cols, vals), |Body(cols[..i], vals)|, Segment(cols[i], vals))
  {
    var pre := cols[..i + 1];
    assert pre[..i] == cols[..i] && pre[i] == cols[i];
    assert Body(pre, vals) == Body(cols[..i], vals) + Segment(cols[i], vals);
    SliceAtEnd(Body(cols[..i], vals), Segment(cols[i], vals));
    BodyPrefix(cols, vals, i + 1);
    SliceOfPrefix(Body(cols, vals), Body(pre, vals), |Body(cols[..i], vals)|, Segment(cols[i], vals));
  }

  /** One unfolding of the loop at a column where it does not stop. */
  lemma DecodeStepsOn(cols: seq<Column>, i: nat, data: Bytes, header: Bytes, meta: Option<set<string>>,
                      hasHeader: bool, onlyPK: bool, cur: Cursor, acc: Decoded)
    requires i <= |cols| && !Stops(cols, i, meta, onlyPK, cur)
    requires ColumnStep(cols[i], data, header, meta, hasHeader, cur).Ok?
    ensures var step := ColumnStep(cols[i], data, header, meta, hasHeader, cur).value;
      DecodeFrom(cols, i, data, header, meta, hasHeader, onlyPK, cur, acc)
      == DecodeFrom(cols, i + 1, data, header, meta, hasHeader, onlyPK, step.0, Put(acc, cols[i], step.1))
  {
  }

  /**
   * Column j's segment sits in `e` right after the header and the segments
   * before it, and, for a nullable column, its header bit is inside the
   * header and marks exactly its absence.
   */
  predicate Placed(cols: seq<Column>, vals: map<string, Bytes>, header: Bytes, e: Bytes, j: nat)
    requires j < |cols|
  {
    var o := |header| + |Body(cols[..j], vals)|;
    var seg := Segment(cols[j], vals);
    var hp := 1 + NullableCount(cols[..j]);
    && SliceIs(e, o, seg)
    && (cols[j].nullable ==> hp / 8 < |header| && (BitSet(header, hp) <==> cols[j].name !in vals))
  }

  /** Every column from index i on is placed. */
  predicate PlacedFrom(cols: seq<Column>, vals: map<string, Bytes>, header: Bytes, e: Bytes, i: nat)
    decreases |cols| - i
  {
    i >= |cols| || (Placed(cols, vals, header, e, i) && PlacedFrom(cols, vals, header, e, i + 1))
  }

  /** In the encoder's record the segment of column j follows the header and the segments before it. */
  lemma SegmentInRecord(cols: seq<Column>, vals: map<string, Bytes>, header: Bytes, j: nat)
    requires j < |cols|
    ensures SliceIs(header + Body(cols, vals), |header| + |Body(cols[..j], vals)|, Segment(cols[j], vals))
  {
    SegmentInBody(cols, vals, j);
    SliceOfConcat(header, Body(cols, vals), |Body(cols[..j], vals)|, Segment(cols[j], vals));
  }

  /** In the encoder's header the bit of a nullable column j is set exactly when it is absent. */
  lemma BitInHeader(cols: seq<Column>, vals: map<string, Bytes>, header: Bytes, j: nat)
    requires DistinctNames(cols) && j < |cols| && cols[j].nullable
    requires Header(cols, vals, HeaderSizeOf(cols), Some(Positions(cols))) == Ok(header)
    ensures var hp := 1 + NullableCount(cols[..j]);
      hp / 8 < |header| && (BitSet(header, hp) <==> cols[j].name !in vals)
  {
    HeaderMarksAbsent(cols, vals, j);
    PositionInHeader(cols, j);
  }

  /** In the encoder's record a column whose header bit is right is placed. */
  lemma RecordPlaced(cols: seq<Column>, vals: map<string, Bytes>, header: Bytes, j: nat)
    requires j < |cols|
    requires cols[j].nullable ==> var hp := 1 + NullableCount(cols[..j]);
      hp / 8 < |header| && (BitSet(header, hp) <==> cols[j].name !in vals)
    ensures Placed(cols, vals, header, header + Body(cols, vals), j)
  {
    SegmentInRecord(cols, vals, header, j);
  }

  lemma BodyStep(cols: seq<Column>, vals: map<string, Bytes>, i: nat)
    requires i < |cols|
    ensures |Body(cols[..i + 1], vals)| == |Body(cols[..i], vals)| + |Segment(cols[i], vals)|
    ensures NullableCount(cols[..i + 1]) == NullableCount(cols[..i]) + (if cols[i].nullable then 1 else 0)
  {
    assert cols[..i + 1][..i] == cols[..i];
  }

  /** Where the encoder leaves the decoder's cursor before column i: past the header and the segments before i. */
  function CursorAt(cols: seq<Column>, vals: map<string, Bytes>, header: Bytes, i: nat, sel: nat): Cursor
    requires i <= |cols|
  {
    Cursor(|header| + |Body(cols[..i], vals)|, 1 + NullableCount(cols[..i]), sel)
  }

  /** What a placed column gives the loop pass: its segment at the cursor, its null bit, and the next cursor. */
  lemma PlacedStep(cols: seq<Column>, vals: map<string, Bytes>, header: Bytes, e: Bytes, i: nat, sel: nat)
    requires RowFits(cols, vals) && i < |cols| && Placed(cols, vals, header, e, i)
    ensures var cur := CursorAt(cols, vals, header, i, sel);
      && ColumnFits(cols[i], vals)
      && cur.offset >= 0 && SliceIs(e, cur.offset, Segment(cols[i], vals))
      && (cols[i].nullable ==> cur.hp / 8 < |header| && (BitSet(header, cur.hp) <==> cols[i].name !in vals))
      && CursorAt(cols, vals, header, i + 1, sel + 1)
         == Cursor(cur.offset + |Segment(cols[i], vals)|, if cols[i].nullable then cur.hp + 1 else cur.hp, sel + 1)
  {
    assert ColumnFits(cols[i], vals);
    BodyStep(cols, vals, i);
  }

  lemma ExpectedStep(cols: seq<Column>, vals: map<string, Bytes>, i: nat)
    requires i < |cols|
    ensures Expected(cols[..i + 1], vals) == Put(Expected(cols[..i], vals), cols[i], Stored(cols[i], vals))
  {
    assert cols[..i + 1][..i] == cols[..i];
  }

  /** A loop pass that succeeds hands the rest of the walk to column i + 1. */
  lemma DecodeAdvance(cols: seq<Column>, i: nat, data: Bytes, header: Bytes, cur: Cursor, next: Cursor,
                      v: Option<Bytes>, acc: Decoded, rest: Result<Decoded>)
    requires i < |cols|
    requires ColumnStep(cols[i], data, header, None, true, cur) == Ok((next, v))
    requires DecodeFrom(cols, i + 1, data, header, None, true, false, next, Put(acc, cols[i], v)) == rest
    ensures DecodeFrom(cols, i, data, header, None, true, false, cur, acc) == rest
  {
  }

  /** At a placed column the walk stores its value and goes on where the encoder went on. */
  lemma DecodeAtPlaced(cols: seq<Column>, vals: map<string, Bytes>, header: Bytes, e: Bytes, i: nat, sel: nat)
    requires RowFits(cols, vals) && i < |cols| && Placed(cols, vals, header, e, i)
    requires DecodeFrom(cols, i + 1, e, header, None, true, false, CursorAt(cols, vals, header, i + 1, sel + 1),
                        Expected(cols[..i + 1], vals)) == Ok(Expected(cols, vals))
    ensures DecodeFrom(cols, i, e, header, None, true, false, CursorAt(cols, vals, header, i, sel),
                       Expected(cols[..i], vals)) == Ok(Expected(cols, vals))
  {
    PlacedStep(cols, vals, header, e, i, sel);
    StepOnRecord(cols[i], vals, e, header, CursorAt(cols, vals, header, i, sel), CursorAt(cols, vals, header, i + 1, sel + 1));
    ExpectedStep(cols, vals, i);
    DecodeAdvance(cols, i, e, header, CursorAt(cols, vals, header, i, sel), CursorAt(cols, vals, header, i + 1, sel + 1),
                  Stored(cols[i], vals), Expected(cols[..i], vals), Ok(Expected(cols, vals)));
  }

  /**
   * From column i on, with every remaining column placed and the cursor
   * where the encoder left it, decoding yields Expected.
   */
  lemma {:induction false} DecodeRest(cols: seq<Column>, vals: map<string, Bytes>, header: Bytes, e: Bytes,
                                      i: nat, sel: nat)
    requires RowFits(cols, vals) && i <= |cols| && PlacedFrom(cols, vals, header, e, i)
    ensures DecodeFrom(cols, i, e, header, None, true, false, CursorAt(cols, vals, header, i, sel),
                       Expected(cols[..i], vals)) == Ok(Expected(cols, vals))
    decreases |cols| - i
  {
    if i == |cols| {
      assert cols[..i] == cols;
    } else {
      DecodeRest(cols, vals, header, e, i + 1, sel + 1);
      DecodeAtPlaced(cols, vals, header, e, i, sel);
    }
  }

  lemma {:induction false} RecordPlacedFrom(cols: seq<Column>, vals: map<string, Bytes>, header: Bytes, i: nat)
    requires DistinctNames(cols)
    requires Header(cols, vals, HeaderSizeOf(cols), Some(Positions(cols))) == Ok(header)
    ensures PlacedFrom(cols, vals, header, header + Body(cols, vals), i)
    decreases |cols| - i
  {
    if i < |cols| {
      if cols[i].nullable {
        BitInHeader(cols, vals, header, i);
      }
      RecordPlaced(cols, vals, header, i);
      RecordPlacedFrom(cols, vals, header, i + 1);
    }
  }

  /** A record that starts with its header and has every column placed decodes to Expected. */
  lemma DecodeRecord(cols: seq<Column>, vals: map<string, Bytes>, header: Bytes, e: Bytes)
    requires RowFits(cols, vals) && |header| <= |e| && e[..|header|] == header
    requires PlacedFrom(cols, vals, header, e, 0)
    ensures Decode(cols, |header|, e, None, true, false) == Ok(Expected(cols, vals))
  {
    assert cols[..0] == [];
    assert CursorAt(cols, vals, header, 0, 0) == Cursor(|header|, 1, 0);
    assert Expected(cols[..0], vals) == map[];
    DecodeRest(cols, vals, header, e, 0, 0);
  }

  /**
   * The round trip: a row that passes the check, encoded under its schema's
   * layout and decoded in full, gives back every present column with its
   * value (fixed-size values padded with zeros to the column size).
   */
  lemma RoundTrip(cols: seq<Column>, vals: map<string, Bytes>)
    requires DistinctNames(cols) && RowFits(cols, vals)
    ensures Encode(cols, HeaderSizeOf(cols), Some(Positions(cols)), vals).Ok?
    ensures Decode(cols, HeaderSizeOf(cols), Encode(cols, HeaderSizeOf(cols), Some(Positions(cols)), vals).value,
                   None, true, false)
      == Ok(Expected(cols, vals))
  {
    var header, body := EncodeParts(cols, vals);
    RecordPlacedFrom(cols, vals, header, 0);
    DecodeRecord(cols, vals, header, header + body);
  }

  // ---------------------------------------------------------------------
  // Projection and primary-key-only decoding

  function Restrict(m: Decoded, names: set<string>): (r: Decoded)
    ensures forall n :: n in r <==> n in m && n in names
    ensures forall n :: n in r ==> r[n] == m[n]
  {
    map n | n in m && n in names :: m[n]
  }

  /** No column from index i on has the name n. */
  predicate UnnamedFrom(cols: seq<Column>, i: nat, n: string) {
    forall j :: i <= j < |cols| ==> cols[j].name != n
  }

  /** The decoder only writes the names of the columns it has not yet passed. */
  lemma {:induction false} DecodeFromFrame(cols: seq<Column>, i: nat, data: Bytes, header: Bytes,
                                           meta: Option<set<string>>, hasHeader: bool, onlyPK: bool,
                                           cur: Cursor, acc: Decoded)
    requires i <= |cols|
    requires DecodeFrom(cols, i, data, header, meta, hasHeader, onlyPK, cur, acc).Ok?
    ensures var r := DecodeFrom(cols, i, data, header, meta, hasHeader, onlyPK, cur, acc).value;
      forall n :: UnnamedFrom(cols, i, n) ==> (n in r <==> n in acc) && (n in acc ==> r[n] == acc[n])
    decreases |cols| - i
  {
    if !Stops(cols, i, meta, onlyPK, cur) {
      var step := ColumnStep(cols[i], data, header, meta, hasHeader, cur).value;
      DecodeFromFrame(cols, i + 1, data, header, meta, hasHeader, onlyPK, step.0, Put(acc, cols[i], step.1));
    }
  }

  /** Copying the value of a column or not, the offset advances alike. */
  lemma ReadValueSelects(c: Column, data: Bytes, offset: int, check: bool)
    requires ReadValue(c, data, offset, true).Ok?
    ensures ReadValue(c, data, offset, check).Ok?
    ensures ReadValue(c, data, offset, check).value.0 == ReadValue(c, data, offset, true).value.0
    ensures check ==> ReadValue(c, data, offset, check) == ReadValue(c, data, offset, true)
  {
  }

  /**
   * A pass over column c with a selection succeeds wherever the unselected
   * pass does, moves the cursor alike, counts c when selected, and stores
   * its bytes only then.
   */
  lemma StepSelects(c: Column, data: Bytes, header: Bytes, meta: set<string>, hasHeader: bool,
                    o: int, hp: nat, selA: nat, selB: nat)
    requires ColumnStep(c, data, header, None, hasHeader, Cursor(o, hp, selA)).Ok?
    ensures var a := ColumnStep(c, data, header, None, hasHeader, Cursor(o, hp, selA)).value;
      ColumnStep(c, data, header, Some(meta), hasHeader, Cursor(o, hp, selB))
      == Ok((Cursor(a.0.offset, a.0.hp, if c.name in meta then selB + 1 else selB),
             if c.name in meta then a.1 else None))
  {
    var bitRead := c.nullable && hasHeader;
    var isNull := if bitRead then TestBit(header, hp).value else false;
    if !isNull {
      ReadValueSelects(c, data, o, c.name in meta);
    }
  }

  lemma NamesSetStep(cols: seq<Column>, i: nat)
    requires DistinctNames(cols) && i < |cols|
    ensures NamesSet(cols[..i + 1]) == NamesSet(cols[..i]) + {cols[i].name}
    ensures cols[i].name !in NamesSet(cols[..i])
  {
    assert cols[..i + 1][..i] == cols[..i];
  }

  lemma NamedBeforeIsUnnamedAfter(cols: seq<Column>, i: nat, n: string)
    requires DistinctNames(cols) && i <= |cols| && n in NamesSet(cols[..i])
    ensures UnnamedFrom(cols, i, n)
  {
    var j :| 0 <= j < i && cols[..i][j].name == n;
  }

  /** A count of selected columns covering the whole selection means every selected name lies behind. */
  lemma SelectionExhausted(meta: set<string>, seen: set<string>)
    requires |meta * seen| >= |meta|
    ensures meta <= seen
  {
    SubsetOfEqualSize(meta * seen, meta);
  }

  /** Once every selected column has been passed, the rest of the full decode adds nothing selected. */
  lemma SelectionDone(cols: seq<Column>, i: nat, data: Bytes, header: Bytes, meta: set<string>,
                      hasHeader: bool, onlyPK: bool, cur: Cursor, acc: Decoded)
    requires DistinctNames(cols) && i <= |cols| && meta <= NamesSet(cols[..i])
    requires DecodeFrom(cols, i, data, header, None, hasHeader, onlyPK, cur, acc).Ok?
    ensures Restrict(DecodeFrom(cols, i, data, header, None, hasHeader, onlyPK, cur, acc).value, meta)
      == Restrict(acc, meta)
  {
    DecodeFromFrame(cols, i, data, header, None, hasHeader, onlyPK, cur, acc);
    forall n | n in meta ensures UnnamedFrom(cols, i, n) {
      NamedBeforeIsUnnamedAfter(cols, i, n);
    }
  }

  lemma SelectedCountStep(cols: seq<Column>, i: nat, meta: set<string>)
    requires DistinctNames(cols) && i < |cols|
    ensures |meta * NamesSet(cols[..i + 1])|
      == if cols[i].name in meta then |meta * NamesSet(cols[..i])| + 1 else |meta * NamesSet(cols[..i])|
  {
    NamesSetStep(cols, i);
    var before := meta * NamesSet(cols[..i]);
    if cols[i].name in meta {
      assert meta * NamesSet(cols[..i + 1]) == before + {cols[i].name};
    } else {
      assert meta * NamesSet(cols[..i + 1]) == before;
    }
  }

  lemma RestrictPut(acc: Decoded, c: Column, v: Option<Bytes>, meta: set<string>)
    ensures Restrict(Put(acc, c, v), meta) == Put(Restrict(acc, meta), c, if c.name in meta then v else None)
  {
  }

  /**
   * The projection walk from column i agrees with the full walk restricted
   * to the selection, when it starts with the full walk's offset and header
   * bit, a count of the selected columns behind it, and the restricted row.
   */
  predicate ProjectsFrom(cols: seq<Column>, i: nat, data: Bytes, header: Bytes, meta: set<string>,
                         hasHeader: bool, onlyPK: bool, cur: Cursor, accA: Decoded)
    requires i <= |cols|
    requires DecodeFrom(cols, i, data, header, None, hasHeader, onlyPK, cur, accA).Ok?
  {
    DecodeFrom(cols, i, data, header, Some(meta), hasHeader, onlyPK,
               Cursor(cur.offset, cur.hp, |meta * NamesSet(cols[..i])|), Restrict(accA, meta))
    == Ok(Restrict(DecodeFrom(cols, i, data, header, None, hasHeader, onlyPK, cur, accA).value, meta))
  }

  /** Once the count covers the selection, both walks have nothing selected left to add. */
  lemma ProjectionExhausted(cols: seq<Column>, i: nat, data: Bytes, header: Bytes, meta: set<string>,
                            hasHeader: bool, onlyPK: bool, cur: Cursor, accA: Decoded)
    requires DistinctNames(cols) && i <= |cols| && |meta * NamesSet(cols[..i])| >= |meta|
    requires DecodeFrom(cols, i, data, header, None, hasHeader, onlyPK, cur, accA).Ok?
    ensures ProjectsFrom(cols, i, data, header, meta, hasHeader, onlyPK, cur, accA)
  {
    SelectionExhausted(meta, NamesSet(cols[..i]));
    SelectionDone(cols, i, data, header, meta, hasHeader, onlyPK, cur, accA);
  }

  /** Where both walks pass column i, the projection at i follows from the projection at i + 1. */
  lemma ProjectionStep(cols: seq<Column>, i: nat, data: Bytes, header: Bytes, meta: set<string>,
                       hasHeader: bool, onlyPK: bool, cur: Cursor, accA: Decoded)
    requires DistinctNames(cols) && i < |cols| && |meta * NamesSet(cols[..i])| < |meta|
    requires !(onlyPK && !cols[i].pk)
    requires DecodeFrom(cols, i, data, header, None, hasHeader, onlyPK, cur, accA).Ok?
    requires var a := ColumnStep(cols[i], data, header, None, hasHeader, cur);
      a.Ok? && DecodeFrom(cols, i + 1, data, header, None, hasHeader, onlyPK, a.value.0, Put(accA, cols[i], a.value.1)).Ok?
      && ProjectsFrom(cols, i + 1, data, header, meta, hasHeader, onlyPK, a.value.0, Put(accA, cols[i], a.value.1))
    ensures ProjectsFrom(cols, i, data, header, meta, hasHeader, onlyPK, cur, accA)
  {
    var c := cols[i];
    var a := ColumnStep(c, data, header, None, hasHeader, cur).value;
    StepSelects(c, data, header, meta, hasHeader, cur.offset, cur.hp, cur.sel, |meta * NamesSet(cols[..i])|);
    SelectedCountStep(cols, i, meta);
    RestrictPut(accA, c, a.1, meta);
  }

  lemma {:induction false} ProjectionFrom(cols: seq<Column>, i: nat, data: Bytes, header: Bytes, meta: set<string>,
                                          hasHeader: bool, onlyPK: bool, cur: Cursor, accA: Decoded)
    requires DistinctNames(cols) && i <= |cols|
    requires DecodeFrom(cols, i, data, header, None, hasHeader, onlyPK, cur, accA).Ok?
    ensures ProjectsFrom(cols, i, data, header, meta, hasHeader, onlyPK, cur, accA)
    decreases |cols| - i
  {
    if i == |cols| {
    } else if |meta * NamesSet(cols[..i])| >= |meta| {
      ProjectionExhausted(cols, i, data, header, meta, hasHeader, onlyPK, cur, accA);
    } else if onlyPK && !cols[i].pk {
    } else {
      var a := ColumnStep(cols[i], data, header, None, hasHeader, cur).value;
      ProjectionFrom(cols, i + 1, data, header, meta, hasHeader, onlyPK, a.0, Put(accA, cols[i], a.1));
      ProjectionStep(cols, i, data, header, meta, hasHeader, onlyPK, cur, accA);
    }
  }

  /**
   * Decoding with a selection of names gives the full decode restricted to
   * those names: the count of selected columns only stops the walk once
   * every selected column has been passed.
   */
  lemma Projection(cols: seq<Column>, hs: nat, data: Bytes, meta: set<string>, hasHeader: bool, onlyPK: bool)
    requires DistinctNames(cols)
    requires Decode(cols, hs, data, None, hasHeader, onlyPK).Ok?
    ensures Decode(cols, hs, data, Some(meta), hasHeader, onlyPK)
      == Ok(Restrict(Decode(cols, hs, data, None, hasHeader, onlyPK).value, meta))
  {
    var header := if hasHeader then data[..hs] else Zeros(hs);
    assert cols[..0] == [];
    assert Restrict(map[], meta) == map[];
    ProjectionFrom(cols, 0, data, header, meta, hasHeader, onlyPK, Cursor(if hasHeader then hs else 0, 1, 0), map[]);
  }

  /** The names of the primary-key columns. */
  function KeyNames(cols: seq<Column>): (s: set<string>)
    ensures forall n :: n in s <==> exists i :: 0 <= i < |cols| && cols[i].pk && cols[i].name == n
  {
    set i | 0 <= i < |cols| && cols[i].pk :: cols[i].name
  }

  /** Past a leading run of key columns, no column is named like a key. */
  lemma KeysBehind(cols: seq<Column>, i: nat)
    requires DistinctNames(cols) && PkFirst(cols) && i <= |cols|
    requires forall j :: 0 <= j < i ==> cols[j].pk
    requires i < |cols| ==> !cols[i].pk
    ensures forall n :: n in KeyNames(cols) ==> UnnamedFrom(cols, i, n)
  {
    forall n | n in KeyNames(cols) ensures UnnamedFrom(cols, i, n) {
      var j :| 0 <= j < |cols| && cols[j].pk && cols[j].name == n;
      assert cols[..i][j] == cols[j];
      NamedBeforeIsUnnamedAfter(cols, i, n);
    }
  }

  lemma LeadingNamesAreKeys(cols: seq<Column>, i: nat, acc: Decoded)
    requires i <= |cols| && forall j :: 0 <= j < i ==> cols[j].pk
    requires forall n :: n in acc ==> n in NamesSet(cols[..i])
    ensures forall n :: n in acc ==> n in KeyNames(cols)
  {
    forall n | n in acc ensures n in KeyNames(cols) {
      var j :| 0 <= j < i && cols[..i][j].name == n;
      assert cols[j].pk;
    }
  }

  /** Where the key-only walk stops, the rest of the full decode adds no key column. */
  lemma KeysDone(cols: seq<Column>, i: nat, data: Bytes, header: Bytes, hasHeader: bool, cur: Cursor, acc: Decoded)
    requires DistinctNames(cols) && PkFirst(cols) && i <= |cols|
    requires forall j :: 0 <= j < i ==> cols[j].pk
    requires i < |cols| ==> !cols[i].pk
    requires forall n :: n in acc ==> n in NamesSet(cols[..i])
    requires DecodeFrom(cols, i, data, header, None, hasHeader, false, cur, acc).Ok?
    ensures Restrict(DecodeFrom(cols, i, data, header, None, hasHeader, false, cur, acc).value, KeyNames(cols)) == acc
  {
    DecodeFromFrame(cols, i, data, header, None, hasHeader, false, cur, acc);
    KeysBehind(cols, i);
    LeadingNamesAreKeys(cols, i, acc);
  }

  lemma {:induction false} KeyOnlyFrom(cols: seq<Column>, i: nat, data: Bytes, header: Bytes,
                                       hasHeader: bool, cur: Cursor, acc: Decoded)
    requires DistinctNames(cols) && PkFirst(cols) && i <= |cols|
    requires forall j :: 0 <= j < i ==> cols[j].pk
    requires forall n :: n in acc ==> n in NamesSet(cols[..i])
    requires DecodeFrom(cols, i, data, header, None, hasHeader, false, cur, acc).Ok?
    ensures DecodeFrom(cols, i, data, header, None, hasHeader, true, cur, acc)
      == Ok(Restrict(DecodeFrom(cols, i, data, header, None, hasHeader, false, cur, acc).value, KeyNames(cols)))
    decreases |cols| - i
  {
    if i == |cols| || !cols[i].pk {
      KeysDone(cols, i, data, header, hasHeader, cur, acc);
    } else {
      var c := cols[i];
      NamesSetStep(cols, i);
      var step := ColumnStep(c, data, header, None, hasHeader, cur).value;
      KeyOnlyFrom(cols, i + 1, data, header, hasHeader, step.0, Put(acc, c, step.1));
    }
  }

  /**
   * With the key columns leading, the primary-key-only decode stops at the
   * first other column and gives the full decode restricted to the keys.
   */
  lemma PrimaryKeyOnly(cols: seq<Column>, hs: nat, data: Bytes, hasHeader: bool)
    requires DistinctNames(cols) && PkFirst(cols)
    requires Decode(cols, hs, data, None, hasHeader, false).Ok?
    ensures Decode(cols, hs, data, None, hasHeader, true)
      == Ok(Restrict(Decode(cols, hs, data, None, hasHeader, false).value, KeyNames(cols)))
  {
    var header := if hasHeader then data[..hs] else Zeros(hs);
    assert cols[..0] == [];
    KeyOnlyFrom(cols, 0, data, header, hasHeader, Cursor(if hasHeader then hs else 0, 1, 0), map[]);
  }
}
