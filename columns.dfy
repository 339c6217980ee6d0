/**
 * Column descriptors and the rules a schema must obey: the checks
 * `validateColumns` makes before it reorders the columns, and the canonical
 * order it sorts them into (primary-key columns first, in their original
 * relative order; then fixed-size columns; then variable-length ones; the
 * last two groups by size and then by name).
 */
module Columns {
  import opened Base

  datatype ColumnType = INTEGER | LONG | FLOAT | DOUBLE | STRING | BOOLEAN | BINARY | NULL | UNKNOWN

  /** Column sizes are Java shorts; the model keeps them non-negative. */
  type ColumnSize = x: nat | x < 0x8000

  /** The type information a field carries (Metadata, or the Column itself). */
  datatype Metadata = Metadata(ctype: ColumnType, size: int) {
    predicate IsInt() { ctype == INTEGER || ctype == LONG }
    predicate IsFloat() { ctype == FLOAT || ctype == DOUBLE }
    predicate IsString() { ctype == STRING }
    predicate IsBoolean() { ctype == BOOLEAN }
  }

  /** The generic metadata of fields built from native values. */
  const IntegerGeneric := Metadata(INTEGER, 4)
  const LongGeneric := Metadata(LONG, 8)
  const FloatGeneric := Metadata(FLOAT, 4)
  const DoubleGeneric := Metadata(DOUBLE, 8)
  const BooleanGeneric := Metadata(BOOLEAN, 1)

  /** A Java `(short)` cast: the low 16 bits, read as a signed number. */
  function ToShort(x: int): (s: int)
    ensures -0x8000 <= s < 0x8000
    ensures -0x8000 <= x < 0x8000 ==> s == x
  {
    var low := x % 0x1_0000;
    if low >= 0x8000 then low - 0x1_0000 else low
  }

  /** `new StringMetadata((short) (length + 1))`, as the string setter builds it. */
  function StringMetadata(length: nat): Metadata {
    Metadata(STRING, ToShort(length + 1))
  }

  datatype Column = Column(
    name: string,
    ctype: ColumnType,
    size: ColumnSize,
    nullable: bool,
    pk: bool,
    dynamic: bool)
  {
    function Meta(): Metadata { Metadata(ctype, size) }
  }

  // ---------------------------------------------------------------------
  // Names

  /** Case folding of String.equalsIgnoreCase, restricted to ASCII letters. */
  function FoldChar(ch: char): char {
    if 'A' <= ch <= 'Z' then (ch as int + 32) as char else ch
  }

  predicate EqualsIgnoreCase(a: string, b: string) {
    |a| == |b| && forall i :: 0 <= i < |a| ==> FoldChar(a[i]) == FoldChar(b[i])
  }

  /**
   * The UTF-16 code units Java stores for a character: the character itself
   * below U+10000, a surrogate pair above.
   */
  function CodeUnits(ch: char): (u: seq<int>)
    ensures |u| == 1 <==> ch as int < 0x10000
    ensures |u| == 1 || |u| == 2
  {
    var v := ch as int;
    if v < 0x10000 then [v] else [0xD800 + (v - 0x10000) / 0x400, 0xDC00 + (v - 0x10000) % 0x400]
  }

  /** A Java String: the sequence of its UTF-16 code units. */
  function Utf16(s: string): (u: seq<int>)
    ensures |s| <= |u| <= 2 * |s|
  {
    if s == [] then [] else CodeUnits(s[0]) + Utf16(s[1..])
  }

  /** String.length(): the number of UTF-16 code units. */
  function JavaLength(s: string): (n: nat)
    ensures |s| <= n <= 2 * |s|
    ensures (forall i :: 0 <= i < |s| ==> s[i] as int < 0x10000) ==> n == |s|
  {
    BmpLength(s);
    |Utf16(s)|
  }

  lemma {:induction false} BmpLength(s: string)
    ensures (forall i :: 0 <= i < |s| ==> s[i] as int < 0x10000) ==> |Utf16(s)| == |s|
  {
    if s != [] {
      BmpLength(s[1..]);
    }
  }

  /**
   * The first code unit of a character tells whether it is a surrogate pair,
   * since a character below U+10000 is never a surrogate itself.
   */
  lemma CodeUnitsInjective(c: char, d: char)
    requires CodeUnits(c)[0] == CodeUnits(d)[0]
    requires |CodeUnits(c)| == 2 && |CodeUnits(d)| == 2 ==> CodeUnits(c)[1] == CodeUnits(d)[1]
    ensures c == d
  {
    var v, w := c as int, d as int;
    assert !(0xD800 <= v < 0xE000) && !(0xD800 <= w < 0xE000);
    if v >= 0x10000 && w >= 0x10000 {
      assert (v - 0x10000) / 0x400 == (w - 0x10000) / 0x400;
      assert (v - 0x10000) % 0x400 == (w - 0x10000) % 0x400;
    }
  }

  /** Different strings have different UTF-16 forms. */
  lemma {:induction false} Utf16Injective(a: string, b: string)
    requires Utf16(a) == Utf16(b)
    ensures a == b
  {
    if a != [] && b != [] {
      var ua, ub := CodeUnits(a[0]), CodeUnits(b[0]);
      assert Utf16(a) == ua + Utf16(a[1..]) && Utf16(b) == ub + Utf16(b[1..]);
      assert ua[0] == Utf16(a)[0] == ub[0];
      if |ua| == 2 && |ub| == 2 {
        assert ua[1] == Utf16(a)[1] == ub[1];
      }
      CodeUnitsInjective(a[0], b[0]);
      assert ua == ub;
      assert Utf16(a[1..]) == Utf16(a)[|ua|..] == Utf16(b[1..]);
      Utf16Injective(a[1..], b[1..]);
      assert a == [a[0]] + a[1..] && b == [b[0]] + b[1..];
    }
  }

  /** Lexicographic order on code-unit sequences, a proper prefix first. */
  predicate UnitsLess(a: seq<int>, b: seq<int>) {
    if a == [] then b != []
    else if b == [] then false
    else if a[0] != b[0] then a[0] < b[0]
    else UnitsLess(a[1..], b[1..])
  }

  /**
   * String.compareTo(a, b) < 0: the first differing UTF-16 code unit
   * decides, else the shorter string comes first.
   */
  predicate StrLess(a: string, b: string) {
    UnitsLess(Utf16(a), Utf16(b))
  }

  lemma {:induction false} UnitsLessIrreflexive(a: seq<int>)
    ensures !UnitsLess(a, a)
  {
    if a != [] {
      UnitsLessIrreflexive(a[1..]);
    }
  }

  lemma {:induction false} UnitsLessAsymmetric(a: seq<int>, b: seq<int>)
    ensures UnitsLess(a, b) ==> !UnitsLess(b, a)
  {
    if a != [] && b != [] && a[0] == b[0] {
      UnitsLessAsymmetric(a[1..], b[1..]);
    }
  }

  lemma {:induction false} UnitsLessTransitive(a: seq<int>, b: seq<int>, c: seq<int>)
    requires UnitsLess(a, b) && UnitsLess(b, c)
    ensures UnitsLess(a, c)
  {
    if a != [] && b != [] && c != [] && a[0] == b[0] && b[0] == c[0] {
      UnitsLessTransitive(a[1..], b[1..], c[1..]);
    }
  }

  lemma {:induction false} UnitsLessTotal(a: seq<int>, b: seq<int>)
    requires a != b
    ensures UnitsLess(a, b) || UnitsLess(b, a)
  {
    if a != [] && b != [] && a[0] == b[0] {
      assert a == [a[0]] + a[1..] && b == [b[0]] + b[1..];
      UnitsLessTotal(a[1..], b[1..]);
    }
  }

  lemma StrLessIrreflexive(a: string)
    ensures !StrLess(a, a)
  {
    UnitsLessIrreflexive(Utf16(a));
  }

  lemma StrLessAsymmetric(a: string, b: string)
    ensures StrLess(a, b) ==> !StrLess(b, a)
  {
    UnitsLessAsymmetric(Utf16(a), Utf16(b));
  }

  lemma StrLessTransitive(a: string, b: string, c: string)
    requires StrLess(a, b) && StrLess(b, c)
    ensures StrLess(a, c)
  {
    UnitsLessTransitive(Utf16(a), Utf16(b), Utf16(c));
  }

  lemma StrLessTotal(a: string, b: string)
    requires a != b
    ensures StrLess(a, b) || StrLess(b, a)
  {
    if Utf16(a) == Utf16(b) {
      Utf16Injective(a, b);
    }
    UnitsLessTotal(Utf16(a), Utf16(b));
  }

  /**
   * The code-unit order is not the character order: U+FFFF sorts after
   * U+10000, whose first code unit is the surrogate 0xD800.
   */
  lemma SupplementarySortsBeforeHighBmp()
    ensures StrLess("\U{10000}", "\U{FFFF}")
  {
    assert Utf16("\U{10000}") == [0xD800, 0xDC00];
    assert Utf16("\U{FFFF}") == [0xFFFF];
  }

  // ---------------------------------------------------------------------
  // Schema rules

  /** The per-column checks of `validateColumns`, in the order it makes them. */
  function ColumnRule(cols: seq<Column>, x: nat): (r: Option<SchemaRule>)
    requires x < |cols|
    ensures r.None? <==>
      1 <= JavaLength(cols[x].name) <= 240 && !(cols[x].pk && cols[x].nullable) && !(cols[x].pk && cols[x].dynamic)
  {
    var c := cols[x];
    if JavaLength(c.name) > 240 || JavaLength(c.name) < 1 then Some(NameLength(x))
    else if c.pk && c.nullable then Some(PrimaryKeyNullable(c.name))
    else if c.pk && c.dynamic then Some(PrimaryKeyDynamic(c.name))
    else None
  }

  /** The inner loop: the first y >= start whose name equals column x's, ignoring case. */
  function DuplicateFrom(cols: seq<Column>, x: nat, y: nat): Option<SchemaRule>
    requires x < |cols|
    decreases |cols| - y
  {
    if y >= |cols| then None
    else if EqualsIgnoreCase(cols[x].name, cols[y].name) then Some(DuplicateName(x, y))
    else DuplicateFrom(cols, x, y + 1)
  }

  /** The outer loop, from column x on. */
  function CheckFrom(cols: seq<Column>, x: nat): Option<SchemaRule>
    decreases |cols| - x
  {
    if x >= |cols| then None
    else if ColumnRule(cols, x).Some? then ColumnRule(cols, x)
    else if DuplicateFrom(cols, x, x + 1).Some? then DuplicateFrom(cols, x, x + 1)
    else CheckFrom(cols, x + 1)
  }

  /** The exception `validateColumns` throws first, if any. */
  function FirstViolation(cols: seq<Column>): Option<SchemaRule> {
    if |cols| == 0 then Some(NoColumns) else CheckFrom(cols, 0)
  }

  /** The schema rules stated declaratively. */
  predicate SchemaOk(cols: seq<Column>) {
    && |cols| > 0
    && (forall i :: 0 <= i < |cols| ==> 1 <= JavaLength(cols[i].name) <= 240)
    && (forall i :: 0 <= i < |cols| && cols[i].pk ==> !cols[i].nullable && !cols[i].dynamic)
    && (forall i, j :: 0 <= i < j < |cols| ==> !EqualsIgnoreCase(cols[i].name, cols[j].name))
  }

  lemma {:induction false} DuplicateFromNone(cols: seq<Column>, x: nat, y: nat)
    requires x < |cols|
    ensures DuplicateFrom(cols, x, y).None? <==>
      forall j :: y <= j < |cols| ==> !EqualsIgnoreCase(cols[x].name, cols[j].name)
    decreases |cols| - y
  {
    if y < |cols| {
      DuplicateFromNone(cols, x, y + 1);
    }
  }

  lemma {:induction false} CheckFromNone(cols: seq<Column>, x: nat)
    ensures CheckFrom(cols, x).None? <==>
      && (forall i :: x <= i < |cols| ==> ColumnRule(cols, i).None?)
      && (forall i, j :: x <= i < j < |cols| ==> !EqualsIgnoreCase(cols[i].name, cols[j].name))
    decreases |cols| - x
  {
    if x < |cols| {
      DuplicateFromNone(cols, x, x + 1);
      CheckFromNone(cols, x + 1);
    }
  }

  /** `validateColumns` throws exactly when some schema rule is broken. */
  lemma FirstViolationIffInvalid(cols: seq<Column>)
    ensures FirstViolation(cols).None? <==> SchemaOk(cols)
  {
    if |cols| > 0 {
      CheckFromNone(cols, 0);
      if SchemaOk(cols) {
        forall i | 0 <= i < |cols|
          ensures ColumnRule(cols, i).None?
        {
          assert 1 <= JavaLength(cols[i].name) <= 240;
        }
      }
      if FirstViolation(cols).None? {
        forall i | 0 <= i < |cols|
          ensures 1 <= JavaLength(cols[i].name) <= 240 && (cols[i].pk ==> !cols[i].nullable && !cols[i].dynamic)
        {
          assert ColumnRule(cols, i).None?;
        }
      }
    }
  }

  /** Equal names are equal ignoring case, so a valid schema has distinct names. */
  lemma SchemaOkDistinctNames(cols: seq<Column>)
    requires SchemaOk(cols)
    ensures forall i, j :: 0 <= i < j < |cols| ==> cols[i].name != cols[j].name
  {
    forall i, j | 0 <= i < j < |cols|
      ensures cols[i].name != cols[j].name
    {
      assert !EqualsIgnoreCase(cols[i].name, cols[j].name);
    }
  }

  predicate DistinctNames(cols: seq<Column>) {
    forall i, j :: 0 <= i < j < |cols| ==> cols[i].name != cols[j].name
  }

  // ---------------------------------------------------------------------
  // Canonical order

  /** 0 for primary-key columns, 1 for other fixed-size ones, 2 for variable-length ones. */
  function Rank(c: Column): nat {
    if c.pk then 0 else if !c.dynamic then 1 else 2
  }

  /** A column tagged with its position in the list before sorting. */
  type Entry = (nat, Column)

  /**
   * The comparator of `validateColumns`, with ties (which a stable sort
   * leaves in their original order) broken by the original position.
   */
  predicate Precedes(x: Entry, y: Entry) {
    var a, b := x.1, y.1;
    if Rank(a) != Rank(b) then Rank(a) < Rank(b)
    else if a.pk then x.0 < y.0
    else if a.size != b.size then a.size < b.size
    else if a.name != b.name then StrLess(a.name, b.name)
    else x.0 < y.0
  }

  lemma PrecedesTransitive(x: Entry, y: Entry, z: Entry)
    requires Precedes(x, y) && Precedes(y, z)
    ensures Precedes(x, z)
  {
    var a, b, c := x.1, y.1, z.1;
    if Rank(a) == Rank(b) == Rank(c) && !a.pk && a.size == b.size == c.size {
      if a.name != b.name && b.name != c.name {
        StrLessTransitive(a.name, b.name, c.name);
        if a.name == c.name {
          StrLessAsymmetric(a.name, b.name);
        }
      }
    }
  }

  lemma PrecedesTotal(x: Entry, y: Entry)
    requires x.0 != y.0
    ensures Precedes(x, y) || Precedes(y, x)
  {
    if x.1.name != y.1.name {
      StrLessTotal(x.1.name, y.1.name);
    }
  }

  lemma PrecedesIrreflexive(x: Entry)
    ensures !Precedes(x, x)
  {
  }

  predicate Sorted(s: seq<Entry>) {
    forall i, j :: 0 <= i < j < |s| ==> Precedes(s[i], s[j])
  }

  /** One step of an insertion sort. */
  function Insert(s: seq<Entry>, x: Entry): (r: seq<Entry>)
    ensures |r| == |s| + 1
    ensures multiset(r) == multiset(s) + multiset{x}
  {
    if s == [] || Precedes(x, s[0]) then [x] + s
    else
      assert s == [s[0]] + s[1..];
      [s[0]] + Insert(s[1..], x)
  }

  lemma PrependSorted(a: Entry, t: seq<Entry>)
    requires Sorted(t) && forall e :: e in t ==> Precedes(a, e)
    ensures Sorted([a] + t)
  {
    var r := [a] + t;
    forall i, j | 0 <= i < j < |r|
      ensures Precedes(r[i], r[j])
    {
      if i == 0 {
        assert r[j] == t[j - 1];
      } else {
        assert r[i] == t[i - 1] && r[j] == t[j - 1];
      }
    }
  }

  lemma {:induction false} InsertSorted(s: seq<Entry>, x: Entry)
    requires Sorted(s)
    requires forall e :: e in s ==> e.0 != x.0
    ensures Sorted(Insert(s, x))
  {
    if s == [] {
    } else if Precedes(x, s[0]) {
      var r := Insert(s, x);
      forall i, j | 0 <= i < j < |r|
        ensures Precedes(r[i], r[j])
      {
        if i == 0 && j > 1 {
          PrecedesTransitive(x, s[0], s[j - 1]);
        }
      }
    } else {
      PrecedesTotal(x, s[0]);
      InsertSorted(s[1..], x);
      var t := Insert(s[1..], x);
      forall e | e in t
        ensures Precedes(s[0], e)
      {
        assert e in multiset(t);
        if e != x {
          assert e in multiset(s[1..]);
          assert e in s[1..];
        }
      }
      PrependSorted(s[0], t);
    }
  }

  /** The columns of an entry list. */
  function ColumnsOf(s: seq<Entry>): (r: seq<Column>)
    ensures |r| == |s|
    ensures forall i :: 0 <= i < |s| ==> r[i] == s[i].1
  {
    if s == [] then [] else [s[0].1] + ColumnsOf(s[1..])
  }

  /**
   * What sorting guarantees about the columns themselves: primary-key
   * columns come first, in their original relative order; then fixed-size
   * columns; then variable-length ones; inside the last two groups sizes
   * ascend, and equal sizes are ordered by name.
   */
  predicate CanonicalOrder(order: seq<Entry>) {
    forall i, j :: 0 <= i < j < |order| ==>
      var a, b := order[i].1, order[j].1;
      && (b.pk ==> a.pk)
      && (!a.pk && a.dynamic ==> !b.pk && b.dynamic)
      && (a.pk && b.pk ==> order[i].0 < order[j].0)
      && (Rank(a) == Rank(b) && !a.pk ==>
            a.size < b.size || (a.size == b.size && (StrLess(a.name, b.name) || a.name == b.name)))
  }

  lemma SortedIsCanonical(order: seq<Entry>)
    requires Sorted(order)
    ensures CanonicalOrder(order)
  {
    forall i, j | 0 <= i < j < |order|
      ensures Rank(order[i].1) <= Rank(order[j].1)
    {
      assert Precedes(order[i], order[j]);
    }
  }

  /** Each column tagged with its position in the list. */
  function Tagged(cols: seq<Column>): (r: seq<Entry>)
    ensures |r| == |cols| && forall i :: 0 <= i < |cols| ==> r[i] == (i, cols[i])
  {
    seq(|cols|, i requires 0 <= i < |cols| => (i, cols[i]))
  }

  /** Inserting the entries one after the other, in list order. */
  function InsertAll(s: seq<Entry>): (r: seq<Entry>)
    ensures multiset(r) == multiset(s)
  {
    if s == [] then []
    else
      assert s == s[..|s| - 1] + [s[|s| - 1]];
      Insert(InsertAll(s[..|s| - 1]), s[|s| - 1])
  }

  predicate DistinctTags(s: seq<Entry>) {
    forall i, j :: 0 <= i < j < |s| ==> s[i].0 != s[j].0
  }

  lemma {:induction false} InsertAllSorted(s: seq<Entry>)
    requires DistinctTags(s)
    ensures Sorted(InsertAll(s))
  {
    if s != [] {
      var init, last := s[..|s| - 1], s[|s| - 1];
      assert DistinctTags(init);
      InsertAllSorted(init);
      forall e | e in InsertAll(init)
        ensures e.0 != last.0
      {
        assert e in multiset(InsertAll(init));
        assert e in init;
      }
      InsertSorted(InsertAll(init), last);
    }
  }

  /** The column list validateColumns leaves behind once the checks pass. */
  function CanonicalSort(cols: seq<Column>): seq<Column> {
    ColumnsOf(InsertAll(Tagged(cols)))
  }

  lemma {:induction false} ColumnsOfInsert(t: seq<Entry>, x: Entry)
    ensures multiset(ColumnsOf(Insert(t, x))) == multiset(ColumnsOf(t)) + multiset{x.1}
  {
    if t != [] && !Precedes(x, t[0]) {
      ColumnsOfInsert(t[1..], x);
      assert ColumnsOf(Insert(t, x)) == [t[0].1] + ColumnsOf(Insert(t[1..], x));
      assert ColumnsOf(t) == [t[0].1] + ColumnsOf(t[1..]);
    } else {
      assert ColumnsOf(Insert(t, x)) == [x.1] + ColumnsOf(t);
    }
  }

  lemma {:induction false} ColumnsOfInsertAll(s: seq<Entry>)
    ensures multiset(ColumnsOf(InsertAll(s))) == multiset(ColumnsOf(s))
  {
    if s != [] {
      var init, last := s[..|s| - 1], s[|s| - 1];
      ColumnsOfInsertAll(init);
      ColumnsOfInsert(InsertAll(init), last);
      ColumnsOfSnoc(s);
    }
  }

  lemma ColumnsOfSnoc(s: seq<Entry>)
    requires s != []
    ensures ColumnsOf(s) == ColumnsOf(s[..|s| - 1]) + [s[|s| - 1].1]
  {
  }

  /**
   * validateColumns sorts into the canonical order: the result is the
   * list's entries (each with its original position) rearranged, sorted by
   * the comparator; as columns, a permutation of the input.
   */
  lemma CanonicalSortSpec(cols: seq<Column>)
    ensures Sorted(InsertAll(Tagged(cols)))
    ensures multiset(InsertAll(Tagged(cols))) == multiset(Tagged(cols))
    ensures CanonicalOrder(InsertAll(Tagged(cols)))
    ensures multiset(CanonicalSort(cols)) == multiset(cols)
    ensures |CanonicalSort(cols)| == |cols|
  {
    InsertAllSorted(Tagged(cols));
    SortedIsCanonical(InsertAll(Tagged(cols)));
    ColumnsOfInsertAll(Tagged(cols));
    assert ColumnsOf(Tagged(cols)) == cols;
    assert |multiset(CanonicalSort(cols))| == |multiset(cols)|;
  }

  /** A rearrangement of the tagged list pairs every tag with the column at that place. */
  lemma TagsMatch(cols: seq<Column>, order: seq<Entry>)
    requires multiset(order) == multiset(Tagged(cols))
    ensures forall i :: 0 <= i < |order| ==> order[i].0 < |cols| && order[i].1 == cols[order[i].0]
  {
    forall i | 0 <= i < |order|
      ensures order[i].0 < |cols| && order[i].1 == cols[order[i].0]
    {
      assert order[i] in multiset(Tagged(cols));
      assert order[i] in Tagged(cols);
    }
  }

  /** In a sorted list of tagged columns no tag comes twice. */
  lemma SortedTagsDistinct(cols: seq<Column>, order: seq<Entry>)
    requires Sorted(order)
    requires forall i :: 0 <= i < |order| ==> order[i].0 < |cols| && order[i].1 == cols[order[i].0]
    ensures forall i, j :: 0 <= i < j < |order| ==> order[i].0 != order[j].0
  {
    forall i, j | 0 <= i < j < |order|
      ensures order[i].0 != order[j].0
    {
      assert Precedes(order[i], order[j]);
      PrecedesIrreflexive(order[i]);
    }
  }

  /** Each place of the sorted list holds the column of a distinct place of the original list. */
  lemma CanonicalSortOrigin(cols: seq<Column>) returns (origin: seq<nat>)
    ensures |origin| == |CanonicalSort(cols)| == |cols|
    ensures forall i :: 0 <= i < |cols| ==> origin[i] < |cols| && CanonicalSort(cols)[i] == cols[origin[i]]
    ensures forall i, j :: 0 <= i < j < |cols| ==> origin[i] != origin[j]
  {
    var order := InsertAll(Tagged(cols));
    InsertAllSorted(Tagged(cols));
    assert |order| == |multiset(order)| == |cols|;
    TagsMatch(cols, order);
    SortedTagsDistinct(cols, order);
    origin := seq(|order|, i requires 0 <= i < |order| => order[i].0);
  }

  /** Sorting a schema that keeps the rules gives one that keeps them too. */
  lemma CanonicalSortKeepsRules(cols: seq<Column>)
    requires SchemaOk(cols)
    ensures SchemaOk(CanonicalSort(cols)) && DistinctNames(CanonicalSort(cols))
  {
    var origin := CanonicalSortOrigin(cols);
    var s := CanonicalSort(cols);
    forall i, j | 0 <= i < j < |s|
      ensures !EqualsIgnoreCase(s[i].name, s[j].name)
    {
      if origin[i] < origin[j] {
        assert !EqualsIgnoreCase(cols[origin[i]].name, cols[origin[j]].name);
      } else {
        assert !EqualsIgnoreCase(cols[origin[j]].name, cols[origin[i]].name);
      }
    }
    forall i | 0 <= i < |s|
      ensures 1 <= JavaLength(s[i].name) <= 240 && (s[i].pk ==> !s[i].nullable && !s[i].dynamic)
    {
      assert s[i] == cols[origin[i]];
    }
    SchemaOkDistinctNames(s);
  }
}
