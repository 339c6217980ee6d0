/**
 * The layout constants a validated schema computes once (header size,
 * null-bit positions, primary-key size, maximum record size), the
 * primary-key helpers that only read the column list, and the bit
 * arithmetic of the null-bitmap header.
 */
module Layout {
  import opened Base
  import opened Columns

  // ---------------------------------------------------------------------
  // Counting over a column list (each defined from the back, so that a
  // prefix one column longer adds exactly that column)

  function NullableCount(cols: seq<Column>): (n: nat)
    ensures n <= |cols|
  {
    if cols == [] then 0
    else NullableCount(cols[..|cols| - 1]) + (if cols[|cols| - 1].nullable then 1 else 0)
  }

  /** The header bit given to column i (meaningful when it is nullable). */
  function Position(cols: seq<Column>, i: nat): nat
    requires i < |cols|
  {
    1 + NullableCount(cols[..i])
  }

  /**
   * The header size `calculateSizes` arrives at: 1 + (nullable columns + 1) / 8
   * bytes, enough for bit 0 and one bit per nullable column.
   */
  function HeaderSizeOf(cols: seq<Column>): (n: nat)
    ensures n >= 1 && NullableCount(cols) + 1 < 8 * n
  {
    1 + (NullableCount(cols) + 1) / 8
  }

  /** The `headerPosition` map: column index to bit position, nullable columns only. */
  function Positions(cols: seq<Column>): map<int, nat> {
    map i | 0 <= i < |cols| && cols[i].nullable :: Position(cols, i)
  }

  function PrimaryKeySizeOf(cols: seq<Column>): nat {
    if cols == [] then 0
    else PrimaryKeySizeOf(cols[..|cols| - 1]) + (if cols[|cols| - 1].pk then cols[|cols| - 1].size else 0)
  }

  /** The primary-key size counts every key column's size, and is zero without key columns. */
  lemma {:induction false} PrimaryKeySizeCovers(cols: seq<Column>)
    ensures forall i :: 0 <= i < |cols| && cols[i].pk ==> cols[i].size <= PrimaryKeySizeOf(cols)
    ensures (forall i :: 0 <= i < |cols| ==> !cols[i].pk) ==> PrimaryKeySizeOf(cols) == 0
  {
    if cols != [] {
      var init := cols[..|cols| - 1];
      PrimaryKeySizeCovers(init);
      assert forall i :: 0 <= i < |cols| - 1 ==> init[i] == cols[i];
    }
  }

  /** Sum of the column sizes plus a 4-byte prefix per variable-length column. */
  function ColumnsMaxSize(cols: seq<Column>): nat {
    if cols == [] then 0
    else
      var c := cols[|cols| - 1];
      ColumnsMaxSize(cols[..|cols| - 1]) + c.size + (if c.dynamic then 4 else 0)
  }

  function NamesSet(cols: seq<Column>): (s: set<string>)
    ensures forall i :: 0 <= i < |cols| ==> cols[i].name in s
    ensures forall n :: n in s ==> exists i :: 0 <= i < |cols| && cols[i].name == n
  {
    if cols == [] then {}
    else
      var s := NamesSet(cols[..|cols| - 1]) + {cols[|cols| - 1].name};
      assert forall i :: 0 <= i < |cols| - 1 ==> cols[..|cols| - 1][i] == cols[i];
      s
  }

  lemma {:induction false} NullableCountMonotonic(cols: seq<Column>, i: nat, j: nat)
    requires i <= j <= |cols|
    ensures NullableCount(cols[..i]) <= NullableCount(cols[..j])
    decreases j
  {
    if i < j {
      assert cols[..j][..j - 1] == cols[..j - 1];
      NullableCountMonotonic(cols, i, j - 1);
    }
  }

  /** Nullable columns are numbered 1, 2, 3, ... in column order. */
  lemma PositionCountsNullables(cols: seq<Column>, i: nat)
    requires i < |cols| && cols[i].nullable
    ensures Position(cols, i) == NullableCount(cols[..i + 1])
  {
    assert cols[..i + 1][..i] == cols[..i];
  }

  /** Distinct nullable columns get distinct, increasing bit positions. */
  lemma PositionsIncrease(cols: seq<Column>, i: nat, j: nat)
    requires i < j < |cols| && cols[i].nullable
    ensures Position(cols, i) < Position(cols, j)
  {
    PositionCountsNullables(cols, i);
    NullableCountMonotonic(cols, i + 1, j);
  }

  /** Every bit position lies inside the header, and none is the reserved bit 0. */
  lemma PositionInHeader(cols: seq<Column>, i: nat)
    requires i < |cols| && cols[i].nullable
    ensures 1 <= Position(cols, i) && Position(cols, i) / 8 < HeaderSizeOf(cols)
  {
    PositionCountsNullables(cols, i);
    NullableCountMonotonic(cols, i + 1, |cols|);
    assert cols[..|cols|] == cols;
  }

  lemma {:induction false} MaxSizeCoversPrimaryKey(cols: seq<Column>)
    ensures PrimaryKeySizeOf(cols) <= ColumnsMaxSize(cols)
  {
    if cols != [] {
      MaxSizeCoversPrimaryKey(cols[..|cols| - 1]);
    }
  }

  // ---------------------------------------------------------------------
  // Primary-key helpers that only read the column list

  /** getPKColumns(): the primary-key column names, in column order. */
  function PkNames(cols: seq<Column>): (r: seq<string>)
    ensures |r| <= |cols|
    ensures forall n :: n in r <==> exists i :: 0 <= i < |cols| && cols[i].pk && cols[i].name == n
  {
    if cols == [] then []
    else
      var rest := PkNames(cols[1..]);
      assert forall i :: 1 <= i < |cols| ==> cols[1..][i - 1] == cols[i];
      if cols[0].pk then [cols[0].name] + rest else rest
  }

  /** Primary-key columns come before every other column. */
  predicate PkFirst(cols: seq<Column>) {
    forall i, j :: 0 <= i < j < |cols| && cols[j].pk ==> cols[i].pk
  }

  /** The header bits calculateSizes has handed out after the first i columns, one column at a time. */
  function PositionsUpTo(cols: seq<Column>, i: nat): map<int, nat>
    requires i <= |cols|
  {
    if i == 0 then map[]
    else if cols[i - 1].nullable then PositionsUpTo(cols, i - 1)[i - 1 := Position(cols, i - 1)]
    else PositionsUpTo(cols, i - 1)
  }

  /** After the first i columns, every nullable one among them has its bit, and nothing else has one. */
  lemma {:induction false} PositionsUpToSpec(cols: seq<Column>, i: nat)
    requires i <= |cols|
    ensures forall j :: j in PositionsUpTo(cols, i) <==> 0 <= j < i && cols[j].nullable
    ensures forall j :: j in PositionsUpTo(cols, i) ==> PositionsUpTo(cols, i)[j] == Position(cols, j)
  {
    if i > 0 {
      PositionsUpToSpec(cols, i - 1);
    }
  }

  /** After the last column the bits handed out are the header layout. */
  lemma PositionsComplete(cols: seq<Column>)
    ensures PositionsUpTo(cols, |cols|) == Positions(cols)
  {
    PositionsUpToSpec(cols, |cols|);
    assert PositionsUpTo(cols, |cols|).Keys == Positions(cols).Keys;
  }

  /** One more column: the next bit if it is nullable, its size if it is a key column. */
  lemma LayoutStep(cols: seq<Column>, i: nat)
    requires i < |cols|
    ensures NullableCount(cols[..i + 1]) == NullableCount(cols[..i]) + (if cols[i].nullable then 1 else 0)
    ensures PrimaryKeySizeOf(cols[..i + 1]) == PrimaryKeySizeOf(cols[..i]) + (if cols[i].pk then cols[i].size else 0)
  {
    assert cols[..i + 1][..i] == cols[..i];
  }

  /** After sorting, the primary-key columns lead the list. */
  lemma CanonicalSortKeysFirst(cols: seq<Column>)
    ensures PkFirst(CanonicalSort(cols))
  {
    CanonicalSortSpec(cols);
    var order := InsertAll(Tagged(cols));
    forall i, j | 0 <= i < j < |CanonicalSort(cols)| && CanonicalSort(cols)[j].pk
      ensures CanonicalSort(cols)[i].pk
    {
      assert order[j].1.pk ==> order[i].1.pk;
    }
  }

  /** The loop of isPKPrefix: leading primary-key columns whose names the list contains. */
  function PkPrefixCount(cols: seq<Column>, names: seq<string>): (k: nat)
    ensures k <= |cols|
    ensures forall i :: 0 <= i < k ==> cols[i].pk && cols[i].name in names
    ensures k < |cols| ==> !cols[k].pk || cols[k].name !in names
  {
    if cols == [] || !cols[0].pk || cols[0].name !in names then 0
    else
      var k := 1 + PkPrefixCount(cols[1..], names);
      assert forall i :: 1 <= i < |cols| ==> cols[1..][i - 1] == cols[i];
      k
  }

  /** isPKPrefix(names): the names cover exactly the leading primary-key columns counted. */
  predicate IsPKPrefix(cols: seq<Column>, names: seq<string>)
    ensures IsPKPrefix(cols, names) ==>
      |names| <= |cols| && forall i :: 0 <= i < |names| ==> cols[i].pk && cols[i].name in names
  {
    |names| == PkPrefixCount(cols, names)
  }

  lemma {:induction false} SubsetSize<T>(a: set<T>, b: set<T>)
    requires a <= b
    ensures |a| <= |b|
    decreases b
  {
    if b != {} {
      var y :| y in b;
      SubsetSize(a - {y}, b - {y});
    }
  }

  lemma SubsetOfEqualSize<T>(a: set<T>, b: set<T>)
    requires a <= b && |b| <= |a|
    ensures a == b
  {
    if a != b {
      var x :| x in b && x !in a;
      SubsetSize(a, b - {x});
    }
  }

  lemma {:induction false} SeqSetSize<T>(s: seq<T>)
    ensures |set x | x in s| <= |s|
  {
    if s != [] {
      SeqSetSize(s[1..]);
      assert (set x | x in s) == (set x | x in s[1..]) + {s[0]};
    }
  }

  lemma {:induction false} DistinctNamesSetSize(cols: seq<Column>)
    requires DistinctNames(cols)
    ensures |NamesSet(cols)| == |cols|
  {
    if cols != [] {
      var init := cols[..|cols| - 1];
      assert DistinctNames(init);
      DistinctNamesSetSize(init);
      assert cols[|cols| - 1].name !in NamesSet(init);
    }
  }

  /** The leading primary-key columns isPKPrefix counts are all listed. */
  lemma CountedNamesListed(cols: seq<Column>, names: seq<string>)
    ensures NamesSet(cols[..PkPrefixCount(cols, names)]) <= set n | n in names
  {
    var k := PkPrefixCount(cols, names);
    forall n | n in NamesSet(cols[..k])
      ensures n in names
    {
      var i :| 0 <= i < k && cols[..k][i].name == n;
    }
  }

  /** isPKPrefix(names) means: names lists the first |names| columns, all primary keys, once each. */
  lemma IsPKPrefixSound(cols: seq<Column>, names: seq<string>)
    requires DistinctNames(cols) && IsPKPrefix(cols, names)
    ensures |names| <= |cols|
    ensures forall i :: 0 <= i < |names| ==> cols[i].pk
    ensures (set n | n in names) == NamesSet(cols[..|names|])
    ensures |set n | n in names| == |names|
  {
    var k := PkPrefixCount(cols, names);
    SeqSetSize(names);
    assert DistinctNames(cols[..k]);
    DistinctNamesSetSize(cols[..k]);
    CountedNamesListed(cols, names);
    SubsetOfEqualSize(NamesSet(cols[..k]), set n | n in names);
  }

  lemma NotListedBeyond(cols: seq<Column>, names: seq<string>, j: nat)
    requires DistinctNames(cols)
    requires |names| <= j < |cols|
    requires (set n | n in names) == NamesSet(cols[..|names|])
    ensures cols[j].name !in names
  {
    forall i | 0 <= i < |names|
      ensures cols[..|names|][i].name != cols[j].name
    {
      assert cols[..|names|][i] == cols[i];
    }
    assert cols[j].name !in NamesSet(cols[..|names|]);
  }

  /** Conversely, listing a leading run of primary-key columns satisfies isPKPrefix. */
  lemma IsPKPrefixComplete(cols: seq<Column>, names: seq<string>)
    requires DistinctNames(cols)
    requires |names| <= |cols|
    requires forall i :: 0 <= i < |names| ==> cols[i].pk
    requires (set n | n in names) == NamesSet(cols[..|names|])
    ensures IsPKPrefix(cols, names)
  {
    forall j | 0 <= j < |names|
      ensures cols[j].name in names
    {
      assert cols[j].name in NamesSet(cols[..|names|]) by {
        assert cols[..|names|][j] == cols[j];
      }
    }
    if |names| < |cols| {
      NotListedBeyond(cols, names, |names|);
    }
  }

  // ---------------------------------------------------------------------
  // Header bits

  /** `1 << k` as a byte, for a bit index k below 8. */
  function Mask(k: nat): bv8
    requires k < 8
  {
    if k == 0 then 1 else Mask(k - 1) << 1
  }

  /** Bit k of byte i set: `h[i] | (1 << k)`. */
  function SetAt(h: Bytes, i: nat, k: nat): (r: Bytes)
    requires i < |h| && k < 8
    ensures |r| == |h|
  {
    h[i := h[i] | Mask(k)]
  }

  /** Bit k of byte i tested: `(h[i] & (1 << k)) != 0`, with i inside h. */
  predicate BitAt(h: Bytes, i: nat, k: nat)
    requires k < 8
  {
    i < |h| && h[i] & Mask(k) != 0
  }

  /** `header[p / 8] |= 1 << (p % 8)`. */
  function SetBit(h: Bytes, p: nat): (r: Bytes)
    requires p / 8 < |h|
    ensures |r| == |h|
  {
    SetAt(h, p / 8, p % 8)
  }

  /** `(header[p / 8] & (1 << (p % 8))) != 0`, with the index inside the header. */
  predicate BitSet(h: Bytes, p: nat) {
    BitAt(h, p / 8, p % 8)
  }

  /** Two masks share a bit exactly when they are the same mask. */
  lemma MasksOverlap(a: nat, b: nat)
    requires a < 8 && b < 8
    ensures Mask(a) & Mask(b) != 0 <==> a == b
  {
    assert Mask(0) == 1 && Mask(1) == 2 && Mask(2) == 4 && Mask(3) == 8;
    assert Mask(4) == 16 && Mask(5) == 32 && Mask(6) == 64 && Mask(7) == 128;
    assert a == 0 || a == 1 || a == 2 || a == 3 || a == 4 || a == 5 || a == 6 || a == 7;
    assert b == 0 || b == 1 || b == 2 || b == 3 || b == 4 || b == 5 || b == 6 || b == 7;
  }

  lemma ByteBits(x: bv8, m: bv8, n: bv8)
    ensures (x | m) & n != 0 <==> x & n != 0 || m & n != 0
  {
  }

  /** Setting a bit turns on that bit and leaves every other bit as it was. */
  lemma SetAtSpec(h: Bytes, i: nat, a: nat, j: nat, b: nat)
    requires i < |h| && a < 8 && b < 8
    ensures BitAt(SetAt(h, i, a), j, b) <==> BitAt(h, j, b) || (i == j && a == b)
  {
    if i == j {
      ByteBits(h[i], Mask(a), Mask(b));
      MasksOverlap(a, b);
    }
  }

  lemma SameBit(p: nat, q: nat)
    ensures p == q <==> p / 8 == q / 8 && p % 8 == q % 8
  {
    assert p == 8 * (p / 8) + p % 8 && q == 8 * (q / 8) + q % 8;
  }

  lemma SetBitSpec(h: Bytes, q: nat, p: nat)
    requires q / 8 < |h|
    ensures BitSet(SetBit(h, q), p) <==> BitSet(h, p) || p == q
  {
    SetAtSpec(h, q / 8, q % 8, p / 8, p % 8);
    SameBit(p, q);
  }

  lemma ZerosHaveNoBits(n: nat, p: nat)
    ensures !BitSet(Zeros(n), p)
  {
    if p / 8 < n {
      assert Zeros(n)[p / 8] == 0;
    }
  }
}
