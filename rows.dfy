/**
 * Functions over a row's field map (column name to field): the ascending
 * name order the row's TreeMap iterates in, the total of the field buffer
 * sizes that the row's byteSize counter tracks, and the row orderings of
 * compareTo and partialMatch.
 */
module Rows {
  import opened Base
  import opened Columns
  import opened Fields

  type Row = map<string, Field>

  // ---------------------------------------------------------------------
  // Ascending name order

  predicate Ascending(s: seq<string>) {
    forall i, j :: 0 <= i < j < |s| ==> StrLess(s[i], s[j])
  }

  predicate IsLeast(m: string, s: set<string>) {
    m in s && forall x :: x in s && x != m ==> StrLess(m, x)
  }

  /** Every non-empty set of names has a least one (String.compareTo is a total order). */
  lemma {:induction false} LeastExists(s: set<string>)
    requires s != {}
    ensures exists m :: IsLeast(m, s)
    decreases s
  {
    var x :| x in s;
    if s != {x} {
      LeastExists(s - {x});
      var y :| IsLeast(y, s - {x});
      StrLessTotal(x, y);
      if StrLess(x, y) {
        forall z | z in s && z != x
          ensures StrLess(x, z)
        {
          if z != y {
            StrLessTransitive(x, y, z);
          }
        }
        assert IsLeast(x, s);
      } else {
        assert IsLeast(y, s);
      }
    } else {
      assert IsLeast(x, s);
    }
  }

  lemma LeastUnique(m: string, n: string, s: set<string>)
    requires IsLeast(m, s) && IsLeast(n, s)
    ensures m == n
  {
    if m != n {
      StrLessAsymmetric(m, n);
    }
  }

  /** The names of a set in ascending order: the order a TreeMap iterates its entries in. */
  ghost function SortedKeys(s: set<string>): (r: seq<string>)
    ensures Ascending(r)
    ensures forall k :: k in r <==> k in s
    ensures |r| == |s|
    decreases s
  {
    if s == {} then []
    else
      LeastExists(s);
      var m :| IsLeast(m, s);
      var rest := SortedKeys(s - {m});
      PrependAscending(m, rest);
      [m] + rest
  }

  lemma PrependAscending(m: string, rest: seq<string>)
    requires Ascending(rest) && forall k :: k in rest ==> StrLess(m, k)
    ensures Ascending([m] + rest)
  {
    var r := [m] + rest;
    forall i, j | 0 <= i < j < |r|
      ensures StrLess(r[i], r[j])
    {
      if i == 0 {
        assert r[j] == rest[j - 1];
      } else {
        assert r[i] == rest[i - 1] && r[j] == rest[j - 1];
      }
    }
  }

  // ---------------------------------------------------------------------
  // Buffer sizes

  /** The sum of bufferByteSize() over the fields of a row. */
  ghost function Total(m: Row): nat
    decreases m.Keys
  {
    if m == map[] then 0
    else
      var k :| k in m;
      m[k].BufferByteSize() + Total(m - {k})
  }

  /** The sum does not depend on the order the fields are added in. */
  lemma {:induction false} TotalRemove(m: Row, k: string)
    requires k in m
    ensures Total(m) == m[k].BufferByteSize() + Total(m - {k})
    decreases m.Keys
  {
    var j :| j in m && Total(m) == m[j].BufferByteSize() + Total(m - {j});
    if j != k {
      TotalRemove(m - {j}, k);
      TotalRemove(m - {k}, j);
      assert (m - {j}) - {k} == (m - {k}) - {j};
    }
  }

  /** Storing a field under a name replaces the size of what was there. */
  lemma TotalPut(m: Row, k: string, f: Field)
    ensures Total(m[k := f]) + (if k in m then m[k].BufferByteSize() else 0)
         == Total(m) + f.BufferByteSize()
  {
    TotalRemove(m[k := f], k);
    assert m[k := f] - {k} == m - {k};
    if k in m {
      TotalRemove(m, k);
    } else {
      assert m - {k} == m;
    }
  }

  lemma TotalDrop(m: Row, k: string)
    ensures Total(m - {k}) + (if k in m then m[k].BufferByteSize() else 0) == Total(m)
  {
    if k in m {
      TotalRemove(m, k);
    } else {
      assert m - {k} == m;
    }
  }

  // ---------------------------------------------------------------------
  // compareTo and partialMatch

  /**
   * The loop of partialMatch over this row's names `keys`: names the other
   * row lacks are skipped; the first non-zero field comparison is the
   * answer, 0 when there is none. A comparison that throws ends the walk.
   */
  function MatchFrom(keys: seq<string>, a: Row, b: Row, foreign: Foreign): Result<int>
    requires forall k :: k in keys ==> k in a
  {
    if keys == [] then Ok(0)
    else if keys[0] !in b then MatchFrom(keys[1..], a, b, foreign)
    else
      var val :- FieldCompareTo(a[keys[0]], Some(b[keys[0]]), foreign);
      if val != 0 then Ok(val) else MatchFrom(keys[1..], a, b, foreign)
  }

  /** The loop of compareTo: the same walk, ending in the difference of the row sizes. */
  function CompareFrom(keys: seq<string>, a: Row, b: Row, foreign: Foreign): Result<int>
    requires forall k :: k in keys ==> k in a
  {
    if keys == [] then Ok(|a| - |b|)
    else if keys[0] !in b then CompareFrom(keys[1..], a, b, foreign)
    else
      var val :- FieldCompareTo(a[keys[0]], Some(b[keys[0]]), foreign);
      if val != 0 then Ok(val) else CompareFrom(keys[1..], a, b, foreign)
  }

  /** a.partialMatch(b), walking a's names in ascending order. */
  ghost function PartialMatch(a: Row, b: Row, foreign: Foreign): Result<int> {
    MatchFrom(SortedKeys(a.Keys), a, b, foreign)
  }

  /** a.compareTo(b). */
  ghost function CompareRows(a: Row, b: Row, foreign: Foreign): Result<int> {
    CompareFrom(SortedKeys(a.Keys), a, b, foreign)
  }

  /** Field comparison at the i-th walked name, which both rows hold. */
  function CompareAt(keys: seq<string>, a: Row, b: Row, foreign: Foreign, i: nat): Result<int>
    requires i < |keys| && keys[i] in a && keys[i] in b
  {
    FieldCompareTo(a[keys[i]], Some(b[keys[i]]), foreign)
  }

  /** Every name both rows hold among `keys` compares equal. */
  predicate AllTie(keys: seq<string>, a: Row, b: Row, foreign: Foreign)
    requires forall k :: k in keys ==> k in a
  {
    forall i :: 0 <= i < |keys| && keys[i] in b ==> CompareAt(keys, a, b, foreign, i) == Ok(0)
  }

  /** compareTo and partialMatch agree except on a tie, where compareTo falls back to the sizes. */
  lemma {:induction false} CompareExtendsMatch(keys: seq<string>, a: Row, b: Row, foreign: Foreign)
    requires forall k :: k in keys ==> k in a
    ensures CompareFrom(keys, a, b, foreign)
         == if MatchFrom(keys, a, b, foreign) == Ok(0) then Ok(|a| - |b|) else MatchFrom(keys, a, b, foreign)
  {
    if keys != [] {
      CompareExtendsMatch(keys[1..], a, b, foreign);
    }
  }

  /** partialMatch ties exactly when every shared name compares equal. */
  lemma {:induction false} MatchTieIff(keys: seq<string>, a: Row, b: Row, foreign: Foreign)
    requires forall k :: k in keys ==> k in a
    ensures MatchFrom(keys, a, b, foreign) == Ok(0) <==> AllTie(keys, a, b, foreign)
  {
    if keys != [] {
      MatchTieIff(keys[1..], a, b, foreign);
      assert AllTie(keys, a, b, foreign) <==>
        (keys[0] in b ==> CompareAt(keys, a, b, foreign, 0) == Ok(0)) && AllTie(keys[1..], a, b, foreign)
      by {
        forall i | 1 <= i < |keys|
          ensures keys[1..][i - 1] == keys[i]
        {
        }
      }
    }
  }

  /** The answer is the first comparison of a shared name that is not a tie. */
  lemma {:induction false} MatchFirstDifference(keys: seq<string>, a: Row, b: Row, foreign: Foreign, i: nat)
    requires forall k :: k in keys ==> k in a
    requires i < |keys| && keys[i] in b && CompareAt(keys, a, b, foreign, i) != Ok(0)
    requires forall j :: 0 <= j < i && keys[j] in b ==> CompareAt(keys, a, b, foreign, j) == Ok(0)
    ensures MatchFrom(keys, a, b, foreign) == CompareAt(keys, a, b, foreign, i)
    ensures CompareFrom(keys, a, b, foreign) == CompareAt(keys, a, b, foreign, i)
  {
    if i > 0 {
      forall j | 0 <= j < i - 1 && keys[1..][j] in b
        ensures CompareAt(keys[1..], a, b, foreign, j) == Ok(0)
      {
        assert keys[1..][j] == keys[j + 1];
      }
      MatchFirstDifference(keys[1..], a, b, foreign, i - 1);
    }
  }

  /** Whenever partialMatch is decided, compareTo gives the same answer. */
  lemma PartialMatchDecides(a: Row, b: Row, foreign: Foreign)
    requires PartialMatch(a, b, foreign) != Ok(0)
    ensures CompareRows(a, b, foreign) == PartialMatch(a, b, foreign)
  {
    CompareExtendsMatch(SortedKeys(a.Keys), a, b, foreign);
  }

  /** On a tie of partialMatch, compareTo is the difference of the row sizes. */
  lemma CompareOnTie(a: Row, b: Row, foreign: Foreign)
    requires AllTie(SortedKeys(a.Keys), a, b, foreign)
    ensures PartialMatch(a, b, foreign) == Ok(0)
    ensures CompareRows(a, b, foreign) == Ok(|a| - |b|)
  {
    MatchTieIff(SortedKeys(a.Keys), a, b, foreign);
    CompareExtendsMatch(SortedKeys(a.Keys), a, b, foreign);
  }

  /**
   * A row whose fields all compare equal to themselves compares equal to
   * itself (a NullField does not: it answers -NULL_COMPARE).
   */
  lemma CompareReflexive(a: Row, foreign: Foreign)
    requires forall k :: k in a ==> FieldCompareTo(a[k], Some(a[k]), foreign) == Ok(0)
    ensures CompareRows(a, a, foreign) == Ok(0)
  {
    CompareOnTie(a, a, foreign);
  }

  /** Field comparison is antisymmetric on every shared name. */
  predicate FieldsAntisymmetric(a: Row, b: Row, foreign: Foreign) {
    forall k :: k in a && k in b ==>
      && FieldCompareTo(a[k], Some(b[k]), foreign).Ok?
      && FieldCompareTo(b[k], Some(a[k]), foreign).Ok?
      && FieldCompareTo(a[k], Some(b[k]), foreign).value == -FieldCompareTo(b[k], Some(a[k]), foreign).value
  }

  lemma {:induction false} MatchAntisymmetric(keys: seq<string>, a: Row, b: Row, foreign: Foreign)
    requires forall k :: k in keys ==> k in a && k in b
    requires FieldsAntisymmetric(a, b, foreign)
    ensures MatchFrom(keys, a, b, foreign).Ok? && MatchFrom(keys, b, a, foreign).Ok?
    ensures MatchFrom(keys, a, b, foreign).value == -MatchFrom(keys, b, a, foreign).value
  {
    if keys != [] {
      MatchAntisymmetric(keys[1..], a, b, foreign);
    }
  }

  /**
   * Two rows over the same names whose field comparisons are antisymmetric
   * compare antisymmetrically.
   */
  lemma CompareAntisymmetric(a: Row, b: Row, foreign: Foreign)
    requires a.Keys == b.Keys && FieldsAntisymmetric(a, b, foreign)
    ensures CompareRows(a, b, foreign).Ok? && CompareRows(b, a, foreign).Ok?
    ensures CompareRows(a, b, foreign).value == -CompareRows(b, a, foreign).value
  {
    var keys := SortedKeys(a.Keys);
    MatchAntisymmetric(keys, a, b, foreign);
    CompareExtendsMatch(keys, a, b, foreign);
    CompareExtendsMatch(keys, b, a, foreign);
    assert |a| == |a.Keys| == |b.Keys| == |b|;
  }

  /** Rows of binary fields over the same names compare antisymmetrically. */
  lemma BinaryRowsAntisymmetric(a: Row, b: Row, foreign: Foreign)
    requires a.Keys == b.Keys
    requires forall k :: k in a ==> a[k].BinaryField? && b[k].BinaryField?
    ensures CompareRows(a, b, foreign).Ok? && CompareRows(b, a, foreign).Ok?
    ensures CompareRows(a, b, foreign).value == -CompareRows(b, a, foreign).value
  {
    forall k | k in a && k in b
      ensures FieldCompareTo(a[k], Some(b[k]), foreign).Ok?
      ensures FieldCompareTo(b[k], Some(a[k]), foreign).Ok?
      ensures FieldCompareTo(a[k], Some(b[k]), foreign).value == -FieldCompareTo(b[k], Some(a[k]), foreign).value
    {
      BinaryCompareAntisymmetric(a[k], b[k]);
    }
    CompareAntisymmetric(a, b, foreign);
  }
}
