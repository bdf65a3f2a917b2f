/**
  One task per year from 2000 through the current year, and the merge of the
  per-year record lists in the order the tasks were given.
*/
module Tasks {

  const FIRST_YEAR: int := 2000

  /** `range(lo, hi + 1)`: the years `lo` through `hi`, in increasing order. */
  function YearRange(lo: int, hi: int): (years: seq<int>)
    ensures |years| == if lo <= hi then hi - lo + 1 else 0
    ensures forall i :: 0 <= i < |years| ==> years[i] == lo + i
    ensures forall y :: y in years <==> lo <= y <= hi
    decreases hi - lo
  {
    if lo > hi then [] else [lo] + YearRange(lo + 1, hi)
  }

  /** The year tasks: each year from 2000 through `currentYear` exactly once, in increasing order. */
  function YearTasks(currentYear: int): (years: seq<int>)
    ensures forall y :: y in years <==> FIRST_YEAR <= y <= currentYear
    ensures forall i, j :: 0 <= i < j < |years| ==> years[i] < years[j]
    ensures currentYear < FIRST_YEAR <==> years == []
  {
    YearRange(FIRST_YEAR, currentYear)
  }

  /** The rows of every part, part after part. */
  function Concat<T>(parts: seq<seq<T>>): seq<T>
  {
    if |parts| == 0 then [] else parts[0] + Concat(parts[1..])
  }

  /** The number of rows over all parts. */
  function RowCount<T>(parts: seq<seq<T>>): nat
  {
    if |parts| == 0 then 0 else |parts[0]| + RowCount(parts[1..])
  }

  /** Merging two batches of parts is merging each and appending. */
  lemma {:induction false} ConcatAppend<T>(a: seq<seq<T>>, b: seq<seq<T>>)
    ensures Concat(a + b) == Concat(a) + Concat(b)
    ensures RowCount(a + b) == RowCount(a) + RowCount(b)
    decreases |a|
  {
    if |a| > 0 {
      assert (a + b)[1..] == a[1..] + b;
      ConcatAppend(a[1..], b);
    } else {
      assert a + b == b;
    }
  }

  /** The merged table has as many rows as all the parts together. */
  lemma {:induction false} ConcatLength<T>(parts: seq<seq<T>>)
    ensures |Concat(parts)| == RowCount(parts)
    decreases |parts|
  {
    if |parts| > 0 {
      ConcatLength(parts[1..]);
    }
  }

  /** An empty part contributes no row, wherever it stands. */
  lemma EmptyPartContributesNothing<T>(before: seq<seq<T>>, after: seq<seq<T>>)
    ensures Concat(before + [[]] + after) == Concat(before + after)
  {
    ConcatAppend(before + [[]], after);
    ConcatAppend(before, [[]]);
    ConcatAppend(before, after);
    assert Concat<T>([[]]) == [];
  }

  /** Row `k` of part `i` sits in the merged table right after the rows of the parts before `i`. */
  lemma ConcatAt<T>(parts: seq<seq<T>>, i: nat, k: nat)
    requires i < |parts|
    requires k < |parts[i]|
    ensures RowCount(parts[..i]) + k < |Concat(parts)|
    ensures Concat(parts)[RowCount(parts[..i]) + k] == parts[i][k]
  {
    assert parts == parts[..i] + [parts[i]] + parts[i + 1..];
    ConcatAppend(parts[..i] + [parts[i]], parts[i + 1..]);
    ConcatAppend(parts[..i], [parts[i]]);
    ConcatLength(parts[..i]);
    assert Concat([parts[i]]) == parts[i] by {
      assert [parts[i]][1..] == [];
    }
  }

  /** A row is in the merged table exactly when it is a row of some part. */
  lemma {:induction false} ConcatMember<T>(parts: seq<seq<T>>, x: T)
    ensures x in Concat(parts) <==> exists i :: 0 <= i < |parts| && x in parts[i]
    decreases |parts|
  {
    if |parts| > 0 {
      ConcatMember(parts[1..], x);
      if x in Concat(parts[1..]) {
        var i :| 0 <= i < |parts| - 1 && x in parts[1..][i];
        assert x in parts[i + 1];
      }
      if exists i :: 0 <= i < |parts| && x in parts[i] {
        var i :| 0 <= i < |parts| && x in parts[i];
        if i > 0 {
          assert x in parts[1..][i - 1];
        }
      }
    }
  }
}
