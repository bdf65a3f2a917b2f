/**
  A phase record: column name to cell text, built as Python's
  `dict(zip(keys, values))` builds it.
*/
module Records {

  type Record = map<string, string>

  function Min(a: nat, b: nat): nat
  {
    if a <= b then a else b
  }

  /** No name occurs twice in `names`: the first does not recur, and the rest are distinct. */
  predicate Distinct(names: seq<string>)
  {
    |names| == 0 || (names[0] !in names[1..] && Distinct(names[1..]))
  }

  /** `Distinct` says that no two positions hold the same name. */
  lemma {:induction false} DistinctPositions(names: seq<string>)
    ensures Distinct(names) <==> forall i, j :: 0 <= i < j < |names| ==> names[i] != names[j]
  {
    if |names| > 0 {
      var tail := names[1..];
      DistinctPositions(tail);
      if Distinct(names) {
        forall i, j | 0 <= i < j < |names| ensures names[i] != names[j] {
          if i == 0 {
            assert names[j] == tail[j - 1];
          } else {
            assert tail[i - 1] != tail[j - 1];
          }
        }
      } else if names[0] in tail {
        var j :| 0 <= j < |tail| && tail[j] == names[0];
        assert names[j + 1] == names[0];
      } else {
        var i, j :| 0 <= i < j < |tail| && tail[i] == tail[j];
        assert names[i + 1] == names[j + 1];
      }
    }
  }

  /** Position `j` holds the last occurrence of its name among the first `m` names. */
  predicate LastOccurrence(names: seq<string>, m: nat, j: nat)
    requires j < m <= |names|
  {
    forall k :: j < k < m ==> names[k] != names[j]
  }

  /**
    `dict(zip(keys, values))`: `zip` stops at the shorter sequence, and the
    dictionary is filled pair by pair, so a repeated key keeps the value that
    comes last (the union below lets the later pairs win).
  */
  function ZipDict(keys: seq<string>, values: seq<string>): (r: Record)
    ensures r == map[] <==> Min(|keys|, |values|) == 0
    decreases |keys|
  {
    if |keys| == 0 || |values| == 0 then map[]
    else
      var r := map[keys[0] := values[0]] + ZipDict(keys[1..], values[1..]);
      assert keys[0] in r;
      r
  }

  /** The record's keys are exactly the zipped names. */
  lemma {:induction false} ZipDictKeys(keys: seq<string>, values: seq<string>)
    ensures ZipDict(keys, values).Keys == set j | 0 <= j < Min(|keys|, |values|) :: keys[j]
    decreases |keys|
  {
    var m := Min(|keys|, |values|);
    if m > 0 {
      ZipDictKeys(keys[1..], values[1..]);
      var tail := set j | 0 <= j < m - 1 :: keys[1..][j];
      var all := set j | 0 <= j < m :: keys[j];
      assert all == {keys[0]} + tail by {
        forall x | x in all ensures x in {keys[0]} + tail {
          var j :| 0 <= j < m && keys[j] == x;
          if j > 0 {
            assert keys[1..][j - 1] == x;
          }
        }
        forall x | x in tail ensures x in all {
          var j :| 0 <= j < m - 1 && keys[1..][j] == x;
          assert keys[j + 1] == x;
        }
      }
    }
  }

  /** The name at a position that is its last occurrence maps to the value at that position. */
  lemma {:induction false} ZipDictAt(keys: seq<string>, values: seq<string>, j: nat)
    requires j < Min(|keys|, |values|)
    requires LastOccurrence(keys, Min(|keys|, |values|), j)
    ensures keys[j] in ZipDict(keys, values)
    ensures ZipDict(keys, values)[keys[j]] == values[j]
    decreases j
  {
    var m := Min(|keys|, |values|);
    var rest := ZipDict(keys[1..], values[1..]);
    if j == 0 {
      ZipDictKeys(keys[1..], values[1..]);
    } else {
      assert forall k :: j - 1 < k < m - 1 ==> keys[1..][k] == keys[k + 1];
      ZipDictAt(keys[1..], values[1..], j - 1);
    }
  }

  /** The head name is already a key of the zipped tail exactly when it recurs among the zipped names. */
  lemma ZipDictHeadRecurs(keys: seq<string>, values: seq<string>)
    requires Min(|keys|, |values|) > 0
    ensures keys[0] in ZipDict(keys[1..], values[1..]) <==> keys[0] in keys[1..Min(|keys|, |values|)]
  {
    var m := Min(|keys|, |values|);
    var ks, vs := keys[1..], values[1..];
    ZipDictKeys(ks, vs);
    if keys[0] in keys[1..m] {
      var k :| 0 <= k < m - 1 && keys[1..m][k] == keys[0];
      assert ks[k] == keys[0];
    }
    if keys[0] in ZipDict(ks, vs) {
      var k :| 0 <= k < m - 1 && ks[k] == keys[0];
      assert keys[1..m][k] == keys[0];
    }
  }

  /** Zipping one more pair in front adds a key exactly when that name does not recur later. */
  lemma ZipDictConsSize(keys: seq<string>, values: seq<string>)
    requires Min(|keys|, |values|) > 0
    ensures |ZipDict(keys, values)| == |ZipDict(keys[1..], values[1..])|
              + (if keys[0] in keys[1..Min(|keys|, |values|)] then 0 else 1)
  {
    var rest := ZipDict(keys[1..], values[1..]);
    ZipDictHeadRecurs(keys, values);
    MapUnionSize(keys[0], values[0], rest);
  }

  lemma MapUnionSize<K, V>(k: K, v: V, m: map<K, V>)
    ensures |map[k := v] + m| == |m| + (if k in m then 0 else 1)
  {
    var r := map[k := v] + m;
    if k in m {
      assert r.Keys == m.Keys;
    } else {
      assert r.Keys == m.Keys + {k};
      assert |r.Keys| == |m.Keys| + 1;
    }
  }

  /**
    The record has at most one key per zipped pair, and exactly one per pair
    if and only if the zipped names are distinct; a repeated header therefore
    leaves the record with fewer keys than there are headers.
  */
  lemma {:induction false} ZipDictSize(keys: seq<string>, values: seq<string>)
    ensures |ZipDict(keys, values)| <= Min(|keys|, |values|)
    ensures |ZipDict(keys, values)| == Min(|keys|, |values|) <==> Distinct(keys[..Min(|keys|, |values|)])
    decreases |keys|
  {
    var m := Min(|keys|, |values|);
    if m > 0 {
      var ks, vs := keys[1..], values[1..];
      var names, later := keys[..m], keys[1..m];
      var size, restSize := |ZipDict(keys, values)|, |ZipDict(ks, vs)|;
      assert Min(|ks|, |vs|) == m - 1;
      ZipDictSize(ks, vs);
      assert ks[..Min(|ks|, |vs|)] == later;
      assert restSize <= m - 1 && (restSize == m - 1 <==> Distinct(later));
      ZipDictConsSize(keys, values);
      assert size == restSize + (if keys[0] in later then 0 else 1);
      assert names[1..] == later && names[0] == keys[0];
      assert Distinct(names) <==> keys[0] !in later && Distinct(later);
    } else {
      assert keys[..m] == [];
    }
  }
}
