/**
 * An insertion-ordered dictionary of lists, as Python's dict of lists is
 * used by the generator's result, and flatten_dict_values over it
 * (common/__init__.py).
 */
module Dicts {

  datatype Entry<K, V> = Entry(key: K, values: seq<V>)

  /** Entries in insertion order. */
  type Dict<K, V> = seq<Entry<K, V>>

  function Keys<K, V>(d: Dict<K, V>): (ks: seq<K>)
    ensures |ks| == |d| && forall i :: 0 <= i < |d| ==> ks[i] == d[i].key
  {
    seq(|d|, i requires 0 <= i < |d| => d[i].key)
  }

  ghost predicate DistinctKeys<K, V>(d: Dict<K, V>) {
    forall i, j :: 0 <= i < j < |d| ==> d[i].key != d[j].key
  }

  /** The number of values over all keys. */
  function TotalCount<K, V>(d: Dict<K, V>): nat {
    if d == [] then 0 else |d[0].values| + TotalCount(d[1..])
  }

  /** The position of key `k`. */
  function IndexOfKey<K(==), V>(d: Dict<K, V>, k: K): (i: nat)
    requires k in Keys(d)
    ensures i < |d| && d[i].key == k
  {
    if d[0].key == k then 0 else
      assert Keys(d[1..]) == Keys(d)[1..];
      1 + IndexOfKey(d[1..], k)
  }

  /**
   * `d[k].append(v)`, creating the list `d[k] = []` first when `k` is new; a
   * new key goes to the end, as in a Python dict.
   */
  function Append<K(==), V>(d: Dict<K, V>, k: K, v: V): (r: Dict<K, V>)
    requires DistinctKeys(d)
    ensures Keys(r) == if k in Keys(d) then Keys(d) else Keys(d) + [k]
    ensures DistinctKeys(r)
    ensures TotalCount(r) == TotalCount(d) + 1
    ensures forall i :: 0 <= i < |d| ==> r[i].values == if d[i].key == k then d[i].values + [v] else d[i].values
    ensures k !in Keys(d) ==> r[|d|] == Entry(k, [v])
  {
    if k in Keys(d) then
      var i := IndexOfKey(d, k);
      var r := d[i := Entry(k, d[i].values + [v])];
      TotalCountUpdate(d, i, Entry(k, d[i].values + [v]));
      assert Keys(r) == Keys(d);
      r
    else
      var r := d + [Entry(k, [v])];
      TotalCountConcat(d, [Entry(k, [v])]);
      assert [Entry(k, [v])][1..] == [];
      assert Keys(r) == Keys(d) + [k];
      r
  }

  lemma {:induction false} TotalCountUpdate<K, V>(d: Dict<K, V>, i: nat, e: Entry<K, V>)
    requires i < |d|
    ensures TotalCount(d[i := e]) == TotalCount(d) - |d[i].values| + |e.values|
  {
    if i > 0 {
      assert d[i := e][1..] == d[1..][i - 1 := e];
      TotalCountUpdate(d[1..], i - 1, e);
    }
  }

  lemma {:induction false} TotalCountConcat<K, V>(a: Dict<K, V>, b: Dict<K, V>)
    ensures TotalCount(a + b) == TotalCount(a) + TotalCount(b)
  {
    if a == [] {
      assert a + b == b;
    } else {
      assert (a + b)[1..] == a[1..] + b;
      TotalCountConcat(a[1..], b);
    }
  }

  /** Every value, together with the key it is filed under, satisfies `ok`. */
  ghost predicate AllValues<K, V>(d: Dict<K, V>, ok: (K, V) -> bool) {
    forall i, j :: 0 <= i < |d| && 0 <= j < |d[i].values| ==> ok(d[i].key, d[i].values[j])
  }

  /** Appending a value that satisfies `ok` under its key keeps every value satisfying it. */
  lemma AppendAllValues<K, V>(d: Dict<K, V>, k: K, v: V, ok: (K, V) -> bool)
    requires DistinctKeys(d) && AllValues(d, ok) && ok(k, v)
    ensures AllValues(Append(d, k, v), ok)
  {
    var r := Append(d, k, v);
    forall i, j | 0 <= i < |r| && 0 <= j < |r[i].values| ensures ok(r[i].key, r[i].values[j]) {
      assert r[i].key == Keys(r)[i];
      if i < |d| {
        assert r[i].key == Keys(d)[i] == d[i].key;
        if d[i].key == k && j == |d[i].values| {
          assert r[i].values[j] == v;
        } else {
          assert r[i].values[j] == d[i].values[j];
        }
      } else {
        assert r[i] == Entry(k, [v]);
      }
    }
  }

  /** The values filed under any key, as a set. */
  ghost function ValueSet<K, V>(d: Dict<K, V>): set<V> {
    set i, j | 0 <= i < |d| && 0 <= j < |d[i].values| :: d[i].values[j]
  }

  /** Appending adds exactly the appended value to the set of values. */
  lemma AppendValueSet<K, V>(d: Dict<K, V>, k: K, v: V)
    requires DistinctKeys(d)
    ensures ValueSet(Append(d, k, v)) == ValueSet(d) + {v}
  {
    var r := Append(d, k, v);
    forall x | x in ValueSet(r) ensures x in ValueSet(d) + {v} {
      var i, j :| 0 <= i < |r| && 0 <= j < |r[i].values| && r[i].values[j] == x;
      if i < |d| && j < |d[i].values| {
        assert r[i].values[j] == d[i].values[j];
      } else if i < |d| {
        assert d[i].key == k && r[i].values[j] == v;
      } else {
        assert r[i] == Entry(k, [v]);
      }
    }
    forall x | x in ValueSet(d) ensures x in ValueSet(r) {
      var i, j :| 0 <= i < |d| && 0 <= j < |d[i].values| && d[i].values[j] == x;
      assert r[i].values[j] == x;
    }
    if k in Keys(d) {
      var i := IndexOfKey(d, k);
      assert r[i].values[|d[i].values|] == v;
    } else {
      assert r[|d|].values[0] == v;
    }
  }

  /** The same dictionary with `f` applied to every value. */
  function MapValues<K, V, W>(d: Dict<K, V>, f: V -> W): (r: Dict<K, W>)
    ensures |r| == |d|
    ensures forall i :: 0 <= i < |d| ==> r[i].key == d[i].key && |r[i].values| == |d[i].values|
    ensures forall i, j :: 0 <= i < |d| && 0 <= j < |d[i].values| ==> r[i].values[j] == f(d[i].values[j])
  {
    seq(|d|, i requires 0 <= i < |d| => Entry(d[i].key, seq(|d[i].values|, j requires 0 <= j < |d[i].values| => f(d[i].values[j]))))
  }

  /** Appending commutes with mapping the values. */
  lemma {:induction false} AppendMapValues<K, V, W>(d: Dict<K, V>, k: K, v: V, f: V -> W)
    requires DistinctKeys(d)
    ensures MapValues(Append(d, k, v), f) == Append(MapValues(d, f), k, f(v))
  {
    var lhs, rhs := MapValues(Append(d, k, v), f), Append(MapValues(d, f), k, f(v));
    assert Keys(MapValues(d, f)) == Keys(d);
    assert DistinctKeys(MapValues(d, f));
    assert Keys(lhs) == Keys(rhs);
    assert |lhs| == |rhs|;
    forall i | 0 <= i < |lhs| ensures lhs[i] == rhs[i] {
      if i < |d| {
        assert lhs[i].values == rhs[i].values;
      }
    }
  }

  /** [item for sublist in d.values() for item in sublist] */
  function FlattenValues<K, V>(d: Dict<K, V>): (r: seq<V>)
    ensures forall i, v :: 0 <= i < |d| && v in d[i].values ==> v in r
    ensures forall v :: v in r ==> exists i :: 0 <= i < |d| && v in d[i].values
  {
    if d == [] then []
    else
      var rest := FlattenValues(d[1..]);
      assert forall i, v :: 1 <= i < |d| && v in d[i].values ==> v in rest by {
        forall i, v | 1 <= i < |d| && v in d[i].values ensures v in rest {
          assert d[1..][i - 1] == d[i];
        }
      }
      assert forall v :: v in rest ==> exists i :: 0 <= i < |d| && v in d[i].values by {
        forall v | v in rest ensures exists i :: 0 <= i < |d| && v in d[i].values {
          var i :| 0 <= i < |d| - 1 && v in d[1..][i].values;
          assert d[i + 1] == d[1..][i];
        }
      }
      d[0].values + rest
  }

  lemma {:induction false} FlattenLength<K, V>(d: Dict<K, V>)
    ensures |FlattenValues(d)| == TotalCount(d)
  {
    if d != [] {
      FlattenLength(d[1..]);
    }
  }

  /** Flattening keeps dict order: the values of earlier keys come first. */
  lemma {:induction false} FlattenConcat<K, V>(a: Dict<K, V>, b: Dict<K, V>)
    ensures FlattenValues(a + b) == FlattenValues(a) + FlattenValues(b)
  {
    if a == [] {
      assert a + b == b;
    } else {
      assert (a + b)[1..] == a[1..] + b;
      FlattenConcat(a[1..], b);
    }
  }

  /** Within one key, flattening keeps the list order. */
  lemma FlattenSingle<K, V>(k: K, vs: seq<V>)
    ensures FlattenValues([Entry(k, vs)]) == vs
  {
    assert [Entry(k, vs)][1..] == [];
  }

  /** An empty dict, or one whose lists are all empty, flattens to []. */
  lemma {:induction false} FlattenAllEmpty<K, V>(d: Dict<K, V>)
    requires forall i :: 0 <= i < |d| ==> d[i].values == []
    ensures FlattenValues(d) == []
  {
    if d != [] {
      FlattenAllEmpty(d[1..]);
    }
  }

  /** An item is in the flat list exactly when it is in one of the value lists. */
  lemma {:induction false} FlattenMembership<K, V>(d: Dict<K, V>, x: V)
    ensures x in FlattenValues(d) <==> exists i :: 0 <= i < |d| && x in d[i].values
  {
    if d != [] {
      FlattenMembership(d[1..], x);
      if x in FlattenValues(d[1..]) {
        var i :| 0 <= i < |d[1..]| && x in d[1..][i].values;
        assert x in d[i + 1].values;
      }
      if exists i :: 0 <= i < |d| && x in d[i].values {
        var i :| 0 <= i < |d| && x in d[i].values;
        if i > 0 {
          assert x in d[1..][i - 1].values;
        }
      }
    }
  }
}
