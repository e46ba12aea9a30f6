/**
 * Python dictionaries: a sequence of items in insertion order with distinct keys.
 * Assigning to an existing key replaces its value where it stands; a new key goes
 * at the end.
 */
module Dicts {
  import opened Wrappers

  type Dict<K, V> = seq<(K, V)>

  /** `list(d.keys())` */
  function Keys<K, V>(d: Dict<K, V>): (r: seq<K>)
    ensures |r| == |d| && forall i :: 0 <= i < |d| ==> r[i] == d[i].0
  {
    seq(|d|, i requires 0 <= i < |d| => d[i].0)
  }

  predicate UniqueKeys<K(==, !new), V>(d: Dict<K, V>)
  {
    forall i, j :: 0 <= i < j < |d| ==> d[i].0 != d[j].0
  }

  /** `d.get(k)` */
  function Get<K(==, !new), V>(d: Dict<K, V>, k: K): Option<V>
  {
    if d == [] then None
    else if d[0].0 == k then Some(d[0].1)
    else Get(d[1..], k)
  }

  /** How `Keys`, `Get` and `UniqueKeys` see a non-empty dict: its first item, then the rest. */
  lemma FirstAndRest<K(!new), V>(d: Dict<K, V>)
    requires d != []
    ensures Keys(d) == [d[0].0] + Keys(d[1..])
    ensures forall k :: Get(d, k) == if d[0].0 == k then Some(d[0].1) else Get(d[1..], k)
    ensures UniqueKeys(d) <==> UniqueKeys(d[1..]) && d[0].0 !in Keys(d[1..])
  {
    if UniqueKeys(d[1..]) && d[0].0 !in Keys(d[1..]) {
      forall i, j | 0 <= i < j < |d| ensures d[i].0 != d[j].0 {
        if i == 0 {
          assert d[j].0 == Keys(d[1..])[j - 1];
        } else {
          assert d[i] == d[1..][i - 1] && d[j] == d[1..][j - 1];
        }
      }
    }
  }

  /** Putting a key that is not the first one: the first item stays, the rest takes the put. */
  lemma PutBehind<K(!new), V>(d: Dict<K, V>, k: K, v: V, rest: Dict<K, V>)
    requires UniqueKeys(d) && d != [] && d[0].0 != k
    requires UniqueKeys(rest)
    requires Keys(rest) == if k in Keys(d[1..]) then Keys(d[1..]) else Keys(d[1..]) + [k]
    requires Get(rest, k) == Some(v)
    requires forall k' :: k' != k ==> Get(rest, k') == Get(d[1..], k')
    ensures UniqueKeys([d[0]] + rest)
    ensures Keys([d[0]] + rest) == if k in Keys(d) then Keys(d) else Keys(d) + [k]
    ensures Get([d[0]] + rest, k) == Some(v)
    ensures forall k' :: k' != k ==> Get([d[0]] + rest, k') == Get(d, k')
  {
    PutBehindKeys(d, k, rest);
    PutBehindGet(d, k, v, rest);
  }

  /** The keys half of `PutBehind`. */
  lemma PutBehindKeys<K(!new), V>(d: Dict<K, V>, k: K, rest: Dict<K, V>)
    requires UniqueKeys(d) && d != [] && d[0].0 != k
    requires UniqueKeys(rest)
    requires Keys(rest) == if k in Keys(d[1..]) then Keys(d[1..]) else Keys(d[1..]) + [k]
    ensures UniqueKeys([d[0]] + rest)
    ensures Keys([d[0]] + rest) == if k in Keys(d) then Keys(d) else Keys(d) + [k]
  {
    var r := [d[0]] + rest;
    assert r != [] && r[0] == d[0] && r[1..] == rest;
    var ks := Keys(d[1..]);
    assert Keys(d) == [d[0].0] + ks && d[0].0 !in ks by {
      FirstAndRest(d);
    }
    assert UniqueKeys(r) && Keys(r) == [d[0].0] + Keys(rest) by {
      FirstAndRest(r);
      assert d[0].0 != k;
    }
    assert k in Keys(d) <==> k in ks;
    if k !in ks {
      assert [d[0].0] + (ks + [k]) == [d[0].0] + ks + [k];
    }
  }

  /** The lookup half of `PutBehind`. */
  lemma PutBehindGet<K(!new), V>(d: Dict<K, V>, k: K, v: V, rest: Dict<K, V>)
    requires d != [] && d[0].0 != k
    requires Get(rest, k) == Some(v)
    requires forall k' :: k' != k ==> Get(rest, k') == Get(d[1..], k')
    ensures Get([d[0]] + rest, k) == Some(v)
    ensures forall k' :: k' != k ==> Get([d[0]] + rest, k') == Get(d, k')
  {
    var r := [d[0]] + rest;
    assert r != [] && r[0] == d[0] && r[1..] == rest;
    assert forall k' :: Get(r, k') == if d[0].0 == k' then Some(d[0].1) else Get(rest, k') by {
      FirstAndRest(r);
    }
    assert forall k' :: Get(d, k') == if d[0].0 == k' then Some(d[0].1) else Get(d[1..], k') by {
      FirstAndRest(d);
    }
  }

  /** Putting the first key replaces its value in place. */
  lemma PutFront<K(!new), V>(d: Dict<K, V>, k: K, v: V)
    requires UniqueKeys(d) && d != [] && d[0].0 == k
    ensures UniqueKeys([(k, v)] + d[1..])
    ensures Keys([(k, v)] + d[1..]) == Keys(d) && k in Keys(d)
    ensures Get([(k, v)] + d[1..], k) == Some(v)
    ensures forall k' :: k' != k ==> Get([(k, v)] + d[1..], k') == Get(d, k')
  {
    var r := [(k, v)] + d[1..];
    assert r != [] && r[0] == (k, v) && r[1..] == d[1..];
    FirstAndRest(d);
    FirstAndRest(r);
  }

  /** `d[k] = v` */
  function Put<K(==, !new), V>(d: Dict<K, V>, k: K, v: V): (r: Dict<K, V>)
    requires UniqueKeys(d)
    ensures UniqueKeys(r)
    decreases |d|, 0
  {
    if d == [] then [(k, v)]
    else if d[0].0 == k then
      PutFront(d, k, v);
      [(k, v)] + d[1..]
    else
      FirstAndRest(d);
      PutSpec(d[1..], k, v);
      PutBehind(d, k, v, Put(d[1..], k, v));
      [d[0]] + Put(d[1..], k, v)
  }

  /**
   * `d[k] = v` keeps the key order, adding `k` at the end when it is new; it maps
   * `k` to `v` and leaves every other key as it was.
   */
  lemma {:induction false} PutSpec<K(!new), V>(d: Dict<K, V>, k: K, v: V)
    requires UniqueKeys(d)
    ensures Keys(Put(d, k, v)) == if k in Keys(d) then Keys(d) else Keys(d) + [k]
    ensures Get(Put(d, k, v), k) == Some(v)
    ensures forall k' :: k' != k ==> Get(Put(d, k, v), k') == Get(d, k')
    decreases |d|, 1
  {
    if d == [] {
      FirstAndRest([(k, v)]);
    } else if d[0].0 == k {
      PutFront(d, k, v);
    } else {
      FirstAndRest(d);
      PutSpec(d[1..], k, v);
      PutBehind(d, k, v, Put(d[1..], k, v));
    }
  }

  /** Assigning to a key already present replaces its item where it stands. */
  lemma {:induction false} PutExisting<K(!new), V>(d: Dict<K, V>, i: nat, v: V)
    requires UniqueKeys(d) && i < |d|
    ensures Put(d, d[i].0, v) == d[i := (d[i].0, v)]
    decreases i
  {
    var k := d[i].0;
    if i == 0 {
      assert Put(d, k, v) == [(k, v)] + d[1..];
    } else {
      assert UniqueKeys(d[1..]) && d[0].0 != k by {
        FirstAndRest(d);
      }
      assert d[1..][i - 1] == d[i];
      PutExisting(d[1..], i - 1, v);
      assert Put(d, k, v) == [d[0]] + Put(d[1..], k, v);
      UpdateBehindHead(d, i, (k, v));
    }
  }

  /** Updating position `i > 0` of a sequence is updating position `i - 1` of its tail. */
  lemma UpdateBehindHead<T>(s: seq<T>, i: nat, x: T)
    requires 0 < i < |s|
    ensures [s[0]] + s[1..][i - 1 := x] == s[i := x]
  {
    var t := [s[0]] + s[1..][i - 1 := x];
    assert |t| == |s|;
    forall j | 0 <= j < |s| ensures t[j] == s[i := x][j] {
      if j > 0 {
        assert t[j] == s[1..][i - 1 := x][j - 1];
      }
    }
  }

  /** `sum(d.values())` */
  function SumValues<K>(d: Dict<K, nat>): nat
  {
    if d == [] then 0 else d[0].1 + SumValues(d[1..])
  }

  /** An item added at the end adds its value. */
  lemma {:induction false} SumValuesSnoc<K>(d: Dict<K, nat>, kv: (K, nat))
    ensures SumValues(d + [kv]) == SumValues(d) + kv.1
  {
    if d != [] {
      SumValuesSnoc(d[1..], kv);
      assert (d + [kv])[1..] == d[1..] + [kv];
    }
  }

  /** Replacing a value changes the sum by the difference; a new key adds its value. */
  lemma {:induction false} SumValuesPut<K(!new)>(d: Dict<K, nat>, k: K, v: nat)
    requires UniqueKeys(d)
    ensures Get(d, k).Some? ==> SumValues(Put(d, k, v)) + Get(d, k).value == SumValues(d) + v
    ensures Get(d, k).None? ==> SumValues(Put(d, k, v)) == SumValues(d) + v
  {
    if d != [] && d[0].0 != k {
      SumValuesPut(d[1..], k, v);
      assert Put(d, k, v)[1..] == Put(d[1..], k, v);
    }
  }

  lemma {:induction false} GetSpec<K(!new), V>(d: Dict<K, V>, k: K)
    requires UniqueKeys(d)
    ensures Get(d, k).Some? <==> k in Keys(d)
    ensures forall i :: 0 <= i < |d| && d[i].0 == k ==> Get(d, k) == Some(d[i].1)
  {
    if d != [] {
      GetSpec(d[1..], k);
      assert Keys(d) == [d[0].0] + Keys(d[1..]);
      forall i | 0 < i < |d| && d[i].0 == k ensures Get(d, k) == Some(d[i].1) {
        assert d[1..][i - 1] == d[i];
      }
    }
  }

  /** `dict(items)`, or a dict comprehension over `items`: the items put one by one. */
  function FromItems<K(==, !new), V>(items: seq<(K, V)>): (r: Dict<K, V>)
    ensures UniqueKeys(r)
  {
    if items == [] then []
    else
      var last := items[|items| - 1];
      Put(FromItems(items[..|items| - 1]), last.0, last.1)
  }

  /** The key set of `dict(items)` is the set of keys the items carry. */
  lemma FromItemsKeys<K(!new), V>(items: seq<(K, V)>)
    ensures forall k :: k in Keys(FromItems(items)) <==> exists i :: 0 <= i < |items| && items[i].0 == k
  {
    forall k ensures k in Keys(FromItems(items)) <==> exists i :: 0 <= i < |items| && items[i].0 == k {
      FromItemsKey(items, k);
    }
  }

  /** One key at a time: `k` is a key of `dict(items)` exactly when some item carries it. */
  lemma {:induction false} FromItemsKey<K(!new), V>(items: seq<(K, V)>, k: K)
    ensures k in Keys(FromItems(items)) <==> exists i :: 0 <= i < |items| && items[i].0 == k
  {
    if items != [] {
      var n := |items|;
      var init, last := items[..n - 1], items[n - 1];
      var d := FromItems(init);
      assert FromItems(items) == Put(d, last.0, last.1);
      PutSpec(d, last.0, last.1);
      FromItemsKey(init, k);
      if i :| 0 <= i < n && items[i].0 == k {
        if i < n - 1 {
          assert init[i].0 == k;
        }
      }
      if k in Keys(d) {
        var i :| 0 <= i < n - 1 && init[i].0 == k;
        assert items[i].0 == k;
      }
    }
  }

  /** `(k, v)` is an item of `items` and no later item has key `k`. */
  ghost predicate LastWith<K, V>(items: seq<(K, V)>, k: K, v: V)
  {
    exists i :: 0 <= i < |items| && items[i] == (k, v) && forall j :: i < j < |items| ==> items[j].0 != k
  }

  /** Only the final item can be the last one with its own key. */
  lemma LastWithFinalKey<K, V>(items: seq<(K, V)>, k: K, v: V)
    requires items != [] && items[|items| - 1].0 == k
    ensures LastWith(items, k, v) <==> items[|items| - 1].1 == v
  {
    var n := |items|;
    forall i | 0 <= i < n - 1
      ensures !(items[i] == (k, v) && forall j :: i < j < n ==> items[j].0 != k)
    {
      assert items[n - 1].0 == k;
    }
    if items[n - 1].1 == v {
      assert items[n - 1] == (k, v);
    }
  }

  /** A final item with another key does not change which item is last with key `k`. */
  lemma LastWithOtherKey<K, V>(items: seq<(K, V)>, k: K, v: V)
    requires items != [] && items[|items| - 1].0 != k
    ensures LastWith(items, k, v) <==> LastWith(items[..|items| - 1], k, v)
  {
    var n := |items|;
    var init := items[..n - 1];
    if LastWith(items, k, v) {
      var i :| 0 <= i < n && items[i] == (k, v) && forall j :: i < j < n ==> items[j].0 != k;
      assert init[i] == (k, v) && forall j :: i < j < n - 1 ==> init[j].0 != k;
    }
    if LastWith(init, k, v) {
      var i :| 0 <= i < n - 1 && init[i] == (k, v) && forall j :: i < j < n - 1 ==> init[j].0 != k;
      assert items[i] == (k, v) && forall j :: i < j < n ==> items[j].0 != k;
    }
  }

  /**
   * When several items share a key, the last of them wins: `dict(items)` maps `k`
   * to `v` exactly when `(k, v)` is an item and no later item has key `k`.
   */
  lemma {:induction false} FromItemsLaterWins<K(!new), V>(items: seq<(K, V)>, k: K, v: V)
    ensures Get(FromItems(items), k) == Some(v) <==> LastWith(items, k, v)
  {
    if items != [] {
      var n := |items|;
      var init, last := items[..n - 1], items[n - 1];
      var d := FromItems(init);
      assert FromItems(items) == Put(d, last.0, last.1);
      PutSpec(d, last.0, last.1);
      FromItemsLaterWins(init, k, v);
      if last.0 == k {
        LastWithFinalKey(items, k, v);
      } else {
        assert Get(FromItems(items), k) == Get(d, k);
        LastWithOtherKey(items, k, v);
      }
    }
  }

  /** Items with distinct keys make a dict holding exactly those items, in order. */
  lemma {:induction false} FromDistinctItems<K(!new), V>(items: seq<(K, V)>)
    requires UniqueKeys(items)
    ensures FromItems(items) == items
  {
    if items != [] {
      var n := |items|;
      var init, last := items[..n - 1], items[n - 1];
      assert UniqueKeys(init) by {
        forall i, j | 0 <= i < j < n - 1 ensures init[i].0 != init[j].0 {
          assert init[i] == items[i] && init[j] == items[j];
        }
      }
      assert last.0 !in Keys(init) by {
        forall i | 0 <= i < n - 1 ensures Keys(init)[i] != last.0 {
          assert init[i] == items[i];
        }
      }
      calc {
        FromItems(items);
        Put(FromItems(init), last.0, last.1);
        { FromDistinctItems(init); }
        Put(init, last.0, last.1);
        { PutNewKey(init, last.0, last.1); }
        init + [last];
        items;
      }
    }
  }

  lemma {:induction false} PutNewKey<K(!new), V>(d: Dict<K, V>, k: K, v: V)
    requires UniqueKeys(d) && k !in Keys(d)
    ensures Put(d, k, v) == d + [(k, v)]
  {
    if d != [] {
      FirstAndRest(d);
      assert d[0].0 != k;
      PutNewKey(d[1..], k, v);
      assert Put(d, k, v) == [d[0]] + Put(d[1..], k, v);
      assert d == [d[0]] + d[1..];
    }
  }
}
