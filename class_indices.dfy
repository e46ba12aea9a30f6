/**
 * `classIndices.py`: `idx_to_class`, the inversion of the image folder's
 * `class_to_idx` mapping by a dict comprehension.
 */
module ClassIndices {
  import opened Wrappers
  import opened Dicts

  /** The items of `d` with key and value swapped, in iteration order. */
  function Swapped<K, V>(d: Dict<K, V>): (r: Dict<V, K>)
    ensures |r| == |d| && forall i :: 0 <= i < |d| ==> r[i] == (d[i].1, d[i].0)
  {
    seq(|d|, i requires 0 <= i < |d| => (d[i].1, d[i].0))
  }

  /** `{v: k for k, v in class_to_idx.items()}` */
  function Invert<K(==, !new), V(==, !new)>(d: Dict<K, V>): Dict<V, K>
  {
    FromItems(Swapped(d))
  }

  /** No two keys of `d` share a value. */
  predicate Injective<K, V(==)>(d: Dict<K, V>)
  {
    forall i, j :: 0 <= i < j < |d| ==> d[i].1 != d[j].1
  }

  /** The keys of `idx_to_class` are exactly the values of `class_to_idx`. */
  lemma InvertKeys<K(!new), V(!new)>(d: Dict<K, V>)
    ensures forall v :: v in Keys(Invert(d)) <==> exists i :: 0 <= i < |d| && d[i].1 == v
  {
    FromItemsKeys(Swapped(d));
  }

  /**
   * When several names share an index, the comprehension keeps overwriting:
   * `idx_to_class[v]` is the last name in iteration order with index `v`.
   */
  lemma InvertLaterWins<K(!new), V(!new)>(d: Dict<K, V>, v: V, k: K)
    ensures Get(Invert(d), v) == Some(k) <==>
      exists i :: 0 <= i < |d| && d[i] == (k, v) && forall j :: i < j < |d| ==> d[j].1 != v
  {
    var s := Swapped(d);
    FromItemsLaterWins(s, v, k);
    if exists i :: 0 <= i < |d| && d[i] == (k, v) && forall j :: i < j < |d| ==> d[j].1 != v {
      var i :| 0 <= i < |d| && d[i] == (k, v) && forall j :: i < j < |d| ==> d[j].1 != v;
      assert s[i] == (v, k) && forall j :: i < j < |s| ==> s[j].0 != v;
    }
    if exists i :: 0 <= i < |s| && s[i] == (v, k) && forall j :: i < j < |s| ==> s[j].0 != v {
      var i :| 0 <= i < |s| && s[i] == (v, k) && forall j :: i < j < |s| ==> s[j].0 != v;
      assert d[i] == (k, v) && forall j :: i < j < |d| ==> d[j].1 != v;
    }
  }

  /** With distinct indices every index maps back to its own class name. */
  lemma InvertInjective<K(!new), V(!new)>(d: Dict<K, V>)
    requires Injective(d)
    ensures forall i :: 0 <= i < |d| ==> Get(Invert(d), d[i].1) == Some(d[i].0)
  {
    forall i | 0 <= i < |d| ensures Get(Invert(d), d[i].1) == Some(d[i].0) {
      InvertLaterWins(d, d[i].1, d[i].0);
    }
  }

  /**
   * For a dict with distinct values, inverting twice gives the dict back, and
   * both have the same size.
   */
  lemma InvertTwice<K(!new), V(!new)>(d: Dict<K, V>)
    requires UniqueKeys(d) && Injective(d)
    ensures |Invert(d)| == |d|
    ensures Invert(Invert(d)) == d
  {
    FromDistinctItems(Swapped(d));
    assert Swapped(Swapped(d)) == d;
    FromDistinctItems(Swapped(Swapped(d)));
  }
}
