/** An insertion-ordered map, the model of a JavaScript `Map` (and of a plain
    object's string keys): a sequence of entries whose keys are distinct.
    `Set` on a present key replaces its value in place, on an absent key appends. */
module OrderedMaps {
  import opened Wrappers
  import opened Sequences

  type OrderedMap<K, V> = seq<(K, V)>

  /** `Array.from(m.keys())`. */
  function Keys<K, V>(m: OrderedMap<K, V>): (r: seq<K>)
    ensures |r| == |m|
    ensures forall i :: 0 <= i < |m| ==> r[i] == m[i].0
  {
    if |m| == 0 then [] else [m[0].0] + Keys(m[1..])
  }

  lemma KeysLast<K, V>(m: OrderedMap<K, V>)
    requires |m| > 0
    ensures Keys(m) == Keys(m[..|m| - 1]) + [m[|m| - 1].0]
  {
    var init := Keys(m[..|m| - 1]) + [m[|m| - 1].0];
    forall i | 0 <= i < |m|
      ensures Keys(m)[i] == init[i]
    {
      if i < |m| - 1 {
        assert init[i] == Keys(m[..|m| - 1])[i];
      }
    }
  }

  /** No key occurs twice. */
  predicate Valid<K(==), V>(m: OrderedMap<K, V>) {
    forall i, j :: 0 <= i < j < |m| ==> m[i].0 != m[j].0
  }

  /** `m.has(k)`. */
  predicate Has<K(==), V>(m: OrderedMap<K, V>, k: K) {
    k in Keys(m)
  }

  /** `m.get(k)`; `None` stands for `undefined`. */
  function Get<K(==), V>(m: OrderedMap<K, V>, k: K): (r: Option<V>)
    ensures r.Some? <==> Has(m, k)
    ensures r.Some? ==> (k, r.value) in m
    ensures Valid(m) ==> forall i :: 0 <= i < |m| && m[i].0 == k ==> r == Some(m[i].1)
  {
    if |m| == 0 then None
    else if m[0].0 == k then Some(m[0].1)
    else Get(m[1..], k)
  }

  /** `m.set(k, v)`. */
  function Set<K(==), V>(m: OrderedMap<K, V>, k: K, v: V): OrderedMap<K, V>
  {
    if |m| == 0 then [(k, v)]
    else if m[0].0 == k then [(k, v)] + m[1..]
    else [m[0]] + Set(m[1..], k, v)
  }

  /** After `m.set(k, v)`, `k` maps to `v` and every other key is unchanged. */
  lemma {:induction false} SetGet<K, V>(m: OrderedMap<K, V>, k: K, v: V, k': K)
    ensures Get(Set(m, k, v), k) == Some(v)
    ensures k' != k ==> Get(Set(m, k, v), k') == Get(m, k')
  {
    if |m| > 0 && m[0].0 != k {
      SetGet(m[1..], k, v, k');
    }
  }

  /** `SetGet` for every key at once. */
  lemma SetGetAll<K, V>(m: OrderedMap<K, V>, k: K, v: V)
    ensures forall k' :: Get(Set(m, k, v), k') == if k' == k then Some(v) else Get(m, k')
  {
    forall k' {
      SetGet(m, k, v, k');
    }
  }

  /** Every entry after `m.set(k, v)` is `(k, v)` or an entry of `m`. */
  lemma {:induction false} SetEntries<K, V>(m: OrderedMap<K, V>, k: K, v: V)
    ensures forall i :: 0 <= i < |Set(m, k, v)| ==> Set(m, k, v)[i] == (k, v) || Set(m, k, v)[i] in m
  {
    if |m| > 0 && m[0].0 != k {
      SetEntries(m[1..], k, v);
      var r := Set(m, k, v);
      forall i | 0 <= i < |r|
        ensures r[i] == (k, v) || r[i] in m
      {
        if i > 0 {
          assert r[i] == Set(m[1..], k, v)[i - 1];
        }
      }
    }
  }

  /** `m.set(k, v)` keeps the key order, appending `k` only when it is new. */
  lemma {:induction false} SetKeys<K, V>(m: OrderedMap<K, V>, k: K, v: V)
    ensures Keys(Set(m, k, v)) == if Has(m, k) then Keys(m) else Keys(m) + [k]
  {
    if |m| > 0 {
      SetKeys(m[1..], k, v);
      assert Keys(m) == [m[0].0] + Keys(m[1..]);
      if m[0].0 != k {
        assert Keys(Set(m, k, v)) == [m[0].0] + Keys(Set(m[1..], k, v));
      } else {
        assert Keys(Set(m, k, v)) == [k] + Keys(m[1..]);
      }
    }
  }

  /** After `m.set(k, v)` the keys are those of `m` and `k`. */
  lemma SetHas<K, V>(m: OrderedMap<K, V>, k: K, v: V)
    ensures forall x :: Has(Set(m, k, v), x) <==> Has(m, x) || x == k
  {
    SetKeys(m, k, v);
  }

  /** `m.set(k, v)` on a new key appends the entry. */
  lemma {:induction false} SetAbsent<K, V>(m: OrderedMap<K, V>, k: K, v: V)
    requires !Has(m, k)
    ensures Set(m, k, v) == m + [(k, v)]
  {
    if |m| > 0 {
      assert Keys(m) == [m[0].0] + Keys(m[1..]);
      SetAbsent(m[1..], k, v);
      assert [m[0]] + (m[1..] + [(k, v)]) == m + [(k, v)];
    }
  }

  /** `m.set(k, v)` keeps the keys distinct. */
  lemma SetValid<K, V>(m: OrderedMap<K, V>, k: K, v: V)
    requires Valid(m)
    ensures Valid(Set(m, k, v))
  {
    SetKeys(m, k, v);
    var r := Set(m, k, v);
    assert Keys(r) == Keys(m) || Keys(r) == Keys(m) + [k];
    forall i, j | 0 <= i < j < |r|
      ensures r[i].0 != r[j].0
    {
      assert Keys(r)[i] == r[i].0 && Keys(r)[j] == r[j].0;
    }
  }

  /** `m.delete(k)`. */
  function Delete<K(==,!new), V>(m: OrderedMap<K, V>, k: K): (r: OrderedMap<K, V>)
    ensures !Has(r, k)
    ensures forall k' :: k' != k ==> Get(r, k') == Get(m, k')
    ensures !Has(m, k) ==> r == m
  {
    if |m| == 0 then []
    else if m[0].0 == k then Delete(m[1..], k)
    else [m[0]] + Delete(m[1..], k)
  }

  /** `m.delete(k)` keeps only entries of `m`, and keeps the keys distinct. */
  lemma {:induction false} DeleteEntries<K(!new), V>(m: OrderedMap<K, V>, k: K)
    ensures forall i :: 0 <= i < |Delete(m, k)| ==> Delete(m, k)[i] in m
    ensures Valid(m) ==> Valid(Delete(m, k))
  {
    if |m| > 0 {
      DeleteEntries(m[1..], k);
      var r := Delete(m, k);
      if m[0].0 != k {
        forall i | 0 <= i < |r|
          ensures r[i] in m
        {
          if i > 0 {
            assert r[i] == Delete(m[1..], k)[i - 1];
          }
        }
        if Valid(m) {
          forall i, j | 0 <= i < j < |r|
            ensures r[i].0 != r[j].0
          {
            assert r[j] == Delete(m[1..], k)[j - 1];
            if i > 0 {
              assert r[i] == Delete(m[1..], k)[i - 1];
            } else {
              var t :| 0 <= t < |m[1..]| && m[1..][t] == r[j];
              assert m[t + 1] == r[j];
            }
          }
        }
      }
    }
  }

  /** `PoppableMap.pop(k)`: the value of `k` (or `undefined`) and the map
      without `k`. */
  function Pop<K(==,!new), V>(m: OrderedMap<K, V>, k: K): (r: (Option<V>, OrderedMap<K, V>))
    ensures !Has(m, k) ==> r.0 == None && r.1 == m
    ensures Has(m, k) ==> r.0.Some? && (k, r.0.value) in m
    ensures r.0 == Get(m, k)
    ensures !Has(r.1, k)
    ensures forall k' :: k' != k ==> Get(r.1, k') == Get(m, k')
  {
    if !Has(m, k) then (None, m)
    else (Get(m, k), Delete(m, k))
  }
}
