/** A JavaScript `Map` as the charts use it: its entries in insertion order.
    `get` answers for a key, `set` replaces the value of a key already present
    in place and appends a new key at the end, and `Array.from(map.entries())`
    is the list of entries itself. */
module OrderedMap {
  import opened ArrayOps

  datatype Option<T> = None | Some(value: T)

  /** `o || fallback` for a `Map.get` result that is never falsy when present. */
  function GetOr<T>(o: Option<T>, fallback: T): T {
    match o
    case Some(v) => v
    case None => fallback
  }

  /** No key occurs twice, as in every JavaScript `Map`. */
  ghost predicate DistinctKeys<K, V>(es: seq<(K, V)>) {
    forall i, j :: 0 <= i < j < |es| ==> es[i].0 != es[j].0
  }

  /** `map.get(k)`. */
  function Lookup<K(==), V>(es: seq<(K, V)>, k: K): Option<V> {
    if es == [] then None
    else if es[0].0 == k then Some(es[0].1)
    else Lookup(es[1..], k)
  }

  /** `get` finds a key exactly when some entry holds it, and answers with the value of
      the first such entry. */
  lemma {:induction false} LookupFinds<K, V>(es: seq<(K, V)>, k: K)
    ensures Lookup(es, k).None? <==> forall i :: 0 <= i < |es| ==> es[i].0 != k
    ensures Lookup(es, k).Some? ==>
      exists i :: 0 <= i < |es| && es[i] == (k, Lookup(es, k).value) && forall j :: 0 <= j < i ==> es[j].0 != k
  {
    if es != [] && es[0].0 != k {
      LookupFinds(es[1..], k);
      if Lookup(es, k).Some? {
        var i :| 0 <= i < |es[1..]| && es[1..][i] == (k, Lookup(es, k).value) && forall j :: 0 <= j < i ==> es[1..][j].0 != k;
        assert es[i + 1] == es[1..][i];
        forall j | 0 <= j < i + 1 ensures es[j].0 != k {
          if j > 0 { assert es[j] == es[1..][j - 1]; }
        }
      } else {
        forall i | 0 <= i < |es| ensures es[i].0 != k {
          if i > 0 { assert es[i] == es[1..][i - 1]; }
        }
      }
    } else if es != [] {
      assert es[0] == (k, Lookup(es, k).value);
    }
  }

  /** In a map without repeated keys, every entry is what `get` returns for its key. */
  lemma {:induction false} LookupEntry<K, V>(es: seq<(K, V)>, i: nat)
    requires DistinctKeys(es) && i < |es|
    ensures Lookup(es, es[i].0) == Some(es[i].1)
  {
    if i > 0 {
      assert DistinctKeys(es[1..]) by {
        forall a, b | 0 <= a < b < |es[1..]| ensures es[1..][a].0 != es[1..][b].0 {
          assert es[1..][a] == es[a + 1] && es[1..][b] == es[b + 1];
        }
      }
      assert es[0].0 != es[i].0;
      assert es[1..][i - 1] == es[i];
      LookupEntry(es[1..], i - 1);
    }
  }

  /** `map.set(k, v)`. */
  function Store<K(==), V>(es: seq<(K, V)>, k: K, v: V): seq<(K, V)> {
    if es == [] then [(k, v)]
    else if es[0].0 == k then [(k, v)] + es[1..]
    else [es[0]] + Store(es[1..], k, v)
  }

  /** After `set`, `get` answers `v` for `k` and what it answered before for every other key. */
  lemma {:induction false} StoreLookup<K, V>(es: seq<(K, V)>, k: K, v: V, k': K)
    ensures Lookup(Store(es, k, v), k') == if k' == k then Some(v) else Lookup(es, k')
  {
    if es != [] && es[0].0 != k {
      StoreLookup(es[1..], k, v, k');
    }
  }

  /** `set` of a new key appends it; `set` of a present key leaves every key in its place. */
  lemma {:induction false} StoreKeys<K, V>(es: seq<(K, V)>, k: K, v: V)
    ensures Lookup(es, k).None? ==> Store(es, k, v) == es + [(k, v)]
    ensures Lookup(es, k).Some? ==>
      |Store(es, k, v)| == |es| && forall i :: 0 <= i < |es| ==> Store(es, k, v)[i].0 == es[i].0
  {
    if es != [] && es[0].0 != k {
      StoreKeys(es[1..], k, v);
      var r := Store(es, k, v);
      if Lookup(es, k).Some? {
        forall i | 0 <= i < |es| ensures r[i].0 == es[i].0 {
          if i > 0 {
            assert r[i] == Store(es[1..], k, v)[i - 1] && es[i] == es[1..][i - 1];
          }
        }
      } else {
        assert es == [es[0]] + es[1..];
      }
    }
  }

  /** `set` keeps the keys of a map distinct. */
  lemma StoreDistinct<K, V>(es: seq<(K, V)>, k: K, v: V)
    requires DistinctKeys(es)
    ensures DistinctKeys(Store(es, k, v))
  {
    StoreKeys(es, k, v);
    LookupFinds(es, k);
    var r := Store(es, k, v);
    if Lookup(es, k).None? {
      forall a, b | 0 <= a < b < |r| ensures r[a].0 != r[b].0 {
        assert r[a] == es[a];
      }
    } else {
      forall a, b | 0 <= a < b < |r| ensures r[a].0 != r[b].0 {
        assert r[a].0 == es[a].0 && r[b].0 == es[b].0;
      }
    }
  }

  /** The sum of `weight` over the values of a map. */
  function SumOf<K, V>(es: seq<(K, V)>, weight: V -> int): int {
    if es == [] then 0 else weight(es[0].1) + SumOf(es[1..], weight)
  }

  /** `set` changes the sum by the weight of the new value less that of the value it replaces. */
  lemma {:induction false} SumOfStore<K, V>(es: seq<(K, V)>, k: K, v: V, weight: V -> int)
    ensures SumOf(Store(es, k, v), weight) ==
      SumOf(es, weight) - (if Lookup(es, k).Some? then weight(Lookup(es, k).value) else 0) + weight(v)
  {
    if es != [] && es[0].0 != k {
      SumOfStore(es[1..], k, v, weight);
    }
  }

  /** The sum over two lists of entries put end to end. */
  lemma {:induction false} SumOfAppend<K, V>(a: seq<(K, V)>, b: seq<(K, V)>, weight: V -> int)
    ensures SumOf(a + b, weight) == SumOf(a, weight) + SumOf(b, weight)
  {
    if a != [] {
      assert (a + b)[0] == a[0] && (a + b)[1..] == a[1..] + b;
      SumOfAppend(a[1..], b, weight);
    } else {
      assert a + b == b;
    }
  }

  /** Inserting an entry adds its weight to the sum. */
  lemma SumOfInsert<K, V>(x: (K, V), s: seq<(K, V)>, rank: ((K, V)) -> int, weight: V -> int)
    ensures SumOf(Insert(x, s, rank), weight) == weight(x.1) + SumOf(s, weight)
  {
    var p := InsertPos(x, s, rank);
    assert s == s[..p] + s[p..];
    assert Insert(x, s, rank) == s[..p] + ([x] + s[p..]);
    SumOfAppend(s[..p], [x] + s[p..], weight);
    SumOfAppend(s[..p], s[p..], weight);
    assert ([x] + s[p..])[1..] == s[p..];
  }

  /** Sorting the entries of a map does not change the sum of its values. */
  lemma {:induction false} SumOfSortBy<K, V>(es: seq<(K, V)>, rank: ((K, V)) -> int, weight: V -> int)
    ensures SumOf(SortBy(es, rank), weight) == SumOf(es, weight)
  {
    if es != [] {
      SumOfSortBy(es[1..], rank, weight);
      SumOfInsert(es[0], SortBy(es[1..], rank), rank, weight);
    }
  }

  /** Sorting the entries of a map keeps its keys distinct. */
  lemma {:induction false} SortByDistinctKeys<K, V>(es: seq<(K, V)>, rank: ((K, V)) -> int)
    requires DistinctKeys(es)
    ensures DistinctKeys(SortBy(es, rank))
  {
    if es != [] {
      var t := SortBy(es[1..], rank);
      assert DistinctKeys(es[1..]) by {
        forall a, b | 0 <= a < b < |es[1..]| ensures es[1..][a].0 != es[1..][b].0 {
          assert es[1..][a] == es[a + 1] && es[1..][b] == es[b + 1];
        }
      }
      SortByDistinctKeys(es[1..], rank);
      forall y | y in t ensures y.0 != es[0].0 {
        assert y in multiset(t);
        assert y in multiset(es[1..]);
        var k :| 0 <= k < |es[1..]| && es[1..][k] == y;
        assert es[k + 1] == y;
      }
      InsertDistinctKeys(es[0], t, rank);
    }
  }

  /** Inserting an entry whose key is new keeps the keys distinct. */
  lemma InsertDistinctKeys<K, V>(x: (K, V), s: seq<(K, V)>, rank: ((K, V)) -> int)
    requires DistinctKeys(s)
    requires forall y :: y in s ==> y.0 != x.0
    ensures DistinctKeys(Insert(x, s, rank))
  {
    var p := InsertPos(x, s, rank);
    var r := Insert(x, s, rank);
    forall a, b | 0 <= a < b < |r| ensures r[a].0 != r[b].0 {
      if a == p {
        assert r[b] == s[b - 1];
        assert r[b] in s;
      } else if b == p {
        assert r[a] == s[a];
        assert r[a] in s;
      }
    }
  }
}
