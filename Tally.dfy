/** Counting occurrences into a JavaScript `Map`, as both bar charts do:
    `ks.forEach(k => counts.set(k, (counts.get(k) || 0) + 1))`. */
module Tally {
  import opened ArrayOps
  import opened OrderedMap

  /** `counts.set(k, (counts.get(k) || 0) + 1)`. */
  function Bump<K(==)>(counts: seq<(K, nat)>, k: K): seq<(K, nat)> {
    Store(counts, k, GetOr(Lookup(counts, k), 0) + 1)
  }

  /** The map that counting every element of `ks`, in order, leaves behind. */
  function TallyOf<K(==)>(ks: seq<K>): seq<(K, nat)> {
    if ks == [] then [] else Bump(TallyOf(ks[..|ks| - 1]), ks[|ks| - 1])
  }

  /** Counting one more element bumps its count in the map counted so far. */
  lemma TallyAppend<K>(ks: seq<K>, k: K)
    ensures TallyOf(ks + [k]) == Bump(TallyOf(ks), k)
  {
    assert (ks + [k])[..|ks|] == ks;
  }

  /** The sum of the counts in a map. */
  function Total<K>(counts: seq<(K, nat)>): int {
    SumOf(counts, (n: nat) => n)
  }

  /** Each distinct element gets one entry, holding the number of its occurrences;
      elements that do not occur have no entry. */
  lemma {:induction false} TallyCounts<K>(ks: seq<K>)
    ensures DistinctKeys(TallyOf(ks))
    ensures forall k :: Lookup(TallyOf(ks), k) == if k in ks then Some(multiset(ks)[k]) else None
  {
    if ks != [] {
      var pre, x := ks[..|ks| - 1], ks[|ks| - 1];
      assert ks == pre + [x];
      var t := TallyOf(pre);
      var v := GetOr(Lookup(t, x), 0) + 1;
      assert TallyOf(ks) == Store(t, x, v);
      TallyCounts(pre);
      StoreDistinct(t, x, v);
      assert multiset(ks) == multiset(pre) + multiset{x};
      forall k ensures Lookup(TallyOf(ks), k) == if k in ks then Some(multiset(ks)[k]) else None {
        StoreLookup(t, x, v, k);
        assert k in ks <==> k in pre || k == x;
      }
    }
  }

  /** Every element is counted exactly once: the counts add up to the number of elements. */
  lemma {:induction false} TallyTotal<K>(ks: seq<K>)
    ensures Total(TallyOf(ks)) == |ks|
  {
    if ks != [] {
      var pre, x := ks[..|ks| - 1], ks[|ks| - 1];
      var t := TallyOf(pre);
      var v := GetOr(Lookup(t, x), 0) + 1;
      assert TallyOf(ks) == Store(t, x, v);
      TallyTotal(pre);
      SumOfStore(t, x, v, (n: nat) => n);
    }
  }

  /** Each entry is an element of the input together with its number of occurrences,
      so no count is below one. */
  lemma TallyEntries<K>(ks: seq<K>)
    ensures forall i :: 0 <= i < |TallyOf(ks)| ==>
      TallyOf(ks)[i].0 in ks && TallyOf(ks)[i].1 == multiset(ks)[TallyOf(ks)[i].0] >= 1
  {
    var t := TallyOf(ks);
    TallyCounts(ks);
    forall i | 0 <= i < |t| ensures t[i].0 in ks && t[i].1 == multiset(ks)[t[i].0] >= 1 {
      LookupEntry(t, i);
      assert Lookup(t, t[i].0) == if t[i].0 in ks then Some(multiset(ks)[t[i].0]) else None;
      assert t[i].0 in ks;
      assert t[i].0 in multiset(ks);
    }
  }

  /** The entries come in the order in which their elements first occur. */
  lemma {:induction false} TallyFirstAppearance<K>(ks: seq<K>)
    ensures forall i, j :: 0 <= i < j < |TallyOf(ks)| ==>
      IndexOf(ks, TallyOf(ks)[i].0) < IndexOf(ks, TallyOf(ks)[j].0)
  {
    if ks != [] {
      var pre, x := ks[..|ks| - 1], ks[|ks| - 1];
      assert ks == pre + [x];
      var t := TallyOf(pre);
      var v := GetOr(Lookup(t, x), 0) + 1;
      var t' := TallyOf(ks);
      assert t' == Store(t, x, v);
      TallyFirstAppearance(pre);
      TallyCounts(pre);
      TallyEntries(pre);
      StoreKeys(t, x, v);
      forall i | 0 <= i < |t| ensures IndexOf(ks, t[i].0) == IndexOf(pre, t[i].0) < |pre| {
        IndexOfAppend(pre, x, t[i].0);
      }
      if x in pre {
        forall i, j | 0 <= i < j < |t'| ensures IndexOf(ks, t'[i].0) < IndexOf(ks, t'[j].0) {
          assert t'[i].0 == t[i].0 && t'[j].0 == t[j].0;
        }
      } else {
        IndexOfAppend(pre, x, x);
        forall i, j | 0 <= i < j < |t'| ensures IndexOf(ks, t'[i].0) < IndexOf(ks, t'[j].0) {
          assert t'[i] == t[i];
          if j < |t| {
            assert t'[j] == t[j];
          }
        }
      }
    }
  }

  /** `es` holds exactly one entry per distinct element of `ks`, with its number of
      occurrences (so at least one). */
  ghost predicate CountsOf<K>(ks: seq<K>, es: seq<(K, nat)>) {
    DistinctKeys(es) &&
    (forall i :: 0 <= i < |es| ==> es[i].0 in ks && es[i].1 == multiset(ks)[es[i].0] >= 1) &&
    (forall k :: k in ks ==> exists i :: 0 <= i < |es| && es[i].0 == k)
  }

  /** After sorting the counted entries by any rank, there is still exactly one entry per
      distinct element, holding its number of occurrences. */
  lemma SortedTallyEntries<K>(ks: seq<K>, rank: ((K, nat)) -> int)
    ensures CountsOf(ks, SortBy(TallyOf(ks), rank))
  {
    var t := TallyOf(ks);
    var s := SortBy(t, rank);
    TallyCounts(ks);
    TallyEntries(ks);
    SortByDistinctKeys(t, rank);
    forall i | 0 <= i < |s| ensures s[i].0 in ks && s[i].1 == multiset(ks)[s[i].0] >= 1 {
      assert s[i] in multiset(t) by { assert s[i] in multiset(s); }
      var j :| 0 <= j < |t| && t[j] == s[i];
    }
    forall k | k in ks ensures exists i :: 0 <= i < |s| && s[i].0 == k {
      LookupFinds(t, k);
      var j :| 0 <= j < |t| && t[j] == (k, multiset(ks)[k]);
      assert t[j] in multiset(s) by { assert t[j] in multiset(t); }
      var i :| 0 <= i < |s| && s[i] == t[j];
    }
  }

  /** Sorting the counted entries loses and duplicates nothing: the counts still add up to
      the number of elements. */
  lemma SortedTallyTotal<K>(ks: seq<K>, rank: ((K, nat)) -> int)
    ensures Total(SortBy(TallyOf(ks), rank)) == |ks|
  {
    TallyTotal(ks);
    SumOfSortBy(TallyOf(ks), rank, (n: nat) => n);
  }

  /** Entries of equal rank stand in the order in which their elements first occur in `ks`. */
  ghost predicate TiesInFirstAppearance<K>(ks: seq<K>, s: seq<(K, nat)>, rank: ((K, nat)) -> int) {
    forall i, j :: 0 <= i < j < |s| && rank(s[i]) == rank(s[j]) ==> IndexOf(ks, s[i].0) < IndexOf(ks, s[j].0)
  }

  /** Entries of equal rank stay in the order in which their elements first occur, since the
      sort is stable and the counting map keeps first-insertion order. */
  lemma SortedTallyTies<K>(ks: seq<K>, rank: ((K, nat)) -> int)
    ensures TiesInFirstAppearance(ks, SortBy(TallyOf(ks), rank), rank)
  {
    var before := (a: (K, nat), b: (K, nat)) => IndexOf(ks, a.0) < IndexOf(ks, b.0);
    TallyFirstAppearance(ks);
    var t := TallyOf(ks);
    assert TiesOrdered(t, rank, before) by {
      forall i, j | 0 <= i < j < |t| && rank(t[i]) == rank(t[j]) ensures before(t[i], t[j]) {
      }
    }
    SortByStable(t, rank, before);
    var s := SortBy(t, rank);
    forall i, j | 0 <= i < j < |s| && rank(s[i]) == rank(s[j]) ensures IndexOf(ks, s[i].0) < IndexOf(ks, s[j].0) {
      assert before(s[i], s[j]);
    }
  }
}
