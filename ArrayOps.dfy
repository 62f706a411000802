/** The JavaScript array and number operations the dashboard charts build on:
    `Array.prototype.sort` with a comparator (stable since ES2019), `slice(-n)`,
    `reduce` for a sum, `Math.max`, `Math.round` of a quotient and `indexOf`. */
module ArrayOps {

  /** `Math.max(a, b)` on integers. */
  function Max(a: int, b: int): int {
    if a < b then b else a
  }

  /** Putting lists end to end does not depend on the grouping. */
  lemma AppendAssociative<T>(a: seq<T>, b: seq<T>, c: seq<T>)
    ensures a + (b + c) == (a + b) + c
  {
  }

  /** `xs.reduce((sum, x) => sum + x, 0)`: a left fold, so the last element is added last. */
  function Sum(xs: seq<int>): int {
    if xs == [] then 0 else Sum(xs[..|xs| - 1]) + xs[|xs| - 1]
  }

  /** A running `Math.max` started from `seed`, folded left over `xs`. */
  function MaxFrom(seed: int, xs: seq<int>): (m: int)
    ensures seed <= m
    ensures forall i :: 0 <= i < |xs| ==> xs[i] <= m
    ensures m == seed || m in xs
  {
    if xs == [] then seed else Max(MaxFrom(seed, xs[..|xs| - 1]), xs[|xs| - 1])
  }

  /** `Math.max(...xs)` for a non-empty `xs`: the largest element. */
  function MaxOf(xs: seq<int>): (m: int)
    requires xs != []
    ensures m in xs
    ensures forall i :: 0 <= i < |xs| ==> xs[i] <= m
  {
    if |xs| == 1 then xs[0] else Max(MaxOf(xs[..|xs| - 1]), xs[|xs| - 1])
  }

  /** `Math.round(total / count)` for a positive count, in integer arithmetic:
      the integer nearest to the quotient, a half rounded up. */
  function RoundDiv(total: int, count: int): (r: int)
    requires count > 0
    ensures count * (2 * r - 1) <= 2 * total < count * (2 * r + 1)
  {
    var q := (2 * total + count) / (2 * count);
    var m := (2 * total + count) % (2 * count);
    assert 2 * total + count == 2 * count * q + m;
    assert count * (2 * q - 1) == 2 * count * q - count;
    assert count * (2 * q + 1) == 2 * count * q + count;
    q
  }

  /** The rounding contract pins the result down: only one integer lies within
      half a step of the quotient (with halves going up). */
  lemma RoundDivUnique(total: int, count: int, r: int)
    requires count > 0
    requires count * (2 * r - 1) <= 2 * total < count * (2 * r + 1)
    ensures r == RoundDiv(total, count)
  {
    var q := RoundDiv(total, count);
    if r < q {
      MulMonotone(count, 2 * r + 1, 2 * q - 1);
    } else if q < r {
      MulMonotone(count, 2 * q + 1, 2 * r - 1);
    }
  }

  /** Multiplying by a positive number keeps the order. */
  lemma MulMonotone(c: int, a: int, b: int)
    requires c > 0 && a <= b
    ensures c * a <= c * b
  {
    assert c * b - c * a == c * (b - a);
  }

  /** `xs.slice(-n)` for a positive n: the last n elements, or all when there are fewer. */
  function TakeLast<T>(xs: seq<T>, n: nat): (r: seq<T>)
    requires n > 0
    ensures |r| == if |xs| < n then |xs| else n
    ensures r == xs[|xs| - |r|..]
  {
    if |xs| <= n then xs else xs[|xs| - n..]
  }

  /** `xs.indexOf(x)`: the position of the first occurrence of `x`, or -1. */
  function IndexOf<T(==)>(xs: seq<T>, x: T): (r: int)
    ensures -1 <= r < |xs|
    ensures r == -1 <==> x !in xs
    ensures r >= 0 ==> xs[r] == x && x !in xs[..r]
  {
    if xs == [] then -1
    else if xs[0] == x then 0
    else
      var r := IndexOf(xs[1..], x);
      assert xs[1..][..(if r < 0 then 0 else r)] == xs[1..(if r < 0 then 0 else r) + 1];
      if r == -1 then -1 else r + 1
  }

  /** Appending an element does not move the first occurrence of anything already present,
      and a new element is first found at the end. */
  lemma {:induction false} IndexOfAppend<T>(xs: seq<T>, x: T, k: T)
    ensures k in xs ==> IndexOf(xs + [x], k) == IndexOf(xs, k)
    ensures k !in xs && k == x ==> IndexOf(xs + [x], k) == |xs|
  {
    if xs != [] {
      assert (xs + [x])[1..] == xs[1..] + [x];
      IndexOfAppend(xs[1..], x, k);
    }
  }

  // ----- stable sort -----

  /** Ascending by `rank`. */
  ghost predicate Sorted<T>(s: seq<T>, rank: T -> int) {
    forall i, j :: 0 <= i < j < |s| ==> rank(s[i]) <= rank(s[j])
  }

  /** Every two elements of equal rank stand in the relation `before`, in order. */
  ghost predicate TiesOrdered<T>(s: seq<T>, rank: T -> int, before: (T, T) -> bool) {
    forall i, j :: 0 <= i < j < |s| && rank(s[i]) == rank(s[j]) ==> before(s[i], s[j])
  }

  /** Where an insertion sort puts `x`: in front of the first element whose rank is
      at least that of `x`, or at the end. */
  function InsertPos<T>(x: T, s: seq<T>, rank: T -> int): (p: nat)
    ensures p <= |s|
    ensures forall i :: 0 <= i < p ==> rank(s[i]) < rank(x)
    ensures p < |s| ==> rank(x) <= rank(s[p])
  {
    if s == [] || rank(x) <= rank(s[0]) then 0 else 1 + InsertPos(x, s[1..], rank)
  }

  /** `x` placed at `InsertPos` among the elements of `s`. */
  function Insert<T>(x: T, s: seq<T>, rank: T -> int): (r: seq<T>)
    ensures |r| == |s| + 1
    ensures forall i :: 0 <= i < |r| ==>
      r[i] == if i < InsertPos(x, s, rank) then s[i] else if i == InsertPos(x, s, rank) then x else s[i - 1]
    ensures multiset(r) == multiset(s) + multiset{x}
  {
    var p := InsertPos(x, s, rank);
    assert s == s[..p] + s[p..];
    s[..p] + [x] + s[p..]
  }

  /** Inserting at `InsertPos` keeps a sorted list sorted. */
  lemma InsertSorted<T>(x: T, s: seq<T>, rank: T -> int)
    requires Sorted(s, rank)
    ensures Sorted(Insert(x, s, rank), rank)
  {
    var p := InsertPos(x, s, rank);
    var r := Insert(x, s, rank);
    forall i, j | 0 <= i < j < |r| ensures rank(r[i]) <= rank(r[j]) {
      if p < j {
        assert r[j] == s[j - 1];
        if i == p {
          assert p <= j - 1 < |s|;
        }
      }
    }
  }

  /** `s.sort((a, b) => rank(a) - rank(b))`: a stable sort, here an insertion sort.
      The result is ascending by rank and holds exactly the elements of `s`. */
  function SortBy<T>(s: seq<T>, rank: T -> int): (r: seq<T>)
    ensures multiset(r) == multiset(s)
    ensures Sorted(r, rank)
  {
    if s == [] then []
    else
      assert s == [s[0]] + s[1..];
      var t := SortBy(s[1..], rank);
      InsertSorted(s[0], t, rank);
      Insert(s[0], t, rank)
  }

  /** Inserting `x` in front of every element of equal rank keeps the ties' relation. */
  lemma InsertStable<T>(x: T, s: seq<T>, rank: T -> int, before: (T, T) -> bool)
    requires TiesOrdered(s, rank, before)
    requires forall y :: y in s && rank(y) == rank(x) ==> before(x, y)
    ensures TiesOrdered(Insert(x, s, rank), rank, before)
  {
    var p := InsertPos(x, s, rank);
    var r := Insert(x, s, rank);
    forall i, j | 0 <= i < j < |r| && rank(r[i]) == rank(r[j]) ensures before(r[i], r[j]) {
      if i == p {
        assert r[j] == s[j - 1];
        assert r[j] in s;
      }
    }
  }

  /** Stability: any relation that held between equally ranked elements, in input order,
      still holds between them in output order. Taking `before` as "came first in the input"
      says that ties keep their input order. */
  lemma {:induction false} SortByStable<T>(s: seq<T>, rank: T -> int, before: (T, T) -> bool)
    requires TiesOrdered(s, rank, before)
    ensures TiesOrdered(SortBy(s, rank), rank, before)
  {
    if s != [] {
      var t := SortBy(s[1..], rank);
      assert TiesOrdered(s[1..], rank, before) by {
        forall i, j | 0 <= i < j < |s[1..]| && rank(s[1..][i]) == rank(s[1..][j])
          ensures before(s[1..][i], s[1..][j])
        {
          assert s[1..][i] == s[i + 1] && s[1..][j] == s[j + 1];
        }
      }
      SortByStable(s[1..], rank, before);
      forall y | y in t && rank(y) == rank(s[0]) ensures before(s[0], y) {
        assert y in multiset(t);
        assert y in multiset(s[1..]);
        var k :| 0 <= k < |s[1..]| && s[1..][k] == y;
        assert s[k + 1] == y;
      }
      InsertStable(s[0], t, rank, before);
    }
  }
}
