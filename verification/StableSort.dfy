/**
 The stable sort that `Array.prototype.sort` performs, written as insertion from the
 right. `StableOrderIsUnique` shows that sortedness plus stability leave no choice, so
 every engine's sort agrees with `Sort`.
 */
module StableSort {

  predicate Sorted<T>(xs: seq<T>, key: T -> int) {
    forall i, j :: 0 <= i < j < |xs| ==> key(xs[i]) <= key(xs[j])
  }

  /** Puts x behind every trailing element whose key does not exceed its own. */
  function Insert<T>(xs: seq<T>, x: T, key: T -> int): seq<T> {
    if xs == [] || key(xs[|xs| - 1]) <= key(x) then xs + [x]
    else Insert(xs[..|xs| - 1], x, key) + [xs[|xs| - 1]]
  }

  function Sort<T>(xs: seq<T>, key: T -> int): seq<T> {
    if xs == [] then [] else Insert(Sort(xs[..|xs| - 1], key), xs[|xs| - 1], key)
  }

  /** Keeps, in order, the elements that satisfy p. */
  function Filter<T>(xs: seq<T>, p: T -> bool): seq<T> {
    if xs == [] then []
    else Filter(xs[..|xs| - 1], p) + if p(xs[|xs| - 1]) then [xs[|xs| - 1]] else []
  }

  function Take<T>(xs: seq<T>, k: nat): seq<T> {
    if k <= |xs| then xs[..k] else xs
  }

  // ----- Insert and Sort

  lemma {:induction false} InsertSorted<T>(xs: seq<T>, x: T, key: T -> int)
    requires Sorted(xs, key)
    ensures Sorted(Insert(xs, x, key), key)
    ensures Last(Insert(xs, x, key), key) == if xs == [] then key(x) else Max(key(x), Last(xs, key))
  {
    if xs != [] && key(xs[|xs| - 1]) > key(x) {
      InsertSorted(xs[..|xs| - 1], x, key);
    }
  }

  function Max(a: int, b: int): int { if a <= b then b else a }

  function Last<T>(xs: seq<T>, key: T -> int): int {
    if xs == [] then 0 else key(xs[|xs| - 1])
  }

  lemma {:induction false} InsertPermutes<T>(xs: seq<T>, x: T, key: T -> int)
    ensures multiset(Insert(xs, x, key)) == multiset(xs) + multiset{x}
    ensures |Insert(xs, x, key)| == |xs| + 1
  {
    if xs != [] && key(xs[|xs| - 1]) > key(x) {
      InsertPermutes(xs[..|xs| - 1], x, key);
      assert xs == xs[..|xs| - 1] + [xs[|xs| - 1]];
    }
  }

  lemma {:induction false} SortSorted<T>(xs: seq<T>, key: T -> int)
    ensures Sorted(Sort(xs, key), key)
  {
    if xs != [] {
      SortSorted(xs[..|xs| - 1], key);
      InsertSorted(Sort(xs[..|xs| - 1], key), xs[|xs| - 1], key);
    }
  }

  lemma {:induction false} SortPermutes<T>(xs: seq<T>, key: T -> int)
    ensures multiset(Sort(xs, key)) == multiset(xs)
    ensures |Sort(xs, key)| == |xs|
  {
    if xs != [] {
      SortPermutes(xs[..|xs| - 1], key);
      InsertPermutes(Sort(xs[..|xs| - 1], key), xs[|xs| - 1], key);
      assert xs == xs[..|xs| - 1] + [xs[|xs| - 1]];
    }
  }

  lemma SortMembers<T>(xs: seq<T>, key: T -> int)
    ensures forall x :: x in Sort(xs, key) <==> x in xs
  {
    SortPermutes(xs, key);
    forall x ensures x in Sort(xs, key) <==> x in xs {
      assert x in multiset(xs) <==> x in multiset(Sort(xs, key));
    }
  }

  /** Sorting what is already sorted changes nothing. */
  lemma {:induction false} SortOfSorted<T>(xs: seq<T>, key: T -> int)
    requires Sorted(xs, key)
    ensures Sort(xs, key) == xs
  {
    if xs != [] {
      SortOfSorted(xs[..|xs| - 1], key);
    }
  }

  /** A prefix may be sorted beforehand without affecting the outcome. */
  lemma {:induction false} SortPresorted<T>(a: seq<T>, b: seq<T>, key: T -> int)
    ensures Sort(Sort(a, key) + b, key) == Sort(a + b, key)
  {
    var s := Sort(a, key);
    if b == [] {
      assert s + b == s && a + b == a;
      SortSorted(a, key);
      SortOfSorted(s, key);
    } else {
      var front := b[..|b| - 1];
      assert (s + b)[..|s + b| - 1] == s + front;
      assert (a + b)[..|a + b| - 1] == a + front;
      SortPresorted(a, front, key);
    }
  }

  // ----- Filter

  lemma {:induction false} FilterAppend<T>(a: seq<T>, b: seq<T>, p: T -> bool)
    ensures Filter(a + b, p) == Filter(a, p) + Filter(b, p)
  {
    if b == [] {
      assert a + b == a;
    } else {
      assert (a + b)[..|a + b| - 1] == a + b[..|b| - 1];
      FilterAppend(a, b[..|b| - 1], p);
    }
  }

  lemma {:induction false} FilterMembers<T>(xs: seq<T>, p: T -> bool)
    ensures forall x :: x in Filter(xs, p) <==> x in xs && p(x)
  {
    if xs != [] {
      FilterMembers(xs[..|xs| - 1], p);
      assert xs == xs[..|xs| - 1] + [xs[|xs| - 1]];
    }
  }

  lemma FilterHolds<T>(xs: seq<T>, p: T -> bool)
    ensures forall i :: 0 <= i < |Filter(xs, p)| ==> p(Filter(xs, p)[i])
  {
  }

  lemma {:induction false} FilterAll<T>(xs: seq<T>, p: T -> bool)
    requires forall i :: 0 <= i < |xs| ==> p(xs[i])
    ensures Filter(xs, p) == xs
  {
    if xs != [] {
      FilterAll(xs[..|xs| - 1], p);
    }
  }

  lemma {:induction false} FilterNone<T>(xs: seq<T>, p: T -> bool)
    requires forall i :: 0 <= i < |xs| ==> !p(xs[i])
    ensures Filter(xs, p) == []
  {
    if xs != [] {
      FilterNone(xs[..|xs| - 1], p);
    }
  }

  lemma {:induction false} FilterAtMost<T>(xs: seq<T>, p: T -> bool, key: T -> int, bound: int)
    requires forall i :: 0 <= i < |xs| ==> key(xs[i]) <= bound
    ensures forall i :: 0 <= i < |Filter(xs, p)| ==> key(Filter(xs, p)[i]) <= bound
  {
    if xs != [] {
      FilterAtMost(xs[..|xs| - 1], p, key, bound);
    }
  }

  lemma FilterSnoc<T>(xs: seq<T>, x: T, p: T -> bool)
    ensures Filter(xs + [x], p) == if p(x) then Filter(xs, p) + [x] else Filter(xs, p)
  {
    assert (xs + [x])[..|xs + [x]| - 1] == xs;
  }

  lemma InsertLastElement<T>(xs: seq<T>, y: T, x: T, key: T -> int)
    requires key(y) > key(x)
    ensures Insert(xs + [y], x, key) == Insert(xs, x, key) + [y]
  {
    assert (xs + [y])[..|xs + [y]| - 1] == xs;
  }

  lemma {:induction false} FilterInsert<T>(xs: seq<T>, x: T, key: T -> int, p: T -> bool)
    requires Sorted(xs, key)
    ensures Filter(Insert(xs, x, key), p)
         == if p(x) then Insert(Filter(xs, p), x, key) else Filter(xs, p)
  {
    if xs == [] || key(xs[|xs| - 1]) <= key(x) {
      FilterSnoc(xs, x, p);
      FilterAtMost(xs, p, key, key(x));
      InsertPastEnd(Filter(xs, p), x, key);
    } else {
      var front, last := xs[..|xs| - 1], xs[|xs| - 1];
      assert xs == front + [last] && Insert(xs, x, key) == Insert(front, x, key) + [last];
      FilterInsert(front, x, key, p);
      hide Filter, Insert, Sorted;
      FilterSnoc(Insert(front, x, key), last, p);
      FilterSnoc(front, last, p);
      if p(x) && p(last) {
        InsertLastElement(Filter(front, p), last, x, key);
      }
    }
  }

  /** Stability in its usable form: sorting commutes with selecting. */
  lemma {:induction false} FilterSort<T>(xs: seq<T>, key: T -> int, p: T -> bool)
    ensures Filter(Sort(xs, key), p) == Sort(Filter(xs, p), key)
  {
    if xs != [] {
      var front, last := xs[..|xs| - 1], xs[|xs| - 1];
      FilterSort(front, key, p);
      SortSorted(front, key);
      FilterInsert(Sort(front, key), last, key, p);
      assert xs == front + [last];
      FilterSnoc(front, last, p);
      if p(last) {
        SortSnoc(Filter(front, p), last, key);
      }
    }
  }

  lemma SortSnoc<T>(xs: seq<T>, x: T, key: T -> int)
    ensures Sort(xs + [x], key) == Insert(Sort(xs, key), x, key)
  {
    assert (xs + [x])[..|xs + [x]| - 1] == xs;
  }

  function HasKey<T>(key: T -> int, k: int): T -> bool {
    x => key(x) == k
  }

  /** The elements that carry key k, in their order. */
  function OfKey<T>(xs: seq<T>, key: T -> int, k: int): seq<T> {
    Filter(xs, HasKey(key, k))
  }

  /** Equal keys keep their original order. */
  lemma SortStable<T>(xs: seq<T>, key: T -> int, k: int)
    ensures OfKey(Sort(xs, key), key, k) == OfKey(xs, key, k)
  {
    FilterSort(xs, key, HasKey(key, k));
    var ys := OfKey(xs, key, k);
    FilterHolds(xs, HasKey(key, k));
    SortOfSorted(ys, key);
  }

  lemma {:induction false} SameGroupsSameOrder<T>(a: seq<T>, b: seq<T>, key: T -> int)
    requires Sorted(a, key) && Sorted(b, key)
    requires forall k :: OfKey(a, key, k) == OfKey(b, key, k)
    ensures a == b
  {
    if a != [] { LastOfGroup(a, key); GroupAtMostLast(b, key, key(a[|a| - 1])); }
    if b != [] { LastOfGroup(b, key); GroupAtMostLast(a, key, key(b[|b| - 1])); }
    if a != [] {
      var a', b', x := a[..|a| - 1], b[..|b| - 1], a[|a| - 1];
      assert a == a' + [x] && b == b' + [x];
      forall k ensures OfKey(a', key, k) == OfKey(b', key, k) {
        assert OfKey(a, key, k) == OfKey(b, key, k);
        SameBefore(a', b', x, HasKey(key, k));
      }
      SameGroupsSameOrder(a', b', key);
    }
  }

  lemma {:induction false} SameBefore<T>(a: seq<T>, b: seq<T>, x: T, p: T -> bool)
    requires Filter(a + [x], p) == Filter(b + [x], p)
    ensures Filter(a, p) == Filter(b, p)
  {
    FilterSnoc(a, x, p);
    FilterSnoc(b, x, p);
    var g, h := Filter(a, p), Filter(b, p);
    hide Filter;
    assert (g + [x])[..|g|] == g && (h + [x])[..|h|] == h;
  }

  lemma {:induction false} GroupAtMostLast<T>(a: seq<T>, key: T -> int, k: int)
    requires Sorted(a, key) && OfKey(a, key, k) != []
    ensures a != [] && k <= key(a[|a| - 1])
  {
    if a != [] && key(a[|a| - 1]) < k {
      FilterNone(a, HasKey(key, k));
    }
  }

  lemma {:induction false} LastOfGroup<T>(a: seq<T>, key: T -> int)
    requires a != []
    ensures var g := OfKey(a, key, key(a[|a| - 1]));
            g != [] && g[|g| - 1] == a[|a| - 1]
  {
  }

  /** Any ordering that is sorted and stable is the one `Sort` computes. */
  lemma StableOrderIsUnique<T>(xs: seq<T>, ys: seq<T>, key: T -> int)
    ensures (Sorted(ys, key) && forall k :: OfKey(ys, key, k) == OfKey(xs, key, k)) <==> ys == Sort(xs, key)
  {
    SortSorted(xs, key);
    forall k ensures OfKey(Sort(xs, key), key, k) == OfKey(xs, key, k) {
      SortStable(xs, key, k);
    }
    if Sorted(ys, key) && forall k :: OfKey(ys, key, k) == OfKey(xs, key, k) {
      SameGroupsSameOrder(ys, Sort(xs, key), key);
    }
  }

  // ----- Truncation

  /** Truncating to k before an insertion loses nothing the first k places would show. */
  lemma {:induction false} InsertTruncated<T>(xs: seq<T>, x: T, key: T -> int, k: nat)
    requires Sorted(xs, key)
    ensures Take(Insert(Take(xs, k), x, key), k) == Take(Insert(xs, x, key), k)
  {
    if k < |xs| {
      assert Take(xs[..|xs| - 1], k) == Take(xs, k);
      InsertTruncated(xs[..|xs| - 1], x, key, k);
      InsertWithoutLast(xs, x, key, k);
    } else {
      assert Take(xs, k) == xs;
    }
  }

  lemma {:induction false} InsertWithoutLast<T>(xs: seq<T>, x: T, key: T -> int, k: nat)
    requires Sorted(xs, key) && k < |xs|
    ensures Take(Insert(xs, x, key), k) == Take(Insert(xs[..|xs| - 1], x, key), k)
  {
    var front, last := xs[..|xs| - 1], xs[|xs| - 1];
    InsertPermutes(front, x, key);
    assert xs == front + [last];
    if key(last) <= key(x) {
      InsertPastEnd(front, x, key);
      TakeFront(xs, [x], k);
      TakeFront(front, [last], k);
      TakeFront(front, [x], k);
    } else {
      TakeFront(Insert(front, x, key), [last], k);
    }
  }

  lemma TakeFront<T>(a: seq<T>, b: seq<T>, k: nat)
    requires k <= |a|
    ensures Take(a + b, k) == Take(a, k)
  {
    assert (a + b)[..k] == a[..k];
  }

  lemma {:induction false} InsertPastEnd<T>(xs: seq<T>, x: T, key: T -> int)
    requires forall i :: 0 <= i < |xs| ==> key(xs[i]) <= key(x)
    ensures Insert(xs, x, key) == xs + [x]
  {
  }
}
