/** Descending sort by a real-valued key, and counting, shared by every view of the page.
    The page sorts three times with the table library's default (non-stable) sort, so no
    view may depend on how ties are ordered: everything below is stated for "some
    permutation sorted non-increasing", and the rank lemmas hold for every such order. */
module Ordering {

  /** Non-increasing by key: the order `sort_values(..., ascending=False)` produces. */
  ghost predicate SortedDesc<T>(s: seq<T>, key: T -> real) {
    forall i, j :: 0 <= i < j < |s| ==> key(s[i]) >= key(s[j])
  }

  /** Places x in front of the first element whose key does not exceed its own. */
  function Insert<T>(x: T, s: seq<T>, key: T -> real): (r: seq<T>)
    requires SortedDesc(s, key)
    ensures SortedDesc(r, key)
    ensures multiset(r) == multiset(s) + multiset{x}
    ensures |r| == |s| + 1
    ensures r[0] == x || (s != [] && r[0] == s[0])
  {
    if s == [] || key(s[0]) <= key(x) then [x] + s
    else
      var rest := Insert(x, s[1..], key);
      assert key(s[0]) >= key(rest[0]) by {
        if rest[0] != x {
          assert rest[0] == s[1];
        }
      }
      assert forall j :: 0 <= j < |rest| ==> key(rest[0]) >= key(rest[j]);
      assert s == [s[0]] + s[1..];
      [s[0]] + rest
  }

  /** A permutation of s sorted non-increasing by key. Which of several equal-key
      orders it yields is this model's choice; no property below relies on it. */
  function SortDesc<T>(s: seq<T>, key: T -> real): (r: seq<T>)
    ensures SortedDesc(r, key)
    ensures multiset(r) == multiset(s)
    ensures |r| == |s|
  {
    if s == [] then []
    else
      assert s == [s[0]] + s[1..];
      Insert(s[0], SortDesc(s[1..], key), key)
  }

  /** Number of elements of s that satisfy p. */
  function Count<T>(s: seq<T>, p: T -> bool): (n: nat)
    ensures n <= |s|
  {
    if s == [] then 0 else (if p(s[0]) then 1 else 0) + Count(s[1..], p)
  }

  lemma {:induction false} CountAppend<T>(a: seq<T>, b: seq<T>, p: T -> bool)
    ensures Count(a + b, p) == Count(a, p) + Count(b, p)
  {
    if a == [] {
      assert a + b == b;
    } else {
      assert (a + b)[1..] == a[1..] + b;
      CountAppend(a[1..], b, p);
    }
  }

  /** Taking one element out of s lowers the count by that element's contribution. */
  lemma {:induction false} CountRemove<T>(s: seq<T>, i: nat, p: T -> bool)
    requires i < |s|
    ensures Count(s, p) == Count(s[..i] + s[i + 1..], p) + (if p(s[i]) then 1 else 0)
  {
    assert s == (s[..i] + [s[i]]) + s[i + 1..];
    CountAppend(s[..i] + [s[i]], s[i + 1..], p);
    CountAppend(s[..i], [s[i]], p);
    CountAppend(s[..i], s[i + 1..], p);
  }

  lemma {:induction false} MultisetRemove<T>(s: seq<T>, i: nat)
    requires i < |s|
    ensures multiset(s[..i] + s[i + 1..]) == multiset(s) - multiset{s[i]}
  {
    assert s == s[..i] + [s[i]] + s[i + 1..];
  }

  /** Counting is blind to order: two permutations of each other have the same count. */
  lemma {:induction false} CountPermutation<T>(a: seq<T>, b: seq<T>, p: T -> bool)
    requires multiset(a) == multiset(b)
    ensures Count(a, p) == Count(b, p)
  {
    if a == [] {
      assert |b| == |multiset(b)| == 0;
    } else {
      assert a[0] in multiset(b);
      var i :| 0 <= i < |b| && b[i] == a[0];
      MultisetRemove(b, i);
      MultisetRemove(a, 0);
      assert a[..0] + a[1..] == a[1..];
      CountPermutation(a[1..], b[..i] + b[i + 1..], p);
      CountRemove(b, i, p);
    }
  }

  lemma {:induction false} CountNone<T>(s: seq<T>, p: T -> bool)
    requires forall i :: 0 <= i < |s| ==> !p(s[i])
    ensures Count(s, p) == 0
  {
    if s != [] {
      CountNone(s[1..], p);
    }
  }

  lemma {:induction false} CountAll<T>(s: seq<T>, p: T -> bool)
    requires forall i :: 0 <= i < |s| ==> p(s[i])
    ensures Count(s, p) == |s|
  {
    if s != [] {
      CountAll(s[1..], p);
    }
  }

  /** Count is at least one exactly when some element satisfies p. */
  lemma {:induction false} CountPositive<T>(s: seq<T>, p: T -> bool)
    ensures Count(s, p) > 0 <==> exists i :: 0 <= i < |s| && p(s[i])
  {
    if s != [] {
      CountPositive(s[1..], p);
      if exists i :: 0 <= i < |s[1..]| && p(s[1..][i]) {
        var i :| 0 <= i < |s[1..]| && p(s[1..][i]);
        assert p(s[i + 1]);
      }
      if exists i :: 0 <= i < |s| && p(s[i]) {
        var i :| 0 <= i < |s| && p(s[i]);
        if i > 0 {
          assert p(s[1..][i - 1]);
        }
      }
    }
  }

  /** Elements whose key exceeds v. */
  function KeyAbove<T>(key: T -> real, v: real): T -> bool {
    y => key(y) > v
  }

  /** Elements whose key is at least v. */
  function KeyAtLeast<T>(key: T -> real, v: real): T -> bool {
    y => key(y) >= v
  }

  /** A 1-based position in a non-increasing order lies between "one more than the
      number of strictly larger keys" and "the number of keys at least as large",
      whatever order the ties were put in. */
  lemma {:induction false} RankBounds<T>(sorted: seq<T>, key: T -> real, p: nat)
    requires SortedDesc(sorted, key)
    requires p < |sorted|
    ensures 1 + Count(sorted, KeyAbove(key, key(sorted[p]))) <= p + 1
    ensures p + 1 <= Count(sorted, KeyAtLeast(key, key(sorted[p])))
  {
    var v := key(sorted[p]);
    assert sorted == sorted[..p] + sorted[p..];
    CountAppend(sorted[..p], sorted[p..], KeyAbove(key, v));
    CountNone(sorted[p..], KeyAbove(key, v));
    assert sorted == sorted[..p + 1] + sorted[p + 1..];
    CountAppend(sorted[..p + 1], sorted[p + 1..], KeyAtLeast(key, v));
    CountAll(sorted[..p + 1], KeyAtLeast(key, v));
  }

  /** Two sequences of equal length whose elements satisfy p and q at the same positions
      have the same counts. */
  lemma {:induction false} CountPointwise<T, U>(a: seq<T>, p: T -> bool, b: seq<U>, q: U -> bool)
    requires |a| == |b|
    requires forall i :: 0 <= i < |a| ==> p(a[i]) == q(b[i])
    ensures Count(a, p) == Count(b, q)
  {
    if a != [] {
      CountPointwise(a[1..], p, b[1..], q);
    }
  }

  /** When at most one position satisfies p, the count is at most one. */
  lemma {:induction false} CountAtMostOne<T>(s: seq<T>, p: T -> bool)
    requires forall i, j :: 0 <= i < |s| && 0 <= j < |s| && p(s[i]) && p(s[j]) ==> i == j
    ensures Count(s, p) <= 1
  {
    if s != [] {
      if p(s[0]) {
        forall i | 0 <= i < |s[1..]| ensures !p(s[1..][i]) {
          assert s[1..][i] == s[i + 1];
        }
        CountNone(s[1..], p);
      } else {
        CountAtMostOne(s[1..], p);
      }
    }
  }
}
