/** Python's `sorted(xs, key=k)` and `xs.sort(key=k)`: a stable sort. With
    `le(a, b)` standing for `k(a) <= k(b)` (or `k(a) >= k(b)` for
    `reverse=True`, which Python keeps stable as well), the result is the one
    permutation that is ordered by `le` and keeps elements with equal keys in
    their original order; `SortBy` computes it by insertion. */
module Sorting {

  /** `le` compares keys that are totally ordered, as every key the bot sorts
      by is. */
  ghost predicate TotalPreorder<T(!new)>(le: (T, T) -> bool) {
    && (forall a, b :: le(a, b) || le(b, a))
    && (forall a, b, c :: le(a, b) && le(b, c) ==> le(a, c))
  }

  predicate SortedBy<T>(s: seq<T>, le: (T, T) -> bool) {
    forall i, j :: 0 <= i < j < |s| ==> le(s[i], s[j])
  }

  /** Two elements with equal keys. */
  predicate Tied<T>(a: T, b: T, le: (T, T) -> bool) {
    le(a, b) && le(b, a)
  }

  /** Puts `x` in front of the first element whose key is not smaller. */
  function Insert<T>(x: T, s: seq<T>, le: (T, T) -> bool): (r: seq<T>)
    ensures |r| == |s| + 1
    ensures multiset(r) == multiset(s) + multiset{x}
  {
    if s == [] then [x]
    else if le(x, s[0]) then [x] + s
    else
      assert s == [s[0]] + s[1..];
      [s[0]] + Insert(x, s[1..], le)
  }

  function SortBy<T>(s: seq<T>, le: (T, T) -> bool): (r: seq<T>)
    ensures |r| == |s|
    ensures multiset(r) == multiset(s)
  {
    if s == [] then []
    else
      assert s == [s[0]] + s[1..];
      Insert(s[0], SortBy(s[1..], le), le)
  }

  lemma {:induction false} InsertSorted<T(!new)>(x: T, s: seq<T>, le: (T, T) -> bool)
    requires TotalPreorder(le)
    requires SortedBy(s, le)
    ensures SortedBy(Insert(x, s, le), le)
  {
    if s != [] && !le(x, s[0]) {
      InsertSorted(x, s[1..], le);
      var r := Insert(x, s, le);
      var tail := Insert(x, s[1..], le);
      assert r == [s[0]] + tail;
      forall j | 0 < j < |r| ensures le(s[0], r[j]) {
        assert r[j] in multiset(s[1..]) + multiset{x} by {
          assert r[j] == tail[j - 1];
          assert tail[j - 1] in multiset(tail);
        }
        if r[j] != x {
          assert r[j] in s[1..];
          var k :| 0 <= k < |s[1..]| && s[1..][k] == r[j];
          assert s[k + 1] == r[j];
        }
      }
    }
  }

  /** The sort puts its result in order. */
  lemma {:induction false} SortByIsSorted<T(!new)>(s: seq<T>, le: (T, T) -> bool)
    requires TotalPreorder(le)
    ensures SortedBy(SortBy(s, le), le)
  {
    if s != [] {
      SortByIsSorted(s[1..], le);
      InsertSorted(s[0], SortBy(s[1..], le), le);
    }
  }

  /** The elements of `s` whose key equals the key of `y`, in their order. */
  function TiedWith<T>(s: seq<T>, y: T, le: (T, T) -> bool): seq<T> {
    if s == [] then []
    else (if Tied(s[0], y, le) then [s[0]] else []) + TiedWith(s[1..], y, le)
  }

  lemma {:induction false} InsertStable<T(!new)>(x: T, s: seq<T>, y: T, le: (T, T) -> bool)
    requires TotalPreorder(le)
    requires SortedBy(s, le)
    ensures TiedWith(Insert(x, s, le), y, le)
         == (if Tied(x, y, le) then [x] else []) + TiedWith(s, y, le)
  {
    if s == [] {
    } else if le(x, s[0]) {
      assert ([x] + s)[1..] == s;
    } else {
      assert SortedBy(s[1..], le);
      InsertStable(x, s[1..], y, le);
      var r := Insert(x, s, le);
      var tail := Insert(x, s[1..], le);
      assert r == [s[0]] + tail;
      assert r[1..] == tail;
      var head := if Tied(s[0], y, le) then [s[0]] else [];
      var mine := if Tied(x, y, le) then [x] else [];
      assert TiedWith(r, y, le) == head + TiedWith(tail, y, le);
      assert TiedWith(s, y, le) == head + TiedWith(s[1..], y, le);
      assert TiedWith(tail, y, le) == mine + TiedWith(s[1..], y, le);
      if Tied(x, y, le) {
        // s[0] has a smaller key than x, hence than y: it is not tied with y.
        assert !le(y, s[0]);
        assert head == [];
      } else {
        assert mine == [];
      }
    }
  }

  /** Stability: among elements with equal keys the sort keeps the input
      order. */
  lemma {:induction false} SortByIsStable<T(!new)>(s: seq<T>, y: T, le: (T, T) -> bool)
    requires TotalPreorder(le)
    ensures TiedWith(SortBy(s, le), y, le) == TiedWith(s, y, le)
  {
    if s != [] {
      SortByIsStable(s[1..], y, le);
      SortByIsSorted(s[1..], le);
      InsertStable(s[0], SortBy(s[1..], le), y, le);
    }
  }

  /** The first `n` of a sorted sequence are sorted and hold its highest
      elements: one left out is ordered after every one kept. */
  lemma SortedPrefix<T>(s: seq<T>, n: nat, le: (T, T) -> bool)
    requires n <= |s| && SortedBy(s, le)
    ensures multiset(s[..n]) <= multiset(s)
    ensures SortedBy(s[..n], le)
    ensures forall a, b :: a in s[..n] && b in s && b !in s[..n] ==> le(a, b)
  {
    assert s == s[..n] + s[n..];
    assert multiset(s) == multiset(s[..n]) + multiset(s[n..]);
    forall a, b | a in s[..n] && b in s && b !in s[..n]
      ensures le(a, b)
    {
      assert b in s[n..];
      var i :| 0 <= i < n && s[..n][i] == a;
      var j :| 0 <= j < |s| - n && s[n..][j] == b;
      assert s[i] == a && s[n + j] == b;
    }
  }
}
