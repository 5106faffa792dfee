/** Python list operations shared by the cogs: `list.remove(x)`, which drops
    the first occurrence, and the absence of repeats that the guarded
    `append` keeps. */
module Lists {

  predicate Distinct<T(==)>(s: seq<T>) {
    forall i, j :: 0 <= i < j < |s| ==> s[i] != s[j]
  }

  lemma DistinctTail<T>(s: seq<T>)
    requires s != [] && Distinct(s)
    ensures Distinct(s[1..]) && s[0] !in s[1..]
  {
    assert forall k :: 0 <= k < |s[1..]| ==> s[1..][k] == s[k + 1];
  }

  /** `s.remove(x)`: the first occurrence goes, the rest keep their order. */
  function RemoveFirst<T(==)>(s: seq<T>, x: T): (r: seq<T>)
    requires x in s
    ensures |r| == |s| - 1
    ensures multiset(r) == multiset(s) - multiset{x}
  {
    assert s == [s[0]] + s[1..];
    if s[0] == x then s[1..]
    else [s[0]] + RemoveFirst(s[1..], x)
  }

  /** `remove` cuts the list at the first occurrence of the element: what
      comes before it and what comes after it are kept, in order. */
  lemma {:induction false} RemoveFirstSplits<T>(s: seq<T>, x: T)
    requires x in s
    ensures exists i :: 0 <= i < |s| && s[i] == x && x !in s[..i] && RemoveFirst(s, x) == s[..i] + s[i + 1..]
  {
    if s[0] == x {
      assert s[..0] + s[1..] == s[1..];
      assert x !in s[..0];
      assert s[0] == x && RemoveFirst(s, x) == s[..0] + s[1..];
    } else {
      var tail := s[1..];
      assert x in tail by { assert s == [s[0]] + tail; }
      RemoveFirstSplits(tail, x);
      var j :| 0 <= j < |tail| && tail[j] == x && x !in tail[..j] && RemoveFirst(tail, x) == tail[..j] + tail[j + 1..];
      ConsSplit(s, j);
      forall k | 0 <= k < j + 1 ensures s[k] != x {
        if k > 0 { assert s[k] == tail[..j][k - 1]; }
      }
      assert RemoveFirst(s, x) == [s[0]] + RemoveFirst(tail, x);
      assert s[j + 1] == x;
      assert RemoveFirst(s, x) == s[..j + 1] + s[j + 2..];
    }
  }

  lemma ConsSplit<T>(s: seq<T>, j: nat)
    requires j + 1 < |s|
    ensures [s[0]] + (s[1..][..j] + s[1..][j + 1..]) == s[..j + 1] + s[j + 2..]
  {
  }

  /** Appending an element that is not there yet keeps a list free of
      repeats. */
  lemma AppendNewKeepsDistinct<T>(s: seq<T>, x: T)
    requires Distinct(s) && x !in s
    ensures Distinct(s + [x])
  {
    var r := s + [x];
    forall i, j | 0 <= i < j < |r| ensures r[i] != r[j] {
      assert r[i] == s[i];
      if j < |s| { assert r[j] == s[j]; }
    }
  }

  /** From a list without repeats, `remove` takes the element out entirely
      and keeps every other one; the list stays free of repeats. */
  lemma {:induction false} RemoveFirstOfDistinct<T>(s: seq<T>, x: T)
    requires x in s && Distinct(s)
    ensures Distinct(RemoveFirst(s, x))
    ensures forall y :: y in RemoveFirst(s, x) <==> y in s && y != x
  {
    var r := RemoveFirst(s, x);
    var tail := s[1..];
    assert forall k :: 0 <= k < |tail| ==> tail[k] == s[k + 1];
    assert Distinct(tail);
    if s[0] == x {
      assert x !in tail;
    } else {
      RemoveFirstOfDistinct(tail, x);
      assert r == [s[0]] + RemoveFirst(tail, x);
      assert s[0] !in tail;
      forall i, j | 0 <= i < j < |r| ensures r[i] != r[j] {
        if i > 0 { assert r[i] == RemoveFirst(tail, x)[i - 1]; }
        assert r[j] == RemoveFirst(tail, x)[j - 1];
      }
    }
  }

  /** `remove` undoes an `append` of an element that was not there. */
  lemma {:induction false} RemoveFirstOfAppended<T>(s: seq<T>, x: T)
    requires x !in s
    ensures RemoveFirst(s + [x], x) == s
  {
    if s != [] {
      assert (s + [x])[1..] == s[1..] + [x];
      RemoveFirstOfAppended(s[1..], x);
    }
  }
}
