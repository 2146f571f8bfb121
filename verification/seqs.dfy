/** Sequence helpers for the handle lists stored in each row: duplicate
    freedom, the element set, and Python's `list.remove`. */
module Seqs {

  /** No element occurs twice. */
  predicate NoDup<T(==)>(s: seq<T>) {
    forall i, j :: 0 <= i < j < |s| ==> s[i] != s[j]
  }

  /** The set of elements of a sequence (Python's `set(lst)`). */
  function Elems<T>(s: seq<T>): set<T> {
    set x | x in s
  }

  /** Index of the first occurrence of `x`. */
  function IndexOf<T(==)>(s: seq<T>, x: T): (i: nat)
    requires x in s
    ensures i < |s| && s[i] == x
  {
    if s[0] == x then 0 else 1 + IndexOf(s[1..], x)
  }

  /** No earlier position holds `x`. */
  lemma {:induction false} IndexOfIsFirst<T>(s: seq<T>, x: T, k: nat)
    requires x in s && k < IndexOf(s, x)
    ensures s[k] != x
  {
    if k > 0 {
      IndexOfIsFirst(s[1..], x, k - 1);
    }
  }

  /** Python's `list.remove(x)`: drops the first occurrence of `x`. The
      source raises `ValueError` when `x` is absent; callers model that case. */
  function RemoveFirst<T(==)>(s: seq<T>, x: T): (r: seq<T>)
    requires x in s
    ensures |r| == |s| - 1
  {
    if s[0] == x then s[1..] else [s[0]] + RemoveFirst(s[1..], x)
  }

  /** Exactly one copy of `x` goes; every other element keeps its count. */
  lemma {:induction false} RemoveFirstMultiset<T>(s: seq<T>, x: T)
    requires x in s
    ensures multiset(RemoveFirst(s, x)) == multiset(s) - multiset{x}
  {
    assert s == [s[0]] + s[1..];
    if s[0] != x {
      RemoveFirstMultiset(s[1..], x);
    }
  }

  /** The elements before and after the first occurrence stay in order. */
  lemma {:induction false} RemoveFirstSplices<T>(s: seq<T>, x: T)
    requires x in s
    ensures RemoveFirst(s, x) == s[..IndexOf(s, x)] + s[IndexOf(s, x) + 1..]
  {
    if s[0] == x {
      assert s[..0] + s[1..] == s[1..];
    } else {
      RemoveFirstSplices(s[1..], x);
      SpliceStep(s, x);
    }
  }

  lemma SpliceStep<T>(s: seq<T>, x: T)
    requires x in s && s[0] != x
    requires RemoveFirst(s[1..], x) == s[1..][..IndexOf(s[1..], x)] + s[1..][IndexOf(s[1..], x) + 1..]
    ensures RemoveFirst(s, x) == s[..IndexOf(s, x)] + s[IndexOf(s, x) + 1..]
  {
    var tail := s[1..];
    var j := IndexOf(tail, x);
    assert IndexOf(s, x) == j + 1;
    assert RemoveFirst(s, x) == [s[0]] + RemoveFirst(tail, x);
    assert s == [s[0]] + tail;
    SpliceCons(s[0], tail, j);
  }

  lemma SpliceCons<T>(h: T, tail: seq<T>, j: nat)
    requires j < |tail|
    ensures [h] + (tail[..j] + tail[j + 1..]) == ([h] + tail)[..j + 1] + ([h] + tail)[j + 2..]
  {
    assert ([h] + tail)[..j + 1] == [h] + tail[..j];
    assert ([h] + tail)[j + 2..] == tail[j + 1..];
  }

  lemma ElemsConcat<T>(a: seq<T>, b: seq<T>)
    ensures Elems(a + b) == Elems(a) + Elems(b)
  {
  }

  lemma ElemsEmpty<T>(s: seq<T>)
    ensures Elems(s) == {} <==> |s| == 0
  {
    if |s| > 0 {
      assert s[0] in Elems(s);
    }
  }

  lemma NoDupConcat<T>(a: seq<T>, b: seq<T>)
    requires NoDup(a) && NoDup(b) && Elems(a) !! Elems(b)
    ensures NoDup(a + b)
  {
    forall i, j | 0 <= i < j < |a + b|
      ensures (a + b)[i] != (a + b)[j]
    {
      if j >= |a| && i < |a| {
        assert (a + b)[i] in Elems(a);
        assert (a + b)[j] in Elems(b);
      }
    }
  }

  lemma NoDupAppend<T>(a: seq<T>, x: T)
    requires NoDup(a) && x !in a
    ensures NoDup(a + [x])
  {
  }

  /** In a duplicate-free list, `x` occurs at most once. */
  lemma NoDupMultiplicity<T>(s: seq<T>, x: T)
    requires NoDup(s)
    ensures multiset(s)[x] <= 1
  {
    if |s| > 0 {
      assert s == [s[0]] + s[1..];
      NoDupMultiplicity(s[1..], x);
      if s[0] == x {
        assert x !in s[1..];
      }
    }
  }

  /** Removing the first occurrence keeps a list duplicate-free and takes
      exactly `x` out of its element set. */
  lemma {:induction false} RemoveFirstNoDup<T>(s: seq<T>, x: T)
    requires x in s && NoDup(s)
    ensures NoDup(RemoveFirst(s, x))
    ensures Elems(RemoveFirst(s, x)) == Elems(s) - {x}
  {
    if s[0] == x {
      assert s == [x] + s[1..];
      assert x !in s[1..];
    } else {
      var tail := s[1..];
      assert NoDup(tail);
      RemoveFirstNoDup(tail, x);
      var rest := RemoveFirst(tail, x);
      assert s[0] !in Elems(tail);
      assert Elems(rest) == Elems(tail) - {x};
      assert s[0] !in Elems(rest);
      assert RemoveFirst(s, x) == [s[0]] + rest;
      NoDupConcat([s[0]], rest);
      assert s == [s[0]] + tail;
      ElemsConcat([s[0]], tail);
      ElemsConcat([s[0]], rest);
    }
  }

  /** Removing an element that was just appended to a list without it
      gives the list back. */
  lemma {:induction false} RemoveFirstAppended<T>(s: seq<T>, x: T)
    requires x !in s
    ensures RemoveFirst(s + [x], x) == s
  {
    if |s| > 0 {
      assert (s + [x])[1..] == s[1..] + [x];
      RemoveFirstAppended(s[1..], x);
      assert s == [s[0]] + s[1..];
    }
  }

  /** `x` is still present after one removal exactly when it occurred twice. */
  lemma RemoveFirstStillHas<T>(s: seq<T>, x: T)
    requires x in s
    ensures x in RemoveFirst(s, x) <==> multiset(s)[x] > 1
  {
    var r := RemoveFirst(s, x);
    RemoveFirstMultiset(s, x);
    assert multiset(r)[x] == multiset(s)[x] - 1;
    assert x in r <==> multiset(r)[x] > 0;
  }
}
