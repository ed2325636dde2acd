/**
 * src/helpers.ts: the four cardinal directions and `removeFromArray`, which
 * splices out the first occurrence of an element found by `indexOf`.
 */
module Helpers {

  /** The unit steps up, right, down and left, in that order (y grows downwards). */
  const CardinalDirections: seq<(int, int)> := [(0, -1), (1, 0), (0, 1), (-1, 0)]

  function Abs(n: int): nat
  {
    if n < 0 then -n else n
  }

  /** Four distinct unit steps, each a quarter turn clockwise from the one before. */
  lemma CardinalDirectionsAreQuarterTurns()
    ensures |CardinalDirections| == 4
    ensures forall k :: 0 <= k < 4 ==>
      Abs(CardinalDirections[k].0) + Abs(CardinalDirections[k].1) == 1
    ensures forall k :: 0 <= k < 3 ==>
      CardinalDirections[k + 1] == (-CardinalDirections[k].1, CardinalDirections[k].0)
    ensures CardinalDirections[0] == (-CardinalDirections[3].1, CardinalDirections[3].0)
    ensures forall j, k :: 0 <= j < k < 4 ==> CardinalDirections[j] != CardinalDirections[k]
  {
  }

  /** No element occurs twice. */
  predicate NoDups<T(==)>(s: seq<T>)
  {
    forall i, j :: 0 <= i < j < |s| ==> s[i] != s[j]
  }

  /** Reference definition: `s` without its first occurrence of `e`. */
  function Removed<T(==)>(s: seq<T>, e: T): seq<T>
  {
    if s == [] then []
    else if s[0] == e then s[1..]
    else [s[0]] + Removed(s[1..], e)
  }

  /**
   * `array.indexOf(element)`: the first index holding `e`, or -1 when there
   * is none.
   */
  method IndexOf<T(==)>(s: seq<T>, e: T) returns (index: int)
    ensures index == -1 <==> e !in s
    ensures index != -1 ==> 0 <= index < |s| && s[index] == e && e !in s[..index]
  {
    index := 0;
    while index < |s|
      invariant 0 <= index <= |s|
      invariant e !in s[..index]
    {
      if s[index] == e {
        return;
      }
      index := index + 1;
    }
    assert s[..index] == s;
    index := -1;
  }

  /**
   * `removeFromArray(array, element)`: splice out the element at the index
   * `indexOf` finds, or leave the array alone. The new contents are returned;
   * the caller stores them back.
   */
  method RemoveFromArray<T(==)>(s: seq<T>, e: T) returns (r: seq<T>)
    ensures r == Removed(s, e)
  {
    var index := IndexOf(s, e);
    if index >= 0 {
      r := s[..index] + s[index + 1..];
      RemovedFirstOccurrence(s, e, index);
    } else {
      r := s;
      RemovedAbsent(s, e);
    }
  }

  /** Removing an element that is absent changes nothing. */
  lemma {:induction false} RemovedAbsent<T>(s: seq<T>, e: T)
    requires e !in s
    ensures Removed(s, e) == s
  {
    if s != [] {
      RemovedAbsent(s[1..], e);
    }
  }

  /**
   * Removing a present element splices out exactly its first occurrence:
   * one element fewer, and the others keep their relative order.
   */
  lemma {:induction false} RemovedFirstOccurrence<T>(s: seq<T>, e: T, i: nat)
    requires i < |s| && s[i] == e && e !in s[..i]
    ensures Removed(s, e) == s[..i] + s[i + 1..]
    ensures |Removed(s, e)| == |s| - 1
  {
    if i > 0 {
      assert s[0] in s[..i];
      var t := s[1..];
      assert t[..i - 1] == s[1..i] && t[i..] == s[i + 1..];
      RemovedFirstOccurrence(t, e, i - 1);
      assert s[..i] == [s[0]] + t[..i - 1];
    }
  }

  /** As a bag, the result is the input less one copy of `e`. */
  lemma {:induction false} RemovedMultiset<T>(s: seq<T>, e: T)
    ensures multiset(Removed(s, e)) == multiset(s) - multiset{e}
  {
    if s != [] {
      assert s == [s[0]] + s[1..];
      if s[0] != e {
        RemovedMultiset(s[1..], e);
      }
    }
  }

  /** Removal keeps every other element, and adds none. */
  lemma RemovedMembers<T>(s: seq<T>, e: T)
    ensures forall x :: x in Removed(s, e) ==> x in s
    ensures forall x :: x in s && x != e ==> x in Removed(s, e)
  {
    RemovedMultiset(s, e);
    forall x
      ensures x in Removed(s, e) ==> x in s
      ensures x in s && x != e ==> x in Removed(s, e)
    {
      assert x in Removed(s, e) <==> multiset(Removed(s, e))[x] > 0;
      assert x in s <==> multiset(s)[x] > 0;
    }
  }

  /** An element that occurred at most once is gone after one removal. */
  lemma RemovedGone<T>(s: seq<T>, e: T)
    requires multiset(s)[e] <= 1
    ensures e !in Removed(s, e)
  {
    RemovedMultiset(s, e);
    assert multiset(Removed(s, e))[e] == 0;
  }

  /** Removing twice an element that occurred at most once is removing it once. */
  lemma RemovedTwice<T>(s: seq<T>, e: T)
    requires multiset(s)[e] <= 1
    ensures Removed(Removed(s, e), e) == Removed(s, e)
  {
    RemovedGone(s, e);
    RemovedAbsent(Removed(s, e), e);
  }

  /** Removing the element just pushed, when it was absent before, undoes the push. */
  lemma RemovedUndoesPush<T>(s: seq<T>, e: T)
    requires e !in s
    ensures Removed(s + [e], e) == s
  {
    RemovedFirstOccurrence(s + [e], e, |s|);
    assert (s + [e])[..|s|] == s;
  }

  /** A sequence without duplicates holds each element at most once. */
  lemma {:induction false} NoDupsCount<T>(s: seq<T>, e: T)
    requires NoDups(s)
    ensures multiset(s)[e] <= 1
  {
    if s != [] {
      assert s == [s[0]] + s[1..];
      NoDupsCount(s[1..], e);
      if s[0] == e {
        assert e !in s[1..];
      }
    }
  }

  /** Removal keeps a sequence free of duplicates. */
  lemma {:induction false} RemovedNoDups<T>(s: seq<T>, e: T)
    requires NoDups(s)
    ensures NoDups(Removed(s, e))
  {
    if s != [] && s[0] != e {
      NoDupsTail(s);
      RemovedNoDups(s[1..], e);
      RemovedMultiset(s[1..], e);
      assert multiset(Removed(s[1..], e))[s[0]] == 0;
      NoDupsCons(s[0], Removed(s[1..], e));
    }
  }

  lemma NoDupsTail<T>(s: seq<T>)
    requires NoDups(s) && s != []
    ensures s[0] !in s[1..] && NoDups(s[1..])
  {
    forall i, j | 0 <= i < j < |s| - 1 ensures s[1..][i] != s[1..][j] {
      assert s[1..][i] == s[i + 1] && s[1..][j] == s[j + 1];
    }
  }

  lemma NoDupsCons<T>(x: T, t: seq<T>)
    requires x !in t && NoDups(t)
    ensures NoDups([x] + t)
  {
    var r := [x] + t;
    forall i, j | 0 <= i < j < |r| ensures r[i] != r[j] {
      assert r[j] == t[j - 1];
      if i > 0 {
        assert r[i] == t[i - 1];
      }
    }
  }

  /** `s` without every element of `gone`, in order. */
  function Without<T(==)>(s: seq<T>, gone: set<T>): seq<T>
  {
    if s == [] then []
    else if s[0] in gone then Without(s[1..], gone)
    else [s[0]] + Without(s[1..], gone)
  }

  /**
   * Removing, one at a time, elements that each occur at most once is
   * filtering them all out.
   */
  lemma {:induction false} RemovedWithout<T>(s: seq<T>, gone: set<T>, e: T)
    requires multiset(s)[e] <= 1
    ensures Removed(Without(s, gone), e) == Without(s, gone + {e})
  {
    if s != [] {
      assert s == [s[0]] + s[1..];
      if s[0] in gone {
        RemovedWithout(s[1..], gone, e);
      } else if s[0] == e {
        assert e !in s[1..];
        WithoutMembers(s[1..], gone, e);
        RemovedAbsent(Without(s[1..], gone), e);
        WithoutAbsent(s[1..], gone, e);
      } else {
        RemovedWithout(s[1..], gone, e);
      }
    }
  }

  /** `Without` keeps exactly the elements of `s` that are not in `gone`. */
  lemma {:induction false} WithoutMembers<T>(s: seq<T>, gone: set<T>, x: T)
    ensures x in Without(s, gone) <==> x in s && x !in gone
  {
    if s != [] {
      WithoutMembers(s[1..], gone, x);
    }
  }

  lemma {:induction false} WithoutAbsent<T>(s: seq<T>, gone: set<T>, e: T)
    requires e !in s
    ensures Without(s, gone + {e}) == Without(s, gone)
  {
    if s != [] {
      WithoutAbsent(s[1..], gone, e);
    }
  }

  lemma {:induction false} WithoutNothing<T>(s: seq<T>)
    ensures Without(s, {}) == s
  {
    if s != [] {
      WithoutNothing(s[1..]);
    }
  }
}
