/** Sequence operations the extension plugin registry is built from: locating an
    element the way `std::find` does, erasing the first occurrence the way
    `vector::erase` at that iterator does, and the reference notions (no
    duplicates, "the others in their order") that the registry's laws are
    stated with. */
module Sequences {

  /** Every element occurs at most once. */
  ghost predicate NoDuplicates<T>(s: seq<T>) {
    forall i, j :: 0 <= i < j < |s| ==> s[i] != s[j]
  }

  /** The position of the first element equal to `x`, or `|s|` when there is
      none: the iterator `std::find` returns, `|s|` standing for `end()`. */
  function IndexOf<T(==)>(s: seq<T>, x: T): (i: nat)
    ensures i <= |s|
    ensures i < |s| ==> s[i] == x
    ensures forall j :: 0 <= j < i ==> s[j] != x
    ensures i == |s| <==> x !in s
  {
    if s == [] then 0
    else if s[0] == x then 0
    else
      var i := 1 + IndexOf(s[1..], x);
      assert forall j :: 1 <= j < i ==> s[j] == s[1..][j - 1];
      i
  }

  /** `s` with its first element equal to `x` taken out (reference definition). */
  ghost function RemoveFirst<T>(s: seq<T>, x: T): (r: seq<T>)
    ensures |r| == if x in s then |s| - 1 else |s|
    ensures forall y :: y in r ==> y in s
  {
    if s == [] then []
    else
      if s[0] == x then s[1..]
      else [s[0]] + RemoveFirst(s[1..], x)
  }

  /** `s` with every element equal to `x` taken out, the others in their order. */
  ghost function Without<T>(s: seq<T>, x: T): (r: seq<T>)
    ensures |r| <= |s|
    ensures forall y :: y in r ==> y in s && y != x
    ensures forall y :: y in s && y != x ==> y in r
  {
    if s == [] then []
    else
      assert s == [s[0]] + s[1..];
      (if s[0] == x then [] else [s[0]]) + Without(s[1..], x)
  }

  /** When `x` is absent, removing it changes nothing. */
  lemma {:induction false} RemoveFirstAbsent<T>(s: seq<T>, x: T)
    requires x !in s
    ensures RemoveFirst(s, x) == s
  {
    if s != [] {
      assert s[0] != x && x !in s[1..];
      RemoveFirstAbsent(s[1..], x);
      assert [s[0]] + s[1..] == s;
    }
  }

  /** Erasing at the position `IndexOf` reports is exactly the removal of the
      first occurrence: what lies before and after it keeps its order, and
      nothing is erased when `IndexOf` reports the end. */
  lemma {:induction false} RemoveFirstErase<T>(s: seq<T>, x: T)
    ensures var i := IndexOf(s, x);
      RemoveFirst(s, x) == if i < |s| then s[..i] + s[i + 1..] else s
  {
    if s != [] && s[0] != x {
      RemoveFirstErase(s[1..], x);
      var i := IndexOf(s[1..], x);
      if i < |s| - 1 {
        assert [s[0]] + s[1..][..i] == s[..i + 1];
        assert s[1..][i + 1..] == s[i + 2..];
      } else {
        assert [s[0]] + s[1..] == s;
      }
    }
  }

  /** Removal takes out exactly one occurrence of `x` when there is one, and
      nothing else. */
  lemma {:induction false} RemoveFirstMultiset<T>(s: seq<T>, x: T)
    ensures multiset(RemoveFirst(s, x)) == multiset(s) - multiset{x}
  {
    if s != [] {
      assert s == [s[0]] + s[1..];
      if s[0] != x {
        RemoveFirstMultiset(s[1..], x);
        assert multiset(RemoveFirst(s, x)) == multiset{s[0]} + multiset(RemoveFirst(s[1..], x));
      }
    }
  }

  /** Removing the first occurrence keeps every other element, in order. */
  lemma {:induction false} RemoveFirstKeepsOthers<T>(s: seq<T>, x: T)
    ensures Without(RemoveFirst(s, x), x) == Without(s, x)
  {
    if s != [] && s[0] != x {
      RemoveFirstKeepsOthers(s[1..], x);
      var t := RemoveFirst(s[1..], x);
      assert ([s[0]] + t)[0] == s[0] && ([s[0]] + t)[1..] == t;
    }
  }

  /** Prepending an element that is not in a duplicate-free sequence keeps it
      duplicate-free. */
  lemma NoDuplicatesCons<T>(a: T, t: seq<T>)
    requires NoDuplicates(t) && a !in t
    ensures NoDuplicates([a] + t)
  {
  }

  /** Appending an element that is not in a duplicate-free sequence keeps it
      duplicate-free. */
  lemma NoDuplicatesSnoc<T>(t: seq<T>, a: T)
    requires NoDuplicates(t) && a !in t
    ensures NoDuplicates(t + [a])
  {
  }

  /** The tail of a duplicate-free sequence is duplicate-free and lacks the head. */
  lemma NoDuplicatesTail<T>(s: seq<T>)
    requires s != [] && NoDuplicates(s)
    ensures NoDuplicates(s[1..]) && s[0] !in s[1..]
  {
  }

  /** Removing from a duplicate-free sequence keeps it duplicate-free and leaves
      no occurrence of the removed element. */
  lemma {:induction false} RemoveFirstKeepsNoDuplicates<T>(s: seq<T>, x: T)
    requires NoDuplicates(s)
    ensures NoDuplicates(RemoveFirst(s, x))
    ensures x !in RemoveFirst(s, x)
  {
    if s != [] {
      NoDuplicatesTail(s);
      if s[0] != x {
        RemoveFirstKeepsNoDuplicates(s[1..], x);
        var t := RemoveFirst(s[1..], x);
        NoDuplicatesCons(s[0], t);
      }
    }
  }

  /** Taking out an absent element changes nothing. */
  lemma {:induction false} WithoutAbsent<T>(s: seq<T>, x: T)
    requires x !in s
    ensures Without(s, x) == s
  {
    if s != [] {
      assert x !in s[1..];
      WithoutAbsent(s[1..], x);
      assert [s[0]] + s[1..] == s;
    }
  }

  /** Taking out all occurrences distributes over concatenation. */
  lemma {:induction false} WithoutAppend<T>(a: seq<T>, b: seq<T>, x: T)
    ensures Without(a + b, x) == Without(a, x) + Without(b, x)
  {
    if a == [] {
      assert a + b == b;
    } else {
      assert (a + b)[0] == a[0] && (a + b)[1..] == a[1..] + b;
      WithoutAppend(a[1..], b, x);
    }
  }

  /** In a duplicate-free sequence, the first occurrence is the only one. */
  lemma {:induction false} RemoveFirstIsWithout<T>(s: seq<T>, x: T)
    requires NoDuplicates(s)
    ensures RemoveFirst(s, x) == Without(s, x)
  {
    if s != [] {
      NoDuplicatesTail(s);
      if s[0] == x {
        WithoutAbsent(s[1..], x);
      } else {
        RemoveFirstIsWithout(s[1..], x);
      }
    }
  }

  /** Removal skips a prefix that does not contain the element. */
  lemma {:induction false} RemoveFirstSkips<T>(a: seq<T>, b: seq<T>, x: T)
    requires x !in a
    ensures RemoveFirst(a + b, x) == a + RemoveFirst(b, x)
  {
    if a == [] {
      assert a + b == b;
    } else {
      assert (a + b)[0] == a[0] && (a + b)[1..] == a[1..] + b;
      assert x !in a[1..];
      RemoveFirstSkips(a[1..], b, x);
      assert [a[0]] + (a[1..] + RemoveFirst(b, x)) == a + RemoveFirst(b, x);
    }
  }

  /** Each element of a duplicate-free sequence occurs exactly once. */
  lemma {:induction false} NoDuplicatesOccursOnce<T>(s: seq<T>, x: T)
    requires NoDuplicates(s) && x in s
    ensures multiset(s)[x] == 1
  {
    NoDuplicatesTail(s);
    assert s == [s[0]] + s[1..];
    if s[0] != x {
      NoDuplicatesOccursOnce(s[1..], x);
    }
  }
}
