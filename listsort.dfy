/**
 * Python's `list.sort(key=...)` over a real-valued key. The library sort is
 * stable: elements whose keys are equal keep their relative order. It is
 * modelled by insertion sort, and the lemmas show that insertion sort is the
 * one stable sort there is.
 */
module ListSort {

  predicate Sorted<T>(s: seq<T>, key: T -> real)
  {
    forall i, j :: 0 <= i < j < |s| ==> key(s[i]) <= key(s[j])
  }

  /** The elements of `s` whose key is `d`, in their order in `s`. */
  function WithKey<T>(s: seq<T>, key: T -> real, d: real): seq<T>
  {
    if s == [] then [] else (if key(s[0]) == d then [s[0]] else []) + WithKey(s[1..], key, d)
  }

  /** `x` placed ahead of the first element of `s` whose key is not smaller than its own. */
  function Insert<T>(x: T, s: seq<T>, key: T -> real): (r: seq<T>)
    ensures |r| == |s| + 1
    ensures multiset(r) == multiset(s) + multiset{x}
  {
    if s == [] || key(x) <= key(s[0]) then [x] + s
    else
      assert s == [s[0]] + s[1..];
      [s[0]] + Insert(x, s[1..], key)
  }

  /** The list `s` after `s.sort(key=key)`. */
  function SortBy<T>(s: seq<T>, key: T -> real): (r: seq<T>)
    ensures |r| == |s|
    ensures multiset(r) == multiset(s)
  {
    if s == [] then []
    else
      assert s == [s[0]] + s[1..];
      Insert(s[0], SortBy(s[1..], key), key)
  }

  /** Inserting an element no smaller than a bound into a list no smaller than it keeps the bound. */
  lemma {:induction false} InsertLowerBound<T>(x: T, s: seq<T>, key: T -> real, b: real)
    requires b <= key(x) && forall i :: 0 <= i < |s| ==> b <= key(s[i])
    ensures forall i :: 0 <= i < |Insert(x, s, key)| ==> b <= key(Insert(x, s, key)[i])
  {
    if s != [] && key(x) > key(s[0]) {
      InsertLowerBound(x, s[1..], key, b);
    }
  }

  lemma {:induction false} InsertSorted<T>(x: T, s: seq<T>, key: T -> real)
    requires Sorted(s, key)
    ensures Sorted(Insert(x, s, key), key)
  {
    if s != [] && key(x) > key(s[0]) {
      var rest := Insert(x, s[1..], key);
      InsertSorted(x, s[1..], key);
      InsertLowerBound(x, s[1..], key, key(s[0]));
      var r := [s[0]] + rest;
      forall i, j | 0 <= i < j < |r|
        ensures key(r[i]) <= key(r[j])
      {
        assert r[j] == rest[j - 1];
        if i > 0 {
          assert r[i] == rest[i - 1];
        }
      }
    }
  }

  /** `sort` leaves the list in ascending key order. */
  lemma {:induction false} SortBySorted<T>(s: seq<T>, key: T -> real)
    ensures Sorted(SortBy(s, key), key)
  {
    if s != [] {
      SortBySorted(s[1..], key);
      InsertSorted(s[0], SortBy(s[1..], key), key);
    }
  }

  lemma {:induction false} InsertWithKey<T>(x: T, s: seq<T>, key: T -> real, d: real)
    ensures WithKey(Insert(x, s, key), key, d) == (if key(x) == d then [x] else []) + WithKey(s, key, d)
  {
    if s == [] || key(x) <= key(s[0]) {
      assert ([x] + s)[1..] == s;
    } else {
      var r := [s[0]] + Insert(x, s[1..], key);
      assert r[1..] == Insert(x, s[1..], key);
      InsertWithKey(x, s[1..], key, d);
    }
  }

  /** Stability: for every key, the elements with that key keep their order. */
  lemma {:induction false} SortByStable<T>(s: seq<T>, key: T -> real, d: real)
    ensures WithKey(SortBy(s, key), key, d) == WithKey(s, key, d)
  {
    if s != [] {
      SortByStable(s[1..], key, d);
      InsertWithKey(s[0], SortBy(s[1..], key), key, d);
    }
  }

  lemma {:induction false} WithKeyMember<T>(s: seq<T>, key: T -> real, d: real, x: T)
    requires x in WithKey(s, key, d)
    ensures x in s && key(x) == d
  {
    if s != [] {
      var head := if key(s[0]) == d then [s[0]] else [];
      if x !in head {
        WithKeyMember(s[1..], key, d, x);
      }
    }
  }

  /** A non-empty list has an element with the key of its head. */
  lemma WithKeyOfHead<T>(s: seq<T>, key: T -> real)
    ensures s != [] ==> WithKey(s, key, key(s[0])) != [] && WithKey(s, key, key(s[0]))[0] == s[0]
    ensures s == [] ==> forall d :: WithKey(s, key, d) == []
  {
  }

  /** Dropping the head of a list drops it from the elements with its key and from no others. */
  lemma WithKeyOfTail<T>(s: seq<T>, key: T -> real, c: real)
    requires s != []
    ensures WithKey(s[1..], key, c) == if key(s[0]) == c then WithKey(s, key, c)[1..] else WithKey(s, key, c)
  {
    var head := if key(s[0]) == c then [s[0]] else [];
    var tail := WithKey(s[1..], key, c);
    assert WithKey(s, key, c) == head + tail;
    assert (head + tail)[|head|..] == tail;
  }

  lemma SameHeadSameTail<T>(t: seq<T>, u: seq<T>)
    requires t != [] && u != [] && t[0] == u[0] && t[1..] == u[1..]
    ensures t == u
  {
    assert |t| == |u|;
    forall i | 0 <= i < |t|
      ensures t[i] == u[i]
    {
      if i > 0 {
        assert t[i] == t[1..][i - 1] && u[i] == u[1..][i - 1];
      }
    }
  }

  lemma SortedTail<T>(s: seq<T>, key: T -> real)
    requires s != [] && Sorted(s, key)
    ensures Sorted(s[1..], key)
  {
    forall i, j | 0 <= i < j < |s| - 1
      ensures key(s[1..][i]) <= key(s[1..][j])
    {
      assert s[1..][i] == s[i + 1] && s[1..][j] == s[j + 1];
    }
  }

  /** The head of a sorted list has the smallest key. */
  lemma SortedHeadLeast<T>(s: seq<T>, key: T -> real, x: T)
    requires Sorted(s, key) && x in s
    ensures key(s[0]) <= key(x)
  {
    var j :| 0 <= j < |s| && s[j] == x;
    if j > 0 {
      assert key(s[0]) <= key(s[j]);
    }
  }

  /** In sorted lists that agree key by key, the heads are the same element. */
  lemma SortedStableSameHead<T>(t: seq<T>, u: seq<T>, key: T -> real)
    requires t != [] && u != [] && Sorted(t, key) && Sorted(u, key)
    requires forall d :: WithKey(t, key, d) == WithKey(u, key, d)
    ensures t[0] == u[0]
  {
    var d := key(t[0]);
    var e := key(u[0]);
    WithKeyOfHead(t, key);
    WithKeyOfHead(u, key);
    assert WithKey(u, key, d) == WithKey(t, key, d);
    assert WithKey(t, key, e) == WithKey(u, key, e);
    WithKeyMember(u, key, d, t[0]);
    WithKeyMember(t, key, e, u[0]);
    SortedHeadLeast(u, key, t[0]);
    SortedHeadLeast(t, key, u[0]);
  }

  /** Two sorted lists that agree, key by key, on their elements in order are the same list. */
  lemma {:induction false} SortedStableUnique<T>(t: seq<T>, u: seq<T>, key: T -> real)
    requires Sorted(t, key) && Sorted(u, key)
    requires forall d :: WithKey(t, key, d) == WithKey(u, key, d)
    ensures t == u
  {
    WithKeyOfHead(t, key);
    WithKeyOfHead(u, key);
    if t != [] && u != [] {
      SortedStableSameHead(t, u, key);
      forall c
        ensures WithKey(t[1..], key, c) == WithKey(u[1..], key, c)
      {
        WithKeyOfTail(t, key, c);
        WithKeyOfTail(u, key, c);
      }
      SortedTail(t, key);
      SortedTail(u, key);
      SortedStableUnique(t[1..], u[1..], key);
      SameHeadSameTail(t, u);
    }
  }

  /** Any sorted rearrangement of `s` that keeps equal keys in order is what `sort` gives. */
  lemma SortByIsTheStableSort<T>(s: seq<T>, t: seq<T>, key: T -> real)
    requires Sorted(t, key)
    requires forall d :: WithKey(t, key, d) == WithKey(s, key, d)
    ensures t == SortBy(s, key)
  {
    SortBySorted(s, key);
    forall d
      ensures WithKey(t, key, d) == WithKey(SortBy(s, key), key, d)
    {
      SortByStable(s, key, d);
    }
    SortedStableUnique(t, SortBy(s, key), key);
  }

  /** The elements with a given key in a prefix are a prefix of those in the whole list. */
  lemma {:induction false} WithKeyOfPrefix<T>(s: seq<T>, n: nat, key: T -> real, d: real)
    requires n <= |s|
    ensures WithKey(s[..n], key, d) <= WithKey(s, key, d)
  {
    if n > 0 {
      assert s[..n][1..] == s[1..][..n - 1];
      WithKeyOfPrefix(s[1..], n - 1, key, d);
    }
  }

  lemma MultisetOfSplit<T>(s: seq<T>, n: nat)
    requires n <= |s|
    ensures multiset(s) == multiset(s[..n]) + multiset(s[n..])
  {
    assert s == s[..n] + s[n..];
  }

  /** In a sorted list, no element after the first n has a smaller key than one of those n. */
  lemma SortedPrefixIsLeast<T>(s: seq<T>, n: nat, key: T -> real)
    requires Sorted(s, key) && n <= |s|
    ensures forall x, i :: x in multiset(s) - multiset(s[..n]) && 0 <= i < n ==> key(s[..n][i]) <= key(x)
  {
    MultisetOfSplit(s, n);
    forall x, i | x in multiset(s) - multiset(s[..n]) && 0 <= i < n
      ensures key(s[..n][i]) <= key(x)
    {
      assert x in multiset(s[n..]);
      var j :| 0 <= j < |s[n..]| && s[n..][j] == x;
      assert s[n + j] == x;
    }
  }
}
