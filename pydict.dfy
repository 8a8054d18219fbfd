/**
 * A Python `dict`: a mapping that also remembers the order in which its keys
 * were first inserted, which is the order `for k in d` visits them.
 */
module PyDict {

  /** No element occurs twice; each element is new with respect to the ones before it. */
  predicate Distinct<T(==)>(s: seq<T>)
  {
    s == [] || (s[|s| - 1] !in s[..|s| - 1] && Distinct(s[..|s| - 1]))
  }

  lemma DistinctSnoc<T>(s: seq<T>, x: T)
    ensures Distinct(s + [x]) <==> Distinct(s) && x !in s
  {
    assert (s + [x])[..|s|] == s;
  }

  /** Distinct means pairwise different. */
  lemma {:induction false} DistinctPairwise<T>(s: seq<T>)
    ensures Distinct(s) <==> forall i, j :: 0 <= i < j < |s| ==> s[i] != s[j]
  {
    if s != [] {
      var n := |s| - 1;
      DistinctPairwise(s[..n]);
      assert forall i :: 0 <= i < n ==> s[..n][i] == s[i];
      if Distinct(s) {
        forall i, j | 0 <= i < j < |s|
          ensures s[i] != s[j]
        {
          if j == n {
            assert s[i] in s[..n];
          }
        }
      }
    }
  }

  class Dict<K(==,!new), V> {
    /** The keys in insertion order. */
    var keys: seq<K>
    var values: map<K, V>

    ghost predicate Valid()
      reads this
    {
      Distinct(keys) && forall k :: k in values <==> k in keys
    }

    /** `{}` */
    constructor ()
      ensures Valid() && keys == [] && values == map[]
    {
      keys := [];
      values := map[];
    }

    /**
     * `d[k] = v`: a new key goes to the end of the order, an existing key keeps
     * its place and takes the new value.
     */
    method Put(k: K, v: V)
      requires Valid()
      modifies this
      ensures Valid()
      ensures keys == if k in old(values) then old(keys) else old(keys) + [k]
      ensures values == old(values)[k := v]
    {
      if k !in values {
        DistinctSnoc(keys, k);
        keys := keys + [k];
      }
      values := values[k := v];
    }
  }
}
