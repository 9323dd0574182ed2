/**
 Counting the entries of a finite map that satisfy a predicate. The protocol
 models keep one entry per thread, handle or endpoint, and their invariants
 are equations between such counts and shared counters.
 */
module Counting {

  /** The number of keys of m whose value satisfies p. */
  ghost function Count<K, V>(m: map<K, V>, p: V -> bool): nat {
    |set k | k in m && p(m[k])|
  }

  /** Overwriting one entry changes the count by that entry alone. */
  lemma CountUpdate<K, V>(m: map<K, V>, k: K, v: V, p: V -> bool)
    ensures Count(m[k := v], p) + (if k in m && p(m[k]) then 1 else 0)
         == Count(m, p) + (if p(v) then 1 else 0)
  {
    var before := set x | x in m && p(m[x]);
    var m' := m[k := v];
    var after := set x | x in m' && p(m'[x]);
    if p(v) {
      assert after == before + {k};
    } else {
      assert after == before - {k};
    }
  }

  lemma CountRemove<K, V>(m: map<K, V>, k: K, p: V -> bool)
    requires k in m
    ensures Count(m - {k}, p) + (if p(m[k]) then 1 else 0) == Count(m, p)
  {
    var before := set x | x in m && p(m[x]);
    var m' := m - {k};
    var after := set x | x in m' && p(m'[x]);
    assert after == before - {k};
  }

  lemma CountWeaker<K, V>(m: map<K, V>, p: V -> bool, q: V -> bool)
    requires forall k | k in m :: p(m[k]) ==> q(m[k])
    ensures Count(m, p) <= Count(m, q)
  {
    SubsetSize(set k | k in m && p(m[k]), set k | k in m && q(m[k]));
  }

  /** A predicate that splits into two disjoint ones counts as their sum. */
  lemma CountSplit<K, V>(m: map<K, V>, p: V -> bool, q: V -> bool, r: V -> bool)
    requires forall k | k in m :: p(m[k]) <==> (q(m[k]) || r(m[k]))
    requires forall k | k in m :: !(q(m[k]) && r(m[k]))
    ensures Count(m, p) == Count(m, q) + Count(m, r)
  {
    var a := set k | k in m && q(m[k]);
    var b := set k | k in m && r(m[k]);
    assert (set k | k in m && p(m[k])) == a + b;
    assert a !! b;
  }

  lemma CountZero<K, V>(m: map<K, V>, p: V -> bool)
    ensures Count(m, p) == 0 <==> forall k | k in m :: !p(m[k])
  {
    var a := set k | k in m && p(m[k]);
    if Count(m, p) == 0 {
      assert a == {};
      assert forall k | k in m :: p(m[k]) ==> k in a;
    }
  }

  lemma CountAll<K, V>(m: map<K, V>, p: V -> bool)
    requires forall k | k in m :: p(m[k])
    ensures Count(m, p) == |m|
  {
    assert (set k | k in m && p(m[k])) == m.Keys;
  }

  /** A count of at most one leaves room for one key only. */
  lemma CountUnique<K, V>(m: map<K, V>, p: V -> bool, k: K, l: K)
    requires k in m && p(m[k]) && l in m && p(m[l])
    requires Count(m, p) <= 1
    ensures k == l
  {
    if k != l {
      SubsetSize({k, l}, set x | x in m && p(m[x]));
    }
  }

  lemma SubsetSize<T>(a: set<T>, b: set<T>)
    requires a <= b
    ensures |a| <= |b|
  {
    assert b == a + (b - a);
  }
}
