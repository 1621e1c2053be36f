/** Keys under a comparator, in the in-order sequence of a search tree. */
module Ordering {
  import opened Sequences

  /** `_less` orders keys strictly and agrees with `==`: two keys are equal exactly when neither is less. */
  ghost predicate StrictOrder<K(!new)>(less: (K, K) -> bool) {
    && (forall x :: !less(x, x))
    && (forall x, y, z :: less(x, y) && less(y, z) ==> less(x, z))
    && (forall x, y :: x == y || less(x, y) || less(y, x))
  }

  ghost predicate Sorted<K>(less: (K, K) -> bool, s: seq<K>) {
    forall i, j :: 0 <= i < j < |s| ==> less(s[i], s[j])
  }

  ghost function KeysOf<P, K>(values: map<P, K>, order: seq<P>): (s: seq<K>)
    requires Held(values, order)
    ensures |s| == |order|
    ensures forall i :: 0 <= i < |s| ==> s[i] == values[order[i]]
  {
    seq(|order|, i requires 0 <= i < |order| => values[order[i]])
  }

  /** k is where key belongs: everything before it is less, everything from it on is greater. */
  ghost predicate SlotAt<K>(less: (K, K) -> bool, s: seq<K>, key: K, k: int) {
    && 0 <= k <= |s|
    && (forall i :: 0 <= i < k ==> less(s[i], key))
    && (forall i :: k <= i < |s| ==> less(key, s[i]))
  }

  lemma InsertKeepsSorted<K(!new)>(less: (K, K) -> bool, s: seq<K>, key: K, k: int)
    requires Sorted(less, s) && SlotAt(less, s, key, k)
    ensures Sorted(less, s[..k] + [key] + s[k..])
  {
  }

  lemma RemoveKeepsSorted<K>(less: (K, K) -> bool, s: seq<K>, k: int)
    requires Sorted(less, s) && 0 <= k < |s|
    ensures Sorted(less, s[..k] + s[k + 1..])
  {
  }

  lemma LessGoesLeft<K(!new)>(less: (K, K) -> bool, s: seq<K>, key: K, pos: int)
    requires StrictOrder(less) && Sorted(less, s) && 0 <= pos < |s| && less(key, s[pos])
    ensures forall i :: pos <= i < |s| ==> less(key, s[i])
    ensures forall i :: 0 <= i < |s| && s[i] == key ==> i < pos
  {
  }

  lemma GreaterGoesRight<K(!new)>(less: (K, K) -> bool, s: seq<K>, key: K, pos: int)
    requires StrictOrder(less) && Sorted(less, s) && 0 <= pos < |s| && !less(key, s[pos]) && key != s[pos]
    ensures forall i :: 0 <= i <= pos ==> less(s[i], key)
    ensures forall i :: 0 <= i < |s| && s[i] == key ==> pos < i
  {
    assert less(s[pos], key);
  }
}
