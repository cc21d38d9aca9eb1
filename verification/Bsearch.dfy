/** Binary search in an array that the comparison splits around the key. */
module Bsearch {
  import opened Quicksort

  datatype Found = Missing | At(index: nat)

  /** Elements below the key come first, then its equals, then those above it. */
  ghost predicate Splits<K, T>(key: K, s: seq<T>, cmp: (K, T) -> int) {
    forall i, j :: 0 <= i <= j < |s| ==>
      (cmp(key, s[i]) < 0 ==> cmp(key, s[j]) < 0) && (cmp(key, s[j]) > 0 ==> cmp(key, s[i]) > 0)
  }

  /** What it finds compares equal in any array; in one the key splits, it finds an equal exactly when there is
      one. */
  method Search<K, T>(key: K, base: seq<T>, cmp: (K, T) -> int) returns (r: Found)
    ensures r.At? ==> r.index < |base| && cmp(key, base[r.index]) == 0
    ensures Splits(key, base, cmp) ==> (r.Missing? <==> forall i :: 0 <= i < |base| ==> cmp(key, base[i]) != 0)
  {
    var s, e := 0, |base|;
    while s < e
      invariant s <= e <= |base|
      invariant Splits(key, base, cmp) ==> forall i :: 0 <= i < s ==> cmp(key, base[i]) > 0
      invariant Splits(key, base, cmp) ==> forall i :: e <= i < |base| ==> cmp(key, base[i]) < 0
    {
      var m := s + (e - s) / 2;
      var ret := cmp(key, base[m]);
      if ret < 0 {
        e := m;
      } else if ret > 0 {
        s := m + 1;
      } else {
        return At(m);
      }
    }
    return Missing;
  }

  /** What the quicksort leaves behind can be searched for every key, with the same comparison. */
  lemma SortedSplits<T(!new)>(key: T, s: seq<T>, cmp: (T, T) -> int)
    requires TotalPreorder(cmp) && Sorted(s, cmp, 0, |s|)
    ensures Splits(key, s, cmp)
  {
    forall i, j | 0 <= i <= j < |s|
      ensures (cmp(key, s[i]) < 0 ==> cmp(key, s[j]) < 0) && (cmp(key, s[j]) > 0 ==> cmp(key, s[i]) > 0)
    {
      Between(key, s[i], s[j], cmp);
    }
  }

  lemma Between<T(!new)>(key: T, x: T, y: T, cmp: (T, T) -> int)
    requires TotalPreorder(cmp) && cmp(x, y) <= 0
    ensures cmp(key, x) < 0 ==> cmp(key, y) < 0
    ensures cmp(key, y) > 0 ==> cmp(key, x) > 0
  {
    if cmp(y, key) <= 0 {
      Transitive(cmp, x, y, key);
    }
    if cmp(key, x) <= 0 {
      Transitive(cmp, key, x, y);
    }
    Flip(cmp, key, x);
    Flip(cmp, key, y);
  }
}
