/** Bentley and McIlroy's quicksort: in place, ninther pivots, a four-zone partition,
    an insertion-sort escape, and iteration over the right part. */
module Quicksort {

  /** What the comparison function must be: a total preorder given by the sign of its result. */
  ghost predicate TotalPreorder<T(!new)>(cmp: (T, T) -> int) {
    && (forall x, y :: cmp(x, y) <= 0 <==> cmp(y, x) >= 0)
    && (forall x, y, z :: cmp(x, y) <= 0 && cmp(y, z) <= 0 ==> cmp(x, z) <= 0)
  }

  lemma Transitive<T(!new)>(cmp: (T, T) -> int, x: T, y: T, z: T)
    requires TotalPreorder(cmp) && cmp(x, y) <= 0 && cmp(y, z) <= 0
    ensures cmp(x, z) <= 0
  {
  }

  lemma Flip<T(!new)>(cmp: (T, T) -> int, x: T, y: T)
    requires TotalPreorder(cmp)
    ensures cmp(x, x) == 0 && (cmp(x, y) > 0 <==> cmp(y, x) < 0) && (cmp(x, y) == 0 <==> cmp(y, x) == 0)
  {
  }

  ghost predicate Sorted<T>(s: seq<T>, cmp: (T, T) -> int, lo: nat, hi: nat)
    requires lo <= hi <= |s|
  {
    forall i, j :: lo <= i <= j < hi ==> cmp(s[i], s[j]) <= 0
  }

  /** `t` rearranges positions `lo..hi` of `s` and nothing else. */
  ghost predicate Rearranged<T>(s: seq<T>, t: seq<T>, lo: nat, hi: nat) {
    && lo <= hi <= |s| == |t|
    && s[..lo] == t[..lo] && s[hi..] == t[hi..]
    && multiset(s[lo..hi]) == multiset(t[lo..hi])
  }

  lemma Widen<T>(s: seq<T>, t: seq<T>, lo: nat, hi: nat, lo': nat, hi': nat)
    requires Rearranged(s, t, lo, hi) && lo' <= lo && hi <= hi' <= |s|
    ensures Rearranged(s, t, lo', hi')
  {
    assert s[..lo'] == s[..lo][..lo'] && t[..lo'] == t[..lo][..lo'];
    assert s[hi'..] == s[hi..][hi' - hi..] && t[hi'..] == t[hi..][hi' - hi..];
    assert s[lo'..hi'] == s[..lo][lo'..] + s[lo..hi] + s[hi..][..hi' - hi];
    assert t[lo'..hi'] == t[..lo][lo'..] + t[lo..hi] + t[hi..][..hi' - hi];
  }

  lemma SameRearranged<T>(s: seq<T>, lo: nat, hi: nat)
    requires lo <= hi <= |s|
    ensures Rearranged(s, s, lo, hi)
  {
  }

  lemma RearrangedTwice<T>(s: seq<T>, t: seq<T>, u: seq<T>, lo: nat, hi: nat)
    requires Rearranged(s, t, lo, hi) && Rearranged(t, u, lo, hi)
    ensures Rearranged(s, u, lo, hi)
  {
  }

  /** A property of every element of the range survives rearranging the range. */
  lemma RangeKeeps<T>(s: seq<T>, t: seq<T>, lo: nat, hi: nat, p: T -> bool)
    requires Rearranged(s, t, lo, hi) && forall i :: lo <= i < hi ==> p(s[i])
    ensures forall i :: lo <= i < hi ==> p(t[i])
  {
    forall i | lo <= i < hi ensures p(t[i]) {
      assert t[i] in multiset(t[lo..hi]) by { assert t[lo..hi][i - lo] == t[i]; }
      assert t[i] in s[lo..hi];
    }
  }

  function Swapped<T>(s: seq<T>, i: nat, j: nat): seq<T>
    requires i < |s| && j < |s|
  {
    s[i := s[j]][j := s[i]]
  }

  lemma SwapRearranges<T>(s: seq<T>, i: nat, j: nat, lo: nat, hi: nat)
    requires lo <= i < hi && lo <= j < hi && hi <= |s|
    ensures Rearranged(s, s[i := s[j]][j := s[i]], lo, hi)
  {
    var t := s[i := s[j]][j := s[i]];
    assert s[..lo] == t[..lo] && s[hi..] == t[hi..];
    assert t[lo..hi] == s[lo..hi][i - lo := s[j]][j - lo := s[i]];
  }

  method Swap<T>(a: array<T>, i: nat, j: nat, ghost lo: nat, ghost hi: nat)
    requires lo <= i < hi && lo <= j < hi && hi <= a.Length
    modifies a
    ensures a[..] == old(a[..])[i := old(a[j])][j := old(a[i])]
    ensures Rearranged(old(a[..]), a[..], lo, hi)
  {
    SwapRearranges(a[..], i, j, lo, hi);
    a[i], a[j] := a[j], a[i];
  }

  /** A swap in a range already rearranged. */
  method SwapOn<T>(a: array<T>, i: nat, j: nat, ghost lo: nat, ghost hi: nat, ghost orig: seq<T>)
    requires lo < i < hi && lo < j < hi && hi <= a.Length && Rearranged(orig, a[..], lo, hi)
    modifies a
    ensures a[..] == old(a[..])[i := old(a[j])][j := old(a[i])] && a[lo] == old(a[lo])
    ensures Rearranged(orig, a[..], lo, hi)
  {
    ghost var before := a[..];
    Swap(a, i, j, lo, hi);
    RearrangedTwice(orig, before, a[..], lo, hi);
  }

  /** `s` with the ranges of length `n` at `i` and `j` exchanged. */
  function Exchanged<T>(s: seq<T>, i: nat, j: nat, n: nat): (t: seq<T>)
    requires i + n <= j && j + n <= |s|
    ensures |t| == |s|
  {
    seq(|s|, k requires 0 <= k < |s| =>
      if i <= k < i + n then s[j + (k - i)] else if j <= k < j + n then s[i + (k - j)] else s[k])
  }

  lemma ExchangedAt<T>(s: seq<T>, i: nat, j: nat, n: nat, k: nat)
    requires i + n <= j && j + n <= |s| && k < |s|
    ensures Exchanged(s, i, j, n)[k] ==
            if i <= k < i + n then s[j + (k - i)] else if j <= k < j + n then s[i + (k - j)] else s[k]
  {
  }

  lemma ExchangeOneMore<T>(s: seq<T>, i: nat, j: nat, d: nat)
    requires i + d < j && j + d < |s|
    ensures var t := Exchanged(s, i, j, d);
      t[i + d] == s[i + d] && t[j + d] == s[j + d] && Exchanged(s, i, j, d + 1) == Swapped(t, i + d, j + d)
  {
  }

  lemma SwappedRearranges<T>(s: seq<T>, i: nat, j: nat, lo: nat, hi: nat)
    requires lo <= i < hi && lo <= j < hi && hi <= |s|
    ensures |Swapped(s, i, j)| == |s| && Rearranged(s, Swapped(s, i, j), lo, hi)
  {
    hide Rearranged;
    SwapRearranges(s, i, j, lo, hi);
  }

  lemma ExchangeNothing<T>(s: seq<T>, i: nat, j: nat)
    requires i <= j <= |s|
    ensures Exchanged(s, i, j, 0) == s
  {
  }

  lemma {:induction false} ExchangeRearranges<T>(s: seq<T>, i: nat, j: nat, n: nat, lo: nat, hi: nat)
    requires lo <= i && i + n <= j && j + n <= hi <= |s|
    ensures Rearranged(s, Exchanged(s, i, j, n), lo, hi)
  {
    hide Exchanged, Rearranged, Swapped;
    if n == 0 {
      ExchangeNothing(s, i, j);
      SameRearranged(s, lo, hi);
    } else {
      var t := Exchanged(s, i, j, n - 1);
      ExchangeRearranges(s, i, j, n - 1, lo, hi);
      ExchangeOneMore(s, i, j, n - 1);
      SwappedRearranges(t, i + n - 1, j + n - 1, lo, hi);
      RearrangedTwice(s, t, Exchanged(s, i, j, n), lo, hi);
    }
  }

  /** `vecswap`: exchanges the equally long ranges at `i` and `j`. */
  method VecSwap<T>(a: array<T>, i: nat, j: nat, n: nat)
    requires i + n <= j && j + n <= a.Length
    modifies a
    ensures a[..] == Exchanged(old(a[..]), i, j, n)
  {
    hide Exchanged;
    var d := 0;
    ExchangeNothing(a[..], i, j);
    while d < n
      invariant d <= n
      invariant a[..] == Exchanged(old(a[..]), i, j, d)
    {
      ExchangeOneMore(old(a[..]), i, j, d);
      a[i + d], a[j + d] := a[j + d], a[i + d];
      d := d + 1;
    }
  }

  method InsertionSort<T(!new)>(a: array<T>, lo: nat, hi: nat, cmp: (T, T) -> int)
    requires lo <= hi <= a.Length && TotalPreorder(cmp)
    modifies a
    ensures Rearranged(old(a[..]), a[..], lo, hi)
    ensures Sorted(a[..], cmp, lo, hi)
  {
    hide TotalPreorder;
    var pm := lo + 1;
    if lo < hi { Flip(cmp, a[lo], a[lo]); }
    while pm < hi
      invariant lo < pm && (lo < hi ==> pm <= hi)
      invariant Rearranged(old(a[..]), a[..], lo, hi)
      invariant pm <= hi ==> Sorted(a[..], cmp, lo, pm)
    {
      Insert(a, lo, pm, hi, cmp);
      pm := pm + 1;
    }
  }

  /** Positions `lo..pm` are ordered but for the element at `pl`, which only has larger ones after it. */
  ghost predicate Sinking<T>(s: seq<T>, cmp: (T, T) -> int, lo: nat, pl: nat, pm: nat)
    requires lo <= pl <= pm < |s|
  {
    && (forall i, j :: lo <= i <= j <= pm && i != pl && j != pl ==> cmp(s[i], s[j]) <= 0)
    && (forall j :: pl <= j <= pm ==> cmp(s[pl], s[j]) <= 0)
  }

  lemma SinkOne<T(!new)>(s: seq<T>, cmp: (T, T) -> int, lo: nat, pl: nat, pm: nat)
    requires lo < pl <= pm < |s| && Sinking(s, cmp, lo, pl, pm)
    requires TotalPreorder(cmp) && cmp(s[pl - 1], s[pl]) > 0
    ensures Sinking(s[pl := s[pl - 1]][pl - 1 := s[pl]], cmp, lo, pl - 1, pm)
  {
    Flip(cmp, s[pl - 1], s[pl]);
    hide TotalPreorder;
    var t := s[pl := s[pl - 1]][pl - 1 := s[pl]];
    forall j | pl - 1 <= j <= pm ensures cmp(t[pl - 1], t[j]) <= 0 {
    }
    forall i, j | lo <= i <= j <= pm && i != pl - 1 && j != pl - 1 ensures cmp(t[i], t[j]) <= 0 {
      var i', j' := if i == pl then pl - 1 else i, if j == pl then pl - 1 else j;
      assert cmp(s[i'], s[j']) <= 0;
    }
  }

  lemma SunkIsSorted<T(!new)>(s: seq<T>, cmp: (T, T) -> int, lo: nat, pl: nat, pm: nat)
    requires lo <= pl <= pm < |s| && Sinking(s, cmp, lo, pl, pm)
    requires TotalPreorder(cmp) && (pl > lo ==> cmp(s[pl - 1], s[pl]) <= 0)
    ensures Sorted(s, cmp, lo, pm + 1)
  {
    hide TotalPreorder;
    forall i, j | lo <= i <= j < pm + 1 ensures cmp(s[i], s[j]) <= 0 {
      if j == pl && i != pl { Transitive(cmp, s[i], s[pl - 1], s[pl]); }
    }
  }

  /** Sinks element `pm` into the sorted positions before it. */
  method Insert<T(!new)>(a: array<T>, lo: nat, pm: nat, ghost hi: nat, cmp: (T, T) -> int)
    requires lo < pm < hi <= a.Length && TotalPreorder(cmp) && Sorted(a[..], cmp, lo, pm)
    modifies a
    ensures Rearranged(old(a[..]), a[..], lo, hi)
    ensures Sorted(a[..], cmp, lo, pm + 1)
  {
    var pl := pm;
    Flip(cmp, a[pm], a[pm]);
    SameRearranged(a[..], lo, hi);
    hide TotalPreorder, Rearranged;
    assert Sinking(a[..], cmp, lo, pl, pm);
    hide Sinking, Sorted;
    while pl > lo && cmp(a[pl - 1], a[pl]) > 0
      invariant lo <= pl <= pm
      invariant Rearranged(old(a[..]), a[..], lo, hi)
      invariant Sinking(a[..], cmp, lo, pl, pm)
    {
      ghost var before := a[..];
      SinkOne(before, cmp, lo, pl, pm);
      Swap(a, pl, pl - 1, lo, hi);
      RearrangedTwice(old(a[..]), before, a[..], lo, hi);
      pl := pl - 1;
    }
    SunkIsSorted(a[..], cmp, lo, pl, pm);
  }

  /** `m` is one of the three positions, with one of the other two on either side of its element. */
  ghost predicate IsMedian<T>(s: seq<T>, cmp: (T, T) -> int, m: nat, i: nat, j: nat, k: nat) {
    exists l: nat, h: nat ::
      {l, m, h} == {i, j, k} && l < |s| && m < |s| && h < |s| && cmp(s[l], s[m]) <= 0 <= cmp(s[h], s[m])
  }

  /** Returns the position, among three, of a median of the three elements. */
  method Med3<T(!new)>(a: array<T>, i: nat, j: nat, k: nat, cmp: (T, T) -> int) returns (m: nat)
    requires i < a.Length && j < a.Length && k < a.Length && TotalPreorder(cmp)
    ensures m == i || m == j || m == k
    ensures IsMedian(a[..], cmp, m, i, j, k)
  {
    ghost var s := a[..];
    Flip(cmp, s[i], s[j]);
    Flip(cmp, s[j], s[k]);
    Flip(cmp, s[i], s[k]);
    hide TotalPreorder;
    m := if cmp(a[i], a[j]) < 0 then (if cmp(a[j], a[k]) < 0 then j else if cmp(a[i], a[k]) < 0 then k else i)
         else (if cmp(a[j], a[k]) > 0 then j else if cmp(a[i], a[k]) < 0 then i else k);
    MedianOf(s, cmp, m, i, j, k);
  }

  lemma MedianOf<T>(s: seq<T>, cmp: (T, T) -> int, m: nat, i: nat, j: nat, k: nat)
    requires i < |s| && j < |s| && k < |s|
    requires m == i ==> cmp(s[j], s[m]) <= 0 <= cmp(s[k], s[m]) || cmp(s[k], s[m]) <= 0 <= cmp(s[j], s[m])
    requires m == j ==> cmp(s[i], s[m]) <= 0 <= cmp(s[k], s[m]) || cmp(s[k], s[m]) <= 0 <= cmp(s[i], s[m])
    requires m == k ==> cmp(s[i], s[m]) <= 0 <= cmp(s[j], s[m]) || cmp(s[j], s[m]) <= 0 <= cmp(s[i], s[m])
    requires m == i || m == j || m == k
    ensures IsMedian(s, cmp, m, i, j, k)
  {
    assert {j, m, k} == {i, j, k} || m != i;
    assert {k, m, j} == {i, j, k} || m != i;
    assert {i, m, k} == {i, j, k} || m != j;
    assert {k, m, i} == {i, j, k} || m != j;
    assert {i, m, j} == {i, j, k} || m != k;
    assert {j, m, i} == {i, j, k} || m != k;
  }

  /** Around the middle, or the median of first, middle and last, or, in long ranges, the median of the medians
      of three triples an eighth of the range apart. */
  ghost predicate IsPivot<T>(s: seq<T>, cmp: (T, T) -> int, pm: nat, lo: nat, n: nat) {
    var mid, last, d := lo + n / 2, lo + n - 1, n / 8;
    if n <= 7 then pm == mid
    else if n <= 40 then last >= 0 && IsMedian(s, cmp, pm, lo, mid, last)
    else mid >= d && last >= 2 * d && exists x: nat, y: nat, z: nat ::
      && IsMedian(s, cmp, x, lo, lo + d, lo + 2 * d) && IsMedian(s, cmp, y, mid - d, mid, mid + d)
      && IsMedian(s, cmp, z, last - 2 * d, last - d, last) && IsMedian(s, cmp, pm, x, y, z)
  }

  /** The pivot position: the middle, the median of three, or the median of three medians. */
  method ChoosePivot<T(!new)>(a: array<T>, lo: nat, n: nat, cmp: (T, T) -> int) returns (pm: nat)
    requires n >= 7 && lo + n <= a.Length && TotalPreorder(cmp)
    ensures lo <= pm < lo + n && IsPivot(a[..], cmp, pm, lo, n)
  {
    hide TotalPreorder, IsMedian;
    pm := lo + n / 2;
    if n > 7 {
      var pl, pn := lo, lo + n - 1;
      if n > 40 {
        var d := n / 8;
        pl := Med3(a, pl, pl + d, pl + 2 * d, cmp);
        pm := Med3(a, pm - d, pm, pm + d, cmp);
        pn := Med3(a, pn - 2 * d, pn - d, pn, cmp);
      }
      pm := Med3(a, pl, pm, pn, cmp);
    }
  }

  /** The partition under way: equal | less | not yet seen | greater | equal, around pivot `p` at `lo`. */
  ghost predicate Zones<T>(s: seq<T>, cmp: (T, T) -> int, p: T, lo: nat, pa: nat, pb: nat, pc: nat, pd: nat, hi: nat) {
    && lo < pa <= pb <= pc + 1 <= pd + 1 <= hi <= |s| && s[lo] == p
    && (forall k :: lo <= k < pa ==> cmp(s[k], p) == 0)
    && (forall k :: pa <= k < pb ==> cmp(s[k], p) < 0)
    && (forall k :: pc < k <= pd ==> cmp(s[k], p) > 0)
    && (forall k :: pd < k < hi ==> cmp(s[k], p) == 0)
  }

  /** The finished partition: less | equal | greater. */
  ghost predicate Split<T>(s: seq<T>, cmp: (T, T) -> int, p: T, lo: nat, l: nat, g: nat, hi: nat) {
    && lo <= l < g <= hi <= |s|
    && (forall k :: lo <= k < l ==> cmp(s[k], p) < 0)
    && (forall k :: l <= k < g ==> cmp(s[k], p) == 0)
    && (forall k :: g <= k < hi ==> cmp(s[k], p) > 0)
  }

  lemma GrowLess<T>(s: seq<T>, cmp: (T, T) -> int, p: T, lo: nat, pa: nat, pb: nat, pc: nat, pd: nat, hi: nat)
    requires Zones(s, cmp, p, lo, pa, pb, pc, pd, hi) && pb <= pc && cmp(s[pb], p) < 0
    ensures Zones(s, cmp, p, lo, pa, pb + 1, pc, pd, hi)
  {
  }

  lemma GrowLeftEqual<T>(s: seq<T>, cmp: (T, T) -> int, p: T, lo: nat, pa: nat, pb: nat, pc: nat, pd: nat, hi: nat)
    requires Zones(s, cmp, p, lo, pa, pb, pc, pd, hi) && pb <= pc && cmp(s[pb], p) == 0
    ensures Zones(s[pa := s[pb]][pb := s[pa]], cmp, p, lo, pa + 1, pb + 1, pc, pd, hi)
  {
  }

  lemma GrowGreater<T>(s: seq<T>, cmp: (T, T) -> int, p: T, lo: nat, pa: nat, pb: nat, pc: nat, pd: nat, hi: nat)
    requires Zones(s, cmp, p, lo, pa, pb, pc, pd, hi) && pb <= pc && cmp(s[pc], p) > 0
    ensures Zones(s, cmp, p, lo, pa, pb, pc - 1, pd, hi)
  {
  }

  lemma GrowRightEqual<T>(s: seq<T>, cmp: (T, T) -> int, p: T, lo: nat, pa: nat, pb: nat, pc: nat, pd: nat, hi: nat)
    requires Zones(s, cmp, p, lo, pa, pb, pc, pd, hi) && pb <= pc && cmp(s[pc], p) == 0
    ensures Zones(s[pc := s[pd]][pd := s[pc]], cmp, p, lo, pa, pb, pc - 1, pd - 1, hi)
  {
  }

  lemma Cross<T>(s: seq<T>, cmp: (T, T) -> int, p: T, lo: nat, pa: nat, pb: nat, pc: nat, pd: nat, hi: nat)
    requires Zones(s, cmp, p, lo, pa, pb, pc, pd, hi) && pb < pc && cmp(s[pb], p) > 0 && cmp(s[pc], p) < 0
    ensures Zones(s[pb := s[pc]][pc := s[pb]], cmp, p, lo, pa, pb + 1, pc - 1, pd, hi)
  {
  }

  /** An element of the range compares equal to the pivot at `lo`. */
  ghost predicate HasEqual<T>(s: seq<T>, cmp: (T, T) -> int, lo: nat, from: nat, end: nat) {
    exists k :: from <= k < end <= |s| && lo < |s| && cmp(s[k], s[lo]) == 0
  }

  lemma EqualFound<T>(s: seq<T>, cmp: (T, T) -> int, lo: nat, from: nat, end: nat, k: nat)
    requires from <= k < end <= |s| && lo < |s| && cmp(s[k], s[lo]) == 0
    ensures HasEqual(s, cmp, lo, from, end)
  {
  }

  /** What a scan keeps: positions `i..j` are as they were, and so is everything until an equal was met. */
  ghost predicate Scanned<T>(s0: seq<T>, s: seq<T>, cmp: (T, T) -> int, lo: nat, from: nat, end: nat, i: nat, j: nat,
      equal: bool)
  {
    && |s| == |s0| && (forall k :: i <= k < j && k < |s| ==> s[k] == s0[k])
    && if equal then HasEqual(s0, cmp, lo, from, end) else s == s0
  }

  lemma ScanStarts<T>(s: seq<T>, cmp: (T, T) -> int, lo: nat, from: nat, end: nat, i: nat, j: nat)
    ensures Scanned(s, s, cmp, lo, from, end, i, j, false)
  {
  }

  lemma ScanPasses<T>(s0: seq<T>, s: seq<T>, cmp: (T, T) -> int, lo: nat, from: nat, end: nat, i: nat, j: nat,
      equal: bool, i': nat, j': nat)
    requires Scanned(s0, s, cmp, lo, from, end, i, j, equal) && i <= i' && j' <= j
    ensures Scanned(s0, s, cmp, lo, from, end, i', j', equal)
  {
  }

  /** Meeting an equal at one end of the untouched positions and swapping it out of them. */
  lemma ScanMeets<T>(s0: seq<T>, s: seq<T>, cmp: (T, T) -> int, lo: nat, from: nat, end: nat, i: nat, j: nat,
      equal: bool, k: nat, x: nat, i': nat, j': nat)
    requires Scanned(s0, s, cmp, lo, from, end, i, j, equal) && i <= k < j <= |s|
    requires lo < |s| && s[lo] == s0[lo] && cmp(s[k], s[lo]) == 0 && from <= k < end <= |s|
    requires x < |s| && i <= i' && j' <= j && (k < i' || j' <= k) && (x < i' || j' <= x)
    ensures Scanned(s0, s[x := s[k]][k := s[x]], cmp, lo, from, end, i', j', true)
    ensures Scanned(s0, s[k := s[x]][x := s[k]], cmp, lo, from, end, i', j', true)
  {
    EqualFound(s0, cmp, lo, from, end, k);
  }

  /** The range is split around its first element as it stands, with no other element equal to that one. */
  ghost predicate AlreadySplit<T>(s: seq<T>, cmp: (T, T) -> int, lo: nat, hi: nat) {
    lo < hi <= |s| && exists k :: lo < k <= hi && SplitAt(s, cmp, lo, k, hi)
  }

  ghost predicate SplitAt<T>(s: seq<T>, cmp: (T, T) -> int, lo: nat, k: nat, hi: nat)
    requires lo < k <= hi <= |s|
  {
    (forall i :: lo < i < k ==> cmp(s[i], s[lo]) < 0) && (forall i :: k <= i < hi ==> cmp(s[i], s[lo]) > 0)
  }

  lemma EqualIsNotSplit<T>(s: seq<T>, cmp: (T, T) -> int, lo: nat, from: nat, end: nat, hi: nat)
    requires HasEqual(s, cmp, lo, from, end) && lo < from && end <= hi
    ensures !AlreadySplit(s, cmp, lo, hi)
  {
  }

  lemma CrossedIsNotSplit<T>(s: seq<T>, cmp: (T, T) -> int, lo: nat, i: nat, j: nat, hi: nat)
    requires lo < i < j < hi <= |s| && cmp(s[i], s[lo]) > 0 > cmp(s[j], s[lo])
    ensures !AlreadySplit(s, cmp, lo, hi)
  {
  }

  lemma ZonesStart<T>(s: seq<T>, cmp: (T, T) -> int, lo: nat, hi: nat)
    requires lo + 1 < hi <= |s| && cmp(s[lo], s[lo]) == 0
    ensures Zones(s, cmp, s[lo], lo, lo + 1, lo + 1, hi - 1, hi - 1, hi)
  {
  }

  lemma ZonesAreSplit<T>(s: seq<T>, cmp: (T, T) -> int, lo: nat, pb: nat, hi: nat)
    requires lo < pb <= hi <= |s| && Zones(s, cmp, s[lo], lo, lo + 1, pb, pb - 1, hi - 1, hi)
    ensures AlreadySplit(s, cmp, lo, hi)
  {
    assert SplitAt(s, cmp, lo, pb, hi);
  }

  /** An equal element met from the left joins the zone at the far left. */
  method TakeLeft<T(!new)>(a: array<T>, ghost lo: nat, pa: nat, pb: nat, ghost pc: nat, ghost pd: nat, ghost hi: nat,
      ghost cmp: (T, T) -> int, ghost s0: seq<T>, ghost start: nat, ghost equal: bool)
    requires lo < pa <= pb <= pc <= pd < hi <= a.Length && start <= pb && cmp(a[pb], a[lo]) == 0
    requires Zones(a[..], cmp, a[lo], lo, pa, pb, pc, pd, hi) && Rearranged(s0, a[..], lo, hi)
    requires lo < |s0| && a[lo] == s0[lo] && Scanned(s0, a[..], cmp, lo, start, pc + 1, pb, hi, equal)
    modifies a
    ensures a[lo] == old(a[lo]) && Zones(a[..], cmp, a[lo], lo, pa + 1, pb + 1, pc, pd, hi)
    ensures Rearranged(s0, a[..], lo, hi) && Scanned(s0, a[..], cmp, lo, start, pc + 1, pb + 1, hi, true)
  {
    hide Zones, Rearranged, Scanned;
    ghost var s := a[..];
    ScanMeets(s0, s, cmp, lo, start, pc + 1, pb, hi, equal, pb, pa, pb + 1, hi);
    GrowLeftEqual(s, cmp, s[lo], lo, pa, pb, pc, pd, hi);
    SwapOn(a, pa, pb, lo, hi, s0);
    assert a[..] == s[pa := s[pb]][pb := s[pa]];
  }

  /** An equal element met from the right joins the zone at the far right. */
  method TakeRight<T(!new)>(a: array<T>, ghost lo: nat, ghost pa: nat, ghost pb: nat, pc: nat, pd: nat, ghost hi: nat,
      ghost cmp: (T, T) -> int, ghost s0: seq<T>, ghost start: nat, ghost equal: bool)
    requires lo < pa <= pb <= pc <= pd < hi <= a.Length && pc <= start < a.Length && cmp(a[pc], a[lo]) == 0
    requires Zones(a[..], cmp, a[lo], lo, pa, pb, pc, pd, hi) && Rearranged(s0, a[..], lo, hi)
    requires lo < |s0| && a[lo] == s0[lo] && Scanned(s0, a[..], cmp, lo, pb, start + 1, lo, pc + 1, equal)
    modifies a
    ensures a[lo] == old(a[lo]) && Zones(a[..], cmp, a[lo], lo, pa, pb, pc - 1, pd - 1, hi)
    ensures Rearranged(s0, a[..], lo, hi) && Scanned(s0, a[..], cmp, lo, pb, start + 1, lo, pc, true)
    ensures forall k :: lo <= k < pc ==> a[k] == old(a[k])
  {
    hide Zones, Rearranged, Scanned;
    ghost var s := a[..];
    ScanMeets(s0, s, cmp, lo, pb, start + 1, lo, pc + 1, equal, pc, pd, lo, pc);
    GrowRightEqual(s, cmp, s[lo], lo, pa, pb, pc, pd, hi);
    SwapOn(a, pc, pd, lo, hi, s0);
    assert a[..] == s[pc := s[pd]][pd := s[pc]];
  }

  /** Moves `pb` up over elements not above the pivot, collecting the equal ones on the far left. */
  method ScanUp<T(!new)>(a: array<T>, lo: nat, left: nat, start: nat, pc: nat, ghost pd: nat, ghost hi: nat,
      cmp: (T, T) -> int)
    returns (pa: nat, pb: nat, equal: bool)
    requires lo < hi <= a.Length && Zones(a[..], cmp, a[lo], lo, left, start, pc, pd, hi)
    modifies a
    ensures Rearranged(old(a[..]), a[..], lo, hi) && a[lo] == old(a[lo])
    ensures Zones(a[..], cmp, a[lo], lo, pa, pb, pc, pd, hi)
    ensures start <= pb && (pb <= pc ==> cmp(a[pb], a[lo]) > 0)
    ensures !equal ==> a[..] == old(a[..]) && pa == left
    ensures equal ==> HasEqual(old(a[..]), cmp, lo, start, pc + 1)
  {
    ghost var p, s0 := a[lo], a[..];
    pa, pb, equal := left, start, false;
    SameRearranged(a[..], lo, hi);
    assert lo < pa <= pb <= pc + 1 <= pd + 1 <= hi;
    ScanStarts(s0, cmp, lo, start, pc + 1, pb, hi);
    hide Rearranged, Zones, Scanned;
    while pb <= pc && cmp(a[pb], a[lo]) <= 0
      invariant lo < pa <= pb <= pc + 1 <= pd + 1 <= hi && a[lo] == p && start <= pb
      invariant Zones(a[..], cmp, p, lo, pa, pb, pc, pd, hi) && Rearranged(old(a[..]), a[..], lo, hi)
      invariant Scanned(s0, a[..], cmp, lo, start, pc + 1, pb, hi, equal) && (!equal ==> pa == left)
    {
      if cmp(a[pb], a[lo]) == 0 {
        TakeLeft(a, lo, pa, pb, pc, pd, hi, cmp, s0, start, equal);
        equal := true;
        pa := pa + 1;
      } else {
        ScanPasses(s0, a[..], cmp, lo, start, pc + 1, pb, hi, equal, pb + 1, hi);
        GrowLess(a[..], cmp, p, lo, pa, pb, pc, pd, hi);
      }
      pb := pb + 1;
    }
  }

  /** Moves `pc` down over elements not below the pivot, collecting the equal ones on the far right. */
  method ScanDown<T(!new)>(a: array<T>, lo: nat, ghost pa: nat, pb: nat, start: nat, right: nat, ghost hi: nat,
      cmp: (T, T) -> int)
    returns (pc: nat, pd: nat, equal: bool)
    requires lo < hi <= a.Length && Zones(a[..], cmp, a[lo], lo, pa, pb, start, right, hi)
    requires pb <= start ==> cmp(a[pb], a[lo]) > 0
    modifies a
    ensures Rearranged(old(a[..]), a[..], lo, hi) && a[lo] == old(a[lo])
    ensures Zones(a[..], cmp, a[lo], lo, pa, pb, pc, pd, hi)
    ensures pc <= start && (pb <= pc ==> cmp(a[pb], a[lo]) > 0 > cmp(a[pc], a[lo]))
    ensures !equal ==> a[..] == old(a[..]) && pd == right
    ensures equal ==> HasEqual(old(a[..]), cmp, lo, pb, start + 1)
  {
    ghost var p, s0 := a[lo], a[..];
    pc, pd, equal := start, right, false;
    SameRearranged(a[..], lo, hi);
    assert lo < pa <= pb <= pc + 1 <= pd + 1 <= hi;
    ScanStarts(s0, cmp, lo, pb, start + 1, lo, pc + 1);
    hide Rearranged, Zones, Scanned;
    while pb <= pc && cmp(a[pc], a[lo]) >= 0
      invariant lo < pa <= pb <= pc + 1 <= pd + 1 <= hi && a[lo] == p && pc <= start
      invariant pb <= pc ==> cmp(a[pb], p) > 0
      invariant Zones(a[..], cmp, p, lo, pa, pb, pc, pd, hi) && Rearranged(old(a[..]), a[..], lo, hi)
      invariant Scanned(s0, a[..], cmp, lo, pb, start + 1, lo, pc + 1, equal) && (!equal ==> pd == right)
    {
      if cmp(a[pc], a[lo]) == 0 {
        TakeRight(a, lo, pa, pb, pc, pd, hi, cmp, s0, start, equal);
        equal := true;
        pd := pd - 1;
      } else {
        ScanPasses(s0, a[..], cmp, lo, pb, start + 1, lo, pc + 1, equal, lo, pc);
        GrowGreater(a[..], cmp, p, lo, pa, pb, pc, pd, hi);
      }
      pc := pc - 1;
    }
  }

  /** Both scans; `moved` tells whether either met an element equal to the pivot. */
  method ScanBoth<T(!new)>(a: array<T>, lo: nat, left: nat, start: nat, end: nat, right: nat, ghost hi: nat,
      cmp: (T, T) -> int)
    returns (pa: nat, pb: nat, pc: nat, pd: nat, moved: bool)
    requires lo < hi <= a.Length && Zones(a[..], cmp, a[lo], lo, left, start, end, right, hi)
    modifies a
    ensures Rearranged(old(a[..]), a[..], lo, hi) && a[lo] == old(a[lo])
    ensures Zones(a[..], cmp, a[lo], lo, pa, pb, pc, pd, hi)
    ensures lo < pa <= pb <= pc + 1 <= pd + 1 <= hi
    ensures start <= pb && pc <= end && (pb <= pc ==> cmp(a[pb], a[lo]) > 0 > cmp(a[pc], a[lo]))
    ensures !moved ==> a[..] == old(a[..]) && pa == left && pd == right
    ensures moved ==> !AlreadySplit(old(a[..]), cmp, lo, hi)
  {
    assert lo < left <= start <= end + 1 <= right + 1 <= hi;
    ghost var s0 := a[..];
    var up, down;
    pa, pb, up := ScanUp(a, lo, left, start, end, right, hi, cmp);
    assert lo < pa <= pb <= end + 1 <= right + 1 <= hi;
    hide Rearranged, HasEqual, AlreadySplit;
    ghost var s1 := a[..];
    pc, pd, down := ScanDown(a, lo, pa, pb, end, right, hi, cmp);
    RearrangedTwice(s0, s1, a[..], lo, hi);
    if up {
      EqualIsNotSplit(s0, cmp, lo, start, end + 1, hi);
    } else if down {
      EqualIsNotSplit(s0, cmp, lo, pb, end + 1, hi);
    }
    moved := up || down;
  }

  /** Both scans stopped: the two elements change sides. */
  method CrossOver<T(!new)>(a: array<T>, ghost lo: nat, ghost pa: nat, pb: nat, pc: nat, ghost pd: nat, ghost hi: nat,
      ghost cmp: (T, T) -> int, ghost orig: seq<T>)
    requires lo < pa <= pb <= pc <= pd < hi <= a.Length && cmp(a[pb], a[lo]) > 0 > cmp(a[pc], a[lo])
    requires Zones(a[..], cmp, a[lo], lo, pa, pb, pc, pd, hi) && Rearranged(orig, a[..], lo, hi)
    modifies a
    ensures a[lo] == old(a[lo]) && pb < pc && Zones(a[..], cmp, a[lo], lo, pa, pb + 1, pc - 1, pd, hi)
    ensures Rearranged(orig, a[..], lo, hi)
  {
    hide Zones, Rearranged;
    ghost var s := a[..];
    Cross(s, cmp, s[lo], lo, pa, pb, pc, pd, hi);
    SwapOn(a, pb, pc, lo, hi, orig);
    assert a[..] == s[pb := s[pc]][pc := s[pb]];
  }

  /** Partitions `lo..hi` around its first element into the four zones; `swapped` tells whether anything moved. */
  method Partition<T(!new)>(a: array<T>, lo: nat, hi: nat, cmp: (T, T) -> int)
    returns (pa: nat, pb: nat, pc: nat, pd: nat, swapped: bool)
    requires lo + 1 < hi <= a.Length && cmp(a[lo], a[lo]) == 0
    modifies a
    ensures Rearranged(old(a[..]), a[..], lo, hi)
    ensures a[lo] == old(a[lo]) && Zones(a[..], cmp, a[lo], lo, pa, pb, pc, pd, hi)
    ensures lo < pa <= pb == pc + 1 <= pd + 1 <= hi
    ensures !swapped ==> a[..] == old(a[..])
    ensures !swapped <==> AlreadySplit(old(a[..]), cmp, lo, hi)
  {
    ghost var p, orig := a[lo], a[..];
    swapped := false;
    pa, pb := lo + 1, lo + 1;
    pc, pd := hi - 1, hi - 1;
    SameRearranged(a[..], lo, hi);
    ZonesStart(a[..], cmp, lo, hi);
    hide Rearranged, AlreadySplit, Zones;
    while true
      invariant lo < pa <= pb <= pc + 1 <= pd + 1 <= hi && a[lo] == p
      invariant Zones(a[..], cmp, p, lo, pa, pb, pc, pd, hi) && Rearranged(orig, a[..], lo, hi)
      invariant swapped ==> !AlreadySplit(orig, cmp, lo, hi)
      invariant !swapped ==> a[..] == orig && pa == lo + 1 && pd == hi - 1
      decreases pc + 1 - pb
    {
      ghost var s0 := a[..];
      var moved;
      pa, pb, pc, pd, moved := ScanBoth(a, lo, pa, pb, pc, pd, hi, cmp);
      ghost var s1 := a[..];
      RearrangedTwice(orig, s0, s1, lo, hi);
      swapped := swapped || moved;
      if pb > pc {
        break;
      }
      if !swapped {
        CrossedIsNotSplit(orig, cmp, lo, pb, pc, hi);
      }
      CrossOver(a, lo, pa, pb, pc, pd, hi, cmp, orig);
      swapped := true;
      pb := pb + 1;
      pc := pc - 1;
    }
    if !swapped {
      ZonesAreSplit(a[..], cmp, lo, pb, hi);
    }
  }

  /** `l..g` holds the elements equal to some pivot, with the less ones before and the greater ones after. */
  ghost predicate Parted<T(!new)>(s: seq<T>, cmp: (T, T) -> int, lo: nat, l: nat, g: nat, hi: nat) {
    exists p :: Split(s, cmp, p, lo, l, g, hi)
  }

  function Min(x: nat, y: nat): nat { if x < y then x else y }

  /** Swapping as many of the left-hand equal elements as fit with the end of the less zone. */
  lemma GatherLeft<T>(s: seq<T>, cmp: (T, T) -> int, p: T, lo: nat, pa: nat, pb: nat, pc: nat, pd: nat, hi: nat)
    requires Zones(s, cmp, p, lo, pa, pb, pc, pd, hi)
    ensures var r := Min(pa - lo, pb - pa);
      var t := Exchanged(s, lo, pb - r, r);
      && (forall k :: lo <= k < lo + (pb - pa) ==> cmp(t[k], p) < 0)
      && (forall k :: lo + (pb - pa) <= k < pb ==> cmp(t[k], p) == 0)
      && (forall k :: pb <= k < hi ==> t[k] == s[k])
  {
    hide Exchanged;
    var r := Min(pa - lo, pb - pa);
    var t := Exchanged(s, lo, pb - r, r);
    assert 0 <= r <= pa - lo && r <= pb - pa && (r == pa - lo || r == pb - pa);
    forall k | lo <= k < lo + (pb - pa) ensures cmp(t[k], p) < 0 {
      ExchangedAt(s, lo, pb - r, r, k);
    }
    forall k | lo + (pb - pa) <= k < pb ensures cmp(t[k], p) == 0 {
      ExchangedAt(s, lo, pb - r, r, k);
    }
    forall k | pb <= k < hi ensures t[k] == s[k] {
      ExchangedAt(s, lo, pb - r, r, k);
    }
  }

  lemma GatherRight<T>(s: seq<T>, t: seq<T>, cmp: (T, T) -> int, p: T, lo: nat, pa: nat, pb: nat, pc: nat,
      pd: nat, hi: nat)
    requires Zones(s, cmp, p, lo, pa, pb, pc, pd, hi) && pb == pc + 1 && |t| == |s|
    requires forall k :: pb <= k < hi ==> t[k] == s[k]
    ensures var r := Min(pd - pc, hi - 1 - pd);
      var u := Exchanged(t, pb, hi - r, r);
      && (forall k :: lo <= k < pb ==> u[k] == t[k])
      && (forall k :: pb <= k < hi - (pd - pc) ==> cmp(u[k], p) == 0)
      && (forall k :: hi - (pd - pc) <= k < hi ==> cmp(u[k], p) > 0)
  {
    hide Exchanged;
    var r := Min(pd - pc, hi - 1 - pd);
    var u := Exchanged(t, pb, hi - r, r);
    assert 0 <= r <= pd - pc && r <= hi - 1 - pd && (r == pd - pc || r == hi - 1 - pd);
    forall k | lo <= k < pb ensures u[k] == t[k] {
      ExchangedAt(t, pb, hi - r, r, k);
    }
    forall k | pb <= k < hi - (pd - pc) ensures cmp(u[k], p) == 0 {
      ExchangedAt(t, pb, hi - r, r, k);
    }
    forall k | hi - (pd - pc) <= k < hi ensures cmp(u[k], p) > 0 {
      ExchangedAt(t, pb, hi - r, r, k);
    }
  }

  /** The two exchanges, on values. */
  function Gathered<T>(s: seq<T>, lo: nat, pa: nat, pb: nat, pc: nat, pd: nat, hi: nat): (u: seq<T>)
    requires lo < pa <= pb == pc + 1 <= pd + 1 <= hi <= |s|
  {
    var r, q := Min(pa - lo, pb - pa), Min(pd - pc, hi - 1 - pd);
    Exchanged(Exchanged(s, lo, pb - r, r), pb, hi - q, q)
  }

  lemma GatheredRearranges<T>(s: seq<T>, lo: nat, pa: nat, pb: nat, pc: nat, pd: nat, hi: nat)
    requires lo < pa <= pb == pc + 1 <= pd + 1 <= hi <= |s|
    ensures Rearranged(s, Gathered(s, lo, pa, pb, pc, pd, hi), lo, hi)
  {
    hide Rearranged, Exchanged;
    var r, q := Min(pa - lo, pb - pa), Min(pd - pc, hi - 1 - pd);
    var t := Exchanged(s, lo, pb - r, r);
    ExchangeRearranges(s, lo, pb - r, r, lo, hi);
    ExchangeRearranges(t, pb, hi - q, q, lo, hi);
    RearrangedTwice(s, t, Gathered(s, lo, pa, pb, pc, pd, hi), lo, hi);
  }

  lemma GatheredIsParted<T(!new)>(s: seq<T>, cmp: (T, T) -> int, p: T, lo: nat, pa: nat, pb: nat, pc: nat, pd: nat,
      hi: nat)
    requires Zones(s, cmp, p, lo, pa, pb, pc, pd, hi) && pb == pc + 1
    ensures lo < pa <= pb == pc + 1 <= pd + 1 <= hi <= |s|
    ensures Parted(Gathered(s, lo, pa, pb, pc, pd, hi), cmp, lo, lo + (pb - pa), hi - (pd - pc), hi)
    ensures lo + (pb - pa) < hi - (pd - pc)
  {
    hide Exchanged;
    var r := Min(pa - lo, pb - pa);
    GatherLeft(s, cmp, p, lo, pa, pb, pc, pd, hi);
    GatherRight(s, Exchanged(s, lo, pb - r, r), cmp, p, lo, pa, pb, pc, pd, hi);
    assert Split(Gathered(s, lo, pa, pb, pc, pd, hi), cmp, p, lo, lo + (pb - pa), hi - (pd - pc), hi);
  }

  /** Swaps the equal zones into the middle. */
  method Gather<T(!new)>(a: array<T>, lo: nat, pa: nat, pb: nat, pc: nat, pd: nat, hi: nat, ghost p: T,
      ghost cmp: (T, T) -> int)
    requires hi <= a.Length && Zones(a[..], cmp, p, lo, pa, pb, pc, pd, hi) && pb == pc + 1
    modifies a
    ensures Rearranged(old(a[..]), a[..], lo, hi)
    ensures Parted(a[..], cmp, lo, lo + (pb - pa), hi - (pd - pc), hi) && lo + (pb - pa) < hi - (pd - pc)
  {
    hide Rearranged, Exchanged, Zones, Parted;
    ghost var s := a[..];
    GatheredIsParted(s, cmp, p, lo, pa, pb, pc, pd, hi);
    GatheredRearranges(s, lo, pa, pb, pc, pd, hi);
    var r := Min(pa - lo, pb - pa);
    VecSwap(a, lo, pb - r, r);
    r := Min(pd - pc, hi - 1 - pd);
    VecSwap(a, pb, hi - r, r);
    assert a[..] == Gathered(s, lo, pa, pb, pc, pd, hi);
  }

  /** Everything before `mid` is ordered and at most anything from `mid` on. */
  ghost predicate SettledTo<T>(s: seq<T>, cmp: (T, T) -> int, lo: nat, mid: nat, hi: nat) {
    && lo <= mid <= hi <= |s|
    && forall i, j :: lo <= i < mid && i <= j < hi ==> cmp(s[i], s[j]) <= 0
  }

  /** Rearranging the open part keeps the settled part settled. */
  lemma SettledStays<T(!new)>(s: seq<T>, t: seq<T>, cmp: (T, T) -> int, lo: nat, mid: nat, hi: nat)
    requires SettledTo(s, cmp, lo, mid, hi) && Rearranged(s, t, mid, hi)
    ensures SettledTo(t, cmp, lo, mid, hi)
  {
    forall i, j | lo <= i < mid && i <= j < hi ensures cmp(t[i], t[j]) <= 0 {
      assert t[i] == t[..mid][i] == s[i];
      if j < mid {
        assert t[j] == t[..mid][j] == s[j];
      } else {
        RangeKeeps(s, t, mid, hi, x => cmp(s[i], x) <= 0);
      }
    }
  }

  /** Sorting the open part finishes the range. */
  lemma Finish<T(!new)>(s: seq<T>, s0: seq<T>, t: seq<T>, cmp: (T, T) -> int, lo: nat, mid: nat, hi: nat)
    requires Rearranged(s, s0, lo, hi) && Rearranged(s0, t, mid, hi)
    requires SettledTo(s0, cmp, lo, mid, hi) && Sorted(t, cmp, mid, hi)
    ensures Rearranged(s, t, lo, hi) && SettledTo(t, cmp, lo, hi, hi)
  {
    Widen(s0, t, mid, hi, lo, hi);
    SettledStays(s0, t, cmp, lo, mid, hi);
  }

  /** Once the less part of a split is sorted, everything before the greater part is settled. */
  lemma SplitSettles<T(!new)>(s: seq<T>, t: seq<T>, cmp: (T, T) -> int, p: T, lo: nat, mid: nat, l: nat,
      g: nat, hi: nat)
    requires TotalPreorder(cmp)
    requires SettledTo(s, cmp, lo, mid, hi) && Split(s, cmp, p, mid, l, g, hi)
    requires Rearranged(s, t, mid, l) && Sorted(t, cmp, mid, l)
    ensures SettledTo(t, cmp, lo, g, hi) && Split(t, cmp, p, mid, l, g, hi)
  {
    Widen(s, t, mid, l, mid, hi);
    SettledStays(s, t, cmp, lo, mid, hi);
    RangeKeeps(s, t, mid, l, x => cmp(x, p) < 0);
    assert forall k :: l <= k < hi ==> t[k] == t[l..][k - l] == s[k];
    hide TotalPreorder;
    forall i, j | lo <= i < g && i <= j < hi ensures cmp(t[i], t[j]) <= 0 {
      if i >= mid && j >= l {
        Flip(cmp, t[j], p);
        Transitive(cmp, t[i], p, t[j]);
      }
    }
  }

  /** Moves the chosen pivot to the front. */
  method PlacePivot<T(!new)>(a: array<T>, lo: nat, n: nat, cmp: (T, T) -> int) returns (ghost pm: nat)
    requires n >= 7 && lo + n <= a.Length && TotalPreorder(cmp)
    modifies a
    ensures lo <= pm < lo + n && IsPivot(old(a[..]), cmp, pm, lo, n) && a[..] == Swapped(old(a[..]), lo, pm)
    ensures Rearranged(old(a[..]), a[..], lo, lo + n) && cmp(a[lo], a[lo]) == 0
  {
    hide IsPivot, Rearranged;
    var p := ChoosePivot(a, lo, n, cmp);
    pm := p;
    Swap(a, lo, p, lo, lo + n);
    Flip(cmp, a[lo], a[lo]);
  }

  /** Moves the chosen pivot to the front and partitions around it. */
  method PartitionAround<T(!new)>(a: array<T>, lo: nat, n: nat, cmp: (T, T) -> int)
    returns (pa: nat, pb: nat, pc: nat, pd: nat, swapped: bool, ghost pm: nat)
    requires n >= 7 && lo + n <= a.Length && TotalPreorder(cmp)
    modifies a
    ensures lo <= pm < lo + n && IsPivot(old(a[..]), cmp, pm, lo, n)
    ensures !swapped <==> AlreadySplit(Swapped(old(a[..]), lo, pm), cmp, lo, lo + n)
    ensures !swapped ==> a[..] == Swapped(old(a[..]), lo, pm)
    ensures Rearranged(old(a[..]), a[..], lo, lo + n)
    ensures lo < pa <= pb == pc + 1 <= pd + 1 <= lo + n && Zones(a[..], cmp, a[lo], lo, pa, pb, pc, pd, lo + n)
  {
    hide IsPivot, AlreadySplit, Rearranged, Zones, Swapped, TotalPreorder;
    ghost var s0 := a[..];
    pm := PlacePivot(a, lo, n, cmp);
    ghost var s1 := a[..];
    pa, pb, pc, pd, swapped := Partition(a, lo, lo + n, cmp);
    RearrangedTwice(s0, s1, a[..], lo, lo + n);
  }

  /** Partitions and, unless nothing moved, gathers the less, equal and greater elements;
      `less` and `greater` count the outer two groups. */
  method SplitRange<T(!new)>(a: array<T>, lo: nat, n: nat, cmp: (T, T) -> int)
    returns (less: nat, greater: nat, swapped: bool)
    requires n >= 7 && lo + n <= a.Length && TotalPreorder(cmp)
    modifies a
    ensures Rearranged(old(a[..]), a[..], lo, lo + n)
    ensures swapped ==> less + greater < n && Parted(a[..], cmp, lo, lo + less, lo + n - greater, lo + n)
  {
    hide Rearranged, TotalPreorder, Zones, Parted, IsPivot, AlreadySplit;
    ghost var s0 := a[..];
    var pa, pb, pc, pd;
    ghost var pm;
    pa, pb, pc, pd, swapped, pm := PartitionAround(a, lo, n, cmp);
    less, greater := pb - pa, pd - pc;
    if swapped {
      ghost var s1 := a[..];
      Gather(a, lo, pa, pb, pc, pd, lo + n, a[lo], cmp);
      RearrangedTwice(s0, s1, a[..], lo, lo + n);
    }
  }

  /** Short ranges, and ranges where nothing moved, are sorted by insertion; others are only split. */
  method SortOrSplit<T(!new)>(a: array<T>, lo: nat, n: nat, cmp: (T, T) -> int)
    returns (less: nat, greater: nat, sorted: bool)
    requires lo + n <= a.Length && TotalPreorder(cmp)
    modifies a
    ensures Rearranged(old(a[..]), a[..], lo, lo + n)
    ensures if sorted then Sorted(a[..], cmp, lo, lo + n)
            else less + greater < n && Parted(a[..], cmp, lo, lo + less, lo + n - greater, lo + n)
  {
    hide Rearranged, TotalPreorder, Parted, Sorted;
    ghost var s0 := a[..];
    if n < 7 {
      InsertionSort(a, lo, lo + n, cmp);
      return 0, 0, true;
    }
    var swapped;
    less, greater, swapped := SplitRange(a, lo, n, cmp);
    sorted := !swapped;
    if sorted {
      ghost var s1 := a[..];
      InsertionSort(a, lo, lo + n, cmp);
      RearrangedTwice(s0, s1, a[..], lo, lo + n);
    }
  }

  /** One round of the loop: split, then sort the less part. */
  lemma SettledBy<T(!new)>(s: seq<T>, s0: seq<T>, s1: seq<T>, t: seq<T>, cmp: (T, T) -> int,
      lo: nat, mid: nat, l: nat, g: nat, hi: nat)
    requires TotalPreorder(cmp) && lo <= mid
    requires Rearranged(s, s0, lo, hi) && Rearranged(s0, s1, mid, hi) && Rearranged(s1, t, mid, l)
    requires SettledTo(s0, cmp, lo, mid, hi) && Parted(s1, cmp, mid, l, g, hi)
    requires Sorted(t, cmp, mid, l)
    ensures Rearranged(s, t, lo, hi) && SettledTo(t, cmp, lo, g, hi)
    ensures hi <= g + 1 ==> SettledTo(t, cmp, lo, hi, hi)
  {
    hide TotalPreorder;
    var p :| Split(s1, cmp, p, mid, l, g, hi);
    SettledStays(s0, s1, cmp, lo, mid, hi);
    SplitSettles(s1, t, cmp, p, lo, mid, l, g, hi);
    Widen(s0, s1, mid, hi, lo, hi);
    Widen(s1, t, mid, l, lo, hi);
    RearrangedTwice(s0, s1, t, lo, hi);
    RearrangedTwice(s, s0, t, lo, hi);
    if hi <= g + 1 {
      ShortIsSorted(t, cmp, g, hi);
    }
  }

  lemma ShortIsSorted<T(!new)>(s: seq<T>, cmp: (T, T) -> int, lo: nat, hi: nat)
    requires TotalPreorder(cmp) && lo <= hi <= |s| && hi <= lo + 1
    ensures Sorted(s, cmp, lo, hi) && Rearranged(s, s, lo, hi)
  {
    if lo < hi { Flip(cmp, s[lo], s[lo]); }
  }

  /** One pass of the loop body over the open part `start..hi` of the range `lo..hi`: either the range is
      finished, or its open part shrinks to the last `rest` elements. */
  method Round<T(!new)>(a: array<T>, start: nat, m: nat, cmp: (T, T) -> int, ghost orig: seq<T>, ghost lo: nat)
    returns (rest: nat)
    requires lo <= start && start + m <= a.Length && TotalPreorder(cmp)
    requires Rearranged(orig, a[..], lo, start + m) && SettledTo(a[..], cmp, lo, start, start + m)
    modifies a
    ensures rest <= m && (rest == m ==> m == 0)
    ensures Rearranged(orig, a[..], lo, start + m) && SettledTo(a[..], cmp, lo, start + m - rest, start + m)
    decreases m, 0
  {
    hide Rearranged, TotalPreorder, SettledTo, Sorted, Parted;
    ghost var s0, hi := a[..], start + m;
    var less, greater, sorted := SortOrSplit(a, start, m, cmp);
    ghost var s1 := a[..];
    if sorted {
      Finish(orig, s0, s1, cmp, lo, start, hi);
      return 0;
    }
    if less > 1 {
      Qsort(a, start, less, cmp);
    } else {
      ShortIsSorted(a[..], cmp, start, start + less);
    }
    SettledBy(orig, s0, s1, a[..], cmp, lo, start, start + less, hi - greater, hi);
    rest := if greater > 1 then greater else 0;
  }

  /** `qsort`: the range ends up sorted and a permutation of what it was. */
  method Qsort<T(!new)>(a: array<T>, lo: nat, n: nat, cmp: (T, T) -> int)
    requires lo + n <= a.Length && TotalPreorder(cmp)
    modifies a
    ensures Rearranged(old(a[..]), a[..], lo, lo + n)
    ensures Sorted(a[..], cmp, lo, lo + n)
    decreases n, 1
  {
    var start, m := lo, n;
    SameRearranged(a[..], lo, lo + n);
    while m > 0
      invariant lo <= start && start + m == lo + n
      invariant Rearranged(old(a[..]), a[..], lo, lo + n)
      invariant SettledTo(a[..], cmp, lo, start, lo + n)
      decreases m
    {
      hide Rearranged, TotalPreorder, SettledTo;
      var rest := Round(a, start, m, cmp, old(a[..]), lo);
      start, m := start + m - rest, rest;
    }
  }
}
