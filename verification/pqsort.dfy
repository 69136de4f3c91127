/** Partial quicksort in place: three-way partition around a median, with sub-ranges outside l..r left alone. */
module PqSort {
  import opened PqSortSpec

  /** The index of the median of three elements. */
  function Med3<T>(cmp: (T, T) -> int, s: seq<T>, a: int, b: int, c: int): (m: int)
    requires 0 <= a < |s| && 0 <= b < |s| && 0 <= c < |s|
    ensures m == a || m == b || m == c
  {
    if cmp(s[a], s[b]) < 0 then
      (if cmp(s[b], s[c]) < 0 then b else if cmp(s[a], s[c]) < 0 then c else a)
    else
      (if cmp(s[b], s[c]) > 0 then b else if cmp(s[a], s[c]) < 0 then a else c)
  }

  ghost predicate Between<T>(cmp: (T, T) -> int, x: T, m: T, y: T) {
    cmp(x, m) <= 0 && cmp(m, y) <= 0
  }

  /** The element chosen lies between the other two. */
  lemma Med3IsMedian<T(!new)>(cmp: (T, T) -> int, s: seq<T>, a: int, b: int, c: int)
    requires TotalPreorder(cmp) && 0 <= a < |s| && 0 <= b < |s| && 0 <= c < |s|
    ensures var m := Med3(cmp, s, a, b, c);
            || (m == a && (Between(cmp, s[b], s[a], s[c]) || Between(cmp, s[c], s[a], s[b])))
            || (m == b && (Between(cmp, s[a], s[b], s[c]) || Between(cmp, s[c], s[b], s[a])))
            || (m == c && (Between(cmp, s[a], s[c], s[b]) || Between(cmp, s[b], s[c], s[a])))
  {
    var x, y, z := s[a], s[b], s[c];
    assert cmp(x, y) < 0 <==> cmp(y, x) > 0;
    assert cmp(y, z) < 0 <==> cmp(z, y) > 0;
    assert cmp(x, z) < 0 <==> cmp(z, x) > 0;
    assert cmp(y, x) < 0 <==> cmp(x, y) > 0;
    assert cmp(z, y) < 0 <==> cmp(y, z) > 0;
    assert cmp(z, x) < 0 <==> cmp(x, z) > 0;
  }

  method Swap<T>(a: array<T>, i: int, j: int, ghost lo: int, ghost hi: int)
    requires 0 <= lo <= i < hi <= a.Length && lo <= j < hi
    modifies a
    ensures a[..] == Swapped(old(a[..]), i, j)
    ensures Rearranged(old(a[..]), a[..], lo, hi)
  {
    var t := a[i];
    a[i] := a[j];
    a[j] := t;
  }

  /** Insertion sort of a[lo..hi]. */
  method InsertionSort<T(!new)>(cmp: (T, T) -> int, a: array<T>, lo: int, hi: int)
    requires TotalPreorder(cmp) && 0 <= lo <= hi <= a.Length
    modifies a
    ensures Rearranged(old(a[..]), a[..], lo, hi) && Sorted(cmp, a[..], lo, hi)
  {
    hide Rearranged;
    RearrangedRefl(a[..], lo, hi);
    if lo == hi { return; }
    var pm := lo + 1;
    while pm < hi
      invariant lo < pm <= hi
      invariant Rearranged(old(a[..]), a[..], lo, hi) && Sorted(cmp, a[..], lo, pm)
    {
      ghost var s := a[..];
      InsertLast(cmp, a, lo, pm);
      RearrangedWider(s, a[..], lo, pm + 1, lo, hi);
      RearrangedTrans(old(a[..]), s, a[..], lo, hi);
      pm := pm + 1;
    }
  }

  /** All pairs of s[lo..hi] are in order, except possibly those with the later element at `hole`. */
  ghost predicate SortedBut<T>(cmp: (T, T) -> int, s: seq<T>, lo: int, hi: int, hole: int) {
    && 0 <= lo <= hole < hi <= |s|
    && forall i, j :: lo <= i < j < hi && j != hole ==> cmp(s[i], s[j]) <= 0
  }

  function Swapped<T>(s: seq<T>, i: int, j: int): seq<T>
    requires 0 <= i < |s| && 0 <= j < |s|
  {
    s[i := s[j]][j := s[i]]
  }

  lemma SwapElsewhere<T>(s: seq<T>, i: int, j: int, k: int)
    requires 0 <= i < |s| && 0 <= j < |s| && 0 <= k < |s| && k != i && k != j
    ensures |Swapped(s, i, j)| == |s| && Swapped(s, i, j)[k] == s[k]
  {
  }

  lemma SinkStart<T>(cmp: (T, T) -> int, s: seq<T>, lo: int, pm: int)
    requires Sorted(cmp, s, lo, pm) && pm < |s|
    ensures SortedBut(cmp, s, lo, pm + 1, pm)
  {
  }

  lemma SinkOne<T(!new)>(cmp: (T, T) -> int, s: seq<T>, lo: int, hi: int, hole: int)
    requires TotalPreorder(cmp) && SortedBut(cmp, s, lo, hi, hole) && lo < hole && cmp(s[hole - 1], s[hole]) > 0
    ensures SortedBut(cmp, Swapped(s, hole, hole - 1), lo, hi, hole - 1)
  {
  }

  lemma SinkDone<T(!new)>(cmp: (T, T) -> int, s: seq<T>, lo: int, hi: int, hole: int)
    requires TotalPreorder(cmp) && SortedBut(cmp, s, lo, hi, hole)
    requires lo < hole ==> cmp(s[hole - 1], s[hole]) <= 0
    ensures Sorted(cmp, s, lo, hi)
  {
    forall i, j | lo <= i < j < hi ensures cmp(s[i], s[j]) <= 0 {
      if j == hole && i < hole - 1 {
        assert cmp(s[i], s[hole - 1]) <= 0;
      }
    }
  }

  /** Sinks a[pm] into the sorted a[lo..pm]. */
  method InsertLast<T(!new)>(cmp: (T, T) -> int, a: array<T>, lo: int, pm: int)
    requires TotalPreorder(cmp) && 0 <= lo <= pm < a.Length && Sorted(cmp, a[..], lo, pm)
    modifies a
    ensures Rearranged(old(a[..]), a[..], lo, pm + 1) && Sorted(cmp, a[..], lo, pm + 1)
  {
    hide Rearranged, TotalPreorder, SortedBut, Sorted, Swapped;
    RearrangedRefl(a[..], lo, pm + 1);
    SinkStart(cmp, a[..], lo, pm);
    ghost var s0 := a[..];
    var pl := pm;
    while pl > lo && cmp(a[pl - 1], a[pl]) > 0
      invariant lo <= pl <= pm
      invariant Rearranged(s0, a[..], lo, pm + 1) && SortedBut(cmp, a[..], lo, pm + 1, pl)
    {
      ghost var s := a[..];
      SinkOne(cmp, s, lo, pm + 1, pl);
      Swap(a, pl, pl - 1, lo, pm + 1);
      RearrangedTrans(s0, s, a[..], lo, pm + 1);
      pl := pl - 1;
    }
    SinkDone(cmp, a[..], lo, pm + 1, pl);
  }

  ghost predicate Bounds(lo: int, pa: int, pb: int, pc: int, pd: int, hi: int) {
    0 <= lo < pa <= pb <= pc + 1 <= pd + 1 <= hi
  }

  /** The state of the partition: equal | less | unknown | greater | equal, around pivot s[lo]. */
  ghost predicate Parts<T>(cmp: (T, T) -> int, s: seq<T>, lo: int, pa: int, pb: int, pc: int, pd: int, hi: int) {
    && Bounds(lo, pa, pb, pc, pd, hi) && hi <= |s|
    && (forall k :: lo <= k < pa ==> cmp(s[k], s[lo]) == 0)
    && (forall k :: pa <= k < pb ==> cmp(s[k], s[lo]) < 0)
    && (forall k :: pc < k <= pd ==> cmp(s[k], s[lo]) > 0)
    && (forall k :: pd < k < hi ==> cmp(s[k], s[lo]) == 0)
  }

  lemma GrowLeft<T>(cmp: (T, T) -> int, s: seq<T>, lo: int, pa: int, pb: int, pc: int, pd: int, hi: int)
    requires Parts(cmp, s, lo, pa, pb, pc, pd, hi) && pb <= pc && cmp(s[pb], s[lo]) <= 0
    ensures cmp(s[pb], s[lo]) < 0 ==> Parts(cmp, s, lo, pa, pb + 1, pc, pd, hi)
    ensures cmp(s[pb], s[lo]) == 0 ==> Parts(cmp, Swapped(s, pa, pb), lo, pa + 1, pb + 1, pc, pd, hi)
  {
  }

  lemma GrowRight<T>(cmp: (T, T) -> int, s: seq<T>, lo: int, pa: int, pb: int, pc: int, pd: int, hi: int)
    requires Parts(cmp, s, lo, pa, pb, pc, pd, hi) && pb <= pc && cmp(s[pc], s[lo]) >= 0
    ensures cmp(s[pc], s[lo]) > 0 ==> Parts(cmp, s, lo, pa, pb, pc - 1, pd, hi)
    ensures cmp(s[pc], s[lo]) == 0 ==> Parts(cmp, Swapped(s, pc, pd), lo, pa, pb, pc - 1, pd - 1, hi)
  {
  }

  lemma SwapMiddle<T>(cmp: (T, T) -> int, s: seq<T>, lo: int, pa: int, pb: int, pc: int, pd: int, hi: int)
    requires Parts(cmp, s, lo, pa, pb, pc, pd, hi) && pb <= pc && cmp(s[pb], s[lo]) > 0 && cmp(s[pc], s[lo]) < 0
    ensures Parts(cmp, Swapped(s, pb, pc), lo, pa, pb + 1, pc - 1, pd, hi)
  {
  }

  method ScanUp<T>(cmp: (T, T) -> int, a: array<T>, lo: int, pa0: int, pb0: int, pc: int, ghost pd: int, ghost hi: int,
      swapped0: bool)
    returns (pa: int, pb: int, swapped: bool)
    requires Bounds(lo, pa0, pb0, pc, pd, hi) && hi <= a.Length && Parts(cmp, a[..], lo, pa0, pb0, pc, pd, hi)
    modifies a
    ensures Bounds(lo, pa, pb, pc, pd, hi) && Parts(cmp, a[..], lo, pa, pb, pc, pd, hi)
    ensures Rearranged(old(a[..]), a[..], lo, hi)
    ensures pb0 <= pb && (pb <= pc ==> cmp(a[pb], a[lo]) > 0)
  {
    hide Rearranged, Parts, Swapped;
    RearrangedRefl(a[..], lo, hi);
    pa, pb, swapped := pa0, pb0, swapped0;
    while pb <= pc && cmp(a[pb], a[lo]) <= 0
      invariant Bounds(lo, pa, pb, pc, pd, hi) && Parts(cmp, a[..], lo, pa, pb, pc, pd, hi) && pb0 <= pb
      invariant Rearranged(old(a[..]), a[..], lo, hi)
      decreases pc - pb
    {
      ghost var s := a[..];
      GrowLeft(cmp, s, lo, pa, pb, pc, pd, hi);
      if cmp(a[pb], a[lo]) == 0 {
        swapped := true;
        Swap(a, pa, pb, lo, hi);
        RearrangedTrans(old(a[..]), s, a[..], lo, hi);
        pa := pa + 1;
      }
      pb := pb + 1;
    }
  }

  method ScanDown<T>(cmp: (T, T) -> int, a: array<T>, lo: int, ghost pa: int, pb: int, pc0: int, pd0: int,
      ghost hi: int, swapped0: bool)
    returns (pc: int, pd: int, swapped: bool)
    requires Bounds(lo, pa, pb, pc0, pd0, hi) && hi <= a.Length && Parts(cmp, a[..], lo, pa, pb, pc0, pd0, hi)
    requires pb <= pc0 ==> cmp(a[pb], a[lo]) > 0
    modifies a
    ensures Bounds(lo, pa, pb, pc, pd, hi) && Parts(cmp, a[..], lo, pa, pb, pc, pd, hi)
    ensures Rearranged(old(a[..]), a[..], lo, hi)
    ensures pc <= pc0 && (pb <= pc ==> cmp(a[pb], a[lo]) > 0 && cmp(a[pc], a[lo]) < 0)
  {
    hide Rearranged, Parts, Swapped;
    RearrangedRefl(a[..], lo, hi);
    pc, pd, swapped := pc0, pd0, swapped0;
    while pb <= pc && cmp(a[pc], a[lo]) >= 0
      invariant Bounds(lo, pa, pb, pc, pd, hi) && Parts(cmp, a[..], lo, pa, pb, pc, pd, hi) && pc <= pc0
      invariant pb <= pc ==> cmp(a[pb], a[lo]) > 0
      invariant Rearranged(old(a[..]), a[..], lo, hi)
      decreases pc - pb
    {
      ghost var s := a[..];
      GrowRight(cmp, s, lo, pa, pb, pc, pd, hi);
      if cmp(a[pc], a[lo]) == 0 {
        swapped := true;
        SwapElsewhere(s, pc, pd, pb);
        SwapElsewhere(s, pc, pd, lo);
        Swap(a, pc, pd, lo, hi);
        RearrangedTrans(old(a[..]), s, a[..], lo, hi);
        pd := pd - 1;
      }
      pc := pc - 1;
    }
  }

  /** Bentley and McIlroy's partition of a[lo..hi] around a[lo]. */
  method Partition<T>(cmp: (T, T) -> int, a: array<T>, lo: int, hi: int)
    returns (pa: int, pb: int, pc: int, pd: int, swapped: bool)
    requires 0 <= lo && lo + 1 < hi <= a.Length && cmp(a[lo], a[lo]) == 0
    modifies a
    ensures Bounds(lo, pa, pb, pc, pd, hi) && Parts(cmp, a[..], lo, pa, pb, pc, pd, hi) && pb == pc + 1
    ensures Rearranged(old(a[..]), a[..], lo, hi)
  {
    pa, pb := lo + 1, lo + 1;
    pc, pd := hi - 1, hi - 1;
    swapped := false;
    assert Parts(cmp, a[..], lo, pa, pb, pc, pd, hi);
    RearrangedRefl(a[..], lo, hi);
    hide Rearranged, Parts;
    while true
      invariant Bounds(lo, pa, pb, pc, pd, hi) && Parts(cmp, a[..], lo, pa, pb, pc, pd, hi)
      invariant Rearranged(old(a[..]), a[..], lo, hi)
      decreases pc - pb + 1
    {
      ghost var s0 := a[..];
      pa, pb, swapped := ScanUp(cmp, a, lo, pa, pb, pc, pd, hi, swapped);
      ghost var s1 := a[..];
      pc, pd, swapped := ScanDown(cmp, a, lo, pa, pb, pc, pd, hi, swapped);
      ghost var s := a[..];
      RearrangedTrans(old(a[..]), s0, s1, lo, hi);
      RearrangedTrans(old(a[..]), s1, s, lo, hi);
      if pb > pc { break; }
      SwapMiddle(cmp, s, lo, pa, pb, pc, pd, hi);
      Swap(a, pb, pc, lo, hi);
      RearrangedTrans(old(a[..]), s, a[..], lo, hi);
      swapped := true;
      pb := pb + 1;
      pc := pc - 1;
    }
  }

  /** `t` is `s` with the blocks of length r at x and y exchanged. */
  ghost predicate BlocksExchanged<T>(s: seq<T>, t: seq<T>, x: int, y: int, r: int) {
    && |s| == |t| && 0 <= x && 0 <= r && x + r <= y && y + r <= |s|
    && (forall k :: x <= k < x + r ==> t[k] == s[k + (y - x)])
    && (forall k :: y <= k < y + r ==> t[k] == s[k - (y - x)])
    && (forall k :: 0 <= k < |s| && !(x <= k < x + r) && !(y <= k < y + r) ==> t[k] == s[k])
  }

  lemma ExchangeNone<T>(s: seq<T>, x: int, y: int)
    requires 0 <= x <= y <= |s|
    ensures BlocksExchanged(s, s, x, y, 0)
  {
  }

  lemma ExchangeOne<T>(s: seq<T>, t: seq<T>, x: int, y: int, i: int)
    requires BlocksExchanged(s, t, x, y, i) && x + i < y && y + i < |s|
    ensures BlocksExchanged(s, Swapped(t, x + i, y + i), x, y, i + 1)
  {
  }

  method VecSwap<T>(a: array<T>, x: int, y: int, r: int, ghost lo: int, ghost hi: int)
    requires 0 <= lo <= x && 0 <= r && x + r <= y && y + r <= hi <= a.Length
    modifies a
    ensures BlocksExchanged(old(a[..]), a[..], x, y, r) && Rearranged(old(a[..]), a[..], lo, hi)
  {
    hide Rearranged, BlocksExchanged, Swapped;
    RearrangedRefl(a[..], lo, hi);
    ExchangeNone(a[..], x, y);
    var i := 0;
    while i < r
      invariant 0 <= i <= r
      invariant BlocksExchanged(old(a[..]), a[..], x, y, i)
      invariant Rearranged(old(a[..]), a[..], lo, hi)
    {
      ghost var s := a[..];
      ExchangeOne(old(a[..]), s, x, y, i);
      Swap(a, x + i, y + i, lo, hi);
      RearrangedTrans(old(a[..]), s, a[..], lo, hi);
      i := i + 1;
    }
  }

  /** s[lo..m1] is below the pivot p, s[m1..m2] equal to it and s[m2..hi] above it. */
  ghost predicate Three<T>(cmp: (T, T) -> int, s: seq<T>, p: T, lo: int, m1: int, m2: int, hi: int) {
    && 0 <= lo <= m1 <= m2 <= hi <= |s|
    && (forall k :: lo <= k < m1 ==> cmp(s[k], p) < 0)
    && (forall k :: m1 <= k < m2 ==> cmp(s[k], p) == 0)
    && (forall k :: m2 <= k < hi ==> cmp(s[k], p) > 0)
  }

  lemma GatherLeft<T>(cmp: (T, T) -> int, s: seq<T>, t: seq<T>, lo: int, pa: int, pb: int, pc: int, pd: int, hi: int,
      r: int)
    requires Parts(cmp, s, lo, pa, pb, pc, pd, hi) && pb == pc + 1
    requires r == (if pa - lo < pb - pa then pa - lo else pb - pa) && BlocksExchanged(s, t, lo, pb - r, r)
    ensures forall k :: lo <= k < lo + (pb - pa) ==> cmp(t[k], s[lo]) < 0
    ensures forall k :: lo + (pb - pa) <= k < pb ==> cmp(t[k], s[lo]) == 0
    ensures forall k :: pb <= k <= pd ==> cmp(t[k], s[lo]) > 0
    ensures forall k :: pd < k < hi ==> cmp(t[k], s[lo]) == 0
  {
  }

  lemma GatherRight<T>(cmp: (T, T) -> int, s: seq<T>, t: seq<T>, p: T, lo: int, m: int, pb: int, pd: int, hi: int,
      r: int)
    requires 0 <= lo <= m <= pb <= pd + 1 <= hi <= |s|
    requires forall k :: lo <= k < m ==> cmp(s[k], p) < 0
    requires forall k :: m <= k < pb ==> cmp(s[k], p) == 0
    requires forall k :: pb <= k <= pd ==> cmp(s[k], p) > 0
    requires forall k :: pd < k < hi ==> cmp(s[k], p) == 0
    requires r == (if pd - pb + 1 < hi - pd - 1 then pd - pb + 1 else hi - pd - 1) &&
      BlocksExchanged(s, t, pb, hi - r, r)
    ensures Three(cmp, t, p, lo, m, hi - (pd - pb + 1), hi)
  {
  }

  /** Moves the two runs of pivot-equal elements from the ends to the middle. */
  method Gather<T>(cmp: (T, T) -> int, a: array<T>, lo: int, pa: int, pb: int, pc: int, pd: int, hi: int)
    requires Bounds(lo, pa, pb, pc, pd, hi) && hi <= a.Length && Parts(cmp, a[..], lo, pa, pb, pc, pd, hi) &&
      pb == pc + 1
    modifies a
    ensures Three(cmp, a[..], old(a[lo]), lo, lo + (pb - pa), hi - (pd - pc), hi)
    ensures Rearranged(old(a[..]), a[..], lo, hi)
  {
    hide Rearranged, Parts, BlocksExchanged, Three;
    ghost var s := a[..];
    var r := if pa - lo < pb - pa then pa - lo else pb - pa;
    VecSwap(a, lo, pb - r, r, lo, hi);
    ghost var t := a[..];
    GatherLeft(cmp, s, t, lo, pa, pb, pc, pd, hi, r);
    r := if pd - pc < hi - pd - 1 then pd - pc else hi - pd - 1;
    VecSwap(a, pb, hi - r, r, lo, hi);
    RearrangedTrans(s, t, a[..], lo, hi);
    GatherRight(cmp, t, a[..], s[lo], lo, lo + (pb - pa), pb, pd, hi, r);
  }

  /** The pivot index: the middle, the median of three, or the ninther, depending on n. */
  function PivotIndex<T>(cmp: (T, T) -> int, s: seq<T>, lo: int, n: int): (pm: int)
    requires 0 <= lo && 7 <= n && lo + n <= |s|
    ensures lo <= pm < lo + n
  {
    var pm := lo + n / 2;
    if n == 7 then pm else
      var pl, pn := lo, lo + (n - 1);
      if n > 40 then
        var d := n / 8;
        Med3(cmp, s, Med3(cmp, s, pl, pl + d, pl + 2 * d), Med3(cmp, s, pm - d, pm, pm + d),
             Med3(cmp, s, pn - 2 * d, pn - d, pn))
      else Med3(cmp, s, pl, pm, pn)
  }

  /** Every element of s[lo..m] is at most every element of s[m..hi]. */
  ghost predicate Cross<T>(cmp: (T, T) -> int, s: seq<T>, lo: int, m: int, hi: int) {
    && 0 <= lo <= m <= hi <= |s|
    && forall i, j :: lo <= i < m <= j < hi ==> cmp(s[i], s[j]) <= 0
  }

  lemma ThreeCross<T(!new)>(cmp: (T, T) -> int, s: seq<T>, p: T, lo: int, m1: int, m2: int, hi: int)
    requires TotalPreorder(cmp) && Three(cmp, s, p, lo, m1, m2, hi)
    ensures Cross(cmp, s, lo, m1, hi) && Cross(cmp, s, lo, m2, hi) && Sorted(cmp, s, m1, m2)
  {
    forall i, j | lo <= i < m2 && i < j < hi && m1 <= j ensures cmp(s[i], s[j]) <= 0 {
      assert cmp(s[i], p) <= 0 && cmp(p, s[j]) <= 0;
    }
  }

  lemma ThreeKept<T>(cmp: (T, T) -> int, s: seq<T>, t: seq<T>, p: T, lo: int, m1: int, m2: int, hi: int)
    requires Three(cmp, s, p, lo, m1, m2, hi) && Rearranged(s, t, lo, m1)
    ensures Three(cmp, t, p, lo, m1, m2, hi)
  {
    RearrangedFrom(s, t, lo, m1);
    assert forall k :: m1 <= k < |s| ==> t[k] == s[m1..][k - m1] && s[m1..][k - m1] == t[m1..][k - m1];
    forall k | lo <= k < m1 ensures cmp(t[k], p) < 0 {
      var j :| 0 <= j < m1 - lo && s[lo..m1][j] == t[k];
      assert s[lo + j] == t[k];
    }
  }

  /** Two settled neighbours, everything in the first below everything in the second, are settled together. */
  lemma Join<T>(cmp: (T, T) -> int, s: seq<T>, lo: int, m: int, hi: int, l: int, r: int)
    requires Settled(cmp, s, lo, m, l, r) && Settled(cmp, s, m, hi, l, r) && Cross(cmp, s, lo, m, hi)
    ensures Settled(cmp, s, lo, hi, l, r)
  {
  }

  lemma CrossJoin<T>(cmp: (T, T) -> int, s: seq<T>, lo0: int, lo: int, m: int, hi: int)
    requires Cross(cmp, s, lo0, lo, hi) && Cross(cmp, s, lo, m, hi)
    ensures Cross(cmp, s, lo0, m, hi)
  {
  }

  /** A rearrangement of s[lo..hi] keeps what is settled before lo and keeps that part below the rest. */
  lemma PrefixKept<T>(cmp: (T, T) -> int, s: seq<T>, t: seq<T>, lo0: int, lo: int, hi: int, l: int, r: int)
    requires Rearranged(s, t, lo, hi) && Settled(cmp, s, lo0, lo, l, r) && Cross(cmp, s, lo0, lo, hi)
    ensures Settled(cmp, t, lo0, lo, l, r) && Cross(cmp, t, lo0, lo, hi)
  {
    RearrangedFrom(s, t, lo, hi);
    assert forall k :: 0 <= k < lo ==> t[k] == s[..lo][k] && t[..lo][k] == s[k];
    forall i, j | lo0 <= i < lo <= j < hi ensures cmp(t[i], t[j]) <= 0 {
      var k :| 0 <= k < hi - lo && s[lo..hi][k] == t[j];
      assert s[lo + k] == t[j];
    }
  }

  /** True when a sub-range first..last holds none of the wanted positions. */
  predicate Misses(l: int, r: int, first: int, last: int) {
    (l < first && r < first) || (l > last && r > last)
  }

  /** Leaving out a range that misses l..r, or holds a single element, is harmless. */
  lemma Skipped<T>(cmp: (T, T) -> int, s: seq<T>, lo: int, hi: int, l: int, r: int)
    requires 0 <= lo <= hi <= |s| && l <= r && (hi - lo <= 1 || Misses(l, r, lo, hi - 1))
    ensures Settled(cmp, s, lo, hi, l, r)
  {
  }

  lemma SelfEqual<T(!new)>(cmp: (T, T) -> int, x: T)
    requires TotalPreorder(cmp)
    ensures cmp(x, x) == 0
  {
  }

  lemma SortedSettled<T>(cmp: (T, T) -> int, s: seq<T>, lo: int, hi: int, l: int, r: int)
    requires Sorted(cmp, s, lo, hi)
    ensures Settled(cmp, s, lo, hi, l, r)
  {
  }

  /** One round of `loop:` on a[lo..lo + n]: either the range is finished, or only a[next..] is left to do. */
  method Round<T(!new)>(cmp: (T, T) -> int, a: array<T>, lo: int, n: int, l: int, r: int)
    returns (done: bool, next: int)
    requires TotalPreorder(cmp) && 0 <= lo && 0 <= n && lo + n <= a.Length && l <= r
    modifies a
    ensures Rearranged(old(a[..]), a[..], lo, lo + n)
    ensures done ==> Settled(cmp, a[..], lo, lo + n, l, r)
    ensures !done ==> lo < next < lo + n && Settled(cmp, a[..], lo, next, l, r) && Cross(cmp, a[..], lo, next, lo + n)
    decreases n, 0
  {
    hide Rearranged, Parts, Three, TotalPreorder, Cross, Sorted, Settled, PivotIndex;
    ghost var s0 := a[..];
    var hi := lo + n;
    if n < 7 {
      InsertionSort(cmp, a, lo, hi);
      SortedSettled(cmp, a[..], lo, hi, l, r);
      return true, hi;
    }
    var pm := PivotIndex(cmp, a[..], lo, n);
    Swap(a, lo, pm, lo, hi);
    ghost var s1 := a[..];
    SelfEqual(cmp, a[lo]);
    var pa, pb, pc, pd, swapped := Partition(cmp, a, lo, hi);
    ghost var s2 := a[..];
    RearrangedTrans(s0, s1, s2, lo, hi);
    if !swapped {
      InsertionSort(cmp, a, lo, hi);
      SortedSettled(cmp, a[..], lo, hi, l, r);
      RearrangedTrans(s0, s2, a[..], lo, hi);
      return true, hi;
    }
    Gather(cmp, a, lo, pa, pb, pc, pd, hi);
    ghost var s3 := a[..];
    RearrangedTrans(s0, s2, s3, lo, hi);
    done, next := Halves(cmp, a, lo, lo + (pb - pa), hi - (pd - pc), hi, s2[lo], l, r);
    RearrangedTrans(s0, s3, a[..], lo, hi);
  }

  /** After the partition: recursion on the lower part, and the decision whether to go on with the upper part. */
  method Halves<T(!new)>(cmp: (T, T) -> int, a: array<T>, lo: int, m1: int, m2: int, hi: int, ghost p: T, l: int,
      r: int)
    returns (done: bool, next: int)
    requires TotalPreorder(cmp) && 0 <= lo <= m1 < m2 <= hi <= a.Length && l <= r
    requires Three(cmp, a[..], p, lo, m1, m2, hi)
    modifies a
    ensures Rearranged(old(a[..]), a[..], lo, hi)
    ensures done ==> Settled(cmp, a[..], lo, hi, l, r)
    ensures !done ==> lo < next < hi && Settled(cmp, a[..], lo, next, l, r) && Cross(cmp, a[..], lo, next, hi)
    decreases m1 - lo, 2
  {
    hide Three, Cross, Sorted, Rearranged, TotalPreorder, Settled, Misses;
    ghost var s := a[..];
    RearrangedRefl(s, lo, m1);
    if m1 - lo > 1 && !Misses(l, r, lo, m1 - 1) {
      PartialSort(cmp, a, lo, m1 - lo, l, r);
    } else {
      Skipped(cmp, s, lo, m1, l, r);
    }
    ThreeKept(cmp, s, a[..], p, lo, m1, m2, hi);
    ThreeCross(cmp, a[..], p, lo, m1, m2, hi);
    RearrangedWider(s, a[..], lo, m1, lo, hi);
    SortedSettled(cmp, a[..], m1, m2, l, r);
    Join(cmp, a[..], lo, m1, m2, l, r);
    done := !(hi - m2 > 1 && !Misses(l, r, m2, hi - 1));
    next := m2;
    if done {
      Skipped(cmp, a[..], m2, hi, l, r);
      Join(cmp, a[..], lo, m2, hi, l, r);
    }
  }

  lemma NothingYet<T>(cmp: (T, T) -> int, s: seq<T>, lo: int, hi: int, l: int, r: int)
    requires 0 <= lo <= hi <= |s|
    ensures Settled(cmp, s, lo, lo, l, r) && Cross(cmp, s, lo, lo, hi)
  {
  }

  /** The sort of a[lo0..lo0 + n0], exact on positions l..r. The upper part is handled by the loop, not by recursion. */
  method PartialSort<T(!new)>(cmp: (T, T) -> int, a: array<T>, lo0: int, n0: int, l: int, r: int)
    requires TotalPreorder(cmp) && 0 <= lo0 && 0 <= n0 && lo0 + n0 <= a.Length && l <= r
    modifies a
    ensures Rearranged(old(a[..]), a[..], lo0, lo0 + n0)
    ensures Settled(cmp, a[..], lo0, lo0 + n0, l, r)
    decreases n0, 1
  {
    RearrangedRefl(a[..], lo0, lo0 + n0);
    NothingYet(cmp, a[..], lo0, lo0 + n0, l, r);
    hide Rearranged, Settled, Cross, TotalPreorder;
    var lo, n := lo0, n0;
    var hi := lo0 + n0;
    while true
      invariant lo0 <= lo && n == hi - lo && 0 <= n
      invariant Rearranged(old(a[..]), a[..], lo0, hi)
      invariant Settled(cmp, a[..], lo0, lo, l, r) && Cross(cmp, a[..], lo0, lo, hi)
      decreases n
    {
      ghost var s := a[..];
      var done, next := Round(cmp, a, lo, n, l, r);
      PrefixKept(cmp, s, a[..], lo0, lo, hi, l, r);
      RearrangedWider(s, a[..], lo, hi, lo0, hi);
      RearrangedTrans(old(a[..]), s, a[..], lo0, hi);
      if done {
        Join(cmp, a[..], lo0, lo, hi, l, r);
        return;
      }
      Join(cmp, a[..], lo0, lo, next, l, r);
      CrossJoin(cmp, a[..], lo0, lo, next, hi);
      lo, n := next, hi - next;
    }
  }

  /** pqsort: positions lrange..rrange end up as in a full sort; the array stays a permutation. */
  method PqSort<T(!new)>(a: array<T>, cmp: (T, T) -> int, lrange: nat, rrange: nat)
    requires TotalPreorder(cmp) && lrange <= rrange
    modifies a
    ensures multiset(a[..]) == old(multiset(a[..]))
    ensures Settled(cmp, a[..], 0, a.Length, lrange, rrange)
  {
    PartialSort(cmp, a, 0, a.Length, lrange, rrange);
  }
}
