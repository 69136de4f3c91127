/** What a partial sort of positions l..r means, and that it agrees with a full sort on those positions. */
module PqSortSpec {

  /** `cmp` orders its arguments as a total preorder: any two are comparable, and the order is transitive. */
  ghost predicate TotalPreorder<T(!new)>(cmp: (T, T) -> int) {
    && (forall x, y :: cmp(x, y) < 0 <==> cmp(y, x) > 0)
    && (forall x, y, z :: cmp(x, y) <= 0 && cmp(y, z) <= 0 ==> cmp(x, z) <= 0)
  }

  /** Any two elements of s[lo..hi], at least one of them at a position in l..r, are in order. */
  ghost predicate Settled<T>(cmp: (T, T) -> int, s: seq<T>, lo: int, hi: int, l: int, r: int) {
    && 0 <= lo <= hi <= |s|
    && forall i, j :: lo <= i < j < hi && (l <= i <= r || l <= j <= r) ==> cmp(s[i], s[j]) <= 0
  }

  ghost predicate Sorted<T>(cmp: (T, T) -> int, s: seq<T>, lo: int, hi: int) {
    && 0 <= lo <= hi <= |s|
    && forall i, j :: lo <= i < j < hi ==> cmp(s[i], s[j]) <= 0
  }

  /** `t` is `s` with the elements at lo..hi permuted. */
  ghost predicate Rearranged<T>(s: seq<T>, t: seq<T>, lo: int, hi: int) {
    && |s| == |t| && 0 <= lo <= hi <= |s|
    && s[..lo] == t[..lo] && s[hi..] == t[hi..]
    && multiset(s) == multiset(t)
  }

  lemma RearrangedRefl<T>(s: seq<T>, lo: int, hi: int)
    requires 0 <= lo <= hi <= |s|
    ensures Rearranged(s, s, lo, hi)
  {
  }

  lemma RearrangedTrans<T>(s: seq<T>, t: seq<T>, u: seq<T>, lo: int, hi: int)
    requires Rearranged(s, t, lo, hi) && Rearranged(t, u, lo, hi)
    ensures Rearranged(s, u, lo, hi)
  {
  }

  lemma RearrangedRange<T>(s: seq<T>, t: seq<T>, lo: int, hi: int)
    requires Rearranged(s, t, lo, hi)
    ensures multiset(s[lo..hi]) == multiset(t[lo..hi])
  {
    assert s == s[..lo] + s[lo..hi] + s[hi..];
    assert t == t[..lo] + t[lo..hi] + t[hi..];
    var rest := multiset(s[..lo]) + multiset(s[hi..]);
    assert multiset(s) - rest == multiset(s[lo..hi]);
    assert multiset(t) - rest == multiset(t[lo..hi]);
  }

  /** Every element of a rearranged range was in that range before. */
  lemma RearrangedFrom<T>(s: seq<T>, t: seq<T>, lo: int, hi: int)
    requires Rearranged(s, t, lo, hi)
    ensures forall k :: lo <= k < hi ==> t[k] in s[lo..hi]
  {
    RearrangedRange(s, t, lo, hi);
    forall k | lo <= k < hi ensures t[k] in s[lo..hi] {
      assert t[k] == t[lo..hi][k - lo];
      assert t[k] in multiset(t[lo..hi]);
    }
  }

  lemma RearrangedWider<T>(s: seq<T>, t: seq<T>, lo: int, hi: int, lo': int, hi': int)
    requires Rearranged(s, t, lo, hi) && 0 <= lo' <= lo && hi <= hi' <= |s|
    ensures Rearranged(s, t, lo', hi')
  {
    assert s[..lo'] == s[..lo][..lo'] && t[..lo'] == t[..lo][..lo'];
    assert s[hi'..] == s[hi..][hi' - hi..] && t[hi'..] == t[hi..][hi' - hi..];
  }

  function Count<T>(s: seq<T>, p: T -> bool): nat {
    if s == [] then 0 else (if p(s[0]) then 1 else 0) + Count(s[1..], p)
  }

  lemma {:induction false} CountConcat<T>(s: seq<T>, t: seq<T>, p: T -> bool)
    ensures Count(s + t, p) == Count(s, p) + Count(t, p)
  {
    if s == [] {
      assert s + t == t;
    } else {
      assert (s + t)[1..] == s[1..] + t;
      CountConcat(s[1..], t, p);
    }
  }

  lemma CountSplit<T>(s: seq<T>, k: nat, p: T -> bool)
    requires k <= |s|
    ensures Count(s, p) == Count(s[..k], p) + Count(s[k..], p)
  {
    hide Count;
    assert s == s[..k] + s[k..];
    CountConcat(s[..k], s[k..], p);
  }

  lemma CountTake<T>(s: seq<T>, k: nat, p: T -> bool)
    requires k < |s|
    ensures Count(s, p) == (if p(s[k]) then 1 else 0) + Count(s[..k] + s[k + 1..], p)
  {
    CountSplit(s, k, p);
    assert s[k..][0] == s[k] && s[k..][1..] == s[k + 1..];
    CountConcat(s[..k], s[k + 1..], p);
  }

  lemma MultisetTake<T>(s: seq<T>, k: nat)
    requires k < |s|
    ensures multiset(s[..k] + s[k + 1..]) == multiset(s) - multiset{s[k]}
  {
    assert s == s[..k] + [s[k]] + s[k + 1..];
  }

  lemma PlaceIn<T>(x: T, t: seq<T>) returns (k: nat)
    requires x in multiset(t)
    ensures k < |t| && t[k] == x
  {
    k :| k < |t| && t[k] == x;
  }

  lemma {:induction false} CountPermutation<T>(s: seq<T>, t: seq<T>, p: T -> bool)
    requires multiset(s) == multiset(t)
    ensures Count(s, p) == Count(t, p)
    decreases |s|
  {
    hide Count;
    assert |s| == |multiset(s)| == |multiset(t)| == |t|;
    if s == [] {
      assert t == [];
    } else {
      var k := PlaceIn(s[0], t);
      MultisetTake(s, 0);
      MultisetTake(t, k);
      CountPermutation(s[..0] + s[1..], t[..k] + t[k + 1..], p);
      CountTake(s, 0, p);
      CountTake(t, k, p);
    }
  }

  lemma {:induction false} CountBounds<T>(s: seq<T>, p: T -> bool)
    ensures Count(s, p) <= |s|
    ensures (forall k :: 0 <= k < |s| ==> p(s[k])) ==> Count(s, p) == |s|
    ensures (forall k :: 0 <= k < |s| ==> !p(s[k])) ==> Count(s, p) == 0
  {
    if s != [] {
      CountBounds(s[1..], p);
      assert forall k :: 0 <= k < |s| - 1 ==> s[1..][k] == s[k + 1];
    }
  }

  /** If p holds of s[..a] and fails on t[b..], two permutations of each other, then a <= b. */
  lemma CountArgument<T>(s: seq<T>, t: seq<T>, p: T -> bool, a: nat, b: nat)
    requires multiset(s) == multiset(t) && a <= |s| && b <= |t|
    requires forall k :: 0 <= k < a ==> p(s[k])
    requires forall k :: b <= k < |t| ==> !p(t[k])
    ensures a <= b
  {
    hide Count;
    CountPermutation(s, t, p);
    CountSplit(s, a, p);
    CountSplit(t, b, p);
    CountBounds(s[..a], p);
    CountBounds(t[..b], p);
    CountBounds(t[b..], p);
  }

  /** Settled positions hold, up to cmp-equality, what any full sort of the same elements puts there. */
  lemma SettledMatchesFullSort<T(!new)>(cmp: (T, T) -> int, s: seq<T>, full: seq<T>, l: int, r: int, p: int)
    requires TotalPreorder(cmp)
    requires Settled(cmp, s, 0, |s|, l, r) && 0 <= l <= p <= r < |s|
    requires Sorted(cmp, full, 0, |full|) && multiset(full) == multiset(s)
    ensures |full| == |s| && cmp(s[p], full[p]) == 0
  {
    assert |full| == |multiset(full)| == |multiset(s)| == |s|;
    if cmp(s[p], full[p]) < 0 {
      CountArgument(s, full, x => cmp(x, s[p]) <= 0, p + 1, p);
    }
    if cmp(s[p], full[p]) > 0 {
      CountArgument(full, s, x => cmp(x, full[p]) <= 0, p + 1, p);
    }
  }
}
