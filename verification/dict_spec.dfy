/** The two-table dictionary on values: buckets are sequences of key-value pairs, and every operation of dict.c is a
    function on them. The lemmas say what these operations do to the finite map that the dictionary stands for. */
module DictSpec {
  import opened Bytes

  type Bucket<K, V> = seq<(K, V)>
  type Table<K, V> = seq<Bucket<K, V>>

  /** `t1` is empty and rehashidx is -1 exactly when no rehash is in progress. */
  datatype State<K, V> = State(t0: Table<K, V>, t1: Table<K, V>, rehashidx: int) {
    predicate Rehashing() {
      rehashidx != -1
    }
  }

  // ---------------------------------------------------------------- buckets and tables

  function FindIn<K(==), V>(b: Bucket<K, V>, k: K): Option<V> {
    if b == [] then None else if b[0].0 == k then Some(b[0].1) else FindIn(b[1..], k)
  }

  function RemoveFrom<K(==), V>(b: Bucket<K, V>, k: K): (r: Bucket<K, V>)
    ensures FindIn(b, k).Some? ==> |r| == |b| - 1
    ensures FindIn(b, k).None? ==> r == b
  {
    if b == [] then [] else if b[0].0 == k then b[1..] else [b[0]] + RemoveFrom(b[1..], k)
  }

  function SetIn<K(==), V>(b: Bucket<K, V>, k: K, v: V): (r: Bucket<K, V>)
    ensures |r| == |b| && forall j :: 0 <= j < |b| ==> r[j].0 == b[j].0
  {
    if b == [] then [] else if b[0].0 == k then [(k, v)] + b[1..] else [b[0]] + SetIn(b[1..], k, v)
  }

  function Slot<K>(h: K -> nat, k: K, n: nat): (i: nat)
    requires n > 0
    ensures i < n
  {
    h(k) % n
  }

  function TableGet<K(==), V>(h: K -> nat, t: Table<K, V>, k: K): Option<V> {
    if t == [] then None else FindIn(t[Slot(h, k, |t|)], k)
  }

  function Total<K, V>(t: Table<K, V>): nat {
    if t == [] then 0 else |t[0]| + Total(t[1..])
  }

  lemma TotalNil<K, V>()
    ensures Total<K, V>([]) == 0
  {
  }

  function Empties<K, V>(n: nat): (t: Table<K, V>)
    ensures |t| == n && forall i :: 0 <= i < n ==> t[i] == []
  {
    seq(n, _ => [])
  }

  ghost predicate KeysDistinct<K, V>(b: Bucket<K, V>) {
    forall i, j :: 0 <= i < j < |b| ==> b[i].0 != b[j].0
  }

  /** Every pair sits in the bucket its key hashes to, and no bucket holds a key twice. */
  ghost predicate TableOk<K, V>(h: K -> nat, t: Table<K, V>) {
    && (forall i, j :: 0 <= i < |t| && 0 <= j < |t[i]| ==> Slot(h, t[i][j].0, |t|) == i)
    && (forall i :: 0 <= i < |t| ==> KeysDistinct(t[i]))
  }

  ghost predicate PowerOfTwo(n: nat) {
    exists e: nat :: n == Power(e)
  }

  function Power(e: nat): (p: nat)
    ensures p > 0
  {
    if e == 0 then 1 else 2 * Power(e - 1)
  }

  /** What every operation keeps. */
  ghost predicate Ok<K(!new), V>(h: K -> nat, s: State<K, V>) {
    && TableOk(h, s.t0) && TableOk(h, s.t1)
    && (s.t0 != [] ==> PowerOfTwo(|s.t0|)) && (s.t1 != [] ==> PowerOfTwo(|s.t1|))
    && (s.Rehashing() <==> s.t1 != []) && (s.Rehashing() ==> s.t0 != [])
    && (s.Rehashing() ==> 0 <= s.rehashidx <= |s.t0|)
    && (forall i :: 0 <= i < s.rehashidx && i < |s.t0| ==> s.t0[i] == [])
    && (forall k :: TableGet(h, s.t0, k).None? || TableGet(h, s.t1, k).None?)
  }

  // ---------------------------------------------------------------- the abstract map

  function Get<K(==), V>(h: K -> nat, s: State<K, V>, k: K): Option<V> {
    match TableGet(h, s.t0, k)
    case Some(v) => Some(v)
    case None => TableGet(h, s.t1, k)
  }

  ghost function BucketKeys<K, V>(b: Bucket<K, V>): set<K> {
    set j | 0 <= j < |b| :: b[j].0
  }

  ghost function TableKeys<K, V>(t: Table<K, V>): set<K> {
    if t == [] then {} else BucketKeys(t[0]) + TableKeys(t[1..])
  }

  /** The finite map a dictionary stands for. */
  ghost function Model<K, V>(h: K -> nat, s: State<K, V>): map<K, V> {
    map k | k in TableKeys(s.t0) + TableKeys(s.t1) && Get(h, s, k).Some? :: Get(h, s, k).value
  }

  lemma {:induction false} InTableKeys<K, V>(t: Table<K, V>, k: K)
    ensures k in TableKeys(t) <==> exists i, j :: 0 <= i < |t| && 0 <= j < |t[i]| && t[i][j].0 == k
  {
    if t != [] {
      InTableKeys(t[1..], k);
      if i, j :| 0 <= i < |t| && 0 <= j < |t[i]| && t[i][j].0 == k {
        if i == 0 {
          assert k in BucketKeys(t[0]);
        } else {
          assert t[1..][i - 1][j].0 == k;
        }
      }
      if k in TableKeys(t) {
        if k in BucketKeys(t[0]) {
          var j :| 0 <= j < |t[0]| && t[0][j].0 == k;
        } else {
          var i, j :| 0 <= i < |t[1..]| && 0 <= j < |t[1..][i]| && t[1..][i][j].0 == k;
          assert t[i + 1][j].0 == k;
        }
      }
    }
  }

  lemma {:induction false} FindInSome<K, V>(b: Bucket<K, V>, k: K)
    ensures FindIn(b, k).Some? <==> exists j :: 0 <= j < |b| && b[j].0 == k
  {
    if b != [] && b[0].0 != k {
      FindInSome(b[1..], k);
      if j :| 0 <= j < |b| && b[j].0 == k {
        assert b[1..][j - 1].0 == k;
      }
      if FindIn(b, k).Some? {
        var j :| 0 <= j < |b[1..]| && b[1..][j].0 == k;
        assert b[j + 1].0 == k;
      }
    }
  }

  /** Looking a key up and listing all keys agree on a well-placed table. */
  lemma GetSome<K, V>(h: K -> nat, t: Table<K, V>, k: K)
    requires TableOk(h, t)
    ensures TableGet(h, t, k).Some? <==> k in TableKeys(t)
  {
    InTableKeys(t, k);
    if t != [] {
      FindInSome(t[Slot(h, k, |t|)], k);
    }
  }

  /** The map has exactly the keys that can be found, with the values that are found. */
  lemma ModelIsGet<K(!new), V>(h: K -> nat, s: State<K, V>, k: K)
    requires Ok(h, s)
    ensures k in Model(h, s) <==> Get(h, s, k).Some?
    ensures k in Model(h, s) ==> Model(h, s)[k] == Get(h, s, k).value
  {
    GetSome(h, s.t0, k);
    GetSome(h, s.t1, k);
  }

  /** Two states that answer every lookup alike stand for the same map. */
  lemma SameModel<K(!new), V>(h: K -> nat, s: State<K, V>, t: State<K, V>)
    requires Ok(h, s) && Ok(h, t) && forall k :: Get(h, s, k) == Get(h, t, k)
    ensures Model(h, s) == Model(h, t)
  {
    forall k ensures k in Model(h, s) <==> k in Model(h, t) {
      ModelIsGet(h, s, k);
      ModelIsGet(h, t, k);
    }
    forall k | k in Model(h, s) ensures Model(h, s)[k] == Model(h, t)[k] {
      ModelIsGet(h, s, k);
      ModelIsGet(h, t, k);
    }
  }

  // ---------------------------------------------------------------- sizes

  lemma {:induction false} BucketKeyCount<K, V>(b: Bucket<K, V>)
    requires KeysDistinct(b)
    ensures |BucketKeys(b)| == |b|
  {
    if b != [] {
      var front := b[..|b| - 1];
      BucketKeyCount(front);
      assert BucketKeys(b) == BucketKeys(front) + {b[|b| - 1].0};
      assert b[|b| - 1].0 !in BucketKeys(front);
    } else {
      assert BucketKeys(b) == {};
    }
  }

  lemma SlotOfKey<K, V>(h: K -> nat, whole: Table<K, V>, from: nat, k: K)
    requires TableOk(h, whole) && from <= |whole|
    ensures k in TableKeys(whole[from..]) ==> whole != [] && from <= Slot(h, k, |whole|)
  {
    InTableKeys(whole[from..], k);
    if i, j :| 0 <= i < |whole[from..]| && 0 <= j < |whole[from..][i]| && whole[from..][i][j].0 == k {
      assert whole[from + i][j].0 == k;
    }
  }

  /** Distinct keys, listed bucket by bucket from bucket `from` on. */
  lemma {:induction false} TableKeyCount<K, V>(h: K -> nat, whole: Table<K, V>, from: nat)
    requires TableOk(h, whole) && from <= |whole|
    ensures |TableKeys(whole[from..])| == Total(whole[from..])
    decreases |whole| - from
  {
    var t := whole[from..];
    if t != [] {
      assert t[1..] == whole[from + 1..];
      TableKeyCount(h, whole, from + 1);
      BucketKeyCount(t[0]);
      forall k | k in BucketKeys(t[0]) ensures k !in TableKeys(t[1..]) {
        SlotOfKey(h, whole, from + 1, k);
      }
      assert |BucketKeys(t[0]) + TableKeys(t[1..])| == |BucketKeys(t[0])| + |TableKeys(t[1..])|;
    }
  }

  /** The `used` counters add up to the number of keys: nothing is lost and nothing is stored twice. */
  lemma UsedIsExact<K(!new), V>(h: K -> nat, s: State<K, V>)
    requires Ok(h, s)
    ensures |Model(h, s)| == Total(s.t0) + Total(s.t1)
  {
    TableKeyCount(h, s.t0, 0);
    TableKeyCount(h, s.t1, 0);
    assert s.t0[0..] == s.t0 && s.t1[0..] == s.t1;
    forall k ensures k in TableKeys(s.t0) ==> k !in TableKeys(s.t1) {
      GetSome(h, s.t0, k);
      GetSome(h, s.t1, k);
    }
    forall k ensures k in Model(h, s).Keys <==> k in TableKeys(s.t0) + TableKeys(s.t1) {
      ModelIsGet(h, s, k);
      GetSome(h, s.t0, k);
      GetSome(h, s.t1, k);
    }
    assert Model(h, s).Keys == TableKeys(s.t0) + TableKeys(s.t1);
    assert |Model(h, s).Keys| == |Model(h, s)|;
    assert TableKeys(s.t0) !! TableKeys(s.t1);
  }

  lemma {:induction false} TotalUpdate<K, V>(t: Table<K, V>, i: nat, b: Bucket<K, V>)
    requires i < |t|
    ensures Total(t[i := b]) == Total(t) - |t[i]| + |b|
  {
    if i > 0 {
      TotalUpdate(t[1..], i - 1, b);
      assert t[i := b][1..] == t[1..][i - 1 := b];
    } else {
      assert t[i := b][1..] == t[1..];
    }
  }

  lemma {:induction false} TotalZero<K, V>(t: Table<K, V>)
    ensures Total(t) == 0 <==> forall i :: 0 <= i < |t| ==> t[i] == []
  {
    if t != [] {
      TotalZero(t[1..]);
      if Total(t) == 0 {
        forall i | 0 <= i < |t| ensures t[i] == [] {
          if i > 0 {
            assert t[i] == t[1..][i - 1];
          }
        }
      }
      if forall i :: 0 <= i < |t| ==> t[i] == [] {
        assert forall i :: 0 <= i < |t[1..]| ==> t[1..][i] == t[i + 1];
      }
    }
  }

  // ---------------------------------------------------------------- changing one bucket

  /** Replacing bucket i by one whose keys belong there keeps a table well placed, and changes only its answers. */
  lemma SetBucket<K(!new), V>(h: K -> nat, t: Table<K, V>, i: nat, b: Bucket<K, V>)
    requires TableOk(h, t) && i < |t| && KeysDistinct(b)
    requires forall j :: 0 <= j < |b| ==> Slot(h, b[j].0, |t|) == i
    ensures TableOk(h, t[i := b])
    ensures forall k :: TableGet(h, t[i := b], k) == if Slot(h, k, |t|) == i then FindIn(b, k) else TableGet(h, t, k)
  {
  }

  lemma {:induction false} FindRemoved<K, V>(b: Bucket<K, V>, k: K, k': K)
    requires KeysDistinct(b)
    ensures FindIn(RemoveFrom(b, k), k') == if k' == k then None else FindIn(b, k')
    ensures KeysDistinct(RemoveFrom(b, k)) && forall p :: p in RemoveFrom(b, k) ==> p in b
  {
    if b != [] {
      FindInSome(b[1..], k');
      if b[0].0 == k {
        assert forall i :: 0 <= i < |b| - 1 ==> b[1..][i] == b[i + 1];
      } else {
        assert KeysDistinct(b[1..]);
        FindRemoved(b[1..], k, k');
        var r := RemoveFrom(b[1..], k);
        forall j | 0 <= j < |r| ensures r[j].0 != b[0].0 {
          assert r[j] in b[1..];
          var m :| 0 <= m < |b[1..]| && b[1..][m] == r[j];
          assert b[m + 1].0 != b[0].0;
        }
      }
    }
  }

  lemma {:induction false} FindSet<K, V>(b: Bucket<K, V>, k: K, v: V, k': K)
    ensures FindIn(SetIn(b, k, v), k') == if k' == k && FindIn(b, k).Some? then Some(v) else FindIn(b, k')
  {
    if b != [] && b[0].0 != k {
      FindSet(b[1..], k, v, k');
    }
  }

  /** j is where a scan for k stops: at the first entry with that key, or at the end. */
  ghost predicate FirstAt<K, V>(b: Bucket<K, V>, k: K, j: nat) {
    && j <= |b| && (forall m :: 0 <= m < j ==> b[m].0 != k) && (j < |b| ==> b[j].0 == k)
  }

  lemma {:induction false} ScanResult<K, V>(b: Bucket<K, V>, k: K, j: nat, v: V)
    requires FirstAt(b, k, j)
    ensures FindIn(b, k) == if j < |b| then Some(b[j].1) else None
    ensures j < |b| ==> RemoveFrom(b, k) == b[..j] + b[j + 1..] && SetIn(b, k, v) == b[j := (k, v)]
  {
    if b != [] && b[0].0 != k {
      assert forall m :: 0 <= m < |b| - 1 ==> b[1..][m] == b[m + 1];
      ScanResult(b[1..], k, j - 1, v);
      if j < |b| {
        SplitFirst(b, j, (k, v));
      }
    } else if b != [] {
      assert j == 0;
      assert b[0 := (k, v)] == [(k, v)] + b[1..];
    }
  }

  lemma SplitFirst<T>(b: seq<T>, j: nat, x: T)
    requires 0 < j < |b|
    ensures b[..j] + b[j + 1..] == [b[0]] + (b[1..][..j - 1] + b[1..][j..])
    ensures b[j := x] == [b[0]] + b[1..][j - 1 := x]
  {
  }
}
