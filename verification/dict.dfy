/** dict.c on the heap: two arrays of bucket heads and chains of entries. Every method is proved equal to its function
    in DictOps on the pairs that the chains hold. */
module Dicts {
  import opened Bytes
  import opened DictSpec
  import opened Sequences
  import opened DictOps

  /** `home` and `slot` say in which table and bucket an entry is, so that distinct chains share no entry. */
  class Entry<K, V> {
    const key: K
    var val: V
    var next: Entry?<K, V>
    ghost var home: object
    ghost var slot: int

    constructor (key: K, val: V, next: Entry?<K, V>, ghost home: object, ghost slot: int)
      ensures this.key == key && this.val == val && this.next == next && this.home == home && this.slot == slot
    {
      this.key, this.val, this.next, this.home, this.slot := key, val, next, home, slot;
    }
  }

  /** dictht; a table that was never allocated is an array of length 0. */
  datatype HashTable<K, V> = HashTable(table: array<Entry?<K, V>>, size: nat, sizemask: nat, used: nat)

  type Chain<K, V> = seq<Entry<K, V>>

  /** The chain that starts at `head` is es, and all of it belongs to bucket `slot` of table `home`. */
  ghost predicate BucketOk<K, V>(head: Entry?<K, V>, es: Chain<K, V>, home: object, slot: int)
    reads es`next, es`home, es`slot
  {
    && head == (if es == [] then null else es[0])
    && (forall j {:trigger es[j].next} :: 0 <= j < |es| - 1 ==> es[j].next == es[j + 1])
    && (es != [] ==> es[|es| - 1].next == null)
    && (forall j :: 0 <= j < |es| ==> es[j].home == home && es[j].slot == slot)
    && (forall i, j :: 0 <= i < j < |es| ==> es[i] != es[j])
  }

  ghost function Nodes<K, V>(c: seq<Chain<K, V>>): (s: set<Entry<K, V>>)
    ensures forall i, e :: 0 <= i < |c| && e in c[i] ==> e in s
  {
    set i, j | 0 <= i < |c| && 0 <= j < |c[i]| :: c[i][j]
  }

  ghost function ViewBucket<K, V>(es: Chain<K, V>): (b: Bucket<K, V>)
    reads es`val
    ensures |b| == |es| && forall j :: 0 <= j < |es| ==> b[j] == (es[j].key, es[j].val)
  {
    if es == [] then [] else [(es[0].key, es[0].val)] + ViewBucket(es[1..])
  }

  ghost function View<K, V>(c: seq<Chain<K, V>>): (t: Table<K, V>)
    reads Nodes(c)`val
    ensures |t| == |c| && forall i :: 0 <= i < |c| ==> t[i] == ViewBucket(c[i])
  {
    if c == [] then [] else
      assert Nodes(c[1..]) <= Nodes(c) by {
        assert forall i :: 0 <= i < |c[1..]| ==> c[1..][i] == c[i + 1];
      }
      [ViewBucket(c[0])] + View(c[1..])
  }

  /** All buckets of a table except possibly `skip` (pass -1 for none). */
  ghost predicate BucketsOk<K, V>(table: array<Entry?<K, V>>, c: seq<Chain<K, V>>, skip: int)
    reads table, Nodes(c)`next, Nodes(c)`home, Nodes(c)`slot
  {
    && table.Length == |c|
    && forall i :: 0 <= i < |c| && i != skip ==> BucketOk(table[i], c[i], table, i)
  }

  ghost predicate Sized<K, V>(ht: HashTable<K, V>) {
    ht.table.Length == ht.size && (ht.size > 0 ==> ht.sizemask == ht.size - 1)
  }

  ghost predicate Within<K, V>(c: seq<Chain<K, V>>, nodes: set<Entry<K, V>>) {
    forall i, j :: 0 <= i < |c| && 0 <= j < |c[i]| ==> c[i][j] in nodes
  }

  // ---------------------------------------------------------------- one chain

  lemma BucketFirst<K, V>(head: Entry<K, V>, es: Chain<K, V>, home: object, slot: int)
    requires BucketOk(head, es, home, slot)
    ensures es != [] && es[0] == head && head !in es[1..] && head.home == home && head.slot == slot
    ensures BucketOk(head.next, es[1..], home, slot)
    ensures ViewBucket(es) == [(head.key, head.val)] + ViewBucket(es[1..])
  {
    assert es[0].next == if |es| > 1 then es[1] else null;
    assert forall j :: 0 <= j < |es| - 1 ==> es[1..][j] == es[j + 1];
  }

  lemma NoChains<K, V>(home: array<Entry?<K, V>>, c: seq<Chain<K, V>>)
    requires home.Length == |c| && forall i :: 0 <= i < |c| ==> home[i] == null && c[i] == []
    ensures BucketsOk(home, c, -1) && View(c) == Empties(|c|)
  {
  }

  lemma BucketDistinct<K, V>(head: Entry?<K, V>, es: Chain<K, V>, home: object, slot: int)
    requires BucketOk(head, es, home, slot)
    ensures forall i, j :: 0 <= i < j < |es| ==> es[i] != es[j]
  {
  }

  lemma ViewUpdate<K, V>(c: seq<Chain<K, V>>, i: nat, es: Chain<K, V>)
    requires i < |c|
    ensures View(c[i := es]) == View(c)[i := ViewBucket(es)]
  {
    hide ViewBucket, View;
  }

  lemma BucketNil<K, V>(home: array<Entry?<K, V>>, slot: int)
    ensures BucketOk<K, V>(null, [], home, slot)
  {
  }

  lemma BucketEnd<K, V>(head: Entry?<K, V>, es: Chain<K, V>, home: object, slot: int)
    requires BucketOk(head, es, home, slot)
    ensures head == null <==> es == []
    ensures head == null <==> ViewBucket(es) == []
  {
  }

  lemma BucketCons<K, V>(e: Entry<K, V>, es: Chain<K, V>, home: object, slot: int)
    requires BucketOk(e.next, es, home, slot) && e !in es && e.home == home && e.slot == slot
    ensures BucketOk(e, [e] + es, home, slot)
    ensures ViewBucket([e] + es) == [(e.key, e.val)] + ViewBucket(es)
  {
    var f := [e] + es;
    assert f[1..] == es;
    assert forall j :: 0 < j < |f| ==> f[j] == es[j - 1];
  }

  lemma NotInBucket<K, V>(e: Entry<K, V>, head: Entry?<K, V>, es: Chain<K, V>, home: object, slot: int)
    requires BucketOk(head, es, home, slot) && (e.home != home || e.slot != slot)
    ensures e !in es
  {
  }

  /** The loop of _dictNextPower. */
  method NextPowerOf(size: nat) returns (r: nat)
    ensures r == NextPower(size)
  {
    var i := INITIAL_SIZE;
    if size >= LONG_MAX { return LONG_MAX; }
    while i < size
      invariant 0 < i && DoubleUntil(i, size) == DoubleUntil(INITIAL_SIZE, size)
      decreases size - i
    {
      i := i * 2;
    }
    return i;
  }

  lemma InBucket<K, V>(e: Entry<K, V>, head: Entry?<K, V>, es: Chain<K, V>, home: object, slot: int)
    requires BucketOk(head, es, home, slot) && e in es
    ensures e.home == home && e.slot == slot
  {
  }

  /** The links lead from `head` through es to `tail`. */
  ghost predicate Segment<K, V>(head: Entry?<K, V>, es: Chain<K, V>, tail: Entry?<K, V>, home: object, slot: int)
    reads es`next, es`home, es`slot
  {
    if es == [] then head == tail else
      head == es[0] && es[0].home == home && es[0].slot == slot && es[0] !in es[1..] &&
      Segment(es[0].next, es[1..], tail, home, slot)
  }

  predicate Apart<T(==)>(a: seq<T>, b: seq<T>) {
    forall e :: e in a ==> e !in b
  }

  lemma {:induction false} SegmentSplit<K, V>(head: Entry?<K, V>, es: Chain<K, V>, home: object, slot: int, j: nat)
    requires BucketOk(head, es, home, slot) && j < |es|
    ensures Segment(head, es[..j], es[j], home, slot) && BucketOk(es[j], es[j..], home, slot)
    ensures Apart(es[..j], es[j..])
  {
    hide BucketOk, ViewBucket;
    BucketEnd(head, es, home, slot);
    BucketFirst(head, es, home, slot);
    if j > 0 {
      SegmentSplit(head.next, es[1..], home, slot, j - 1);
      assert es[1..][..j - 1] == es[..j][1..] && es[1..][j - 1..] == es[j..];
      assert es[0] !in es[..j][1..] && es[0] !in es[j..];
    } else {
      assert es[0..] == es;
    }
  }

  lemma {:induction false} SegmentJoin<K, V>(head: Entry?<K, V>, a: Chain<K, V>, mid: Entry?<K, V>,
                                                b: Chain<K, V>, home: object, slot: int)
    requires Segment(head, a, mid, home, slot) && BucketOk(mid, b, home, slot) && Apart(a, b)
    ensures BucketOk(head, a + b, home, slot)
  {
    hide BucketOk, ViewBucket;
    if a == [] {
      assert a + b == b;
    } else {
      SegmentJoin(a[0].next, a[1..], mid, b, home, slot);
      BucketCons(a[0], a[1..] + b, home, slot);
      assert a + b == [a[0]] + (a[1..] + b);
    }
  }

  lemma ViewWithout<K, V>(es: Chain<K, V>, j: nat)
    requires j < |es|
    ensures ViewBucket(Removed(es, j)) == Removed(ViewBucket(es), j)
  {
    hide ViewBucket;
    var f := Removed(es, j);
    forall m | 0 <= m < |f| ensures ViewBucket(f)[m] == Removed(ViewBucket(es), j)[m] {
      assert f[m] == if m < j then es[m] else es[m + 1];
    }
  }

  lemma SkipFirst<K, V>(e: Entry<K, V>, es: Chain<K, V>, home: object, slot: int)
    requires BucketOk(e, es, home, slot)
    ensures BucketOk(e.next, Removed(es, 0), home, slot)
  {
    hide BucketOk;
    BucketFirst(e, es, home, slot);
    assert Removed(es, 0) == es[1..];
  }

  /** The parts of the chain around `prev`, and that they are apart. */
  lemma AroundPrev<K, V>(head: Entry<K, V>, es: Chain<K, V>, j: nat, home: object, slot: int)
    requires BucketOk(head, es, home, slot) && 0 < j < |es|
    ensures var prev := es[j - 1];
      && Segment(head, es[..j - 1], prev, home, slot) && BucketOk(es[j].next, es[j + 1..], home, slot)
      && prev.home == home && prev.slot == slot && prev != es[j] && prev !in es[..j - 1] && prev !in es[j + 1..]
    ensures Apart(es[..j - 1], [es[j - 1]] + es[j + 1..])
  {
    hide BucketOk, ViewBucket, Segment;
    var s := es[j - 1..];
    SegmentSplit(head, es, home, slot, j - 1);
    BucketFirst(es[j - 1], s, home, slot);
    BucketFirst(es[j], s[1..], home, slot);
    assert s[1..][1..] == s[2..] == es[j + 1..];
    assert es[j] == s[1..][0] && es[j - 1] in s;
    StillApart(es[..j - 1], s);
  }

  /** Makes `prev` skip the entry after it. */
  method SkipNext<K, V>(head: Entry<K, V>, he: Entry<K, V>, prev: Entry<K, V>, ghost es: Chain<K, V>, ghost j: nat,
                        ghost home: object, ghost slot: int)
    requires BucketOk(head, es, home, slot) && 0 < j < |es| && he == es[j] && prev == es[j - 1]
    modifies prev`next
    ensures BucketOk(head, Removed(es, j), home, slot) && he.next == old(he.next)
  {
    hide *;
    ghost var a, b := es[..j - 1], es[j + 1..];
    AroundPrev(head, es, j, home, slot);
    prev.next := he.next;
    BucketCons(prev, b, home, slot);
    SegmentJoin(head, a, prev, [prev] + b, home, slot);
    WithoutSplit(es, j);
  }

  /** Unlinks an entry: the link before it, or the bucket head, skips it. */
  method CutChain<K, V>(table: array<Entry?<K, V>>, idx: nat, he: Entry<K, V>, prev: Entry?<K, V>,
                        ghost es: Chain<K, V>, ghost j: nat)
    requires idx < table.Length && BucketOk(table[idx], es, table, idx)
    requires j < |es| && he == es[j] && prev == if j > 0 then es[j - 1] else null
    modifies table, (if prev == null then {} else {prev})`next
    ensures BucketOk(table[idx], Removed(es, j), table, idx)
    ensures forall i :: 0 <= i < table.Length && i != idx ==> table[i] == old(table[i])
    ensures he.next == old(he.next)
  {
    hide BucketOk, Removed;
    BucketEnd(table[idx], es, table, idx);
    BucketFirst(table[idx], es, table, idx);
    if prev != null {
      SkipNext(table[idx], he, prev, es, j, table, idx);
    } else {
      SkipFirst(he, es, table, idx);
      table[idx] := he.next;
    }
  }

  /** An entry of one bucket is in no other bucket of either table. */
  lemma NotShared<K, V>(table: array<Entry?<K, V>>, c: seq<Chain<K, V>>, other: array<Entry?<K, V>>,
                        d: seq<Chain<K, V>>, idx: nat, e: Entry<K, V>)
    requires BucketsOk(table, c, -1) && BucketsOk(other, d, -1) && table != other && idx < |c| && e in c[idx]
    ensures forall i :: 0 <= i < |c| && i != idx ==> e !in c[i]
    ensures forall i :: 0 <= i < |d| ==> e !in d[i]
  {
    hide BucketOk;
    InBucket(e, table[idx], c[idx], table, idx);
    forall i | 0 <= i < |c| && i != idx ensures e !in c[i] {
      NotInBucket(e, table[i], c[i], table, i);
    }
    forall i | 0 <= i < |d| ensures e !in d[i] {
      NotInBucket(e, other[i], d[i], other, i);
    }
  }

  lemma BucketsUpdated<K, V>(table: array<Entry?<K, V>>, c: seq<Chain<K, V>>, idx: nat, es: Chain<K, V>)
    requires BucketsOk(table, c, idx) && idx < |c| && BucketOk(table[idx], es, table, idx)
    ensures BucketsOk(table, c[idx := es], -1)
  {
    hide BucketOk;
  }

  lemma BucketsAt<K, V>(table: array<Entry?<K, V>>, c: seq<Chain<K, V>>, idx: nat)
    requires BucketsOk(table, c, -1) && idx < |c|
    ensures table.Length == |c| && BucketOk(table[idx], c[idx], table, idx) && BucketsOk(table, c, idx)
  {
    hide BucketOk;
  }

  lemma ViewCut<K, V>(c: seq<Chain<K, V>>, idx: nat, j: nat)
    requires idx < |c| && j < |c[idx]|
    ensures View(c[idx := Removed(c[idx], j)]) == View(c)[idx := Removed(View(c)[idx], j)]
  {
    hide ViewBucket, View, Removed;
    ViewUpdate(c, idx, Removed(c[idx], j));
    ViewWithout(c[idx], j);
  }

  ghost predicate Absent<K, V>(e: Entry<K, V>, c: seq<Chain<K, V>>) {
    forall j :: 0 <= j < |c| ==> e !in c[j]
  }

  lemma NotInNodes<K, V>(e: Entry<K, V>, c: seq<Chain<K, V>>)
    requires Absent(e, c)
    ensures e !in Nodes(c)
  {
  }

  lemma ViewPut<K, V>(c: seq<Chain<K, V>>, idx: nat, e: Entry<K, V>)
    requires idx < |c|
    ensures View(c[idx := [e] + c[idx]]) == View(c)[idx := [(e.key, e.val)] + View(c)[idx]]
  {
    hide View;
    ViewUpdate(c, idx, [e] + c[idx]);
    assert ([e] + c[idx])[1..] == c[idx];
  }

  /** Entry `e`, which is in no chain, goes to the front of bucket idx of one table. */
  method PutFirst<K, V>(table: array<Entry?<K, V>>, idx: nat, e: Entry<K, V>, ghost c: seq<Chain<K, V>>,
                        ghost other: array<Entry?<K, V>>, ghost d: seq<Chain<K, V>>, ghost skip: int)
    requires BucketsOk(table, c, -1) && BucketsOk(other, d, skip) && table != other && idx < |c|
    requires Absent(e, c) && Absent(e, d)
    modifies table, e`next, e`home, e`slot
    ensures BucketsOk(table, c[idx := [e] + c[idx]], -1) && BucketsOk(other, d, skip)
  {
    hide BucketOk, ViewBucket;
    NotInNodes(e, d);
    BucketsAt(table, c, idx);
    e.next := table[idx];
    table[idx] := e;
    e.home, e.slot := table, idx;
    BucketCons(e, c[idx], table, idx);
    BucketsUpdated(table, c, idx, [e] + c[idx]);
  }

  /** Unlinks entry j of the chain in bucket idx of one table; the other table shares no entry with it. */
  method CutBucket<K, V>(table: array<Entry?<K, V>>, idx: nat, he: Entry<K, V>, prev: Entry?<K, V>,
                         ghost c: seq<Chain<K, V>>, ghost j: nat,
                         ghost other: array<Entry?<K, V>>, ghost d: seq<Chain<K, V>>)
    requires BucketsOk(table, c, -1) && BucketsOk(other, d, -1) && table != other && idx < |c| && j < |c[idx]|
    requires he == c[idx][j] && prev == if j > 0 then c[idx][j - 1] else null
    modifies table, (if prev == null then {} else {prev})`next
    ensures BucketsOk(table, c[idx := Removed(c[idx], j)], -1) && BucketsOk(other, d, -1)
    ensures he.next == old(he.next)
  {
    hide BucketOk, Removed;
    if prev != null {
      NotShared(table, c, other, d, idx, prev);
    }
    BucketsAt(table, c, idx);
    CutChain(table, idx, he, prev, c[idx], j);
    BucketsUpdated(table, c, idx, Removed(c[idx], j));
  }

  lemma StillApart<T>(a: seq<T>, s: seq<T>)
    requires |s| >= 2 && Apart(a, s)
    ensures Apart(a, [s[0]] + s[2..])
  {
  }

  lemma WithoutSplit<T>(s: seq<T>, j: nat)
    requires 0 < j < |s|
    ensures Removed(s, j) == s[..j - 1] + ([s[j - 1]] + s[j + 1..])
  {
  }

  lemma ViewAfterStore<K, V>(es: Chain<K, V>, j: nat, before: Bucket<K, V>)
    requires |before| == |es| && j < |es|
    requires forall m :: 0 <= m < |es| && m != j ==> before[m] == (es[m].key, es[m].val)
    ensures ViewBucket(es) == before[j := (es[j].key, es[j].val)]
  {
  }

  class Dict<K(==,!new), V> {
    const hash: K -> nat
    var ht0: HashTable<K, V>
    var ht1: HashTable<K, V>
    var rehashidx: int
    var iterators: int
    ghost var c0: seq<Chain<K, V>>
    ghost var c1: seq<Chain<K, V>>

    ghost var nodes: set<Entry<K, V>>

    ghost predicate Linked()
      reads this
    {
      Within(c0, nodes) && Within(c1, nodes)
    }

    ghost function St(): State<K, V>
      requires Linked()
      reads this, nodes`val
    {
      State(View(c0), View(c1), rehashidx)
    }

    ghost function Repr(): set<object>
      reads this
    {
      {this, ht0.table, ht1.table} + nodes
    }

    lemma SelfInRepr()
      ensures this in Repr()
    {
    }

    /** The arrays and chains represent View(c0) and View(c1), apart from bucket `skip` of the old table. */
    ghost predicate Represents(skip: int)
      reads Repr()
    {
      && Linked() && Sized(ht0) && Sized(ht1) && ht0.table != ht1.table
      && BucketsOk(ht0.table, c0, skip) && BucketsOk(ht1.table, c1, -1)
      && ht0.used == Total(View(c0)) && ht1.used == Total(View(c1))
    }

    ghost predicate Valid()
      reads Repr()
    {
      Represents(-1) && Ok(hash, St())
    }

    /** The finite map this dictionary stands for. */
    ghost function Map(): map<K, V>
      requires Valid()
      reads Repr()
    {
      Model(hash, St())
    }

    lemma ValidBounds()
      requires Valid()
      ensures Linked() && ht0.size == |c0| && (rehashidx != -1 <==> |c1| > 0) && (rehashidx != -1 ==> |c0| > 0)
    {
    }

    lemma LinkedNow()
      requires Represents(-1)
      ensures Linked()
    {
    }

    lemma UsedIsTotal()
      requires Represents(-1)
      ensures Linked() && |St().t0| == |c0| && |St().t1| == |c1| && St().rehashidx == rehashidx
      ensures ht0.used == Total(St().t0)
    {
      hide Total, View;
    }

    lemma RehashingIs()
      requires Valid()
      ensures Linked() && Ok(hash, St()) && (St().Rehashing() <==> rehashidx != -1) && |St().t0| == |c0|
    {
      hide Ok, View;
    }

    constructor (hash: K -> nat)
      ensures Valid() && fresh(Repr()) && this.hash == hash && St() == State([], [], -1) && iterators == 0
    {
      var a := new Entry?<K, V>[0];
      var b := new Entry?<K, V>[0];
      this.hash := hash;
      ht0, ht1 := HashTable(a, 0, 0, 0), HashTable(b, 0, 0, 0);
      rehashidx, iterators := -1, 0;
      c0, c1, nodes := [], [], {};
      new;
    }

    /** Entry `de`, which no chain holds, goes to the front of bucket hs of the new table. */
    method PushFront(de: Entry<K, V>, hs: nat, ghost skip: int)
      requires Linked() && ht0.table != ht1.table && hs < |c1| && de in nodes
      requires BucketsOk(ht0.table, c0, skip) && BucketsOk(ht1.table, c1, -1)
      requires Absent(de, c0) && Absent(de, c1)
      modifies this`ht1, this`c1, ht1.table, de`next, de`home, de`slot
      ensures ht1 == old(ht1).(used := old(ht1.used) + 1)
      ensures c1 == old(c1)[hs := [de] + old(c1)[hs]] && Linked()
      ensures BucketsOk(ht0.table, c0, skip) && BucketsOk(ht1.table, c1, -1)
      ensures View(c0) == old(View(c0)) && View(c1) == old(View(c1))[hs := [(de.key, de.val)] + old(View(c1)[hs])]
    {
      hide BucketsOk, View;
      PutFirst(ht1.table, hs, de, c1, ht0.table, c0, skip);
      ViewPut(c1, hs, de);
      ht1 := ht1.(used := ht1.used + 1);
      c1 := c1[hs := [de] + c1[hs]];
    }

    /** What is known of the first entry of bucket i of the old table before it moves. */
    lemma HeadToMove(i: nat, de: Entry<K, V>)
      requires Represents(i) && i < |c0| && |c1| > 0 && BucketOk(de, c0[i], ht0.table, i)
      ensures Linked() && c0[i] != [] && de in nodes && de !in c0[i][1..] && BucketOk(de.next, c0[i][1..], ht0.table, i)
      ensures var c := c0[i := c0[i][1..]];
        BucketsOk(ht0.table, c, i) && Within(c, nodes) && Absent(de, c) && Absent(de, c1)
    {
      hide BucketOk, ViewBucket, Total, View;
      BucketFirst(de, c0[i], ht0.table, i);
      var c := c0[i := c0[i][1..]];
      forall j | 0 <= j < |c| ensures de !in c[j] {
        if j != i {
          NotInBucket(de, ht0.table[j], c0[j], ht0.table, j);
        }
      }
      forall j | 0 <= j < |c1| ensures de !in c1[j] {
        NotInBucket(de, ht1.table[j], c1[j], ht1.table, j);
      }
    }

    /** The same on values: the pair of the entry, its slot in the new table, and the two used counts. */
    lemma HeadOnValues(i: nat, de: Entry<K, V>)
      requires Represents(i) && i < |c0| && |c1| > 0 && PowerOfTwo(|c1|) && BucketOk(de, c0[i], ht0.table, i)
      ensures var b, hs := View(c0)[i], And(hash(de.key), ht1.sizemask);
        && b != [] && b[0] == (de.key, de.val) && View(c0[i := c0[i][1..]]) == View(c0)[i := b[1..]]
        && hs < |c1| && hs == Slot(hash, de.key, |c1|) && ht0.used > 0
        && Total(View(c0)[i := b[1..]]) == ht0.used - 1
        && Total(View(c1)[hs := [b[0]] + View(c1)[hs]]) == ht1.used + 1
    {
      hide BucketOk, ViewBucket, View, Total, PowerOfTwo, And, Slot;
      BucketFirst(de, c0[i], ht0.table, i);
      ViewUpdate(c0, i, c0[i][1..]);
      assert View(c0)[i][1..] == ViewBucket(c0[i][1..]);
      SlotByMask(hash, de.key, |c1|);
      var hs := And(hash(de.key), ht1.sizemask);
      TotalUpdate(View(c0), i, View(c0)[i][1..]);
      TotalUpdate(View(c1), hs, [(de.key, de.val)] + View(c1)[hs]);
    }

    /** One turn of the inner loop of dictRehash: entry `de`, the first of bucket i, moves to the new table. */
    method MoveHead(i: nat, de: Entry<K, V>) returns (nextde: Entry?<K, V>)
      requires Represents(i) && i < |c0| && |c1| > 0 && PowerOfTwo(|c1|)
      requires BucketOk(de, c0[i], ht0.table, i)
      modifies this`ht0, this`ht1, this`c0, this`c1, ht1.table, nodes
      ensures Represents(i) && |c0| == |old(c0)| && |c1| == |old(c1)| && BucketOk(nextde, c0[i], ht0.table, i)
      ensures ht0.table == old(ht0.table) && ht1.table == old(ht1.table)
      ensures old(View(c0)[i]) != [] && St() == MoveOne(hash, old(St()), i)
    {
      hide BucketOk, BucketsOk, Total, PowerOfTwo, View, Slot, Within, Absent, And;
      ghost var s, es := St(), c0[i];
      HeadToMove(i, de);
      HeadOnValues(i, de);
      nextde := de.next;
      var hs := And(hash(de.key), ht1.sizemask);
      ht0 := ht0.(used := ht0.used - 1);
      c0 := c0[i := es[1..]];
      PushFront(de, hs, i);
      assert View(c0) == s.t0[i := s.t0[i][1..]];
      assert View(c1) == s.t1[hs := [(de.key, de.val)] + s.t1[hs]];
    }

    /** Skips the empty buckets of the old table, which cannot lead outside of it. */
    method Scan()
      requires Valid() && St().Rehashing() && ht0.used > 0
      modifies this`rehashidx
      ensures Represents(-1) && rehashidx < |c0|
      ensures St() == old(St()).(rehashidx := FirstUsed(old(View(c0)), old(rehashidx)))
    {
      hide Ok, Total, View, ViewBucket, BucketOk;
      OkBounds(hash, St());
      ScanStaysInside(hash, St());
      while ht0.table[rehashidx] == null
        invariant old(rehashidx) <= rehashidx < |c0|
        invariant Represents(-1) && View(c0) == old(View(c0)) && View(c1) == old(View(c1))
        invariant FirstUsed(View(c0), rehashidx) == FirstUsed(old(View(c0)), old(rehashidx)) < |c0|
        decreases |c0| - rehashidx
      {
        BucketEnd(ht0.table[rehashidx], c0[rehashidx], ht0.table, rehashidx);
        ghost var s := St();
        rehashidx := rehashidx + 1;
        assert St() == s.(rehashidx := rehashidx);
      }
      BucketEnd(ht0.table[rehashidx], c0[rehashidx], ht0.table, rehashidx);
    }

    lemma BucketReady(i: nat)
      requires Represents(-1) && i < |c0|
      ensures Represents(i) && ht0.table.Length == |c0| && BucketOk(ht0.table[i], c0[i], ht0.table, i)
    {
      hide BucketOk, View, Total;
    }

    lemma BucketLeft(i: nat, de: Entry?<K, V>)
      requires Represents(i) && i < |c0| && BucketOk(de, c0[i], ht0.table, i)
      ensures Linked() && |St().t0| == |c0| && |St().t1| == |c1| && |St().t0[i]| == |c0[i]|
      ensures de == null <==> c0[i] == []
    {
      hide BucketOk, Total;
      BucketEnd(de, c0[i], ht0.table, i);
    }

    /** The two statements after the inner loop of dictRehash. */
    method LeaveBucket()
      requires 0 <= rehashidx < |c0| && Represents(rehashidx) && c0[rehashidx] == []
      modifies this`rehashidx, ht0.table
      ensures Represents(-1) && St() == old(St()).(rehashidx := old(rehashidx) + 1)
    {
      hide BucketOk, View, Total;
      BucketNil(ht0.table, rehashidx);
      ht0.table[rehashidx] := null;
      rehashidx := rehashidx + 1;
    }

    /** The inner loop of dictRehash and the two statements after it, for the bucket at rehashidx. */
    method DrainBucket()
      requires Represents(-1) && 0 <= rehashidx < |c0| && |c1| > 0 && PowerOfTwo(|c1|)
      modifies this, ht0.table, ht1.table, nodes
      ensures Represents(-1) && iterators == old(iterators) && nodes == old(nodes)
      ensures ht0.table == old(ht0.table) && ht1.table == old(ht1.table)
      ensures St() == Drain(hash, old(St()), old(rehashidx)).(rehashidx := old(rehashidx) + 1)
    {
      hide Represents, Linked, St, Drain, MoveOne, BucketOk, View, PowerOfTwo;
      ghost var i := rehashidx;
      BucketReady(i);
      BucketLeft(i, ht0.table[i]);
      ghost var goal := Drain(hash, St(), i);
      var de := ht0.table[rehashidx];
      while de != null
        invariant rehashidx == i < |c0| && |c1| > 0 && PowerOfTwo(|c1|)
        invariant nodes == old(nodes) && iterators == old(iterators)
        invariant ht0.table == old(ht0.table) && ht1.table == old(ht1.table)
        invariant Represents(i) && BucketOk(de, c0[i], ht0.table, i)
        invariant Linked() && |St().t0| == |c0| && |St().t1| == |c1| && Drain(hash, St(), i) == goal
        decreases |c0[i]|
      {
        ghost var s := St();
        BucketLeft(i, de);
        DrainOne(hash, s, i, s.t0[i]);
        de := MoveHead(rehashidx, de);
        BucketLeft(i, de);
      }
      BucketLeft(i, de);
      DrainDone(hash, St(), i);
      LeaveBucket();
    }

    /** The second table becomes the first one, and is reset. */
    method SwapTables()
      requires Represents(-1)
      modifies this`ht0, this`ht1, this`c0, this`c1, this`rehashidx
      ensures Represents(-1) && fresh(Repr() - old(Repr())) && St() == State(old(View(c1)), [], -1)
    {
      hide Total, View, BucketOk;
      ghost var t1 := View(c1);
      var none := new Entry?<K, V>[0];
      assert View(c1) == t1;
      ht0 := ht1;
      c0 := c1;
      c1 := [];
      ht1 := HashTable(none, 0, 0, 0);
      rehashidx := -1;
      TotalNil<K, V>();
      assert View(c0) == t1 && View(c1) == [];
    }

    /** The body of the outer loop of dictRehash. */
    method RehashOne() returns (finished: bool)
      requires Valid() && St().Rehashing()
      modifies Repr()
      ensures Valid() && iterators == old(iterators) && nodes == old(nodes) && fresh(Repr() - old(Repr()))
      ensures old(St().t1 != [] && 0 <= rehashidx <= |c0|) && St() == Step(hash, old(St()))
      ensures finished <==> !St().Rehashing()
    {
      hide Represents, Linked, Ok, Drain, View, FirstUsed, PowerOfTwo, Total;
      RehashingIs();
      UsedIsTotal();
      ghost var s := St();
      OkBounds(hash, s);
      StepKeeps(hash, s);
      if ht0.used == 0 {
        SwapTables();
        LinkedNow();
        return true;
      }
      ScanStaysInside(hash, s);
      Scan();
      UsedIsTotal();
      DrainBucket();
      UsedIsTotal();
      finished := false;
    }

    /** dictRehash(d, n): true while there is more to move. */
    method Rehash(n0: nat) returns (more: bool)
      requires Valid()
      modifies Repr()
      ensures Valid() && iterators == old(iterators) && nodes == old(nodes) && fresh(Repr() - old(Repr()))
      ensures St() == Steps(hash, old(St()), n0) && more == St().Rehashing()
    {
      hide Represents, Ok, Step, Steps, View, St, Linked;
      RehashingIs();
      StepsStep(hash, St(), n0);
      if rehashidx == -1 { return false; }
      var n := n0;
      while n > 0
        invariant 0 <= n && Valid() && Linked() && St().Rehashing()
        invariant iterators == old(iterators) && nodes == old(nodes) && fresh(Repr() - old(Repr()))
        invariant Steps(hash, St(), n) == Steps(hash, old(St()), n0)
      {
        StepsStep(hash, St(), n);
        n := n - 1;
        var finished := RehashOne();
        RehashingIs();
        StepsStep(hash, St(), n);
        if finished { return false; }
      }
      StepsStep(hash, St(), 0);
      more := true;
    }

    /** _dictRehashStep, as the operations call it: nothing happens while an iterator is at work. */
    method RehashStep()
      requires Valid()
      modifies Repr()
      ensures Valid() && iterators == old(iterators) && nodes == old(nodes) && fresh(Repr() - old(Repr()))
      ensures St() == AutoStep(hash, old(St()), iterators)
      ensures iterators != 0 ==>
        c0 == old(c0) && c1 == old(c1) && ht0 == old(ht0) && ht1 == old(ht1) && rehashidx == old(rehashidx)
      ensures iterators != 0 ==> forall e :: e in nodes ==> e.next == old(e.next) && e.val == old(e.val)
    {
      hide Ok, Step, View, BucketOk;
      OkBounds(hash, St());
      if iterators == 0 {
        var more := Rehash(1);
      }
    }

    /** Makes an empty array of `n` buckets the first table, or the target of a rehash. */
    method Install(table: array<Entry?<K, V>>, n: nat)
      requires Represents(-1) && 0 < n == table.Length && table !in Repr() && (ht0.size == 0 ==> c1 == [])
      requires forall i :: 0 <= i < n ==> table[i] == null
      modifies this`ht0, this`ht1, this`c0, this`c1, this`rehashidx
      ensures Represents(-1) && Repr() <= old(Repr()) + {table}
      ensures ht0.table == old(ht0.table) || old(ht0.size) == 0
      ensures St() == if old(St()).t0 == [] then State(Empties(n), old(St()).t1, old(rehashidx))
                      else State(old(St()).t0, Empties(n), 0)
    {
      hide Total, View, BucketOk;
      ghost var s := St();
      ghost var none: seq<Chain<K, V>> := seq(n, _ => []);
      EmptiesTotal<K, V>(n);
      NoChains(table, none);
      if ht0.size == 0 {
        ht0 := HashTable(table, n, n - 1, 0);
        c0 := none;
        assert View(c1) == s.t1 && View(c0) == Empties(n);
      } else {
        ht1 := HashTable(table, n, n - 1, 0);
        c1 := none;
        rehashidx := 0;
        assert View(c0) == s.t0 && View(c1) == Empties(n);
      }
    }

    method NewTable(n: nat) returns (table: array<Entry?<K, V>>)
      requires Valid()
      ensures Valid() && Linked() && St() == old(St()) && Repr() == old(Repr())
      ensures fresh(table) && table.Length == n && forall i :: 0 <= i < n ==> table[i] == null
    {
      hide Represents, Linked, St, Ok;
      ValidBounds();
      table := new Entry?<K, V>[n](_ => null);
      assert Repr() == old(Repr());
    }

    /** dictExpand: creates the first table, or a second one for an incremental rehash. */
    method ExpandTo(size: nat) returns (ok: bool)
      requires Valid() && size < LONG_MAX
      modifies this
      ensures Valid() && iterators == old(iterators) && nodes == old(nodes) && fresh(Repr() - old(Repr()))
      ensures (ok, St()) == Expand(old(St()), size)
      ensures ht0.table == old(ht0.table) || old(ht0.size) == 0
    {
      hide Represents, Linked, St, Ok, Total, PowerOfTwo, NextPower, SameGets;
      ValidBounds();
      RehashingIs();
      UsedIsTotal();
      ExpandKeeps(hash, St(), size);
      NextPowerLeast(size);
      var realsize := NextPowerOf(size);
      assert Repr() == old(Repr());
      if rehashidx != -1 || ht0.used > size { return false; }
      var n := NewTable(realsize);
      UsedIsTotal();
      Install(n, realsize);
      LinkedNow();
      ok := true;
    }

    /** _dictExpandIfNeeded */
    method ExpandWhenNeeded(canResize: bool) returns (ok: bool)
      requires Valid() && Small(St())
      modifies this
      ensures Valid() && iterators == old(iterators) && nodes == old(nodes) && fresh(Repr() - old(Repr()))
      ensures (ok, St()) == ExpandIfNeeded(old(St()), canResize) && |c0| > 0
      ensures ht0.table == old(ht0.table) || old(ht0.size) == 0
    {
      hide Ok, View, BucketOk;
      ExpandIfNeededKeeps(hash, St(), canResize);
      if rehashidx != -1 { return true; }
      if ht0.size == 0 {
        ok := ExpandTo(INITIAL_SIZE);
        return;
      }
      if ht0.used >= ht0.size && (canResize || ht0.used / ht0.size > FORCE_RESIZE_RATIO) {
        ok := ExpandTo((if ht0.size > ht0.used then ht0.size else ht0.used) * 2);
        return;
      }
      return true;
    }

    /** The chain walk every operation does: j is where it stops, prev the entry before it. */
    method Walk(head: Entry?<K, V>, key: K, ghost es: Chain<K, V>, ghost home: object, ghost slot: int)
      returns (he: Entry?<K, V>, prev: Entry?<K, V>, ghost j: nat)
      requires BucketOk(head, es, home, slot)
      ensures FirstAt(ViewBucket(es), key, j)
      ensures he == (if j < |es| then es[j] else null) && prev == (if j > 0 then es[j - 1] else null)
    {
      he, prev, j := head, null, 0;
      while he != null
        invariant j <= |es| && he == (if j < |es| then es[j] else null) && prev == (if j > 0 then es[j - 1] else null)
        invariant forall m :: 0 <= m < j ==> es[m].key != key
        decreases |es| - j
      {
        if he.key == key { return; }
        prev := he;
        he := he.next;
        j := j + 1;
      }
    }

    /** The search of one table: bucket index by mask, then the walk along its chain. */
    method Search(t: int, key: K) returns (he: Entry?<K, V>, prev: Entry?<K, V>, idx: nat, ghost j: nat)
      requires Valid() && (t == 0 || t == 1) && |Chains(t)| > 0
      ensures Valid() && St() == old(St())
      ensures idx < |Chains(t)| && idx == Slot(hash, key, |Chains(t)|)
      ensures FirstAt(ViewBucket(Chains(t)[idx]), key, j)
      ensures he == (if j < |Chains(t)[idx]| then Chains(t)[idx][j] else null)
      ensures prev == (if j > 0 then Chains(t)[idx][j - 1] else null)
      ensures TableGet(hash, View(Chains(t)), key) == if he == null then None else Some(he.val)
      ensures he != null ==> he in nodes && he.key == key
    {
      hide Represents, Ok, View, ViewBucket, BucketOk, FirstAt, Slot, And, TableGet, Chains, Linked, St;
      var ht := if t == 0 then ht0 else ht1;
      BucketOf(t, key);
      idx := And(hash(key), ht.sizemask);
      he, prev, j := Walk(ht.table[idx], key, Chains(t)[idx], ht.table, idx);
      assert Repr() == old(Repr());
      WalkEnded(t, key, idx, j);
    }

    /** The bucket that the mask selects is the one of the key. */
    lemma BucketOf(t: int, key: K)
      requires Valid() && (t == 0 || t == 1) && |Chains(t)| > 0
      ensures Linked()
      ensures var ht := if t == 0 then ht0 else ht1; var idx := And(hash(key), ht.sizemask);
        && idx == Slot(hash, key, |Chains(t)|) && idx < |Chains(t)| == ht.table.Length
        && BucketOk(ht.table[idx], Chains(t)[idx], ht.table, idx)
    {
      hide View, BucketOk, Total, Ok, And;
      OkSizes(hash, St());
      SlotByMask(hash, key, |Chains(t)|);
    }

    lemma WalkEnded(t: int, key: K, idx: nat, j: nat)
      requires Valid() && (t == 0 || t == 1) && idx < |Chains(t)| && idx == Slot(hash, key, |Chains(t)|)
      requires FirstAt(ViewBucket(Chains(t)[idx]), key, j)
      ensures var es := Chains(t)[idx];
        && TableGet(hash, View(Chains(t)), key) == (if j < |es| then Some(es[j].val) else None)
        && (j < |es| ==> es[j] in nodes && es[j].key == key)
    {
      hide View, BucketOk, Total, Ok;
      var es := Chains(t)[idx];
      if j < |es| {
        ScanResult(ViewBucket(es), key, j, es[j].val);
      } else {
        NoneFound(ViewBucket(es), key, j);
      }
    }

    ghost function Chains(t: int): seq<Chain<K, V>>
      reads this
    {
      if t == 0 then c0 else c1
    }

    lemma ChainsOf()
      ensures Chains(0) == c0 && Chains(1) == c1
    {
    }

    /** The loop over the two tables that lookup, insertion and deletion share. */
    method SearchBoth(key: K)
      returns (he: Entry?<K, V>, prev: Entry?<K, V>, table: int, idx: nat, ghost j: nat)
      requires Valid() && |c0| > 0
      ensures Valid()
      ensures (table == 0 || table == 1) && idx < |Chains(table)| && idx == Slot(hash, key, |Chains(table)|)
      ensures Get(hash, St(), key) == if he == null then None else Some(he.val)
      ensures he == null ==> table == if rehashidx != -1 then 1 else 0
      ensures he != null && table == 1 ==> TableGet(hash, St().t0, key).None?
      ensures he != null ==> he in nodes && he.key == key
      ensures FirstAt(ViewBucket(Chains(table)[idx]), key, j)
      ensures he == (if j < |Chains(table)[idx]| then Chains(table)[idx][j] else null)
      ensures prev == (if j > 0 then Chains(table)[idx][j - 1] else null)
    {
      hide *;
      ValidBounds();
      ChainsOf();
      GetOf(key);
      table := 0;
      he, prev, idx, j := Search(table, key);
      GetOf(key);
      if he == null && rehashidx != -1 {
        table := 1;
        he, prev, idx, j := Search(table, key);
        GetOf(key);
      }
    }

    /** A key is looked for in the first table, and then in the second one, if there is one. */
    lemma GetOf(key: K)
      requires Valid()
      ensures TableGet(hash, St().t0, key) == TableGet(hash, View(Chains(0)), key)
      ensures TableGet(hash, St().t0, key).Some? ==> Get(hash, St(), key) == TableGet(hash, St().t0, key)
      ensures TableGet(hash, St().t0, key).None? ==>
        Get(hash, St(), key) == if rehashidx == -1 then None else TableGet(hash, View(Chains(1)), key)
    {
      hide View, BucketOk, Slot, FindIn;
    }

    /** _dictKeyIndex: the bucket for a new entry, or -1 if the key exists. */
    method KeyIndex(key: K, canResize: bool) returns (index: int)
      requires Valid() && Small(St())
      modifies this
      ensures Valid() && iterators == old(iterators) && nodes == old(nodes) && fresh(Repr() - old(Repr()))
      ensures St() == ExpandIfNeeded(old(St()), canResize).1 && |c0| > 0
      ensures index == -1 <==> !ExpandIfNeeded(old(St()), canResize).0 || Get(hash, St(), key).Some?
      ensures index != -1 ==>
        (rehashidx != -1 <==> |c1| > 0) && index == Slot(hash, key, if rehashidx != -1 then |c1| else |c0|)
      ensures ht0.table == old(ht0.table) || old(ht0.size) == 0
    {
      hide *;
      var ok := ExpandWhenNeeded(canResize);
      if !ok { return -1; }
      ValidBounds();
      ChainsOf();
      var he, prev, table, idx, j := SearchBoth(key);
      if he != null { return -1; }
      index := idx;
    }

    /** The same for the first table. */
    method PushFront0(e: Entry<K, V>, idx: nat)
      requires Linked() && ht0.table != ht1.table && idx < |c0| && e in nodes
      requires BucketsOk(ht0.table, c0, -1) && BucketsOk(ht1.table, c1, -1)
      requires Absent(e, c0) && Absent(e, c1)
      modifies this`ht0, this`c0, ht0.table, e`next, e`home, e`slot
      ensures ht0 == old(ht0).(used := old(ht0.used) + 1)
      ensures c0 == old(c0)[idx := [e] + old(c0)[idx]] && Linked()
      ensures BucketsOk(ht0.table, c0, -1) && BucketsOk(ht1.table, c1, -1)
      ensures View(c1) == old(View(c1)) && View(c0) == old(View(c0))[idx := [(e.key, e.val)] + old(View(c0)[idx])]
    {
      hide BucketsOk, View;
      PutFirst(ht0.table, idx, e, c0, ht1.table, c1, -1);
      ViewPut(c0, idx, e);
      ht0 := ht0.(used := ht0.used + 1);
      c0 := c0[idx := [e] + c0[idx]];
    }

    /** An entry that belongs to the dictionary, but is in no chain yet. */
    method NewEntry(key: K, val: V, ghost slot: nat) returns (entry: Entry<K, V>)
      requires Represents(-1)
      modifies this`nodes
      ensures Represents(-1) && Linked() && St() == old(St())
      ensures fresh(entry) && nodes == old(nodes) + {entry} && entry.key == key && entry.val == val
      ensures Absent(entry, c0) && Absent(entry, c1)
    {
      hide BucketOk, View, Total, Within, Absent;
      entry := new Entry(key, val, null, this, slot);
      assert View(c0) == old(View(c0)) && View(c1) == old(View(c1));
      NewNode(entry, c0, nodes);
      NewNode(entry, c1, nodes);
      nodes := nodes + {entry};
    }

    /** The allocation and linking part of dictAdd. */
    method Link(key: K, val: V, idx: nat)
      requires Represents(-1) && |c0| > 0 && (rehashidx != -1 <==> |c1| > 0)
      requires idx == Slot(hash, key, if rehashidx != -1 then |c1| else |c0|)
      modifies this, ht0.table, ht1.table
      ensures Represents(-1) && iterators == old(iterators) && fresh(Repr() - old(Repr()))
      ensures St() == Insert(hash, old(St()), key, val)
    {
      hide BucketsOk, View, Total, Within, Absent, Slot;
      ghost var s := St();
      var entry := NewEntry(key, val, idx);
      assert View(c0) == s.t0 && View(c1) == s.t1;
      if rehashidx != -1 {
        TotalUpdate(s.t1, idx, [(key, val)] + s.t1[idx]);
        PushFront(entry, idx, -1);
        assert View(c1) == s.t1[idx := [(key, val)] + s.t1[idx]] && View(c0) == s.t0;
      } else {
        TotalUpdate(s.t0, idx, [(key, val)] + s.t0[idx]);
        PushFront0(entry, idx);
        assert View(c0) == s.t0[idx := [(key, val)] + s.t0[idx]] && View(c1) == s.t1;
      }
    }

    lemma NewNode(e: Entry<K, V>, c: seq<Chain<K, V>>, before: set<Entry<K, V>>)
      requires Within(c, before) && e !in before
      ensures Absent(e, c) && Within(c, before + {e})
    {
    }

    /** dictAdd */
    method Add(key: K, val: V, canResize: bool) returns (ok: bool)
      requires Valid() && Small(St())
      modifies Repr()
      ensures Valid() && iterators == old(iterators) && fresh(Repr() - old(Repr()))
      ensures (ok, St()) == DictOps.Add(hash, old(St()), key, val, iterators, canResize)
      ensures (ok <==> key !in old(Map())) && Map() == if ok then old(Map())[key := val] else old(Map())
    {
      hide Represents, Linked, St, Model, Ok, AutoStep, ExpandIfNeeded, DictOps.Add, Insert, View, Slot, Get, Small;
      ValidBounds();
      ghost var s := St();
      AddSteps(hash, s, key, val, iterators, canResize);
      AddModel(hash, s, key, val, iterators, canResize);
      RehashStep();
      ValidBounds();
      var index := KeyIndex(key, canResize);
      ValidBounds();
      if index == -1 { return false; }
      Link(key, val, index);
      LinkedNow();
      ok := true;
    }


    /** Where an entry with this key is, if there is one. */
    ghost predicate Located(he: Entry?<K, V>, key: K, t: int, idx: nat, j: nat)
      reads this, nodes
    {
      he != null ==>
        && he in nodes && he.key == key && (t == 0 || t == 1)
        && idx < |Chains(t)| && j < |Chains(t)[idx]| && he == Chains(t)[idx][j]
    }

    lemma LocatedKey(he: Entry?<K, V>, key: K, t: int, idx: nat, j: nat)
      requires Located(he, key, t, idx, j)
      ensures he != null ==> he.key == key && he in nodes && Located(he, he.key, t, idx, j)
    {
    }

    method Lookup(key: K) returns (he: Entry?<K, V>, ghost t: int, ghost idx: nat, ghost j: nat)
      requires Valid() && |c0| > 0
      ensures Valid() && St() == old(St())
      ensures Get(hash, St(), key) == if he == null then None else Some(he.val)
      ensures Located(he, key, t, idx, j)
    {
      hide View, BucketOk, Ok, Total, ViewBucket, FirstAt, Slot, Get, TableGet;
      var prev, table, i;
      he, prev, table, i, j := SearchBoth(key);
      t, idx := table, i;
      assert View(c0) == old(View(c0)) && View(c1) == old(View(c1));
    }

    /** dictFind: the entry, or null. The map is untouched, but the tables may move on. */
    method Find(key: K) returns (he: Entry?<K, V>, ghost t: int, ghost idx: nat, ghost j: nat)
      requires Valid()
      modifies Repr()
      ensures Valid() && iterators == old(iterators) && nodes == old(nodes) && fresh(Repr() - old(Repr()))
      ensures St() == AfterFind(hash, old(St()), iterators)
      ensures Get(hash, old(St()), key) == if he == null then None else Some(he.val)
      ensures Located(he, key, t, idx, j)
      ensures iterators != 0 ==> c0 == old(c0) && c1 == old(c1) && rehashidx == old(rehashidx)
      ensures Map() == old(Map())
    {
      hide Model, Ok, AutoStep, BucketOk, Total, View, Slot, Represents;
      t, idx, j := 0, 0, 0;
      ValidBounds();
      ghost var s := St();
      if ht0.size == 0 {
        return null, t, idx, j;
      }
      AutoStepKeeps(hash, s, iterators);
      SameModel(hash, s, AutoStep(hash, s, iterators));
      RehashStep();
      ValidBounds();
      he, t, idx, j := Lookup(key);
      assert View(c0) == AutoStep(hash, s, iterators).t0 && View(c1) == AutoStep(hash, s, iterators).t1;
    }

    /** The store into one entry, seen on the chains: one pair changes its value. */
    method StoreVal(he: Entry<K, V>, val: V, ghost t: int, ghost idx: nat, ghost j: nat)
      requires Linked() && BucketsOk(ht0.table, c0, -1) && BucketsOk(ht1.table, c1, -1) && ht0.table != ht1.table
      requires Located(he, he.key, t, idx, j)
      modifies he`val
      ensures BucketsOk(ht0.table, c0, -1) && BucketsOk(ht1.table, c1, -1)
      ensures View(Chains(t)) == old(View(Chains(t)))[idx := old(View(Chains(t))[idx])[j := (he.key, val)]]
      ensures View(Chains(1 - t)) == old(View(Chains(1 - t)))
    {
      hide BucketOk, View, ViewBucket;
      ghost var es, table := Chains(t)[idx], (if t == 0 then ht0 else ht1).table;
      if t == 0 {
        NotShared(ht0.table, c0, ht1.table, c1, idx, he);
      } else {
        NotShared(ht1.table, c1, ht0.table, c0, idx, he);
      }
      BucketDistinct(table[idx], es, table, idx);
      ghost var before := ViewBucket(es);
      he.val := val;
      ViewAfterStore(es, j, before);
    }

    /** Stores a value in an entry that was found. */
    method SetValAt(he: Entry<K, V>, val: V, ghost t: int, ghost idx: nat, ghost j: nat)
      requires Valid() && Located(he, he.key, t, idx, j)
      modifies he`val
      ensures Valid() && St() == SetVal(hash, old(St()), he.key, val)
    {
      hide Model, Ok, BucketsOk, Total, View, ViewBucket, Slot, FirstAt, SetVal, Get, TableGet;
      ghost var s := St();
      StoredAt(hash, s, t, idx, j, val);
      SetValModel(hash, s, he.key, val);
      SetValTotals(hash, s, he.key, val);
      StoreVal(he, val, t, idx, j);
      assert View(c0) == SetVal(hash, s, he.key, val).t0;
      assert View(c1) == SetVal(hash, s, he.key, val).t1;
    }

    lemma WithinWithout(c: seq<Chain<K, V>>, nodes: set<Entry<K, V>>, idx: nat, j: nat)
      requires Within(c, nodes) && idx < |c| && j < |c[idx]|
      ensures |Removed(c[idx], j)| == |c[idx]| - 1 && Within(c[idx := Removed(c[idx], j)], nodes)
      ensures forall e :: e in c[idx] ==> e in nodes
    {
    }

    /** Unlinks entry j of the chain in bucket idx of the first table. */
    method UnlinkOld(idx: nat, he: Entry<K, V>, prev: Entry?<K, V>, ghost j: nat)
      requires Represents(-1) && idx < |c0| && j < |c0[idx]|
      requires he == c0[idx][j] && prev == if j > 0 then c0[idx][j - 1] else null
      modifies this`ht0, this`c0, ht0.table, nodes`next
      ensures Represents(-1) && ht0 == old(ht0).(used := ht0.used) && he.next == old(he.next)
      ensures c0 == old(c0)[idx := Removed(old(c0[idx]), j)]
      ensures View(c0) == old(View(c0))[idx := Removed(old(View(c0)[idx]), j)] && View(c1) == old(View(c1))
    {
      hide BucketsOk, ViewBucket, View, Total, Removed, Within;
      ghost var vs := View(c0);
      TotalUpdate(vs, idx, Removed(vs[idx], j));
      WithinWithout(c0, nodes, idx, j);
      CutBucket(ht0.table, idx, he, prev, c0, j, ht1.table, c1);
      ViewCut(c0, idx, j);
      ht0 := ht0.(used := ht0.used - 1);
      c0 := c0[idx := Removed(c0[idx], j)];
      assert View(c0) == vs[idx := Removed(vs[idx], j)] && View(c1) == old(View(c1));
    }

    /** Unlinks entry j of the chain in bucket idx of the second table. */
    method UnlinkNew(idx: nat, he: Entry<K, V>, prev: Entry?<K, V>, ghost j: nat)
      requires Represents(-1) && idx < |c1| && j < |c1[idx]|
      requires he == c1[idx][j] && prev == if j > 0 then c1[idx][j - 1] else null
      modifies this`ht1, this`c1, ht1.table, nodes`next
      ensures Represents(-1) && ht1 == old(ht1).(used := ht1.used) && he.next == old(he.next)
      ensures c1 == old(c1)[idx := Removed(old(c1[idx]), j)]
      ensures View(c1) == old(View(c1))[idx := Removed(old(View(c1)[idx]), j)] && View(c0) == old(View(c0))
    {
      hide BucketsOk, ViewBucket, View, Total, Removed, Within;
      ghost var vs := View(c1);
      TotalUpdate(vs, idx, Removed(vs[idx], j));
      WithinWithout(c1, nodes, idx, j);
      CutBucket(ht1.table, idx, he, prev, c1, j, ht0.table, c0);
      ViewCut(c1, idx, j);
      ht1 := ht1.(used := ht1.used - 1);
      c1 := c1[idx := Removed(c1[idx], j)];
      assert View(c1) == vs[idx := Removed(vs[idx], j)] && View(c0) == old(View(c0));
    }

    /** A deletion while an iterator is at work: one entry leaves one chain, nothing else moves. */
    ghost predicate OneLess(before0: seq<Chain<K, V>>, before1: seq<Chain<K, V>>, t: int, idx: nat, j: nat)
      reads this
    {
      if t == 0 then idx < |before0| && j < |before0[idx]| && c0 == before0[idx := Removed(before0[idx], j)] &&
        c1 == before1
      else idx < |before1| && j < |before1[idx]| && c1 == before1[idx := Removed(before1[idx], j)] && c0 == before0
    }

    /** dictGenericDelete: removes the key from whichever table holds it. */
    method Delete(key: K) returns (ok: bool, ghost t: int, ghost idx: nat, ghost j: nat)
      requires Valid()
      modifies Repr()
      ensures Valid() && iterators == old(iterators) && nodes == old(nodes) && fresh(Repr() - old(Repr()))
      ensures (ok, St()) == DictOps.Delete(hash, old(St()), key, iterators)
      ensures iterators != 0 ==> rehashidx == old(rehashidx) && if ok then OneLess(old(c0), old(c1), t, idx, j)
                                                                 else c0 == old(c0) && c1 == old(c1)
      ensures iterators != 0 && ok ==> (t == 0 || t == 1) && (if t == 0 then old(c0) else old(c1))[idx][j].key == key
      ensures (ok <==> key in old(Map())) && Map() == old(Map()) - {key}
    {
      hide Represents, Linked, St, Model, Ok, AutoStep, View, Get, Unlink, OneLess;
      t, idx, j := 0, 0, 0;
      ValidBounds();
      RehashingIs();
      ghost var s := St();
      DeleteModel(hash, s, key, iterators);
      if ht0.size == 0 { return false, t, idx, j; }
      AutoStepKeeps(hash, s, iterators);
      RehashStep();
      RehashingIs();
      ok, t, idx, j := DeleteNow(key);
      RehashingIs();
    }

    /** The search and the unlinking of dictGenericDelete. */
    method DeleteNow(key: K) returns (ok: bool, ghost t: int, ghost idx: nat, ghost j: nat)
      requires Valid() && |c0| > 0
      modifies this`ht0, this`ht1, this`c0, this`c1, ht0.table, ht1.table, nodes`next
      ensures Valid() && Repr() == old(Repr())
      ensures ok == Get(hash, old(St()), key).Some? && St() == Unlink(hash, old(St()), key)
      ensures if ok then (t == 0 || t == 1) && OneLess(old(c0), old(c1), t, idx, j) &&
        (if t == 0 then old(c0) else old(c1))[idx][j].key == key
              else c0 == old(c0) && c1 == old(c1)
    {
      hide Model, Ok, BucketOk, View, Total, ViewBucket, Slot, FirstAt, Unlink, Removed, TableGet;
      ghost var s := St();
      UnlinkModel(hash, s, key);
      var he, prev, table, i;
      he, prev, table, i, j := SearchBoth(key);
      t, idx := table, i;
      assert View(c0) == s.t0 && View(c1) == s.t1;
      UnlinkWhere(hash, s, key, table, i, j);
      if he == null { return false, t, idx, j; }
      if table == 0 {
        UnlinkOld(i, he, prev, j);
      } else {
        UnlinkNew(i, he, prev, j);
      }
      assert View(c0) == Unlink(hash, s, key).t0;
      assert View(c1) == Unlink(hash, s, key).t1;
      ok := true;
    }

    /** dictReplace */
    method Replace(key: K, val: V, canResize: bool) returns (added: bool)
      requires Valid() && Small(St())
      modifies Repr()
      ensures Valid() && iterators == old(iterators) && fresh(Repr() - old(Repr()))
      ensures (added, St()) == DictOps.Replace(hash, old(St()), key, val, iterators, canResize)
      ensures (added <==> key !in old(Map())) && Map() == old(Map())[key := val]
    {
      hide Represents, Linked, St, Model, Ok, AutoStep, DictOps.Add, SetVal, View, Get, Small, Located;
      ValidBounds();
      ghost var s := St();
      AddModel(hash, s, key, val, iterators, canResize);
      ReplaceModel(hash, s, key, val, iterators, canResize);
      AddPresent(hash, s, key, val, iterators, canResize);
      added := Add(key, val, canResize);
      if added { return; }
      ValidBounds();
      var he;
      ghost var t, idx, j;
      he, t, idx, j := Find(key);
      LocatedKey(he, key, t, idx, j);
      ValidBounds();
      SetValAt(he, val, t, idx, j);
      ValidBounds();
    }

    /** dictResize */
    method Resize(canResize: bool) returns (ok: bool)
      requires Valid()
      modifies this
      ensures Valid() && iterators == old(iterators) && nodes == old(nodes) && fresh(Repr() - old(Repr()))
      ensures (ok, St()) == DictOps.Resize(old(St()), canResize)
    {
      hide Represents, Linked, St, Ok, View, Total, Small, Expand;
      RehashingIs();
      UsedIsTotal();
      if !canResize || rehashidx != -1 { return false; }
      var minimal := ToInt32(ht0.used);
      if minimal < INITIAL_SIZE {
        minimal := INITIAL_SIZE;
      }
      ok := ExpandTo(minimal);
    }

    /** The iterator count alone goes up or down. */
    method AdjustIterators(delta: int)
      requires Valid()
      modifies this`iterators
      ensures Valid() && iterators == old(iterators) + delta && St() == old(St()) && Map() == old(Map())
    {
      hide View, BucketOk, Ok, Total;
      iterators := iterators + delta;
      assert View(c0) == old(View(c0)) && View(c1) == old(View(c1));
    }

    /** Bucket i of table t starts at the array's entry. */
    lemma HeadOf(t: int, i: nat)
      requires Valid() && (t == 0 || t == 1) && i < |Chains(t)|
      ensures i < (if t == 0 then ht0 else ht1).table.Length
      ensures (if t == 0 then ht0 else ht1).table[i] == if Chains(t)[i] == [] then null else Chains(t)[i][0]
    {
      BucketEnd((if t == 0 then ht0 else ht1).table[i], Chains(t)[i], (if t == 0 then ht0 else ht1).table, i);
    }

    /** The link of an entry leads to the next one of its chain. */
    lemma NextOf(t: int, i: nat, j: nat)
      requires Valid() && (t == 0 || t == 1) && i < |Chains(t)| && j < |Chains(t)[i]|
      ensures Chains(t)[i][j].next == if j + 1 < |Chains(t)[i]| then Chains(t)[i][j + 1] else null
    {
      assert BucketOk((if t == 0 then ht0 else ht1).table[i], Chains(t)[i], (if t == 0 then ht0 else ht1).table, i);
    }

    lemma StoredKey(t: int, idx: nat, j: nat)
      requires Valid() && (t == 0 || t == 1) && idx < |Chains(t)| && j < |Chains(t)[idx]|
      ensures Chains(t)[idx][j].key in Map() && Linked() && Ok(hash, St())
    {
      hide Ok, BucketsOk, ViewBucket, Total, Model;
      StoredAt(hash, St(), t, idx, j, Chains(t)[idx][j].val);
      ModelIsGet(hash, St(), Chains(t)[idx][j].key);
    }

    /** Deleting a key whose place is known, with an iterator at work, empties exactly that place. */
    method DeleteStored(key: K, ghost t0: int, ghost i0: nat, ghost j0: nat)
      requires Valid() && iterators != 0 && (t0 == 0 || t0 == 1)
      requires i0 < |Chains(t0)| && j0 < |Chains(t0)[i0]| && Chains(t0)[i0][j0].key == key
      modifies Repr()
      ensures Valid() && iterators == old(iterators) && rehashidx == old(rehashidx) && fresh(Repr() - old(Repr()))
      ensures OneLess(old(c0), old(c1), t0, i0, j0) && Map() == old(Map()) - {key}
    {
      hide Valid, Map, Removed, ViewBucket, View, Ok;
      StoredKey(t0, i0, j0);
      ghost var s := St();
      var ok;
      ghost var t, idx, j;
      ok, t, idx, j := Delete(key);
      OnePlace(hash, s, t0, i0, j0, t, idx, j);
    }

    lemma TableSizes()
      requires Valid()
      ensures ht0.size == |c0| && ht1.size == |c1| && (rehashidx != -1 <==> c1 != [])
    {
    }
  }
}
