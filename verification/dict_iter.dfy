/** The dictionary iterator: it yields every entry once, across both tables, while lookups and deletions of the entry
    just returned go on between its steps. */
module DictIterators {
  import opened Bytes
  import opened DictSpec
  import opened Sequences
  import opened DictOps
  import opened Dicts

  /** The entries of the chains from bucket i on, in order. */
  ghost function FlatFrom<K, V>(c: seq<Chain<K, V>>, i: int): Chain<K, V>
    decreases |c| - i
  {
    if i < 0 || i >= |c| then [] else c[i] + FlatFrom(c, i + 1)
  }

  /** Everything stored, in iteration order. */
  ghost function AllEntries<K(!new), V>(d: Dict<K, V>): Chain<K, V>
    reads d
  {
    FlatFrom(d.c0, 0) + FlatFrom(d.c1, 0)
  }

  lemma FlatStep<K, V>(c: seq<Chain<K, V>>, i: int)
    ensures FlatFrom(c, i) == if 0 <= i < |c| then c[i] + FlatFrom(c, i + 1) else []
  {
  }

  /** Taking the first element out of the first of three concatenated parts. */
  lemma TakeFirst<T>(s: seq<T>, f: seq<T>, g: seq<T>)
    ensures s == [] ==> [] + ([] + f + g) == s + f + g
    ensures s != [] ==> [s[0]] + (s[1..] + f + g) == s + f + g
  {
  }

  lemma SuffixTail<T>(s: seq<T>)
    ensures s != [] ==> EndsWith(s[0], s[1..], s)
  {
  }

  lemma SuffixNext<T>(s: seq<T>, t: seq<T>)
    requires IsSuffix(s, t)
    ensures s != [] ==> EndsWith(s[0], s[1..], t)
  {
  }

  class Iterator<K(==,!new), V> {
    const d: Dict<K, V>
    var table: int
    var index: int
    var entry: Entry?<K, V>
    var nextEntry: Entry?<K, V>
    /** The part of the current chain that comes after `entry`. */
    ghost var rest: Chain<K, V>

    constructor (d: Dict<K, V>)
      requires d.iterators >= 0
      ensures this.d == d && table == 0 && index == -1 && entry == null && Pending() == AllEntries(d) && Valid()
    {
      this.d := d;
      table, index, entry, nextEntry, rest := 0, -1, null, null, [];
    }

    /** The chains stay where they are. */
    twostate predicate Unmoved()
      reads this, d
    {
      d.c0 == old(d.c0) && d.c1 == old(d.c1) && d.rehashidx == old(d.rehashidx) && d.nodes == old(d.nodes)
    }

    /** Whether dictNext has been called. */
    ghost predicate Started()
      reads this
    {
      !(index == -1 && table == 0)
    }

    ghost predicate Valid()
      reads this, d
    {
      && this !in d.Repr() && (table == 0 || (table == 1 && d.rehashidx != -1)) && -1 <= index &&
        (table == 1 ==> 0 <= index)
      && d.iterators >= (if Started() then 1 else 0)
      && (entry == null ==> rest == [])
      && (entry != null ==>
            && 0 <= index < |d.Chains(table)| && IsSuffix(rest, d.Chains(table)[index])
            && nextEntry == if rest == [] then null else rest[0])
    }

    /** What is still to be returned. */
    ghost function Pending(): Chain<K, V>
      reads this, d
    {
      rest + FlatFrom(d.Chains(table), index + 1) + (if table == 0 then FlatFrom(d.c1, 0) else [])
    }

    /** Everything still to come when `entry` itself has not been handed out yet. */
    ghost function Upcoming(): Chain<K, V>
      reads this, d
    {
      (if entry == null then [] else [entry]) + Pending()
    }

    /** `entry` and what follows it end the current chain. */
    ghost predicate AtEntry()
      reads this, d
    {
      && this !in d.Repr() && (table == 0 || (table == 1 && d.rehashidx != -1)) && 0 <= index && Started()
      && (entry == null ==> rest == [])
      && (entry != null ==> index < |d.Chains(table)| && EndsWith<Entry<K, V>>(entry, rest, d.Chains(table)[index]))
    }

    /** Where dictNext looks next: one index further, or in the second table when the first is exhausted. */
    method NextSlot() returns (done: bool, t: int, i: int)
      requires Valid() && d.Valid()
      modifies d`iterators
      ensures d.Valid() && d.iterators == old(d.iterators) + (if Started() then 0 else 1) && d.Repr() == old(d.Repr())
      ensures d.Map() == old(d.Map())
      ensures if done then t == table && i == index + 1 && |d.Chains(t)| <= i && FlatFrom(d.Chains(t), i) == [] &&
        (t == 0 ==> d.c1 == [])
              else && (t == 0 || (t == 1 && d.rehashidx != -1)) && 0 <= i < |d.Chains(t)| && (t == 1 || table == 0)
                   && ((t == table && i == index + 1) ||
                     (t == 1 && table == 0 && i == 0 && FlatFrom(d.c0, index + 1) == []))
    {
      hide Dict.Valid, Dict.Map, FlatFrom;
      d.TableSizes();
      t, i := table, index;
      if i == -1 && t == 0 { d.AdjustIterators(1); }
      i := i + 1;
      FlatStep(d.Chains(t), i);
      if i >= (if t == 0 then d.ht0 else d.ht1).size {
        if d.rehashidx != -1 && t == 0 {
          t := t + 1;
          i := 0;
        } else {
          return true, t, i;
        }
      }
      done := false;
    }

    /** Positions the iterator on bucket i of table t. */
    method Enter(t: int, i: int)
      requires Valid() && d.Valid() && entry == null && d.iterators > 0
      requires (t == 0 || (t == 1 && d.rehashidx != -1)) && 0 <= i < |d.Chains(t)|
      requires Pending() == FlatFrom(d.Chains(t), i) + (if t == 0 then FlatFrom(d.c1, 0) else [])
      modifies this
      ensures AtEntry() && Upcoming() == old(Pending()) && table == t && index == i
      ensures d.Valid() && d.Map() == old(d.Map())
    {
      hide Dict.Valid, Dict.Map, FlatFrom, EndsWith, IsSuffix;
      d.HeadOf(t, i);
      FlatStep(d.Chains(t), i);
      ghost var es := d.Chains(t)[i];
      SuffixTail(es);
      TakeFirst(es, FlatFrom(d.Chains(t), i + 1), if t == 0 then FlatFrom(d.c1, 0) else []);
      table, index, entry := t, i, (if t == 0 then d.ht0 else d.ht1).table[i];
      rest := if es == [] then [] else es[1..];
    }

    /** The branch of dictNext that opens the next bucket. */
    method NextBucket() returns (done: bool)
      requires Valid() && d.Valid() && entry == null
      modifies this, d`iterators
      ensures d.Valid() && d.iterators == old(d.iterators) + (if old(Started()) then 0 else 1) && Unmoved()
      ensures d.Map() == old(d.Map())
      ensures if done then old(Pending()) == [] && Pending() == [] && Valid() && Started() && entry == null
              else AtEntry() && d.iterators > 0 && Upcoming() == old(Pending())
      ensures !done ==> old(table) < table || (table == old(table) && index == old(index) + 1 <= |d.Chains(table)|)
    {
      hide Dict.Valid, Dict.Map, FlatFrom, Iterator.AtEntry, Iterator.Upcoming;
      var t, i;
      done, t, i := NextSlot();
      if done {
        FlatStep(d.Chains(t), i + 1);
        FlatStep(d.c1, 0);
        index := i;
        return;
      }
      Enter(t, i);
    }

    /** The branch that follows the saved link. */
    method FollowChain()
      requires Valid() && d.Valid() && entry != null
      modifies this`entry, this`rest
      ensures d.Valid() && d.Map() == old(d.Map())
      ensures AtEntry() && Upcoming() == old(Pending()) && table == old(table) && index == old(index)
    {
      hide Dict.Valid, Dict.Map, FlatFrom, EndsWith;
      SuffixNext(rest, d.Chains(table)[index]);
      TakeFirst(rest, FlatFrom(d.Chains(table), index + 1), if table == 0 then FlatFrom(d.c1, 0) else []);
      entry := nextEntry;
      rest := if entry == null then [] else rest[1..];
    }

    /** One turn of the loop of dictNext, up to the test on the entry. */
    method Turn() returns (done: bool)
      requires Valid() && d.Valid()
      modifies this, d`iterators
      ensures d.Valid() && d.iterators == old(d.iterators) + (if old(Started()) then 0 else 1) && Unmoved()
      ensures d.Map() == old(d.Map()) && d.iterators > 0
      ensures if done then old(Pending()) == [] && Pending() == [] && Valid() && Started() && entry == null
              else AtEntry() && Upcoming() == old(Pending())
      ensures !done ==> old(table) < table || (table == old(table) && old(index) < index <= |d.Chains(table)|)
                        || (table == old(table) && index == old(index) && old(entry) != null)
    {
      hide Dict.Valid, Dict.Map, FlatFrom, Iterator.AtEntry, Iterator.Upcoming, Iterator.Pending;
      done := false;
      if entry == null {
        done := NextBucket();
      } else {
        FollowChain();
      }
    }

    /** Saves the link of the entry before the caller can delete the entry. */
    method SaveNext()
      requires AtEntry() && d.Valid() && d.iterators > 0
      modifies this`nextEntry
      ensures Valid() && (if entry == null then [] else [entry]) + Pending() == old(Upcoming()) && AtEntry()
      ensures d.Valid() && d.Map() == old(d.Map())
    {
      hide Dict.Valid, Dict.Map, FlatFrom;
      if entry != null {
        d.NextOf(table, index, |d.Chains(table)[index]| - |rest| - 1);
        nextEntry := entry.next;
      }
    }

    /** dictNext */
    method Next() returns (e: Entry?<K, V>)
      requires Valid() && d.Valid()
      modifies this, d`iterators
      ensures Valid() && d.Valid() && Started() && Unmoved()
      ensures d.iterators == old(d.iterators) + (if old(Started()) then 0 else 1)
      ensures if old(Pending()) == [] then e == null && Pending() == []
              else e == old(Pending())[0] && Pending() == old(Pending())[1..] && entry == e
      ensures e != null ==> AtEntry() && e == entry
      ensures d.Map() == old(d.Map())
    {
      hide Dict.Valid, Dict.Map, FlatFrom, Iterator.Pending, Iterator.Upcoming;
      while true
        invariant Valid() && d.Valid() && Pending() == old(Pending()) && Unmoved() && d.Map() == old(d.Map())
        invariant d.iterators == old(d.iterators) + (if Started() && !old(Started()) then 1 else 0)
        invariant old(Started()) ==> Started()
        decreases 1 - table, |d.Chains(table)| - index, if entry == null then 0 else 1
      {
        var done := Turn();
        if done { return null; }
        SaveNext();
        if entry != null { return entry; }
      }
    }
  }

  ghost predicate EndsWith<T>(x: T, s: seq<T>, t: seq<T>) {
    |s| < |t| && t[|t| - |s| - 1] == x && IsSuffix(s, t)
  }

  ghost predicate IsSuffix<T>(s: seq<T>, t: seq<T>) {
    |s| <= |t| && t[|t| - |s|..] == s
  }

  lemma {:induction false} FlatUpdate<K, V>(c: seq<Chain<K, V>>, i: nat, es: Chain<K, V>, from: int)
    requires i < |c| && i < from
    ensures FlatFrom(c[i := es], from) == FlatFrom(c, from)
    decreases |c| - from
  {
    if from < |c| {
      FlatUpdate(c, i, es, from + 1);
    }
  }

  lemma SuffixWithout<T>(x: T, s: seq<T>, t: seq<T>)
    requires EndsWith(x, s, t)
    ensures IsSuffix(s, Removed(t, |t| - |s| - 1))
  {
  }

  /** Deleting the entry just returned leaves what is still to come alone: the link after it was saved. */
  twostate lemma DeletedCurrent<K(!new), V>(it: Iterator<K, V>)
    requires old(it.Valid()) && old(it.AtEntry()) && old(it.entry) != null
    requires it.table == old(it.table) && it.index == old(it.index) && it.entry == old(it.entry)
    requires it.nextEntry == old(it.nextEntry) && it.rest == old(it.rest) && it !in it.d.Repr()
    requires it.d.iterators == old(it.d.iterators) && it.d.rehashidx == old(it.d.rehashidx)
    requires var c := old(it.d.Chains(it.table));
             it.d.Chains(it.table) == c[it.index := Removed(c[it.index], |c[it.index]| - |it.rest| - 1)]
    requires it.table == 0 ==> it.d.c1 == old(it.d.c1)
    ensures it.Valid() && it.Pending() == old(it.Pending())
  {
    hide FlatFrom, IsSuffix, Dict.Valid;
    SuffixWithout<Entry<K, V>>(it.entry, it.rest, old(it.d.Chains(it.table)[it.index]));
    ghost var c := old(it.d.Chains(it.table));
    FlatUpdate(c, it.index, Removed(c[it.index], |c[it.index]| - |it.rest| - 1), it.index + 1);
  }

  /** An iterator does not notice changes of the dictionary that leave the chains in place. */
  twostate lemma IteratorUndisturbed<K(!new), V>(it: Iterator<K, V>)
    requires old(it.Valid()) && old(it.Started()) && it !in it.d.Repr()
    requires it.table == old(it.table) && it.index == old(it.index) && it.entry == old(it.entry)
    requires it.nextEntry == old(it.nextEntry) && it.rest == old(it.rest)
    requires it.d.c0 == old(it.d.c0) && it.d.c1 == old(it.d.c1)
    requires it.d.iterators == old(it.d.iterators) && it.d.rehashidx == old(it.d.rehashidx)
    ensures it.Valid() && it.Started() && it.Pending() == old(it.Pending()) && (old(it.AtEntry()) ==> it.AtEntry())
  {
  }

  /** Looks up a list of keys. With an iterator at work this moves nothing. */
  method Probe<K(==,!new), V>(it: Iterator<K, V>, keys: seq<K>)
    requires it.d.Valid() && it.Valid() && it.Started()
    modifies it.d.Repr()
    ensures it.d.Valid() && it.d.iterators == old(it.d.iterators) && fresh(it.d.Repr() - old(it.d.Repr()))
    ensures it.Valid() && it.Started() && unchanged(it) && it.Pending() == old(it.Pending())
    ensures (old(it.AtEntry()) ==> it.AtEntry()) && it.d.Map() == old(it.d.Map())
  {
    hide Dict.Valid, Dict.Map, Iterator.Pending;
    var d := it.d;
    var i := 0;
    while i < |keys|
      invariant 0 <= i <= |keys| && d.Valid() && d.iterators == old(d.iterators) && fresh(d.Repr() - old(d.Repr()))
      invariant d.c0 == old(d.c0) && d.c1 == old(d.c1) && d.rehashidx == old(d.rehashidx) && d.Map() == old(d.Map())
    {
      var he;
      ghost var t, idx, j;
      he, t, idx, j := d.Find(keys[i]);
      i := i + 1;
    }
    IteratorUndisturbed(it);
  }

  /** The deletion of the entry just returned. */
  method DeleteCurrent<K(==,!new), V>(it: Iterator<K, V>, e: Entry<K, V>)
    requires it.d.Valid() && it.Valid() && it.AtEntry() && it.entry == e
    modifies it.d.Repr()
    ensures it.d.Valid() && it.Valid() && it.Started() && unchanged(it) && it.Pending() == old(it.Pending()) &&
      fresh(it.d.Repr() - old(it.d.Repr()))
    ensures it.d.iterators == old(it.d.iterators) && it.d.Map() == old(it.d.Map()) - {e.key}
  {
    hide Dict.Valid, Dict.Map, FlatFrom, IsSuffix;
    ghost var j := |it.d.Chains(it.table)[it.index]| - |it.rest| - 1;
    it.d.DeleteStored(e.key, it.table, it.index, j);
    DeletedCurrent(it);
  }

  /** Lookups, and perhaps the deletion of the entry just returned behind them. */
  method ProbeAndDelete<K(==,!new), V>(it: Iterator<K, V>, e: Entry<K, V>, keys: seq<K>, delete: bool)
    requires it.d.Valid() && it.Valid() && it.Started() && it.AtEntry() && it.entry == e
    modifies it.d.Repr()
    ensures it.d.Valid() && it.Valid() && it.Started() && unchanged(it) && it.Pending() == old(it.Pending())
    ensures it.d.iterators == old(it.d.iterators) && fresh(it.d.Repr() - old(it.d.Repr()))
    ensures it.d.Map() == old(it.d.Map()) - (if delete then {e.key} else {})
  {
    hide Dict.Valid, Dict.Map, Iterator.Valid, Iterator.AtEntry, Iterator.Pending, Iterator.Started;
    Probe(it, keys);
    if delete {
      DeleteCurrent(it, e);
    }
  }

  /** One round of a deleting iteration: lookups, perhaps the deletion of the entry just returned, lookups, dictNext. */
  method Visit<K(==,!new), V>(it: Iterator<K, V>, e: Entry<K, V>, before: seq<K>, delete: bool, behind: seq<K>)
    returns (next: Entry?<K, V>, ghost born: set<object>)
    requires it.d.Valid() && it.Valid() && it.Started() && it.AtEntry() && it.entry == e
    modifies it, it.d.Repr()
    ensures it.d.Valid() && it.Valid() && it.Started() && it.d.Repr() <= old(it.d.Repr()) + born && fresh(born)
    ensures it.d.iterators == old(it.d.iterators)
    ensures next != null ==> it.AtEntry() && it.entry == next
    ensures (if next == null then [] else [next]) + it.Pending() == old(it.Pending()) &&
      (next == null ==> it.Pending() == [])
    ensures it.d.Map() == old(it.d.Map()) - (if delete then {e.key} else {})
  {
    hide Dict.Valid, Dict.Map, Iterator.Valid, Iterator.AtEntry, Iterator.Pending, Iterator.Started;
    ProbeAndDelete(it, e, before, delete);
    Probe(it, behind);
    next := it.Next();
    born := it.d.Repr() - old(it.d.Repr());
  }

  /** Keys of the visited entries that the caller chose to delete. */
  ghost function Doomed<K, V>(es: Chain<K, V>, doomed: K -> bool): set<K> {
    set e | e in es && doomed(e.key) :: e.key
  }

  lemma DoomedGrows<K, V>(m: map<K, V>, es: Chain<K, V>, e: Entry<K, V>, doomed: K -> bool)
    ensures m - Doomed(es + [e], doomed) == m - Doomed(es, doomed) - (if doomed(e.key) then {e.key} else {})
  {
    assert Doomed(es + [e], doomed) == Doomed(es, doomed) + (if doomed(e.key) then {e.key} else {});
  }

  /** An iterator at its first entry, if there is one. */
  method Begin<K(==,!new), V>(d: Dict<K, V>) returns (it: Iterator<K, V>, e: Entry?<K, V>)
    requires d.Valid() && d.iterators >= 0
    modifies d`iterators
    ensures fresh(it) && it.d == d && d.Valid() && it.Valid() && it.Started() && d.Repr() == old(d.Repr())
    ensures d.iterators == old(d.iterators) + 1 && d.Map() == old(d.Map())
    ensures e != null ==> it.AtEntry() && it.entry == e
    ensures (if e == null then [] else [e]) + it.Pending() == old(AllEntries(d)) && (e == null ==> it.Pending() == [])
  {
    hide Dict.Valid, Dict.Map, Iterator.Valid, Iterator.AtEntry, Iterator.Pending, AllEntries;
    it := new Iterator(d);
    assert d.Repr() == old(d.Repr());
    e := it.Next();
  }

  /** A whole iteration, with deletions of chosen entries as they are returned, and lookups before and behind each of
      them. It visits exactly the entries that were stored at the start, in order, whether or not a rehash was under
      way. */
  method IterateAndDelete<K(==,!new), V>(d: Dict<K, V>, doomed: K -> bool, before: nat -> seq<K>, behind: nat -> seq<K>)
    returns (ghost visited: Chain<K, V>)
    requires d.Valid() && d.iterators >= 0
    modifies d.Repr()
    ensures d.Valid() && visited == old(AllEntries(d)) && d.iterators == old(d.iterators)
    ensures d.Map() == old(d.Map()) - Doomed(visited, doomed)
  {
    hide *;
    d.SelfInRepr();
    ghost var born: set<object> := {};
    visited := [];
    NothingDoomed(d.Map(), doomed);
    var it, e := Begin(d);
    var n: nat := 0;
    while e != null
      invariant it.d == d && d.Valid() && it.Valid() && it.Started() && fresh(it)
      invariant d.Repr() <= old(d.Repr()) + born && fresh(born)
      invariant d.iterators == old(d.iterators) + 1
      invariant e != null ==> it.AtEntry() && it.entry == e
      invariant visited + (if e == null then [] else [e]) + it.Pending() == old(AllEntries(d))
      invariant e == null ==> it.Pending() == []
      invariant d.Map() == old(d.Map()) - Doomed(visited, doomed)
      decreases |it.Pending()| + (if e == null then 0 else 1)
    {
      DoomedGrows(old(d.Map()), visited, e, doomed);
      MoveOver(visited, e, it.Pending());
      visited := visited + [e];
      ghost var more;
      e, more := Visit(it, e, before(n), doomed(e.key), behind(n));
      born := born + more;
      n := n + 1;
    }
    d.AdjustIterators(-1);
  }

  lemma MoveOver<T>(a: seq<T>, x: T, b: seq<T>)
    ensures a + [x] + b == (a + [x]) + b && (a + [x]) + [] + b == a + [x] + b
  {
  }

  lemma NothingDoomed<K, V>(m: map<K, V>, doomed: K -> bool)
    ensures m - Doomed<K, V>([], doomed) == m
  {
  }

  lemma {:induction false} FlatLength<K, V>(c: seq<Chain<K, V>>, i: nat)
    requires i <= |c|
    ensures |FlatFrom(c, i)| == Total(View(c)[i..])
    decreases |c| - i
  {
    if i < |c| {
      FlatLength(c, i + 1);
      assert View(c)[i..][1..] == View(c)[i + 1..];
    }
  }

  lemma {:induction false} FlatHolds<K, V>(c: seq<Chain<K, V>>, from: nat, i: nat, j: nat)
    requires from <= i < |c| && j < |c[i]|
    ensures c[i][j] in FlatFrom(c, from)
    decreases i - from
  {
    if from < i {
      FlatHolds(c, from + 1, i, j);
    }
  }

  /** The iteration order lists every key of the map, and has as many entries as the map has keys: each exactly once. */
  lemma AllEntriesListTheMap<K(!new), V>(d: Dict<K, V>)
    requires d.Valid()
    ensures |AllEntries(d)| == |d.Map()|
    ensures forall k :: k in d.Map() ==> exists e :: e in AllEntries(d) && e.key == k && d.Map()[k] == e.val
  {
    hide FlatFrom, Total;
    FlatLength(d.c0, 0);
    FlatLength(d.c1, 0);
    assert View(d.c0)[0..] == View(d.c0) && View(d.c1)[0..] == View(d.c1);
    UsedIsExact(d.hash, d.St());
    forall k | k in d.Map() ensures exists e :: e in AllEntries(d) && e.key == k && d.Map()[k] == e.val {
      KeyIsListed(d, k);
    }
  }

  lemma KeyIsListed<K(!new), V>(d: Dict<K, V>, k: K)
    requires d.Valid() && k in d.Map()
    ensures exists e :: e in AllEntries(d) && e.key == k && d.Map()[k] == e.val
  {
    hide FlatFrom, Total, Ok;
    ModelIsGet(d.hash, d.St(), k);
    var t := if TableGet(d.hash, View(d.c0), k).Some? then 0 else 1;
    var c := d.Chains(t);
    var i := Slot(d.hash, k, |c|);
    var j := FoundAt(View(c)[i], k);
    FlatHolds(c, 0, i, j);
    assert c[i][j] in AllEntries(d);
  }

  lemma {:induction false} FoundAt<K, V>(b: Bucket<K, V>, k: K) returns (j: nat)
    requires FindIn(b, k).Some?
    ensures j < |b| && b[j].0 == k && Some(b[j].1) == FindIn(b, k)
  {
    if b[0].0 == k {
      j := 0;
    } else {
      var m := FoundAt(b[1..], k);
      j := m + 1;
    }
  }
}
