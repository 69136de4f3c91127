/** The operations of dict.c as functions on State, and what they do to the map. */
module DictOps {
  import opened Bytes
  import opened DictSpec
  import opened Sequences

  /** Every lookup gives the same answer in both states. */
  ghost predicate SameGets<K(!new), V>(h: K -> nat, s: State<K, V>, t: State<K, V>) {
    forall k :: Get(h, s, k) == Get(h, t, k)
  }

  function Put<K, V>(h: K -> nat, t: Table<K, V>, k: K, v: V): (r: Table<K, V>)
    requires t != []
    ensures |r| == |t|
  {
    var i := Slot(h, k, |t|);
    t[i := [(k, v)] + t[i]]
  }

  lemma PutGets<K(!new), V>(h: K -> nat, t: Table<K, V>, k: K, v: V)
    requires TableOk(h, t) && t != [] && TableGet(h, t, k).None?
    ensures TableOk(h, Put(h, t, k, v)) && Total(Put(h, t, k, v)) == Total(t) + 1
    ensures forall k' :: TableGet(h, Put(h, t, k, v), k') == if k' == k then Some(v) else TableGet(h, t, k')
  {
    var i := Slot(h, k, |t|);
    var b := [(k, v)] + t[i];
    FindInSome(t[i], k);
    forall x, y | 0 <= x < y < |b| ensures b[x].0 != b[y].0 {
      assert b[y] == t[i][y - 1];
      if x > 0 {
        assert b[x] == t[i][x - 1];
      }
    }
    SetBucket(h, t, i, b);
    TotalUpdate(t, i, b);
    assert b[1..] == t[i];
  }

  /** One entry of the bucket being rehashed moves to the front of its bucket in the new table. */
  function MoveOne<K, V>(h: K -> nat, s: State<K, V>, i: nat): (r: State<K, V>)
    requires i < |s.t0| && s.t0[i] != [] && s.t1 != []
    ensures |r.t0| == |s.t0| && |r.t1| == |s.t1|
  {
    var p := s.t0[i][0];
    s.(t0 := s.t0[i := s.t0[i][1..]], t1 := Put(h, s.t1, p.0, p.1))
  }

  lemma MoveOneKeeps<K(!new), V>(h: K -> nat, s: State<K, V>)
    requires Ok(h, s) && s.Rehashing() && s.rehashidx < |s.t0| && s.t0[s.rehashidx] != []
    ensures var r := MoveOne(h, s, s.rehashidx);
            Ok(h, r) && SameGets(h, s, r) && Total(r.t0) == Total(s.t0) - 1 && Total(r.t1) == Total(s.t1) + 1
  {
    var i := s.rehashidx;
    var b, p := s.t0[i], s.t0[i][0];
    assert Slot(h, b[0].0, |s.t0|) == i;
    assert TableGet(h, s.t0, p.0) == Some(p.1);
    PutGets(h, s.t1, p.0, p.1);
    assert forall j :: 0 <= j < |b| - 1 ==> b[1..][j] == b[j + 1];
    SetBucket(h, s.t0, i, b[1..]);
    TotalUpdate(s.t0, i, b[1..]);
    FindInSome(b[1..], p.0);
    var r := MoveOne(h, s, i);
    forall k ensures Get(h, r, k) == Get(h, s, k) && (TableGet(h, r.t0, k).None? || TableGet(h, r.t1, k).None?) {
    }
  }

  /** The inner loop of dictRehash: the whole bucket at rehashidx moves, front entry first. */
  function Drain<K, V>(h: K -> nat, s: State<K, V>, i: nat): (r: State<K, V>)
    requires i < |s.t0| && s.t1 != []
    ensures |r.t0| == |s.t0| && |r.t1| == |s.t1| && r.rehashidx == s.rehashidx && r.t0[i] == []
    ensures forall j :: 0 <= j < |s.t0| && j != i ==> r.t0[j] == s.t0[j]
    decreases |s.t0[i]|
  {
    if s.t0[i] == [] then s else Drain(h, MoveOne(h, s, i), i)
  }

  lemma DrainOne<K, V>(h: K -> nat, s: State<K, V>, i: nat, b: Bucket<K, V>)
    requires i < |s.t0| && s.t1 != [] && s.t0[i] == b && b != []
    ensures Drain(h, s, i) == Drain(h, MoveOne(h, s, i), i) && MoveOne(h, s, i).t0[i] == b[1..]
  {
  }

  lemma DrainDone<K, V>(h: K -> nat, s: State<K, V>, i: nat)
    requires i < |s.t0| && s.t1 != [] && s.t0[i] == []
    ensures Drain(h, s, i) == s
  {
  }

  lemma OkBounds<K(!new), V>(h: K -> nat, s: State<K, V>)
    requires Ok(h, s)
    ensures s.Rehashing() ==> 0 <= s.rehashidx <= |s.t0| && s.t0 != [] && s.t1 != [] && PowerOfTwo(|s.t1|)
    ensures !s.Rehashing() ==> s.t1 == []
  {
  }

  lemma OkSizes<K(!new), V>(h: K -> nat, s: State<K, V>)
    requires Ok(h, s)
    ensures (s.t0 != [] ==> PowerOfTwo(|s.t0|)) && (s.t1 != [] ==> PowerOfTwo(|s.t1|))
  {
  }

  lemma {:induction false} NoneFound<K, V>(b: Bucket<K, V>, k: K, j: nat)
    requires FirstAt(b, k, j) && j == |b|
    ensures FindIn(b, k).None?
  {
    if b != [] {
      assert forall m :: 0 <= m < j - 1 ==> b[1..][m] == b[m + 1];
      NoneFound(b[1..], k, j - 1);
    }
  }

  lemma {:induction false} DrainKeeps<K(!new), V>(h: K -> nat, s: State<K, V>)
    requires Ok(h, s) && s.Rehashing() && s.rehashidx < |s.t0|
    ensures var r := Drain(h, s, s.rehashidx); Ok(h, r) && SameGets(h, s, r)
    ensures var r := Drain(h, s, s.rehashidx); Total(r.t0) + Total(r.t1) == Total(s.t0) + Total(s.t1)
    decreases |s.t0[s.rehashidx]|
  {
    if s.t0[s.rehashidx] != [] {
      MoveOneKeeps(h, s);
      DrainKeeps(h, MoveOne(h, s, s.rehashidx));
    }
  }

  /** The first bucket at or after i that is not empty; the scan of dictRehash. */
  function FirstUsed<K, V>(t: Table<K, V>, i: nat): (r: nat)
    requires i <= |t|
    ensures i <= r <= |t| && (forall j :: i <= j < r ==> t[j] == []) && (r < |t| ==> t[r] != [])
    decreases |t| - i
  {
    if i < |t| && t[i] == [] then FirstUsed(t, i + 1) else i
  }

  /** Because the old table still holds something, the scan stops inside it. */
  lemma ScanStaysInside<K(!new), V>(h: K -> nat, s: State<K, V>)
    requires Ok(h, s) && s.Rehashing() && Total(s.t0) > 0
    ensures FirstUsed(s.t0, s.rehashidx) < |s.t0|
  {
    TotalZero(s.t0);
    var i :| 0 <= i < |s.t0| && s.t0[i] != [];
    assert s.rehashidx <= i;
  }

  /** dictRehash(d, 1) while a rehash is in progress. */
  function Step<K, V>(h: K -> nat, s: State<K, V>): (r: State<K, V>)
    requires s.t1 != [] && 0 <= s.rehashidx <= |s.t0|
  {
    var i := FirstUsed(s.t0, s.rehashidx);
    if Total(s.t0) == 0 || i == |s.t0| then State(s.t1, [], -1)
    else Drain(h, s.(rehashidx := i), i).(rehashidx := i + 1)
  }

  /** A rehash step never changes the map, and it advances rehashidx or finishes. */
  lemma StepKeeps<K(!new), V>(h: K -> nat, s: State<K, V>)
    requires Ok(h, s) && s.Rehashing()
    ensures Ok(h, Step(h, s)) && SameGets(h, s, Step(h, s))
    ensures Total(Step(h, s).t0) + Total(Step(h, s).t1) == Total(s.t0) + Total(s.t1)
    ensures Step(h, s).Rehashing() ==>
      s.rehashidx < Step(h, s).rehashidx <= |s.t0| == |Step(h, s).t0| && |Step(h, s).t1| == |s.t1|
    ensures !Step(h, s).Rehashing() <==> Total(s.t0) == 0
  {
    if Total(s.t0) == 0 {
      TotalZero(s.t0);
      assert forall k :: TableGet(h, s.t0, k).None?;
    } else {
      ScanStaysInside(h, s);
      var i := FirstUsed(s.t0, s.rehashidx);
      var s' := s.(rehashidx := i);
      assert Ok(h, s') && SameGets(h, s, s');
      DrainKeeps(h, s');
      var d := Drain(h, s', i);
      assert Ok(h, d.(rehashidx := i + 1)) && SameGets(h, d, d.(rehashidx := i + 1));
    }
  }

  /** Repeated single steps. */
  function Steps<K, V>(h: K -> nat, s: State<K, V>, n: nat): State<K, V>
    decreases n
  {
    if n == 0 || !(s.t1 != [] && 0 <= s.rehashidx <= |s.t0|) then s else Steps(h, Step(h, s), n - 1)
  }

  lemma StepsStep<K(!new), V>(h: K -> nat, s: State<K, V>, n: nat)
    requires Ok(h, s)
    ensures n == 0 || !s.Rehashing() ==> Steps(h, s, n) == s
    ensures s.Rehashing() ==> s.t1 != [] && 0 <= s.rehashidx <= |s.t0|
    ensures n > 0 && s.Rehashing() ==> Steps(h, s, n) == Steps(h, Step(h, s), n - 1)
  {
    hide TableOk, PowerOfTwo, TableGet, Step;
  }

  /** An unblocked rehash finishes within one step more than there are old buckets left, with the map unchanged. */
  lemma {:induction false} RehashFinishes<K(!new), V>(h: K -> nat, s: State<K, V>, n: nat)
    requires Ok(h, s) && s.Rehashing() && n >= |s.t0| - s.rehashidx + 1
    ensures !Steps(h, s, n).Rehashing() && Ok(h, Steps(h, s, n)) && SameGets(h, s, Steps(h, s, n))
    decreases n
  {
    StepKeeps(h, s);
    var r := Step(h, s);
    if r.Rehashing() {
      RehashFinishes(h, r, n - 1);
    } else {
      assert Steps(h, r, n - 1) == r;
    }
  }

  // ---------------------------------------------------------------- sizing

  const INITIAL_SIZE := 4
  const FORCE_RESIZE_RATIO := 5

  function DoubleUntil(i: nat, size: nat): (r: nat)
    requires i > 0
    decreases size - i
  {
    if i >= size then i else DoubleUntil(i * 2, size)
  }

  /** The table size for a requested size: LONG_MAX itself if the request is that large. */
  function NextPower(size: nat): nat {
    if size >= LONG_MAX then LONG_MAX else DoubleUntil(INITIAL_SIZE, size)
  }

  lemma {:induction false} PowerMonotone(e: nat, f: nat)
    requires e <= f
    ensures Power(e) <= Power(f)
    decreases f
  {
    if e < f {
      PowerMonotone(e, f - 1);
    }
  }

  lemma {:induction false} DoubleUntilLeast(e: nat, size: nat)
    ensures PowerOfTwo(DoubleUntil(Power(e), size)) && size <= DoubleUntil(Power(e), size)
    ensures forall f: nat :: e <= f && size <= Power(f) ==> DoubleUntil(Power(e), size) <= Power(f)
    decreases size - Power(e)
  {
    if Power(e) < size {
      assert Power(e + 1) == Power(e) * 2;
      DoubleUntilLeast(e + 1, size);
    } else {
      forall f: nat | e <= f && size <= Power(f) ensures Power(e) <= Power(f) {
        PowerMonotone(e, f);
      }
    }
  }

  /** Below LONG_MAX the size is the least power of two that is at least the request and at least 4. */
  lemma NextPowerLeast(size: nat)
    requires size < LONG_MAX
    ensures PowerOfTwo(NextPower(size)) && size <= NextPower(size) && 4 <= NextPower(size)
    ensures forall f: nat :: size <= Power(f) && 4 <= Power(f) ==> NextPower(size) <= Power(f)
  {
    assert Power(2) == INITIAL_SIZE by {
      assert Power(1) == 2;
    }
    DoubleUntilLeast(2, size);
    forall f: nat | size <= Power(f) && INITIAL_SIZE <= Power(f) ensures NextPower(size) <= Power(f) {
      if f < 2 {
        assert Power(1) == 2;
      }
    }
    var e: nat :| NextPower(size) == Power(e);
    assert INITIAL_SIZE <= DoubleUntil(INITIAL_SIZE, size) by {
      DoubleUntilGrows(INITIAL_SIZE, size);
    }
  }

  lemma {:induction false} DoubleUntilGrows(i: nat, size: nat)
    requires i > 0
    ensures i <= DoubleUntil(i, size)
    decreases size - i
  {
    if i < size {
      DoubleUntilGrows(i * 2, size);
    }
  }

  /** Bitwise and of two naturals. */
  function And(a: nat, b: nat): (r: nat)
    decreases a
  {
    if a == 0 then 0 else (a % 2) * (b % 2) + 2 * And(a / 2, b / 2)
  }

  /** Masking with sizemask is taking the remainder, because sizes are powers of two. */
  lemma {:induction false} MaskIsMod(a: nat, e: nat)
    ensures And(a, Power(e) - 1) == a % Power(e)
    decreases e
  {
    hide And;
    if e == 0 {
      AndZero(a);
    } else {
      MaskIsMod(a / 2, e - 1);
      MaskStep(a, Power(e - 1));
    }
  }

  lemma MaskStep(a: nat, p: nat)
    requires p > 0 && And(a / 2, p - 1) == a / 2 % p
    ensures And(a, 2 * p - 1) == a % (2 * p)
  {
    hide And;
    ModDouble(a, p);
    AndOdd(a, p - 1);
    assert 2 * (p - 1) + 1 == 2 * p - 1;
  }

  lemma SlotByMask<K>(h: K -> nat, k: K, n: nat)
    requires n > 0 && PowerOfTwo(n)
    ensures And(h(k), n - 1) == Slot(h, k, n)
  {
    var e: nat :| n == Power(e);
    MaskIsMod(h(k), e);
  }

  lemma AndOdd(a: nat, b: nat)
    ensures And(a, 2 * b + 1) == a % 2 + 2 * And(a / 2, b)
  {
    assert (2 * b + 1) % 2 == 1 && (2 * b + 1) / 2 == b;
  }

  lemma {:induction false} AndZero(a: nat)
    ensures And(a, 0) == 0
  {
    if a > 0 {
      AndZero(a / 2);
    }
  }

  lemma ModDouble(a: nat, m: nat)
    requires m > 0
    ensures a % (2 * m) == a % 2 + 2 * (a / 2 % m)
  {
    var q, r := a / 2 / m, a / 2 % m;
    assert a / 2 == q * m + r;
    assert a == q * (2 * m) + (a % 2 + 2 * r);
    ModUnique(a, 2 * m, q, a % 2 + 2 * r);
  }

  lemma ModUnique(a: nat, m: nat, q: nat, r: nat)
    requires m > 0 && r < m && a == q * m + r
    ensures a % m == r
  {
    var q', r' := a / m, a % m;
    assert a == q' * m + r';
    assert (q - q') * m == r' - r;
    if q < q' {
      AtLeastOnce(q' - q, m);
    } else if q' < q {
      AtLeastOnce(q - q', m);
    }
  }

  lemma AtLeastOnce(x: nat, m: nat)
    requires x >= 1
    ensures x * m >= m
  {
  }

  /** dictExpand: whether it succeeds, and the state after it. */
  function Expand<K, V>(s: State<K, V>, size: nat): (r: (bool, State<K, V>))
  {
    if s.Rehashing() || Total(s.t0) > size then (false, s)
    else if s.t0 == [] then (true, State(Empties(NextPower(size)), [], -1))
    else (true, State(s.t0, Empties(NextPower(size)), 0))
  }

  lemma {:induction false} EmptiesTotal<K, V>(n: nat)
    ensures Total<K, V>(Empties(n)) == 0
  {
    TotalZero<K, V>(Empties(n));
  }

  lemma ExpandKeeps<K(!new), V>(h: K -> nat, s: State<K, V>, size: nat)
    requires Ok(h, s) && size < LONG_MAX
    ensures Ok(h, Expand(s, size).1) && SameGets(h, s, Expand(s, size).1)
    ensures Total(Expand(s, size).1.t0) + Total(Expand(s, size).1.t1) == Total(s.t0) + Total(s.t1)
  {
    NextPowerLeast(size);
    EmptiesTotal<K, V>(NextPower(size));
    var e: Table<K, V> := Empties(NextPower(size));
    assert TableOk(h, e) && forall k :: TableGet(h, e, k).None?;
  }

  /** The size _dictExpandIfNeeded asks for, or None if it leaves the table alone. */
  function WantedSize<K, V>(s: State<K, V>, canResize: bool): Option<nat> {
    if s.Rehashing() then None
    else if s.t0 == [] then Some(INITIAL_SIZE)
    else if Total(s.t0) >= |s.t0| && (canResize || Total(s.t0) / |s.t0| > FORCE_RESIZE_RATIO) then
      Some((if |s.t0| > Total(s.t0) then |s.t0| else Total(s.t0)) * 2)
    else None
  }

  function ExpandIfNeeded<K, V>(s: State<K, V>, canResize: bool): (bool, State<K, V>) {
    match WantedSize(s, canResize)
    case None => (true, s)
    case Some(n) => Expand(s, n)
  }

  /** The size asked for always suffices, so the error return of _dictExpandIfNeeded is never taken. */
  lemma ExpandIfNeededKeeps<K(!new), V>(h: K -> nat, s: State<K, V>, canResize: bool)
    requires Ok(h, s) && 2 * Total(s.t0) < LONG_MAX && 2 * |s.t0| < LONG_MAX
    ensures var r := ExpandIfNeeded(s, canResize);
            r.0 && Ok(h, r.1) && SameGets(h, s, r.1) && r.1.t0 != [] &&
            Total(r.1.t0) + Total(r.1.t1) == Total(s.t0) + Total(s.t1)
  {
    match WantedSize(s, canResize)
    case None =>
    case Some(n) => 
      ExpandKeeps(h, s, n);
      NextPowerLeast(n);
  }

  // ---------------------------------------------------------------- the public operations

  /** _dictRehashStep as every operation calls it: only while rehashing, and only without iterators. */
  function AutoStep<K, V>(h: K -> nat, s: State<K, V>, iterators: int): State<K, V> {
    if s.t1 != [] && 0 <= s.rehashidx <= |s.t0| && iterators == 0 then Step(h, s) else s
  }

  lemma AutoStepKeeps<K(!new), V>(h: K -> nat, s: State<K, V>, iterators: int)
    requires Ok(h, s)
    ensures Ok(h, AutoStep(h, s, iterators)) && SameGets(h, s, AutoStep(h, s, iterators))
    ensures var r := AutoStep(h, s, iterators); Total(r.t0) + Total(r.t1) == Total(s.t0) + Total(s.t1)
    ensures var r := AutoStep(h, s, iterators); (s.t0 != [] ==> r.t0 != []) && |r.t0| + |r.t1| <= |s.t0| + |s.t1|
  {
    if s.Rehashing() && iterators == 0 {
      StepKeeps(h, s);
    }
  }

  /** The state in which dictAdd looks for its key. */
  function BeforeAdd<K, V>(h: K -> nat, s: State<K, V>, iterators: int, canResize: bool): State<K, V> {
    ExpandIfNeeded(AutoStep(h, s, iterators), canResize).1
  }

  function Add<K(==), V>(h: K -> nat, s: State<K, V>, k: K, v: V, iterators: int, canResize: bool)
    : (bool, State<K, V>)
  {
    var b := BeforeAdd(h, s, iterators, canResize);
    if Get(h, b, k).Some? then (false, b) else (true, Insert(h, b, k, v))
  }

  /** The new entry goes to the front of its bucket, in the new table while rehashing. */
  function Insert<K, V>(h: K -> nat, b: State<K, V>, k: K, v: V): State<K, V> {
    if b.Rehashing() then b.(t1 := if b.t1 == [] then [] else Put(h, b.t1, k, v))
    else b.(t0 := if b.t0 == [] then [] else Put(h, b.t0, k, v))
  }

  /** The size bound under which no table size reaches LONG_MAX. */
  ghost predicate Small<K, V>(s: State<K, V>) {
    2 * (Total(s.t0) + Total(s.t1)) < LONG_MAX && 2 * (|s.t0| + |s.t1|) < LONG_MAX
  }

  lemma BeforeAddKeeps<K(!new), V>(h: K -> nat, s: State<K, V>, iterators: int, canResize: bool)
    requires Ok(h, s) && Small(s)
    ensures var b := BeforeAdd(h, s, iterators, canResize);
            Ok(h, b) && SameGets(h, s, b) && b.t0 != [] && Total(b.t0) + Total(b.t1) == Total(s.t0) + Total(s.t1)
  {
    AutoStepKeeps(h, s, iterators);
    ExpandIfNeededKeeps(h, AutoStep(h, s, iterators), canResize);
  }

  lemma AddSteps<K(!new), V>(h: K -> nat, s: State<K, V>, k: K, v: V, iterators: int, canResize: bool)
    requires Ok(h, s) && Small(s)
    ensures var a := AutoStep(h, s, iterators); var e := ExpandIfNeeded(a, canResize);
      && Ok(h, a) && Small(a) && e.0 && Ok(h, e.1)
      && Add(h, s, k, v, iterators, canResize) ==
        (if Get(h, e.1, k).Some? then (false, e.1) else (true, Insert(h, e.1, k, v)))
      && (Get(h, e.1, k).None? ==> Ok(h, Insert(h, e.1, k, v)))
  {
    hide Ok, AutoStep, ExpandIfNeeded, Insert, Get, SameGets, Total;
    AutoStepKeeps(h, s, iterators);
    BeforeAddKeeps(h, s, iterators, canResize);
    var a := AutoStep(h, s, iterators);
    ExpandIfNeededKeeps(h, a, canResize);
    if Get(h, ExpandIfNeeded(a, canResize).1, k).None? {
      InsertKeeps(h, ExpandIfNeeded(a, canResize).1, k, v);
    }
  }

  /** dictAdd adds exactly when the key is absent, and then the map gains just that key. */
  lemma AddModel<K(!new), V>(h: K -> nat, s: State<K, V>, k: K, v: V, iterators: int, canResize: bool)
    requires Ok(h, s) && Small(s)
    ensures var r := Add(h, s, k, v, iterators, canResize);
            && Ok(h, r.1) && (r.0 <==> k !in Model(h, s))
            && Model(h, r.1) == if r.0 then Model(h, s)[k := v] else Model(h, s)
  {
    hide Model, Ok, BeforeAdd, TableOk;
    BeforeAddKeeps(h, s, iterators, canResize);
    var b := BeforeAdd(h, s, iterators, canResize);
    SameModel(h, s, b);
    ModelIsGet(h, b, k);
    if Get(h, b, k).None? {
      InsertKeeps(h, b, k, v);
      ModelFromGets(h, Insert(h, b, k, v), Model(h, b)[k := v], b, k);
    }
  }

  lemma InsertKeeps<K(!new), V>(h: K -> nat, b: State<K, V>, k: K, v: V)
    requires Ok(h, b) && b.t0 != [] && Get(h, b, k).None?
    ensures var r := Insert(h, b, k, v);
            && Ok(h, r) && Total(r.t0) + Total(r.t1) == Total(b.t0) + Total(b.t1) + 1
            && forall k' :: Get(h, r, k') == if k' == k then Some(v) else Get(h, b, k')
  {
    PutGets(h, if b.Rehashing() then b.t1 else b.t0, k, v);
  }

  /** A state is Ok and stands for map m when its lookups agree with m; `s` and `k` say where m came from. */
  lemma ModelFromGets<K(!new), V>(h: K -> nat, r: State<K, V>, m: map<K, V>, s: State<K, V>, k: K)
    requires Ok(h, r) && Ok(h, s) && m - {k} == Model(h, s) - {k}
    requires forall k' :: k' != k ==> Get(h, r, k') == Get(h, s, k')
    requires if k in m then Get(h, r, k) == Some(m[k]) else Get(h, r, k).None?
    ensures Model(h, r) == m
  {
    forall k' ensures k' in Model(h, r) <==> k' in m {
      ModelIsGet(h, r, k');
      ModelIsGet(h, s, k');
      assert k' != k ==> (k' in m <==> k' in m - {k}) && (k' in Model(h, s) <==> k' in Model(h, s) - {k});
    }
    forall k' | k' in m ensures Model(h, r)[k'] == m[k'] {
      ModelIsGet(h, r, k');
      ModelIsGet(h, s, k');
      assert k' != k ==>
        (m - {k})[k'] == m[k'] && k' in Model(h, s) - {k} && (Model(h, s) - {k})[k'] == Model(h, s)[k'];
    }
  }

  /** Replaces the bucket of k, in the table that holds k, by f of it. */
  function SetVal<K(==), V>(h: K -> nat, s: State<K, V>, k: K, v: V): State<K, V> {
    if TableGet(h, s.t0, k).Some? then
      var i := Slot(h, k, |s.t0|);
      s.(t0 := s.t0[i := SetIn(s.t0[i], k, v)])
    else if TableGet(h, s.t1, k).Some? then
      var i := Slot(h, k, |s.t1|);
      s.(t1 := s.t1[i := SetIn(s.t1[i], k, v)])
    else s
  }

  function Unlink<K(==), V>(h: K -> nat, s: State<K, V>, k: K): State<K, V> {
    if TableGet(h, s.t0, k).Some? then
      var i := Slot(h, k, |s.t0|);
      s.(t0 := s.t0[i := RemoveFrom(s.t0[i], k)])
    else if TableGet(h, s.t1, k).Some? then
      var i := Slot(h, k, |s.t1|);
      s.(t1 := s.t1[i := RemoveFrom(s.t1[i], k)])
    else s
  }

  /** dictReplace: whether the key was new, and the state after; a failed dictAdd is followed by a dictFind. */
  function Replace<K(==), V>(h: K -> nat, s: State<K, V>, k: K, v: V, iterators: int, canResize: bool)
    : (bool, State<K, V>)
  {
    var a := Add(h, s, k, v, iterators, canResize);
    if a.0 then a else (false, SetVal(h, AutoStep(h, a.1, iterators), k, v))
  }

  /** dictGenericDelete. */
  function Delete<K(==), V>(h: K -> nat, s: State<K, V>, k: K, iterators: int): (bool, State<K, V>) {
    if s.t0 == [] then (false, s) else
      var b := AutoStep(h, s, iterators);
      (Get(h, b, k).Some?, Unlink(h, b, k))
  }

  /** dictFind leaves the map alone, but not the tables. */
  function AfterFind<K, V>(h: K -> nat, s: State<K, V>, iterators: int): State<K, V> {
    if s.t0 == [] then s else AutoStep(h, s, iterators)
  }

  /** The size that dictResize asks for: the number of elements, stored in an int, but at least the initial size. */
  function Minimal(used: nat): (n: nat)
    ensures INITIAL_SIZE <= n < 0x8000_0000
  {
    if ToInt32(used) < INITIAL_SIZE then INITIAL_SIZE else ToInt32(used)
  }

  function Resize<K, V>(s: State<K, V>, canResize: bool): (bool, State<K, V>) {
    if !canResize || s.Rehashing() then (false, s) else Expand(s, Minimal(Total(s.t0)))
  }

  /** Because of the int, a table of 2^31 elements or more can never be resized. */
  lemma ResizeExactlyIf<K, V>(s: State<K, V>, canResize: bool)
    ensures Resize(s, canResize).0 <==> canResize && !s.Rehashing() && Total(s.t0) < 0x8000_0000
  {
    hide Total, NextPower, Empties;
    CutToInt(Total(s.t0));
  }

  lemma CutToInt(used: nat)
    ensures used < 0x8000_0000 ==> Minimal(used) == if used < 4 then 4 else used
    ensures used >= 0x8000_0000 ==> Minimal(used) < used
  {
  }

  lemma TableSetVal<K(!new), V>(h: K -> nat, t: Table<K, V>, k: K, v: V)
    requires TableOk(h, t) && TableGet(h, t, k).Some?
    ensures var i := Slot(h, k, |t|); var r := t[i := SetIn(t[i], k, v)];
            && TableOk(h, r) && Total(r) == Total(t)
            && forall k' :: TableGet(h, r, k') == if k' == k then Some(v) else TableGet(h, t, k')
  {
    var i := Slot(h, k, |t|);
    SetBucket(h, t, i, SetIn(t[i], k, v));
    TotalUpdate(t, i, SetIn(t[i], k, v));
    forall k' ensures FindIn(SetIn(t[i], k, v), k') == if k' == k then Some(v) else FindIn(t[i], k') {
      FindSet(t[i], k, v, k');
    }
  }

  lemma TableRemove<K(!new), V>(h: K -> nat, t: Table<K, V>, k: K)
    requires TableOk(h, t) && TableGet(h, t, k).Some?
    ensures var i := Slot(h, k, |t|); var r := t[i := RemoveFrom(t[i], k)];
            && TableOk(h, r) && Total(r) == Total(t) - 1
            && forall k' :: TableGet(h, r, k') == if k' == k then None else TableGet(h, t, k')
  {
    var i := Slot(h, k, |t|);
    var b := RemoveFrom(t[i], k);
    FindRemoved(t[i], k, k);
    forall j | 0 <= j < |b| ensures Slot(h, b[j].0, |t|) == i {
      assert b[j] in t[i];
      var m :| 0 <= m < |t[i]| && t[i][m] == b[j];
      assert Slot(h, t[i][m].0, |t|) == i;
    }
    SetBucket(h, t, i, b);
    TotalUpdate(t, i, b);
    forall k' ensures FindIn(b, k') == if k' == k then None else FindIn(t[i], k') {
      FindRemoved(t[i], k, k');
    }
  }

  lemma EmptyBucketStays<K(!new), V>(h: K -> nat, s: State<K, V>, k: K)
    requires Ok(h, s) && TableGet(h, s.t0, k).Some?
    ensures !(0 <= Slot(h, k, |s.t0|) < s.rehashidx)
  {
  }

  lemma SetValModel<K(!new), V>(h: K -> nat, s: State<K, V>, k: K, v: V)
    requires Ok(h, s) && Get(h, s, k).Some?
    ensures Ok(h, SetVal(h, s, k, v)) && Model(h, SetVal(h, s, k, v)) == Model(h, s)[k := v]
  {
    if TableGet(h, s.t0, k).Some? {
      TableSetVal(h, s.t0, k, v);
      EmptyBucketStays(h, s, k);
    } else {
      TableSetVal(h, s.t1, k, v);
    }
    ModelFromGets(h, SetVal(h, s, k, v), Model(h, s)[k := v], s, k);
  }

  lemma UnlinkModel<K(!new), V>(h: K -> nat, s: State<K, V>, k: K)
    requires Ok(h, s)
    ensures Ok(h, Unlink(h, s, k)) && Model(h, Unlink(h, s, k)) == Model(h, s) - {k}
  {
    if TableGet(h, s.t0, k).Some? {
      TableRemove(h, s.t0, k);
      EmptyBucketStays(h, s, k);
    } else if TableGet(h, s.t1, k).Some? {
      TableRemove(h, s.t1, k);
    }
    ModelFromGets(h, Unlink(h, s, k), Model(h, s) - {k}, s, k);
  }

  lemma DistinctFirst<K, V>(b: Bucket<K, V>, j: nat)
    requires KeysDistinct(b) && j < |b|
    ensures FirstAt(b, b[j].0, j)
  {
  }

  lemma SetValTotals<K(!new), V>(h: K -> nat, s: State<K, V>, k: K, v: V)
    requires Ok(h, s)
    ensures Total(SetVal(h, s, k, v).t0) == Total(s.t0) && Total(SetVal(h, s, k, v).t1) == Total(s.t1)
  {
    if TableGet(h, s.t0, k).Some? {
      TableSetVal(h, s.t0, k, v);
    } else if TableGet(h, s.t1, k).Some? {
      TableSetVal(h, s.t1, k, v);
    }
  }

  /** What unlinking does to the buckets, given where the search of both tables stopped. */
  lemma UnlinkWhere<K(!new), V>(h: K -> nat, s: State<K, V>, k: K, t: int, i: nat, j: nat)
    requires (t == 0 || t == 1) && i < |if t == 0 then s.t0 else s.t1| &&
      i == Slot(h, k, |if t == 0 then s.t0 else s.t1|)
    requires FirstAt((if t == 0 then s.t0 else s.t1)[i], k, j)
    requires t == 1 ==> TableGet(h, s.t0, k).None? || j == |s.t1[i]|
    ensures j < |(if t == 0 then s.t0 else s.t1)[i]| ==>
              Unlink(h, s, k) == if t == 0 then s.(t0 := s.t0[i := Removed(s.t0[i], j)])
                else s.(t1 := s.t1[i := Removed(s.t1[i], j)])
    ensures Get(h, s, k).None? ==> Unlink(h, s, k) == s
  {
    var b := (if t == 0 then s.t0 else s.t1)[i];
    if j < |b| {
      ScanResult(b, k, j, b[j].1);
    }
  }

  /** Two places that store the same key are the same place. */
  lemma OnePlace<K(!new), V>(h: K -> nat, s: State<K, V>, t: int, idx: nat, j: nat, t': int, idx': nat, j': nat)
    requires Ok(h, s) && (t == 0 || t == 1) && (t' == 0 || t' == 1)
    requires idx < |if t == 0 then s.t0 else s.t1| && j < |(if t == 0 then s.t0 else s.t1)[idx]|
    requires idx' < |if t' == 0 then s.t0 else s.t1| && j' < |(if t' == 0 then s.t0 else s.t1)[idx']|
    requires (if t == 0 then s.t0 else s.t1)[idx][j].0 == (if t' == 0 then s.t0 else s.t1)[idx'][j'].0
    ensures t == t' && idx == idx' && j == j'
  {
    StoredAt(h, s, t, idx, j, (if t == 0 then s.t0 else s.t1)[idx][j].1);
    StoredAt(h, s, t', idx', j', (if t' == 0 then s.t0 else s.t1)[idx'][j'].1);
  }

  /** Where a stored pair is: its key is found there and nowhere else. */
  lemma StoredAt<K(!new), V>(h: K -> nat, s: State<K, V>, t: int, idx: nat, j: nat, v: V)
    requires Ok(h, s) && (t == 0 || t == 1) && idx < |if t == 0 then s.t0 else s.t1|
    requires j < |(if t == 0 then s.t0 else s.t1)[idx]|
    ensures var b := (if t == 0 then s.t0 else s.t1)[idx]; var k := b[j].0;
            && Get(h, s, k).Some? && FirstAt(b, k, j) && idx == Slot(h, k, |if t == 0 then s.t0 else s.t1|)
            && (TableGet(h, s.t0, k).Some? <==> t == 0)
            && SetVal(h, s, k, v) == if t == 0 then s.(t0 := s.t0[idx := b[j := (k, v)]])
              else s.(t1 := s.t1[idx := b[j := (k, v)]])
  {
    var b := (if t == 0 then s.t0 else s.t1)[idx];
    DistinctFirst(b, j);
    ScanResult(b, b[j].0, j, v);
  }

  lemma AddPresent<K(!new), V>(h: K -> nat, s: State<K, V>, k: K, v: V, iterators: int, canResize: bool)
    requires Ok(h, s) && Small(s)
    ensures var r := Add(h, s, k, v, iterators, canResize); !r.0 ==> Get(h, r.1, k).Some? && r.1.t0 != []
  {
    BeforeAddKeeps(h, s, iterators, canResize);
  }

  lemma ReplaceModel<K(!new), V>(h: K -> nat, s: State<K, V>, k: K, v: V, iterators: int, canResize: bool)
    requires Ok(h, s) && Small(s)
    ensures var r := Replace(h, s, k, v, iterators, canResize);
            Ok(h, r.1) && (r.0 <==> k !in Model(h, s)) && Model(h, r.1) == Model(h, s)[k := v]
  {
    hide Model, Ok, Add, AutoStep, SetVal;
    AddModel(h, s, k, v, iterators, canResize);
    var a := Add(h, s, k, v, iterators, canResize);
    if !a.0 {
      AutoStepKeeps(h, a.1, iterators);
      SameModel(h, a.1, AutoStep(h, a.1, iterators));
      ModelIsGet(h, AutoStep(h, a.1, iterators), k);
      SetValModel(h, AutoStep(h, a.1, iterators), k, v);
    }
  }

  lemma DeleteModel<K(!new), V>(h: K -> nat, s: State<K, V>, k: K, iterators: int)
    requires Ok(h, s)
    ensures var r := Delete(h, s, k, iterators);
            Ok(h, r.1) && (r.0 <==> k in Model(h, s)) && Model(h, r.1) == Model(h, s) - {k}
  {
    AutoStepKeeps(h, s, iterators);
    var b := AutoStep(h, s, iterators);
    SameModel(h, s, b);
    ModelIsGet(h, b, k);
    if s.t0 != [] {
      UnlinkModel(h, b, k);
    } else {
      assert k !in Model(h, s);
    }
  }

  lemma {:induction false} StepsKeep<K(!new), V>(h: K -> nat, s: State<K, V>, n: nat)
    requires Ok(h, s)
    ensures Ok(h, Steps(h, s, n)) && SameGets(h, s, Steps(h, s, n))
    decreases n
  {
    if n > 0 && s.Rehashing() {
      StepKeeps(h, s);
      StepsKeep(h, Step(h, s), n - 1);
    }
  }

  // ---------------------------------------------------------------- whole runs

  datatype Op<K, V> =
    | OpAdd(k: K, v: V) | OpReplace(k: K, v: V) | OpDelete(k: K) | OpFind(k: K)
    | OpExpand(size: nat) | OpResize | OpRehash(n: nat)

  /** The number of safe iterators and the resize policy at the time of an operation. */
  datatype Env = Env(iterators: int, canResize: bool)

  function Apply<K(==), V>(h: K -> nat, s: State<K, V>, op: Op<K, V>, e: Env): State<K, V> {
    match op
    case OpAdd(k, v) => Add(h, s, k, v, e.iterators, e.canResize).1
    case OpReplace(k, v) => Replace(h, s, k, v, e.iterators, e.canResize).1
    case OpDelete(k) => Delete(h, s, k, e.iterators).1
    case OpFind(k) => AfterFind(h, s, e.iterators)
    case OpExpand(size) => Expand(s, size).1
    case OpResize => Resize(s, e.canResize).1
    case OpRehash(n) => Steps(h, s, n)
  }

  /** What an operation tells its caller about the contents. */
  datatype Answer<V> = Nothing | Success(ok: bool) | Found(value: Option<V>)

  function AnswerOf<K(==), V>(h: K -> nat, s: State<K, V>, op: Op<K, V>, e: Env): Answer<V> {
    match op
    case OpAdd(k, v) => Success(Add(h, s, k, v, e.iterators, e.canResize).0)
    case OpReplace(k, v) => Success(Replace(h, s, k, v, e.iterators, e.canResize).0)
    case OpDelete(k) => Success(Delete(h, s, k, e.iterators).0)
    case OpFind(k) => Found(Get(h, AfterFind(h, s, e.iterators), k))
    case _ => Nothing
  }

  /** What the operation means for a finite map. */
  function ApplyMap<K(==), V>(m: map<K, V>, op: Op<K, V>): map<K, V> {
    match op
    case OpAdd(k, v) => if k in m then m else m[k := v]
    case OpReplace(k, v) => m[k := v]
    case OpDelete(k) => m - {k}
    case _ => m
  }

  function AnswerMap<K(==), V>(m: map<K, V>, op: Op<K, V>): Answer<V> {
    match op
    case OpAdd(k, _) => Success(k !in m)
    case OpReplace(k, _) => Success(k !in m)
    case OpDelete(k) => Success(k in m)
    case OpFind(k) => Found(if k in m then Some(m[k]) else None)
    case _ => Nothing
  }

  /** One operation in both worlds. */
  lemma ApplyModel<K(!new), V>(h: K -> nat, s: State<K, V>, op: Op<K, V>, e: Env)
    requires Ok(h, s) && Small(s) && (op.OpExpand? ==> op.size < LONG_MAX)
    ensures Ok(h, Apply(h, s, op, e)) && Model(h, Apply(h, s, op, e)) == ApplyMap(Model(h, s), op)
    ensures AnswerOf(h, s, op, e) == AnswerMap(Model(h, s), op)
  {
    hide Model, Ok, Add, Replace, Delete, AutoStep, Steps, Get;
    match op
    case OpAdd(k, v) => AddModel(h, s, k, v, e.iterators, e.canResize);
    case OpReplace(k, v) => ReplaceModel(h, s, k, v, e.iterators, e.canResize);
    case OpDelete(k) => DeleteModel(h, s, k, e.iterators);
    case OpFind(k) =>
      AutoStepKeeps(h, s, e.iterators);
      SameModel(h, s, AutoStep(h, s, e.iterators));
      ModelIsGet(h, AfterFind(h, s, e.iterators), k);
    case OpExpand(size) =>
      ExpandKeeps(h, s, size);
      SameModel(h, s, Expand(s, size).1);
    case OpResize =>
      ExpandKeeps(h, s, Minimal(Total(s.t0)));
      SameModel(h, s, Resize(s, e.canResize).1);
    case OpRehash(n) =>
      StepsKeep(h, s, n);
      SameModel(h, s, Steps(h, s, n));
  }

  /** A run: operations, each with what is in force when it is executed. */
  function Run<K(==), V>(h: K -> nat, s: State<K, V>, ops: seq<(Op<K, V>, Env)>): State<K, V>
    decreases |ops|
  {
    if ops == [] then s else Run(h, Apply(h, s, ops[0].0, ops[0].1), ops[1..])
  }

  function Answers<K(==), V>(h: K -> nat, s: State<K, V>, ops: seq<(Op<K, V>, Env)>): seq<Answer<V>>
    decreases |ops|
  {
    if ops == [] then []
    else [AnswerOf(h, s, ops[0].0, ops[0].1)] + Answers(h, Apply(h, s, ops[0].0, ops[0].1), ops[1..])
  }

  function RunMap<K(==), V>(m: map<K, V>, ops: seq<(Op<K, V>, Env)>): map<K, V>
    decreases |ops|
  {
    if ops == [] then m else RunMap(ApplyMap(m, ops[0].0), ops[1..])
  }

  function AnswersMap<K(==), V>(m: map<K, V>, ops: seq<(Op<K, V>, Env)>): seq<Answer<V>>
    decreases |ops|
  {
    if ops == [] then [] else [AnswerMap(m, ops[0].0)] + AnswersMap(ApplyMap(m, ops[0].0), ops[1..])
  }

  /** Sizes stay below LONG_MAX all through the run. */
  ghost predicate StaysSmall<K(!new), V>(h: K -> nat, s: State<K, V>, ops: seq<(Op<K, V>, Env)>)
    decreases |ops|
  {
    ops != [] ==>
      && Small(s) && (ops[0].0.OpExpand? ==> ops[0].0.size < LONG_MAX)
      && StaysSmall(h, Apply(h, s, ops[0].0, ops[0].1), ops[1..])
  }

  /** Every run of the two-table dictionary gives the answers and the contents of the same run on one finite map. */
  lemma {:induction false} RunModel<K(!new), V>(h: K -> nat, s: State<K, V>, ops: seq<(Op<K, V>, Env)>)
    requires Ok(h, s) && StaysSmall(h, s, ops)
    ensures Ok(h, Run(h, s, ops)) && Model(h, Run(h, s, ops)) == RunMap(Model(h, s), ops)
    ensures Answers(h, s, ops) == AnswersMap(Model(h, s), ops)
    ensures |Model(h, Run(h, s, ops))| == Total(Run(h, s, ops).t0) + Total(Run(h, s, ops).t1)
    decreases |ops|
  {
    hide Model, Ok, Apply, Small, AnswerOf, AnswerMap, ApplyMap;
    if ops == [] {
      UsedIsExact(h, s);
    } else {
      ApplyModel(h, s, ops[0].0, ops[0].1);
      RunModel(h, Apply(h, s, ops[0].0, ops[0].1), ops[1..]);
    }
  }
}
