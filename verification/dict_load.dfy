/** How full a dictionary gets, and how long a rehash lasts, over runs of operations. */
module DictLoad {
  import opened Bytes
  import opened DictSpec
  import opened DictOps

  function Used<K, V>(s: State<K, V>): nat {
    Total(s.t0) + Total(s.t1)
  }

  /** The operations that clients cause; they all advance a rehash when no iterator is open. */
  predicate Ordinary<K, V>(op: Op<K, V>) {
    op.OpAdd? || op.OpReplace? || op.OpDelete? || op.OpFind?
  }

  // ----- One step of a rehash -----

  lemma StepShape<K(!new), V>(h: K -> nat, s: State<K, V>)
    requires Ok(h, s) && s.Rehashing()
    ensures var r := Step(h, s);
      && Ok(h, r) && Used(r) == Used(s) && 0 <= s.rehashidx <= |s.t0|
      && (if r.Rehashing() then s.rehashidx < r.rehashidx <= |r.t0| == |s.t0| && |r.t1| == |s.t1|
          else r == State(s.t1, [], -1))
  {
    hide Ok, Drain, TableOk;
    OkBounds(h, s);
    StepKeeps(h, s);
  }

  lemma AutoStepShape<K(!new), V>(h: K -> nat, s: State<K, V>)
    requires Ok(h, s)
    ensures AutoStep(h, s, 0) == if s.Rehashing() then Step(h, s) else s
    ensures Ok(h, AutoStep(h, s, 0)) && Used(AutoStep(h, s, 0)) == Used(s)
  {
    hide Step, Ok, Total;
    OkBounds(h, s);
    AutoStepKeeps(h, s, 0);
  }

  // ----- When a table grows -----

  /** What dictAdd does to the tables before it looks for its key, without iterators and between two rehashes: the
      first table has 4 buckets; a full one starts to move into one of at least twice as many buckets as there are
      elements, if resizing is allowed or there are 6 times as many; and otherwise nothing changes. */
  lemma GrowsExactlyIf<K(!new), V>(h: K -> nat, s: State<K, V>, canResize: bool)
    requires Ok(h, s) && Small(s) && !s.Rehashing()
    ensures var b := BeforeAdd(h, s, 0, canResize);
      if s.t0 == [] then !b.Rehashing() && |b.t0| == 4
      else if Total(s.t0) >= |s.t0| && (canResize || Total(s.t0) >= 6 * |s.t0|) then
        && b.Rehashing() && b.rehashidx == 0 && b.t0 == s.t0 && PowerOfTwo(|b.t1|) && 2 * Total(s.t0) <= |b.t1|
        && forall f: nat :: 2 * Total(s.t0) <= Power(f) && 4 <= Power(f) ==> |b.t1| <= Power(f)
      else b == s
  {
    hide Ok, NextPower, Total, PowerOfTwo, Power;
    OkBounds(h, s);
    AutoStepShape(h, s);
    if s.t0 == [] {
      assert Total(s.t0) == 0 by { TotalNil<K, V>(); }
      FirstSize();
    } else {
      Ratio(Total(s.t0), |s.t0|);
      if Total(s.t0) >= |s.t0| {
        NextPowerLeast(2 * Total(s.t0));
      }
    }
  }

  /** dictExpand succeeds exactly outside a rehash if the size asked for holds the elements; the new table then has the
      least power of two of buckets from that size and from 4 on. */
  lemma ExpandsExactlyIf<K(!new), V>(h: K -> nat, s: State<K, V>, size: nat)
    requires Ok(h, s) && size < LONG_MAX
    ensures var r := Expand(s, size);
      if s.Rehashing() || Total(s.t0) > size then r == (false, s)
      else
        var n := |if s.t0 == [] then r.1.t0 else r.1.t1|;
        && r.0 && (r.1.Rehashing() <==> s.t0 != []) && (s.t0 != [] ==> r.1.t0 == s.t0 && r.1.rehashidx == 0)
        && PowerOfTwo(n) && size <= n && 4 <= n
        && forall f: nat :: size <= Power(f) && 4 <= Power(f) ==> n <= Power(f)
  {
    hide NextPower, Total, PowerOfTwo, Power, TableOk;
    NextPowerLeast(size);
  }

  lemma FirstSize()
    ensures NextPower(4) == 4
  {
  }

  lemma Ratio(a: nat, n: nat)
    requires n > 0
    ensures a / n > 5 <==> a >= 6 * n
  {
    var q := a / n;
    assert a == q * n + a % n;
    if q >= 6 {
      AtLeast(q, 6, n);
    } else {
      AtLeast(5, q, n);
    }
  }

  lemma AtLeast(x: nat, y: nat, n: nat)
    requires x >= y
    ensures x * n >= y * n
  {
  }

  // ----- The load -----

  /** Outside a rehash there is at most one element more than there are buckets. During one, every old bucket that is
      still to be moved leaves room for one more element in the new table. */
  ghost predicate Loaded<K(!new), V>(s: State<K, V>) {
    if s.Rehashing() then Used(s) + |s.t0| <= |s.t1| + 1 + s.rehashidx else Used(s) <= |s.t0| + 1
  }

  lemma AutoStepLoaded<K(!new), V>(h: K -> nat, s: State<K, V>)
    requires Ok(h, s) && Loaded(s)
    ensures Loaded(AutoStep(h, s, 0)) && Ok(h, AutoStep(h, s, 0))
    ensures s.Rehashing() && AutoStep(h, s, 0).Rehashing() ==>
      var r := AutoStep(h, s, 0); Used(r) + 1 + |r.t0| <= |r.t1| + 1 + r.rehashidx
  {
    hide Ok, Step, AutoStep, Used;
    AutoStepShape(h, s);
    if s.Rehashing() {
      StepShape(h, s);
    }
  }

  lemma ExpandLoaded<K(!new), V>(h: K -> nat, a: State<K, V>)
    requires Ok(h, a) && Small(a) && !a.Rehashing() && Loaded(a)
    ensures var e := ExpandIfNeeded(a, true).1;
      Used(e) == Used(a) &&
      if e.Rehashing() then Used(e) + 1 + |e.t0| <= |e.t1| + 1 + e.rehashidx else Used(e) <= |e.t0|
  {
    hide Ok, Total, NextPower;
    OkBounds(h, a);
    assert Total(a.t1) == 0 by { TotalNil<K, V>(); }
    ExpandIfNeededKeeps(h, a, true);
    if a.t0 == [] {
      assert Total(a.t0) == 0 by { TotalNil<K, V>(); }
    } else if Total(a.t0) >= |a.t0| {
      NextPowerLeast(2 * Total(a.t0));
    }
  }

  lemma AddLoaded<K(!new), V>(h: K -> nat, s: State<K, V>, k: K, v: V)
    requires Ok(h, s) && Small(s) && Loaded(s)
    ensures Ok(h, Add(h, s, k, v, 0, true).1) && Loaded(Add(h, s, k, v, 0, true).1)
  {
    hide Ok, AutoStep, ExpandIfNeeded, Insert, Get, Used, Add, Small;
    var a := AutoStep(h, s, 0);
    AutoStepLoaded(h, s);
    AutoStepShape(h, s);
    AddSteps(h, s, k, v, 0, true);
    var e := ExpandIfNeeded(a, true).1;
    BeforeAddKeeps(h, s, 0, true);
    if a.Rehashing() {
      NoSecondGrowth(a);
    } else {
      ExpandLoaded(h, a);
    }
    if Get(h, e, k).None? {
      InsertShape(h, e, k, v);
    }
  }

  lemma NoSecondGrowth<K(!new), V>(a: State<K, V>)
    requires a.Rehashing()
    ensures ExpandIfNeeded(a, true) == (true, a)
  {
  }

  lemma InsertShape<K(!new), V>(h: K -> nat, b: State<K, V>, k: K, v: V)
    requires Ok(h, b) && b.t0 != [] && Get(h, b, k).None?
    ensures var r := Insert(h, b, k, v);
      |r.t0| == |b.t0| && |r.t1| == |b.t1| && r.rehashidx == b.rehashidx && Used(r) == Used(b) + 1
  {
    hide Ok, Get, Total, TableOk;
    InsertKeeps(h, b, k, v);
  }

  lemma SetValShape<K(!new), V>(h: K -> nat, s: State<K, V>, k: K, v: V)
    requires Ok(h, s)
    ensures var r := SetVal(h, s, k, v);
      |r.t0| == |s.t0| && |r.t1| == |s.t1| && r.rehashidx == s.rehashidx && Used(r) == Used(s)
  {
    hide Ok, Total, SetIn;
    SetValTotals(h, s, k, v);
  }

  lemma UnlinkShape<K(!new), V>(h: K -> nat, s: State<K, V>, k: K)
    requires Ok(h, s)
    ensures var r := Unlink(h, s, k);
      |r.t0| == |s.t0| && |r.t1| == |s.t1| && r.rehashidx == s.rehashidx && Used(r) <= Used(s)
  {
    hide Ok, Total, RemoveFrom, TableGet, TableOk;
    OkTables(h, s);
    if TableGet(h, s.t0, k).Some? {
      TableRemove(h, s.t0, k);
    } else if TableGet(h, s.t1, k).Some? {
      TableRemove(h, s.t1, k);
    }
  }

  lemma OkTables<K(!new), V>(h: K -> nat, s: State<K, V>)
    requires Ok(h, s)
    ensures TableOk(h, s.t0) && TableOk(h, s.t1)
  {
  }

  lemma DeleteLoaded<K(!new), V>(h: K -> nat, s: State<K, V>, k: K)
    requires Ok(h, s) && Loaded(s)
    ensures Loaded(Delete(h, s, k, 0).1)
  {
    hide Ok, AutoStep, Unlink, Used, Get;
    AutoStepLoaded(h, s);
    UnlinkShape(h, AutoStep(h, s, 0), k);
  }

  lemma ReplaceLoaded<K(!new), V>(h: K -> nat, s: State<K, V>, k: K, v: V)
    requires Ok(h, s) && Small(s) && Loaded(s)
    ensures Loaded(Replace(h, s, k, v, 0, true).1)
  {
    hide Ok, Add, AutoStep, SetVal, Used, Small;
    AddLoaded(h, s, k, v);
    var a := Add(h, s, k, v, 0, true);
    if !a.0 {
      AutoStepLoaded(h, a.1);
      SetValShape(h, AutoStep(h, a.1, 0), k, v);
    }
  }

  /** One operation without iterators keeps the bound, if resizing is allowed. */
  lemma ApplyLoaded<K(!new), V>(h: K -> nat, s: State<K, V>, op: Op<K, V>)
    requires Ok(h, s) && Small(s) && Loaded(s) && Ordinary(op)
    ensures Loaded(Apply(h, s, op, Env(0, true))) && Ok(h, Apply(h, s, op, Env(0, true)))
  {
    hide Ok, Add, Replace, Delete, AutoStep, Loaded, Small, Model;
    ApplyModel(h, s, op, Env(0, true));
    match op
    case OpAdd(k, v) => AddLoaded(h, s, k, v);
    case OpReplace(k, v) => ReplaceLoaded(h, s, k, v);
    case OpDelete(k) => DeleteLoaded(h, s, k);
    case OpFind(_) => AutoStepLoaded(h, s);
  }

  /** A run of ordinary operations without iterators while resizing is allowed. */
  predicate Plain<K, V>(ops: seq<(Op<K, V>, Env)>) {
    forall j :: 0 <= j < |ops| ==> Ordinary(ops[j].0) && ops[j].1 == Env(0, true)
  }

  /**
    * Over every such run from an empty dictionary, whatever is added, replaced, deleted and looked up: the newest table
    * never has more than one element more than it has buckets, so chains stay short on average.
    */
  lemma {:induction false} RunLoaded<K(!new), V>(h: K -> nat, s: State<K, V>, ops: seq<(Op<K, V>, Env)>)
    requires Ok(h, s) && Loaded(s) && Plain(ops) && StaysSmall(h, s, ops)
    ensures var r := Run(h, s, ops);
      Ok(h, r) && Loaded(r) && Used(r) <= (if r.Rehashing() then |r.t1| else |r.t0|) + 1
    decreases |ops|
  {
    hide Ok, Apply, Small, Used;
    if ops == [] {
      OkBounds(h, s);
    } else {
      assert Ordinary(ops[0].0) && ops[0].1 == Env(0, true);
      ApplyLoaded(h, s, ops[0].0);
      RunLoaded(h, Apply(h, s, ops[0].0, ops[0].1), ops[1..]);
    }
  }

  // ----- How long a rehash lasts -----

  /** The rehash has advanced, or the new table has taken the place of the old one. */
  predicate Advanced<K, V>(s: State<K, V>, r: State<K, V>) {
    || (r.Rehashing() && |r.t0| == |s.t0| && |r.t1| == |s.t1| && r.rehashidx > s.rehashidx)
    || |r.t0| == |s.t1|
  }

  lemma AddAdvances<K(!new), V>(h: K -> nat, s: State<K, V>, k: K, v: V, canResize: bool)
    requires Ok(h, s) && Small(s) && s.Rehashing()
    ensures Advanced(s, Add(h, s, k, v, 0, canResize).1)
  {
    hide Ok, AutoStep, Insert, Get, Used, Small, Total, NextPower, Step;
    var a := AutoStep(h, s, 0);
    AutoStepShape(h, s);
    StepShape(h, s);
    AddSteps(h, s, k, v, 0, canResize);
    BeforeAddKeeps(h, s, 0, canResize);
    ExpandSizes(a, canResize);
    OkBounds(h, s);
    var e := ExpandIfNeeded(a, canResize).1;
    if Get(h, e, k).None? {
      InsertShape(h, e, k, v);
    }
  }

  lemma ExpandSizes<K, V>(a: State<K, V>, canResize: bool)
    ensures var e := ExpandIfNeeded(a, canResize).1;
      (a.t0 != [] ==> |e.t0| == |a.t0|) && (a.Rehashing() ==> e == a)
  {
    hide Total, NextPower;
  }

  /** A rehash that has just begun does not end with its first step. */
  lemma NewRehashGoesOn<K(!new), V>(h: K -> nat, a: State<K, V>, canResize: bool)
    requires Ok(h, a) && Small(a) && !a.Rehashing() && a.t0 != []
    ensures var e := ExpandIfNeeded(a, canResize).1;
      Ok(h, e) && |e.t0| == |a.t0| && |AutoStep(h, e, 0).t0| == |e.t0|
  {
    hide Ok, NextPower, Step, AutoStep, Total;
    ExpandIfNeededKeeps(h, a, canResize);
    var e := ExpandIfNeeded(a, canResize).1;
    AutoStepShape(h, e);
    if e.Rehashing() {
      StepKeeps(h, e);
      StepShape(h, e);
    }
  }

  lemma ReplaceAdvances<K(!new), V>(h: K -> nat, s: State<K, V>, k: K, v: V, canResize: bool)
    requires Ok(h, s) && Small(s) && s.Rehashing()
    ensures Advanced(s, Replace(h, s, k, v, 0, canResize).1)
  {
    hide Ok, AutoStep, SetVal, Used, Small, Step, Insert, Get, ExpandIfNeeded, Total;
    AddAdvances(h, s, k, v, canResize);
    AddSteps(h, s, k, v, 0, canResize);
    AutoStepShape(h, s);
    StepShape(h, s);
    OkBounds(h, s);
    var a := AutoStep(h, s, 0);
    var e := ExpandIfNeeded(a, canResize).1;
    if Get(h, e, k).Some? {
      AutoStepShape(h, e);
      SetValShape(h, AutoStep(h, e, 0), k, v);
      if a.Rehashing() {
        ExpandSizes(a, canResize);
        StepShape(h, a);
      } else {
        NewRehashGoesOn(h, a, canResize);
      }
    }
  }

  lemma DeleteAdvances<K(!new), V>(h: K -> nat, s: State<K, V>, k: K)
    requires Ok(h, s) && s.Rehashing()
    ensures Advanced(s, Delete(h, s, k, 0).1) && Advanced(s, AfterFind(h, s, 0))
  {
    hide Ok, AutoStep, Unlink, Used, Get, Step;
    OkBounds(h, s);
    AutoStepShape(h, s);
    StepShape(h, s);
    UnlinkShape(h, AutoStep(h, s, 0), k);
  }

  /** Each ordinary operation without iterators moves at least one bucket. */
  lemma ApplyAdvances<K(!new), V>(h: K -> nat, s: State<K, V>, op: Op<K, V>, canResize: bool)
    requires Ok(h, s) && Small(s) && s.Rehashing() && Ordinary(op)
    ensures Advanced(s, Apply(h, s, op, Env(0, canResize)))
  {
    hide Ok, Add, Replace, Delete, AfterFind, Advanced, Small;
    match op
    case OpAdd(k, v) => AddAdvances(h, s, k, v, canResize);
    case OpReplace(k, v) => ReplaceAdvances(h, s, k, v, canResize);
    case OpDelete(k) => DeleteAdvances(h, s, k);
    case OpFind(k) => DeleteAdvances(h, s, k);
  }

  /**
    * A rehash ends: of any run of ordinary operations without iterators, at most as many as old buckets are left, and
    * one more, pass until the new table has taken the place of the old one.
    */
  lemma {:induction false} RehashEnds<K(!new), V>(h: K -> nat, s: State<K, V>, ops: seq<(Op<K, V>, Env)>)
    returns (m: nat)
    requires Ok(h, s) && s.Rehashing() && StaysSmall(h, s, ops) && |ops| > |s.t0| - s.rehashidx
    requires forall j :: 0 <= j < |ops| ==> Ordinary(ops[j].0) && ops[j].1.iterators == 0
    ensures 0 < m <= |ops| && m <= |s.t0| - s.rehashidx + 1 && |Run(h, s, ops[..m]).t0| == |s.t1|
    decreases |ops|
  {
    hide Ok, Apply, Small, Model;
    OkBounds(h, s);
    var op, e := ops[0].0, ops[0].1;
    assert Ordinary(ops[0].0) && ops[0].1.iterators == 0;
    assert e == Env(0, e.canResize);
    var r := Apply(h, s, op, e);
    ApplyModel(h, s, op, e);
    ApplyAdvances(h, s, op, e.canResize);
    if |r.t0| == |s.t1| {
      m := 1;
      OneOperation(h, s, ops);
    } else {
      OkBounds(h, r);
      var n := RehashEnds(h, r, ops[1..]);
      m := n + 1;
      assert ops[..m][0] == ops[0] && ops[..m][1..] == ops[1..][..n];
    }
  }

  lemma OneOperation<K(!new), V>(h: K -> nat, s: State<K, V>, ops: seq<(Op<K, V>, Env)>)
    requires ops != []
    ensures Run(h, s, ops[..1]) == Apply(h, s, ops[0].0, ops[0].1)
  {
    hide Apply;
    assert ops[..1][1..] == [];
    assert Run(h, Apply(h, s, ops[0].0, ops[0].1), []) == Apply(h, s, ops[0].0, ops[0].1);
  }
}
