/** lzf_compress: match finding through a hash table that nobody initialises, deferred run headers, and the
    arithmetic that keeps every write inside the buffer. Positions are indices; a pointer is an address. */
module LzfCompress {
  import opened Bytes
  import opened LzfSpec
  import opened LzfPack

  /** The instructions `done` decode to the input before ip. */
  ghost predicate Complete(inp: seq<byte>, done: seq<byte>, ip: int) {
    0 <= ip <= |inp| && Decode(done, [], |inp|) == Done(inp[..ip])
  }

  /** The output begins with `done` and has nothing else yet. */
  ghost predicate Written(out: seq<byte>, done: seq<byte>, op: int) {
    op == |done| && op <= |out| && out[..op] == done
  }

  /** The output is `done`, finished for all input before position ip - lit, then the byte kept free for the header of
      the open run, then the lit bytes of that run. */
  ghost predicate OpenRun(inp: seq<byte>, out: seq<byte>, done: seq<byte>, ip: int, op: int, lit: int) {
    && 0 <= lit <= ip <= |inp| && lit < MAX_LIT && op == |done| + 1 + lit && op <= |out|
    && Complete(inp, done, ip - lit) && out[..|done|] == done && out[op - lit..op] == inp[ip - lit..ip]
  }

  /** Expansion bound: finished instructions take at most one extra byte for each 32 bytes of input. */
  ghost predicate Tight(ip: int, op: int, lit: int) {
    op - lit - 1 <= (ip - lit) + (ip - lit) / 32
  }

  lemma OpenRunAtStart(inp: seq<byte>, out: seq<byte>)
    requires out != []
    ensures OpenRun(inp, out, [], 0, 1, 0) && Tight(0, 1, 0)
  {
    assert out[1..1] == inp[0..0] == [] && out[..0] == [];
  }

  lemma OpenRunAfter(inp: seq<byte>, out: seq<byte>, done: seq<byte>, ip: int, op: int)
    requires Complete(inp, done, ip) && Written(out, done, op) && op < |out|
    ensures OpenRun(inp, out, done, ip, op + 1, 0)
  {
  }

  /** Ending a run gives finished instructions for the input up to its end. */
  lemma EndRunComplete(inp: seq<byte>, done: seq<byte>, ip: int, lit: int)
    requires 0 <= lit <= ip <= |inp| && lit <= MAX_LIT && Complete(inp, done, ip - lit)
    ensures Complete(inp, EndRun(inp, done, ip, lit), ip)
  {
    hide Decode;
    if lit > 0 {
      var run: seq<byte> := [lit - 1] + inp[ip - lit..ip];
      assert run[1..] == inp[ip - lit..ip];
      AppendLiteral(done, run, inp, ip - lit);
      assert EndRun(inp, done, ip, lit) == done + run;
    }
  }

  lemma HeaderWritten(inp: seq<byte>, before: seq<byte>, after: seq<byte>, done: seq<byte>, ip: int, op: int, lit: int)
    requires 0 < lit <= ip <= |inp| && lit <= MAX_LIT && op == |done| + 1 + lit && op <= |before| == |after|
    requires before[..|done|] == done && before[op - lit..op] == inp[ip - lit..ip]
    requires after == before[|done| := lit - 1]
    ensures Written(after, EndRun(inp, done, ip, lit), op)
  {
    assert after[..op] == before[..|done|] + [lit - 1] + before[op - lit..op];
  }

  /** Ends the open run: writes its header, or takes the header's byte back if the run is empty. */
  method StopRun(inp: array<byte>, out: array<byte>, ghost done: seq<byte>, ip: int, op: int, lit: int)
    returns (p: int)
    requires inp != out && 0 <= lit <= ip <= inp.Length && lit <= MAX_LIT && op == |done| + 1 + lit && op <= out.Length
    requires Complete(inp[..], done, ip - lit) && out[..|done|] == done
    requires out[op - lit..op] == inp[ip - lit..ip]
    modifies out
    ensures p == op - Not(lit)
    ensures Written(out[..], EndRun(inp[..], done, ip, lit), p) && Complete(inp[..], EndRun(inp[..], done, ip, lit), ip)
    ensures forall k :: 0 <= k < out.Length && k != op - lit - 1 ==> out[k] == old(out[k])
  {
    hide Complete;
    ghost var before := out[..];
    out[op - lit - 1] := (lit - 1) % 256;
    p := op - Not(lit);
    EndRunComplete(inp[..], done, ip, lit);
    if lit > 0 {
      HeaderWritten(inp[..], before, out[..], done, ip, op, lit);
    }
  }

  /** Copies one more byte into the open run, and ends the run when it reaches MAX_LIT. */
  method PutLiteral(inp: array<byte>, out: array<byte>, ghost done: seq<byte>, ip: int, op: int, lit: int)
    returns (ip': int, op': int, lit': int)
    requires inp != out && OpenRun(inp[..], out[..], done, ip, op, lit) && Tight(ip, op, lit)
    requires ip < inp.Length && op + 1 < out.Length
    modifies out
    ensures ip' == ip + 1 && op' == op + (if lit + 1 == MAX_LIT then 2 else 1)
    ensures lit' == if lit + 1 == MAX_LIT then 0 else lit + 1
    ensures var r := AddLiteral(inp[..], done, ip, lit); lit' == r.1 && OpenRun(inp[..], out[..], r.0, ip', op', lit')
    ensures Tight(ip', op', lit')
    ensures forall k :: op < k < out.Length ==> out[k] == old(out[k])
  {
    hide Complete, EndRun;
    ghost var before := out[..];
    out[op] := inp[ip];
    ip', op', lit' := ip + 1, op + 1, lit + 1;
    RunGrows(inp[..], before, out[..], |done|, ip, op, lit);
    if lit' == MAX_LIT {
      op' := StopRun(inp, out, done, ip', op', lit');
      OpenRunAfter(inp[..], out[..], EndRun(inp[..], done, ip', lit'), ip', op');
      lit' := 0;
      op' := op' + 1;
    }
  }

  lemma RunGrows(inp: seq<byte>, before: seq<byte>, after: seq<byte>, n: nat, ip: int, op: int, lit: int)
    requires 0 <= lit <= ip < |inp| && op == n + 1 + lit && op < |before|
    requires before[op - lit..op] == inp[ip - lit..ip] && after == before[op := inp[ip]]
    ensures after[..n] == before[..n] && after[op - lit..op + 1] == inp[ip - lit..ip + 1]
  {
    assert after[op - lit..op + 1] == before[op - lit..op] + [inp[ip]];
    assert inp[ip - lit..ip + 1] == inp[ip - lit..ip] + [inp[ip]];
  }

  lemma ExtendOne(inp: seq<byte>, ref: nat, ip: nat, len: nat, limit: nat)
    requires ref < ip
    ensures Extend(inp, ref, ip, len, limit) ==
      if len < limit && ip + len < |inp| && inp[ref + len] == inp[ip + len]
      then Extend(inp, ref, ip, len + 1, limit) else len
  {
  }

  /** Number of equal bytes from ref and ip on, at least 3: sixteen unrolled comparisons if they cannot pass
      maxlen by more than two, then one at a time. */
  method MatchLength(inp: array<byte>, ref: int, ip: int) returns (len: int)
    requires 0 <= ref < ip && ip + 4 < inp.Length && Match(inp[..], ref, ip, 3)
    ensures 3 <= len <= MAX_REF && ip + len <= inp.Length && Match(inp[..], ref, ip, len)
    ensures len < MAX_REF && ip + len + 2 < inp.Length ==> inp[ref + len] != inp[ip + len]
    ensures len == MatchLen(inp[..], ref, ip)
  {
    hide Extend;
    ghost var s := inp[..];
    len := 2;
    var maxlen := inp.Length - ip - len;
    maxlen := if maxlen > MAX_REF then MAX_REF else maxlen;
    if maxlen > 16 {
      for round := 0 to 16
        invariant len == 2 + round && Match(s, ref, ip, len + 1)
        invariant Extend(s, ref, ip, 3, 19) == Extend(s, ref, ip, len + 1, 19)
      {
        len := len + 1;
        ExtendOne(s, ref, ip, len, 19);
        if inp[ref + len] != inp[ip + len] { return; }
      }
      ExtendOne(s, ref, ip, 19, 19);
    }
    len := len + 1;
    ghost var from := len;
    while len < maxlen && inp[ref + len] == inp[ip + len]
      invariant 3 <= len && (len <= maxlen || len == 19) && Match(s, ref, ip, len)
      invariant Extend(s, ref, ip, from, maxlen) == Extend(s, ref, ip, len, maxlen)
    {
      ExtendOne(s, ref, ip, len, maxlen);
      len := len + 1;
    }
    ExtendOne(s, ref, ip, len, maxlen);
  }

  lemma CodeHead(off: int, len: int)
    requires 0 <= off < MAX_OFF && 3 <= len <= MAX_REF
    ensures Head(Code(off, len)) == BackRef(off + 1, len, |Code(off, len)|)
  {
  }

  lemma CodeComplete(inp: seq<byte>, done: seq<byte>, ip: int, off: int, len: int)
    requires Complete(inp, done, ip) && 0 <= off < MAX_OFF && 3 <= len <= MAX_REF && 0 <= ip - off - 1
    requires Match(inp, ip - off - 1, ip, len)
    ensures Complete(inp, done + Code(off, len), ip + len)
  {
    hide Decode, Head, Code;
    CodeHead(off, len);
    AppendBackRef(done, Code(off, len), inp, ip - off - 1, ip, len);
  }

  /** Writes a back reference of `len` bytes at distance off + 1. */
  method PutBackRef(inp: array<byte>, out: array<byte>, ghost done: seq<byte>, ip: int, op: int, off: int, len: int)
    returns (p: int)
    requires inp != out && Complete(inp[..], done, ip) && Written(out[..], done, op) && op + 3 < out.Length
    requires 0 <= off < MAX_OFF && 3 <= len <= MAX_REF && 0 <= ip - off - 1 && Match(inp[..], ip - off - 1, ip, len)
    modifies out
    ensures p == op + (if len < 9 then 2 else 3)
    ensures Written(out[..], done + Code(off, len), p) && Complete(inp[..], done + Code(off, len), ip + len)
    ensures forall k :: p <= k < out.Length ==> out[k] == old(out[k])
  {
    hide Complete, Match;
    ghost var before := out[..];
    var code := len - 2;
    p := op;
    if code < 7 {
      out[p] := off / 256 + code * 32;
      p := p + 1;
    } else {
      out[p] := off / 256 + 7 * 32;
      p := p + 1;
      out[p] := code - 7;
      p := p + 1;
    }
    out[p] := off % 256;
    p := p + 1;
    assert out[..op] == before[..op];
    assert out[op..p] == Code(off, len);
    assert out[..p] == out[..op] + out[op..p];
    CodeComplete(inp[..], done, ip, off, len);
  }

  /** `off` of the C code: a subtraction of addresses as unsigned longs. */
  function Distance(base: nat, ip: nat, entry: nat): (off: nat)
    requires MAX_OFF <= base && base + ip < TWO_64 && entry < TWO_64
    ensures off < MAX_OFF <==> entry < base + ip && base + ip - entry <= MAX_OFF
    ensures off < MAX_OFF ==> off == base + ip - entry - 1
  {
    var d := base + ip - entry - 1;
    assert d < 0 ==> d % TWO_64 == d + TWO_64 && d + TWO_64 >= MAX_OFF;
    d % TWO_64
  }

  /** The test on a hash-table entry: near enough, strictly inside the input, and followed by the same three bytes.
      Arbitrary table contents are harmless because the bytes are read only after the first three conditions. */
  predicate Usable(inp: seq<byte>, base: nat, ip: nat, entry: nat)
    requires MAX_OFF <= base && base + |inp| < TWO_64 && entry < TWO_64 && ip + 2 < |inp|
    ensures Usable(inp, base, ip, entry) ==>
      Distance(base, ip, entry) < MAX_OFF && 0 < entry - base < ip && ip + 4 < |inp| && SameThree(inp, entry - base, ip)
  {
    && Distance(base, ip, entry) < MAX_OFF
    && ip + 4 < |inp|
    && base < entry
    && SameThree(inp, entry - base, ip)
  }

  /** The array holds the addresses of the stored positions; the other slots hold whatever they held. */
  ghost predicate Holds(htab: seq<int>, base: nat, ip: nat, tab: Positions) {
    && |htab| == HSIZE && (forall k :: 0 <= k < HSIZE ==> 0 <= htab[k] < TWO_64)
    && forall k :: k in tab ==> k < HSIZE && tab[k] < ip && htab[k] == base + tab[k]
  }

  lemma HoldsStore(inp: seq<byte>, htab: seq<int>, base: nat, ip: nat, q: nat, tab: Positions)
    requires Holds(htab, base, ip, tab) && q + 2 < |inp| && base + q < TWO_64
    ensures Holds(htab[SlotAt(inp, q) := base + q], base, if q < ip then ip else q + 1, Store(inp, tab, q))
  {
    hide SlotAt;
  }

  /** The test on the real entry accepts exactly what the stored positions offer: an entry that is there by chance
      would need the same three bytes at an earlier position, and then its slot would have been written since. */
  lemma ChanceNeverHits(inp: seq<byte>, htab: seq<int>, base: nat, ip: nat, tab: Positions)
    requires MAX_OFF <= base && base + |inp| < TWO_64 && ip + 2 < |inp|
    requires Holds(htab, base, ip, tab) && Covered(inp, ip, tab)
    ensures var entry := htab[SlotAt(inp, ip)];
      Look(inp, ip, tab) == if Usable(inp, base, ip, entry) then Some(entry - base) else None
  {
    hide SlotAt, Distance;
    var h := SlotAt(inp, ip);
    var entry := htab[h];
    if Usable(inp, base, ip, entry) && h !in tab {
      var ref: nat := entry - base;
      SameThreeSameSlot(inp, ref, ip);
      assert false;
    }
  }

  /** Stores the addresses of the last two positions of a match. */
  method Rehash(inp: array<byte>, base: nat, htab: array<int>, ip0: int, ghost tab: Positions) returns (hval: int)
    requires htab.Length == HSIZE && 2 <= ip0 && ip0 + 2 < inp.Length && base + inp.Length < TWO_64
    requires Holds(htab[..], base, ip0, tab)
    modifies htab
    ensures Holds(htab[..], base, ip0, Store(inp[..], Store(inp[..], tab, ip0 - 2), ip0 - 1))
    ensures hval % 0x1_0000 == First(inp[ip0], inp[ip0 + 1])
  {
    hide Holds, Slot, SlotAt, NextHash, Store;
    ghost var s := inp[..];
    var ip := ip0 - 2;
    hval := First(inp[ip], inp[ip + 1]);
    RollingSlot(s, ip, hval);
    hval := NextHash(hval, inp[ip + 2]);
    HoldsStore(s, htab[..], base, ip0, ip, tab);
    htab[Slot(hval)] := base + ip;
    ip := ip + 1;
    RollingSlot(s, ip, hval);
    hval := NextHash(hval, inp[ip + 2]);
    HoldsStore(s, htab[..], base, ip0, ip, Store(s, tab, ip - 1));
    htab[Slot(hval)] := base + ip;
  }

  lemma TightAfterMatch(ip: int, op: int, lit: int, len: int)
    requires Tight(ip, op, lit) && 0 <= lit <= ip && 3 <= len
    ensures Tight(ip + len, op - Not(lit) + (if len < 9 then 2 else 3) + 1, 0)
  {
  }

  /** What the expansion bound leaves: the checks against outLen pass if the output may be this large. */
  lemma RoomLeft(ip: int, op: int, lit: int, inLen: int)
    requires Tight(ip, op, lit) && 0 <= lit <= ip <= inLen
    ensures op <= ip + ip / 32 + 1 <= inLen + inLen / 32 + 1
  {
  }

  lemma SameThreeMatches(inp: seq<byte>, ref: nat, ip: nat)
    requires ref < ip && ip + 4 < |inp| && SameThree(inp, ref, ip)
    ensures Match(inp, ref, ip, 3)
  {
  }

  /** The branch taken when a match was found: ends the open run, writes the back reference and starts a new run.
      Fails, before the back reference is written, exactly when its four bytes might not fit. */
  method PutMatch(inp: array<byte>, out: array<byte>, outLen: nat, ghost done: seq<byte>, ip: int, op: int, lit: int,
                  off: int)
    returns (ok: bool, ip': nat, op': nat)
    requires inp != out && outLen < out.Length
    requires OpenRun(inp[..], out[..], done, ip, op, lit) && Tight(ip, op, lit) && op <= outLen + 1
    requires 0 <= off < MAX_OFF && 0 <= ip - off - 1 && ip + 4 < inp.Length && SameThree(inp[..], ip - off - 1, ip)
    modifies out
    ensures ok == (op - Not(lit) + 4 < outLen)
    ensures var s := inp[..]; var len := MatchLen(s, ip - off - 1, ip);
      ok ==>
        && ip' == ip + len && len <= MAX_REF && ip' <= inp.Length && Match(s, ip - off - 1, ip, len)
        && OpenRun(s, out[..], EndRun(s, done, ip, lit) + Code(off, len), ip', op', 0)
        && Tight(ip', op', 0) && op' <= outLen
    ensures forall k :: outLen < k < out.Length ==> out[k] == old(out[k])
  {
    hide Complete, Match, EndRun, MatchLen, Code, SameThree;
    ip' := ip;
    op' := StopRun(inp, out, done, ip, op, lit);
    if op' + 3 + 1 >= outLen { return false, ip', op'; }
    SameThreeMatches(inp[..], ip - off - 1, ip);
    var len := MatchLength(inp, ip - off - 1, ip);
    ghost var closed := EndRun(inp[..], done, ip, lit);
    op' := PutBackRef(inp, out, closed, ip, op', off, len);
    TightAfterMatch(ip, op, lit, len);
    OpenRunAfter(inp[..], out[..], closed + Code(off, len), ip + len, op');
    op' := op' + 1;
    ip' := ip + len;
    ok := true;
  }

  /** The last, at most two, bytes of input and the header of the last run. */
  method Finish(inp: array<byte>, out: array<byte>, outLen: nat, ghost done: seq<byte>, ip0: int, op0: int, lit0: int)
    returns (r: nat)
    requires inp != out && outLen < out.Length
    requires OpenRun(inp[..], out[..], done, ip0, op0, lit0) && Tight(ip0, op0, lit0)
    requires 2 <= inp.Length && inp.Length - 2 <= ip0
    modifies out
    ensures r <= outLen && (r > 0 <==> op0 + 3 <= outLen)
    ensures Written(out[..], Tail(inp[..], outLen, done, ip0, lit0), r)
    ensures r > 0 ==> Complete(inp[..], out[..r], inp.Length)
    ensures forall k :: outLen < k < out.Length ==> out[k] == old(out[k])
  {
    hide Complete, Tight, EndRun, AddLiteral;
    ghost var s := inp[..];
    var ip, op, lit := ip0, op0, lit0;
    if op + 3 > outLen { return 0; }
    ghost var d := done;
    while ip < inp.Length
      invariant OpenRun(s, out[..], d, ip, op, lit) && Tight(ip, op, lit)
      invariant op + inp.Length - ip < outLen || (op + inp.Length - ip == outLen && lit + inp.Length - ip <= 1)
      invariant Rest(s, d, ip, lit) == Rest(s, done, ip0, lit0)
      invariant forall k :: outLen < k < out.Length ==> out[k] == old(out[k])
    {
      ghost var next := AddLiteral(s, d, ip, lit);
      RestStep(s, d, ip, lit);
      ip, op, lit := PutLiteral(inp, out, d, ip, op, lit);
      d := next.0;
    }
    r := StopRun(inp, out, d, ip, op, lit);
    CompleteNotEmpty(s, EndRun(s, d, ip, lit));
  }

  lemma RestStep(inp: seq<byte>, done: seq<byte>, ip: nat, lit: nat)
    requires lit <= ip < |inp| && lit < MAX_LIT
    ensures var r := AddLiteral(inp, done, ip, lit); Rest(inp, done, ip, lit) == Rest(inp, r.0, ip + 1, r.1)
  {
    hide AddLiteral;
  }

  lemma CompleteNotEmpty(inp: seq<byte>, done: seq<byte>)
    requires Complete(inp, done, |inp|) && inp != []
    ensures done != []
  {
    assert inp[..|inp|] == inp;
  }

  lemma PackLiteral(inp: seq<byte>, outLen: nat, done: seq<byte>, ip: nat, lit: nat, tab: Positions)
    requires lit <= ip && ip + 2 < |inp| && lit < MAX_LIT && Look(inp, ip, tab).None?
    ensures var r := AddLiteral(inp, done, ip, lit);
      PackFrom(inp, outLen, done, ip, lit, tab) ==
        if |done| + 1 + lit >= outLen then [] else PackFrom(inp, outLen, r.0, ip + 1, r.1, Store(inp, tab, ip))
  {
    hide Look, AddLiteral, Store, Tail, MatchLen, EndRun, Code;
  }

  lemma PackMatch(inp: seq<byte>, outLen: nat, done: seq<byte>, ip: nat, lit: nat, tab: Positions, ref: nat)
    requires lit <= ip && ip + 2 < |inp| && lit < MAX_LIT && Look(inp, ip, tab) == Some(ref)
    requires ip + MatchLen(inp, ref, ip) <= |inp| && MatchLen(inp, ref, ip) <= MAX_REF
    ensures var len := MatchLen(inp, ref, ip);
      var closed := EndRun(inp, done, ip, lit);
      var next := ip + len;
      var d := closed + Code(ip - ref - 1, len);
      PackFrom(inp, outLen, done, ip, lit, tab) ==
        if |closed| + 4 >= outLen then []
        else if next + 2 >= |inp| then Tail(inp, outLen, d, next, 0)
        else PackFrom(inp, outLen, d, next, 0, Store(inp, Store(inp, Store(inp, tab, ip), next - 2), next - 1))
  {
    hide Look, AddLiteral, Store, Tail, MatchLen, EndRun, Code;
  }

  lemma PackTail(inp: seq<byte>, outLen: nat, done: seq<byte>, ip: nat, lit: nat, tab: Positions)
    requires lit <= ip <= |inp| && ip + 2 >= |inp| && lit < MAX_LIT
    ensures PackFrom(inp, outLen, done, ip, lit, tab) == Tail(inp, outLen, done, ip, lit)
  {
  }

  lemma MatchFails(inp: seq<byte>, outLen: nat, done: seq<byte>, ip: nat, lit: nat, tab: Positions, ref: nat)
    requires lit <= ip && ip + 2 < |inp| && lit < MAX_LIT && Look(inp, ip, tab) == Some(ref)
    requires |done| + 1 + lit - Not(lit) + 4 >= outLen
    ensures PackFrom(inp, outLen, done, ip, lit, tab) == []
  {
    hide Look, AddLiteral, Store, Tail, MatchLen, Code;
  }

  lemma HoldsLonger(htab: seq<int>, base: nat, ip: nat, next: nat, tab: Positions)
    requires Holds(htab, base, ip, tab) && ip <= next
    ensures Holds(htab, base, next, tab)
  {
  }

  lemma EntryBounds(htab: seq<int>, base: nat, ip: nat, tab: Positions, h: nat)
    requires Holds(htab, base, ip, tab) && h < HSIZE
    ensures |htab| == HSIZE && 0 <= htab[h] < TWO_64
  {
  }

  lemma DistanceIs(inp: seq<byte>, base: nat, ip: nat, entry: nat)
    requires MAX_OFF <= base && base + |inp| < TWO_64 && entry < TWO_64 && ip + 2 < |inp| &&
      Usable(inp, base, ip, entry)
    ensures Distance(base, ip, entry) < MAX_OFF && ip - Distance(base, ip, entry) - 1 == entry - base
    ensures 0 < entry - base < ip && ip + 4 < |inp| && SameThree(inp, entry - base, ip)
  {
  }

  lemma WholeInput(inp: seq<byte>, out: seq<byte>, r: nat)
    requires r <= |out|
    ensures r > 0 && Complete(inp, out[..r], |inp|) ==> Decode(out[..r], [], |inp|) == Done(inp)
  {
    assert inp[..|inp|] == inp;
  }

  /** The table can be used at position ip, if a match may begin there. */
  ghost predicate Ready(inp: seq<byte>, htab: seq<int>, base: nat, ip: nat, hval: int, tab: Positions) {
    ip + 2 < |inp| ==>
      Holds(htab, base, ip, tab) && Covered(inp, ip, tab) && hval % 0x1_0000 == First(inp[ip], inp[ip + 1])
  }

  /** Rolls the hash, takes the entry of its slot and puts the current address there. */
  method Probe(inp: array<byte>, base: nat, htab: array<int>, ip: nat, hval0: int, ghost tab: Positions)
    returns (hval: int, entry: nat)
    requires MAX_OFF <= base && base + inp.Length < TWO_64 && ip + 2 < inp.Length && htab.Length == HSIZE
    requires Ready(inp[..], htab[..], base, ip, hval0, tab)
    modifies htab
    ensures entry < TWO_64
    ensures Look(inp[..], ip, tab) == if Usable(inp[..], base, ip, entry) then Some(entry - base) else None
    ensures Holds(htab[..], base, ip + 1, Store(inp[..], tab, ip)) && Covered(inp[..], ip + 1, Store(inp[..], tab, ip))
    ensures hval % 0x1_0000 == First(inp[ip + 1], inp[ip + 2])
  {
    hide Holds, Covered, Look, Store, Usable, Slot, SlotAt, NextHash, First;
    ghost var s := inp[..];
    RollingSlot(s, ip, hval0);
    hval := NextHash(hval0, inp[ip + 2]);
    var hslot := Slot(hval);
    EntryBounds(htab[..], base, ip, tab, hslot);
    entry := htab[hslot];
    ChanceNeverHits(s, htab[..], base, ip, tab);
    HoldsStore(s, htab[..], base, ip, ip, tab);
    CoveredStore(s, ip, tab);
    htab[hslot] := base + ip;
  }

  /** After a match: the table is brought up to date, unless the input is about to end. */
  method AfterMatch(inp: array<byte>, base: nat, htab: array<int>, ghost ref: nat, ghost ip: nat, next: nat, hval0: int,
                    ghost tab: Positions)
    returns (hval: int)
    requires MAX_OFF <= base && base + inp.Length < TWO_64 && htab.Length == HSIZE
    requires ip + 3 <= next && next + 2 < inp.Length && Match(inp[..], ref, ip, next - ip)
    requires Holds(htab[..], base, ip + 1, Store(inp[..], tab, ip)) && Covered(inp[..], ip, tab)
    modifies htab
    ensures var s := inp[..];
      Ready(s, htab[..], base, next, hval, Store(s, Store(s, Store(s, tab, ip), next - 2), next - 1))
  {
    hide Holds, Covered, Store, Match, First;
    ghost var s := inp[..];
    HoldsLonger(htab[..], base, ip + 1, next, Store(s, tab, ip));
    CoveredAfterMatch(s, ref, ip, next - ip, tab);
    hval := Rehash(inp, base, htab, next, Store(s, tab, ip));
  }

  /** The whole match branch. Without room it fails, and so does the specification. */
  method MatchStep(inp: array<byte>, base: nat, htab: array<int>, out: array<byte>, outLen: nat, ghost done0: seq<byte>,
                   ghost tab0: Positions, ip0: nat, op0: nat, lit: nat, hval0: int, off: nat)
    returns (ok: bool, ip: nat, op: nat, hval: int, ghost done: seq<byte>, ghost tab: Positions)
    requires inp != out && outLen < out.Length && htab.Length == HSIZE
    requires MAX_OFF <= base && base + inp.Length < TWO_64 && ip0 + 2 < inp.Length
    requires OpenRun(inp[..], out[..], done0, ip0, op0, lit) && Tight(ip0, op0, lit) && op0 <= outLen + 1
    requires off < MAX_OFF && off < ip0 && Look(inp[..], ip0, tab0) == Some(ip0 - off - 1)
    requires Holds(htab[..], base, ip0 + 1, Store(inp[..], tab0, ip0)) && Covered(inp[..], ip0, tab0)
    modifies htab, out
    ensures var s := inp[..];
      if ok then
        && ip0 < ip && OpenRun(s, out[..], done, ip, op, 0) && Tight(ip, op, 0) && op <= outLen + 1
        && Ready(s, htab[..], base, ip, hval, tab)
        && PackFrom(s, outLen, done, ip, 0, tab) == PackFrom(s, outLen, done0, ip0, lit, tab0)
      else op0 - Not(lit) + 4 >= outLen && PackFrom(s, outLen, done0, ip0, lit, tab0) == []
    ensures forall k :: outLen < k < out.Length ==> out[k] == old(out[k])
  {
    hide Complete, Tight, Match, SameThree, Holds, Covered, Ready, Look, Store, PackFrom, Tail, EndRun, MatchLen, Code,
      First;
    ghost var s := inp[..];
    ghost var ref: nat := ip0 - off - 1;
    done, tab, hval := EndRun(s, done0, ip0, lit), map[], hval0;
    ok, ip, op := PutMatch(inp, out, outLen, done0, ip0, op0, lit, off);
    if !ok {
      MatchFails(s, outLen, done0, ip0, lit, tab0, ref);
      return;
    }
    PackMatch(s, outLen, done0, ip0, lit, tab0, ref);
    done := done + Code(off, ip - ip0);
    if ip + 2 >= inp.Length {
      PackTail(s, outLen, done, ip, 0, map[]);
      NothingReady(s, htab[..], base, ip, hval);
      return;
    }
    hval := AfterMatch(inp, base, htab, ref, ip0, ip, hval, tab0);
    tab := Store(s, Store(s, Store(s, tab0, ip0), ip - 2), ip - 1);
  }

  /** The whole branch for one literal. */
  method LiteralStep(inp: array<byte>, base: nat, ghost htab: seq<int>, out: array<byte>, outLen: nat,
                     ghost done0: seq<byte>, ghost tab0: Positions, ip0: nat, op0: nat, lit0: nat, ghost hval: int)
    returns (ok: bool, ip: nat, op: nat, lit: nat, ghost done: seq<byte>, ghost tab: Positions)
    requires inp != out && outLen < out.Length && ip0 + 2 < inp.Length
    requires OpenRun(inp[..], out[..], done0, ip0, op0, lit0) && Tight(ip0, op0, lit0) && op0 <= outLen + 1
    requires Look(inp[..], ip0, tab0) == None && hval % 0x1_0000 == First(inp[ip0 + 1], inp[ip0 + 2])
    requires Holds(htab, base, ip0 + 1, Store(inp[..], tab0, ip0)) &&
      Covered(inp[..], ip0 + 1, Store(inp[..], tab0, ip0))
    modifies out
    ensures var s := inp[..];
      if ok then
        && ip0 < ip && OpenRun(s, out[..], done, ip, op, lit) && Tight(ip, op, lit) && op <= outLen + 1
        && Ready(s, htab, base, ip, hval, tab)
        && PackFrom(s, outLen, done, ip, lit, tab) == PackFrom(s, outLen, done0, ip0, lit0, tab0)
      else op0 >= outLen && PackFrom(s, outLen, done0, ip0, lit0, tab0) == []
    ensures forall k :: outLen < k < out.Length ==> out[k] == old(out[k])
  {
    hide Complete, Tight, Holds, Covered, Ready, Look, Store, PackFrom, EndRun, AddLiteral, First;
    ghost var s := inp[..];
    ip, op, lit, done, tab := ip0, op0, lit0, done0, tab0;
    PackLiteral(s, outLen, done, ip, lit, tab);
    ok := op < outLen;
    if !ok { return; }
    tab := Store(s, tab, ip);
    ReadyNow(s, htab, base, ip + 1, hval, tab);
    done := AddLiteral(s, done0, ip, lit).0;
    ip, op, lit := PutLiteral(inp, out, done0, ip, op, lit);
  }

  /** The compressor. `base` is the address of the input and `htab` holds arbitrary addresses on entry. A result r > 0
      means out[..r] decodes to the input; with enough room the result is never 0. Neither the address nor what the
      table held has any influence: the result and the output are a function of the input and the room. */
  method Compress(inp: array<byte>, base: nat, htab: array<int>, out: array<byte>, outLen: nat) returns (r: nat)
    requires inp.Length != 1 || outLen == 0
    requires MAX_OFF <= base && base + inp.Length < TWO_64
    requires htab.Length == HSIZE && forall k :: 0 <= k < HSIZE ==> 0 <= htab[k] < TWO_64
    requires outLen < out.Length && inp != out
    modifies htab, out
    ensures r <= outLen
    ensures r > 0 ==> Decode(out[..r], [], inp.Length) == Done(inp[..])
    ensures r == |Packed(inp[..], outLen)| && out[..r] == Packed(inp[..], outLen)
    ensures inp.Length >= 2 && outLen >= inp.Length + inp.Length / 32 + 4 ==> r > 0
    ensures inp.Length == 0 ==> r == 0
    ensures forall k :: outLen < k < out.Length ==> out[k] == old(out[k])
  {
    hide Complete, Tight, Distance, Usable, First, Match, SameThree, Holds, Covered, Ready, Look, Store, PackFrom, Tail;
    if inp.Length == 0 || outLen == 0 { return 0; }
    ghost var s := inp[..];
    var end := inp.Length;
    var ip: nat, op: nat, lit: nat := 0, 1, 0;
    OpenRunAtStart(s, out[..]);
    var hval := First(inp[ip], inp[ip + 1]);
    ghost var done: seq<byte>, tab: Positions := [], map[];
    ReadyAtStart(s, htab[..], base);
    while ip < end - 2
      invariant OpenRun(s, out[..], done, ip, op, lit) && Tight(ip, op, lit) && op <= outLen + 1
      invariant Ready(s, htab[..], base, ip, hval, tab)
      invariant PackFrom(s, outLen, done, ip, lit, tab) == Packed(s, outLen)
      invariant forall k :: outLen < k < out.Length ==> out[k] == old(out[k])
      decreases end - ip
    {
      RoomLeft(ip, op, lit, end);
      CoveredNow(s, htab[..], base, ip, hval, tab);
      var entry, ok;
      hval, entry := Probe(inp, base, htab, ip, hval, tab);
      if Usable(inp[..], base, ip, entry) {
        DistanceIs(s, base, ip, entry);
        var off := Distance(base, ip, entry);
        ok, ip, op, hval, done, tab := MatchStep(inp, base, htab, out, outLen, done, tab, ip, op, lit, hval, off);
        if !ok { return 0; }
        lit := 0;
      } else {
        ok, ip, op, lit, done, tab :=
          LiteralStep(inp, base, htab[..], out, outLen, done, tab, ip, op, lit, hval);
        if !ok { return 0; }
      }
    }
    RoomLeft(ip, op, lit, end);
    PackTail(s, outLen, done, ip, lit, tab);
    r := Finish(inp, out, outLen, done, ip, op, lit);
    WholeInput(s, out[..], r);
  }

  lemma ReadyAtStart(inp: seq<byte>, htab: seq<int>, base: nat)
    requires |inp| >= 2 && |htab| == HSIZE && forall k :: 0 <= k < HSIZE ==> 0 <= htab[k] < TWO_64
    ensures Ready(inp, htab, base, 0, First(inp[0], inp[1]), map[])
  {
  }

  lemma CoveredNow(inp: seq<byte>, htab: seq<int>, base: nat, ip: nat, hval: int, tab: Positions)
    requires Ready(inp, htab, base, ip, hval, tab) && ip + 2 < |inp|
    ensures Covered(inp, ip, tab)
  {
  }

  lemma ReadyNow(inp: seq<byte>, htab: seq<int>, base: nat, ip: nat, hval: int, tab: Positions)
    requires ip + 1 < |inp| && Holds(htab, base, ip, tab) && Covered(inp, ip, tab)
    requires hval % 0x1_0000 == First(inp[ip], inp[ip + 1])
    ensures Ready(inp, htab, base, ip, hval, tab)
  {
  }

  lemma NothingReady(inp: seq<byte>, htab: seq<int>, base: nat, ip: nat, hval: int)
    requires ip + 2 >= |inp|
    ensures Ready(inp, htab, base, ip, hval, map[])
  {
  }
}
