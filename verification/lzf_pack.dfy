/** What lzf_compress writes, as a function of the input alone: the table is modelled by the positions stored so far. */
module LzfPack {
  import opened Bytes
  import opened LzfSpec

  const HSIZE := 65536

  function First(p0: byte, p1: byte): int {
    var a: int := p0;
    var b: int := p1;
    a * 256 + b
  }

  function NextHash(v: int, p2: byte): int {
    var b: int := p2;
    (v * 256 + b) % 0x1_0000_0000
  }

  /** IDX in its VERY_FAST form: 32-bit unsigned arithmetic, then a mask of HSIZE - 1. */
  function Slot(h: int): (i: nat)
    ensures i < HSIZE
  {
    (h / 256 - h * 5) % HSIZE
  }

  /** The slot of the three bytes at a position. */
  function SlotAt(inp: seq<byte>, ip: nat): (i: nat)
    requires ip + 2 < |inp|
    ensures i < HSIZE
  {
    var c: int := inp[ip + 2];
    Slot(First(inp[ip], inp[ip + 1]) * 256 + c)
  }

  lemma SlotShift(h: int, k: int)
    ensures Slot(h + k * 0x100_0000) == Slot(h)
  {
    assert (h + k * 0x100_0000) / 256 == h / 256 + k * 0x1_0000;
    var d := h / 256 - h * 5;
    ModShift(d, k - k * 0x500);
    assert h / 256 + k * 0x1_0000 - (h + k * 0x100_0000) * 5 == d + (k - k * 0x500) * HSIZE;
  }

  lemma ModShift(d: int, k: int)
    ensures (d + k * HSIZE) % HSIZE == d % HSIZE
  {
  }

  /** A rolled hash is the number of the last three bytes, up to a multiple of 2^24. */
  lemma Rolled(hval: int, a: int, b: int, c: int) returns (k: int)
    requires 0 <= b < 256 && 0 <= c < 256 && hval % 0x1_0000 == a * 256 + b
    ensures (hval * 256 + c) % 0x1_0000_0000 == a * 0x1_0000 + b * 256 + c + k * 0x100_0000
  {
    var q, v := hval / 0x1_0000, hval * 256 + c;
    var w := v / 0x1_0000_0000;
    assert hval == q * 0x1_0000 + (a * 256 + b);
    assert v % 0x1_0000_0000 == v - w * 0x1_0000_0000;
    k := q - w * 256;
  }

  lemma LowHalf(a: int, b: int, c: int, k: int)
    requires 0 <= b < 256 && 0 <= c < 256
    ensures (a * 0x1_0000 + b * 256 + c + k * 0x100_0000) % 0x1_0000 == b * 256 + c
  {
    var m := a + k * 256;
    assert a * 0x1_0000 + b * 256 + c + k * 0x100_0000 == (b * 256 + c) + m * HSIZE;
    ModShift(b * 256 + c, m);
  }

  lemma HashParts(v: int, x: byte, y: byte, z: byte)
    ensures First(x, y) == (x as int) * 256 + (y as int)
    ensures NextHash(v, z) == (v * 256 + (z as int)) % 0x1_0000_0000
  {
  }

  lemma SlotParts(inp: seq<byte>, ip: nat)
    requires ip + 2 < |inp|
    ensures SlotAt(inp, ip) == Slot((inp[ip] as int) * 0x1_0000 + (inp[ip + 1] as int) * 256 + (inp[ip + 2] as int))
  {
    hide Slot;
  }

  /** The rolling hash: whatever its upper bits hold, the next slot is that of the three bytes. */
  lemma RollingSlot(inp: seq<byte>, ip: nat, hval: int)
    requires ip + 2 < |inp| && hval % 0x1_0000 == First(inp[ip], inp[ip + 1])
    ensures Slot(NextHash(hval, inp[ip + 2])) == SlotAt(inp, ip)
    ensures NextHash(hval, inp[ip + 2]) % 0x1_0000 == First(inp[ip + 1], inp[ip + 2])
  {
    hide Slot, SlotAt, First, NextHash;
    var a: int, b: int, c: int := inp[ip], inp[ip + 1], inp[ip + 2];
    HashParts(hval, inp[ip], inp[ip + 1], inp[ip + 2]);
    HashParts(hval, inp[ip + 1], inp[ip + 2], inp[ip + 2]);
    SlotParts(inp, ip);
    var k := Rolled(hval, a, b, c);
    SlotShift(a * 0x1_0000 + b * 256 + c, k);
    LowHalf(a, b, c, k);
  }

  /** The last position stored in each slot that has been written. */
  type Positions = map<nat, nat>

  predicate SameThree(inp: seq<byte>, ref: nat, ip: nat)
    requires ref + 2 < |inp| && ip + 2 < |inp|
  {
    inp[ref] == inp[ip] && inp[ref + 1] == inp[ip + 1] && inp[ref + 2] == inp[ip + 2]
  }

  /** The earlier position that the table offers and the tests accept. */
  function Look(inp: seq<byte>, ip: nat, tab: Positions): (r: Option<nat>)
    requires ip + 2 < |inp|
    ensures r.Some? ==> 0 < r.value < ip && ip - r.value <= MAX_OFF && ip + 4 < |inp| && SameThree(inp, r.value, ip)
  {
    var h := SlotAt(inp, ip);
    if h in tab && 0 < tab[h] < ip && ip - tab[h] <= MAX_OFF && ip + 4 < |inp| && SameThree(inp, tab[h], ip)
    then Some(tab[h]) else None
  }

  function Store(inp: seq<byte>, tab: Positions, ip: nat): Positions
    requires ip + 2 < |inp|
  {
    tab[SlotAt(inp, ip) := ip]
  }

  /** From len on, as long as the bytes agree and len is below the limit. */
  function Extend(inp: seq<byte>, ref: nat, ip: nat, len: nat, limit: nat): (r: nat)
    requires ref < ip
    ensures len <= r
    decreases limit - len
  {
    if len < limit && ip + len < |inp| && inp[ref + len] == inp[ip + len]
    then Extend(inp, ref, ip, len + 1, limit) else len
  }

  /** The length of a match: sixteen comparisons if they cannot pass maxlen by more than two, then one at a time. */
  function MatchLen(inp: seq<byte>, ref: nat, ip: nat): (len: nat)
    requires ref < ip && ip + 4 < |inp|
    ensures len >= 3
  {
    var maxlen := if |inp| - ip - 2 > MAX_REF then MAX_REF else |inp| - ip - 2;
    if maxlen <= 16 then Extend(inp, ref, ip, 3, maxlen)
    else
      var u := Extend(inp, ref, ip, 3, 19);
      if u < 19 then u else Extend(inp, ref, ip, 19, maxlen)
  }

  function Code(off: nat, len: nat): (c: seq<byte>)
    requires off < MAX_OFF && 3 <= len <= MAX_REF
    ensures |c| == if len < 9 then 2 else 3
  {
    if len < 9 then [off / 256 + (len - 2) * 32, off % 256]
    else [off / 256 + 7 * 32, len - 9, off % 256]
  }

  /** The finished instructions when the open run of `lit` bytes before ip is ended. */
  function EndRun(inp: seq<byte>, done: seq<byte>, ip: nat, lit: nat): (r: seq<byte>)
    requires lit <= ip <= |inp| && lit <= MAX_LIT
    ensures |r| == |done| + lit + (if lit == 0 then 0 else 1)
  {
    if lit == 0 then done else done + [lit - 1] + inp[ip - lit..ip]
  }

  /** One more literal byte: what is finished, and the length of the open run. */
  function AddLiteral(inp: seq<byte>, done: seq<byte>, ip: nat, lit: nat): (r: (seq<byte>, nat))
    requires lit <= ip < |inp| && lit < MAX_LIT
    ensures r.1 <= ip + 1 && r.1 < MAX_LIT
  {
    if lit + 1 == MAX_LIT then (EndRun(inp, done, ip + 1, MAX_LIT), 0) else (done, lit + 1)
  }

  /** The rest of the input as literals. */
  function Rest(inp: seq<byte>, done: seq<byte>, ip: nat, lit: nat): seq<byte>
    requires lit <= ip <= |inp| && lit < MAX_LIT
    decreases |inp| - ip
  {
    if ip == |inp| then EndRun(inp, done, ip, lit)
    else var (d, l) := AddLiteral(inp, done, ip, lit); Rest(inp, d, ip + 1, l)
  }

  function Tail(inp: seq<byte>, outLen: nat, done: seq<byte>, ip: nat, lit: nat): seq<byte>
    requires lit <= ip <= |inp| && lit < MAX_LIT
  {
    if |done| + 1 + lit + 3 > outLen then [] else Rest(inp, done, ip, lit)
  }

  /** From position ip on: the complete output, or nothing if it does not fit. */
  function PackFrom(inp: seq<byte>, outLen: nat, done: seq<byte>, ip: nat, lit: nat, tab: Positions): seq<byte>
    requires lit <= ip <= |inp| && lit < MAX_LIT
    decreases |inp| - ip
  {
    if ip + 2 >= |inp| then Tail(inp, outLen, done, ip, lit)
    else
      match Look(inp, ip, tab)
      case None =>
        if |done| + 1 + lit >= outLen then []
        else
          var (d, l) := AddLiteral(inp, done, ip, lit);
          PackFrom(inp, outLen, d, ip + 1, l, Store(inp, tab, ip))
      case Some(ref) =>
        var closed := EndRun(inp, done, ip, lit);
        var len := MatchLen(inp, ref, ip);
        if |closed| + 4 >= outLen then []
        else if ip + len > |inp| || len > MAX_REF then []
        else
          var d := closed + Code(ip - ref - 1, len);
          var next := ip + len;
          if next + 2 >= |inp| then Tail(inp, outLen, d, next, 0)
          else PackFrom(inp, outLen, d, next, 0, Store(inp, Store(inp, Store(inp, tab, ip), next - 2), next - 1))
  }

  /** The output of the compressor, empty if it gives up. */
  function Packed(inp: seq<byte>, outLen: nat): seq<byte> {
    if inp == [] || outLen == 0 then [] else PackFrom(inp, outLen, [], 0, 0, map[])
  }

  // ----- The output stays inside the room -----

  lemma TailFits(inp: seq<byte>, outLen: nat, done: seq<byte>, ip: nat, lit: nat)
    requires lit <= ip <= |inp| && |inp| <= ip + 2 && lit < MAX_LIT
    ensures |Tail(inp, outLen, done, ip, lit)| <= outLen
  {
    hide EndRun, Rest;
    if |done| + 1 + lit + 3 <= outLen {
      RestSize(inp, done, ip, lit);
    }
  }

  lemma {:induction false} RestSize(inp: seq<byte>, done: seq<byte>, ip: nat, lit: nat)
    requires lit <= ip <= |inp| && |inp| <= ip + 2 && lit < MAX_LIT
    ensures |Rest(inp, done, ip, lit)| <= |done| + lit + |inp| - ip + 2
    decreases |inp| - ip
  {
    hide EndRun;
    if ip < |inp| {
      var r := AddLiteral(inp, done, ip, lit);
      RestSize(inp, r.0, ip + 1, r.1);
    }
  }

  lemma {:induction false} PackFits(inp: seq<byte>, outLen: nat, done: seq<byte>, ip: nat, lit: nat, tab: Positions)
    requires lit <= ip <= |inp| && lit < MAX_LIT && 2 <= |inp| && (ip + 2 >= |inp| ==> |inp| <= ip + 2)
    ensures |PackFrom(inp, outLen, done, ip, lit, tab)| <= outLen
    decreases |inp| - ip
  {
    hide EndRun, Look, Store, Tail, MatchLen, Code, AddLiteral;
    if ip + 2 >= |inp| {
      TailFits(inp, outLen, done, ip, lit);
    } else {
      match Look(inp, ip, tab)
      case None =>
        var r := AddLiteral(inp, done, ip, lit);
        PackFits(inp, outLen, r.0, ip + 1, r.1, Store(inp, tab, ip));
      case Some(ref) =>
        var len := MatchLen(inp, ref, ip);
        if ip + len <= |inp| && len <= MAX_REF {
          var d := EndRun(inp, done, ip, lit) + Code(ip - ref - 1, len);
          var next := ip + len;
          if next + 2 >= |inp| {
            TailFits(inp, outLen, d, next, 0);
          } else {
            PackFits(inp, outLen, d, next, 0, Store(inp, Store(inp, Store(inp, tab, ip), next - 2), next - 1));
          }
        }
    }
  }

  lemma PackedFits(inp: seq<byte>, outLen: nat)
    requires |inp| >= 2
    ensures |Packed(inp, outLen)| <= outLen
  {
    hide PackFrom;
    PackFits(inp, outLen, [], 0, 0, map[]);
  }

  // ----- Why the memory that the table happens to hold does not matter -----

  /** The slots of all positions before ip have been written. */
  ghost predicate Covered(inp: seq<byte>, ip: nat, tab: Positions) {
    forall q: nat :: q < ip && q + 2 < |inp| ==> SlotAt(inp, q) in tab
  }

  lemma SameThreeSameSlot(inp: seq<byte>, ref: nat, ip: nat)
    requires ref + 2 < |inp| && ip + 2 < |inp| && SameThree(inp, ref, ip)
    ensures SlotAt(inp, ref) == SlotAt(inp, ip)
  {
    hide Slot;
  }

  lemma CoveredStore(inp: seq<byte>, ip: nat, tab: Positions)
    requires Covered(inp, ip, tab) && ip + 2 < |inp|
    ensures Covered(inp, ip + 1, Store(inp, tab, ip))
  {
    hide SlotAt;
  }

  /** Inside a match every position has the three bytes of an earlier one, so its slot has been written already. */
  lemma {:induction false} CoveredMatch(inp: seq<byte>, ref: nat, ip: nat, len: nat, tab: Positions, n: nat)
    requires Match(inp, ref, ip, len) && Covered(inp, ip, tab) && n + 2 <= len
    ensures Covered(inp, ip + n, tab)
    decreases n
  {
    hide SlotAt;
    if n > 0 {
      CoveredMatch(inp, ref, ip, len, tab, n - 1);
      var q := ip + n - 1;
      var d := ip - ref;
      assert inp[q] == inp[q - d] && inp[q + 1] == inp[q + 1 - d] && inp[q + 2] == inp[q + 2 - d];
      SameThreeSameSlot(inp, q - d, q);
      assert SlotAt(inp, q - d) in tab;
    }
  }

  lemma CoveredAfterMatch(inp: seq<byte>, ref: nat, ip: nat, len: nat, tab: Positions)
    requires Match(inp, ref, ip, len) && Covered(inp, ip, tab) && 3 <= len && ip + len + 2 < |inp|
    ensures Covered(inp, ip + len, Store(inp, Store(inp, Store(inp, tab, ip), ip + len - 2), ip + len - 1))
  {
    hide SlotAt, Match;
    CoveredMatch(inp, ref, ip, len, tab, len - 2);
    var t := Store(inp, tab, ip);
    assert Covered(inp, ip + len - 2, t);
    CoveredStore(inp, ip + len - 2, t);
    CoveredStore(inp, ip + len - 1, Store(inp, t, ip + len - 2));
  }
}
