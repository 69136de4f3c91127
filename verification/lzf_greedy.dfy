/**
  * What the compressor finds, said without its table: at each position it looks at the last stored position of the
  * same slot, and takes the longest match there whenever there is one. The output is the spelling of these choices.
  */
module LzfGreedy {
  import opened Bytes
  import opened LzfPack
  import LzfCompress
  import LzfSpec

  /** One byte as it is, or a number of bytes from some distance back. */
  datatype Piece = Literal | Copy(dist: nat, len: nat)

  // ----- The choices -----

  /** q is the last stored position whose slot is that of position ip. */
  ghost predicate LastSeen(inp: seq<byte>, hist: set<nat>, ip: nat, q: nat)
    requires ip + 2 < |inp|
  {
    && q in hist && q + 2 < |inp| && SlotAt(inp, q) == SlotAt(inp, ip)
    && forall x :: x in hist && x + 2 < |inp| && SlotAt(inp, x) == SlotAt(inp, ip) ==> x <= q
  }

  /** The last stored position of the slot is not the first of all, near enough, and has the same three bytes. */
  ghost predicate Offered(inp: seq<byte>, hist: set<nat>, ip: nat, q: nat)
    requires ip + 2 < |inp|
  {
    && LastSeen(inp, hist, ip, q) && 0 < q < ip && ip - q <= 8192
    && inp[q] == inp[ip] && inp[q + 1] == inp[ip + 1] && inp[q + 2] == inp[ip + 2]
  }

  /** How long a match may become when `left` bytes of input are left. */
  function Limit(left: nat): nat
    requires left > 4
  {
    if left > 266 then 264 else if left == 19 || left == 20 then 19 else left - 2
  }

  /** The bytes agree up to len, and not further unless that is the limit. */
  predicate Longest(inp: seq<byte>, q: nat, ip: nat, len: nat)
    requires q < ip && ip + 4 < |inp|
  {
    && 3 <= len <= Limit(|inp| - ip)
    && (forall k :: ip <= k < ip + len ==> inp[k] == inp[k - (ip - q)])
    && (len < Limit(|inp| - ip) ==> inp[q + len] != inp[ip + len])
  }

  /** The positions that are stored for a match; none when the input is about to end. */
  function Stored(inp: seq<byte>, ip: nat, len: nat): set<nat>
    requires len >= 2
  {
    if ip + len + 2 < |inp| then {ip, ip + len - 2, ip + len - 1} else {}
  }

  /**
    * The pieces are the choices from position ip on, when the positions in `hist` have been stored: no match that is
    * offered is passed over, none is taken that is not offered, and each is as long as possible.
    */
  ghost predicate Greedy(inp: seq<byte>, pieces: seq<Piece>, ip: nat, hist: set<nat>)
    decreases |pieces|
  {
    if ip + 2 >= |inp| then
      ip + |pieces| == |inp| && forall k :: 0 <= k < |pieces| ==> pieces[k] == Literal
    else
      pieces != [] &&
      match pieces[0]
      case Literal =>
        && (ip + 4 < |inp| ==> forall q :: !Offered(inp, hist, ip, q))
        && Greedy(inp, pieces[1..], ip + 1, hist + {ip})
      case Copy(dist, len) =>
        && ip + 4 < |inp| && 0 < dist <= ip && Offered(inp, hist, ip, ip - dist) && Longest(inp, ip - dist, ip, len)
        && Greedy(inp, pieces[1..], ip + len, hist + Stored(inp, ip, len))
  }

  // ----- Their spelling -----

  /** The run of the `lit` bytes before ip, with its length in front. */
  function Flush(inp: seq<byte>, ip: nat, lit: nat): (s: seq<byte>)
    requires lit <= ip <= |inp| && lit <= 32
    ensures |s| == if lit == 0 then 0 else lit + 1
  {
    if lit == 0 then [] else [lit - 1] + inp[ip - lit..ip]
  }

  function Back(dist: nat, len: nat): (s: seq<byte>)
    requires 0 < dist <= 8192 && 3 <= len <= 264
    ensures 2 <= |s| <= 3
  {
    if len < 9 then [(dist - 1) / 256 + (len - 2) * 32, (dist - 1) % 256]
    else [(dist - 1) / 256 + 224, len - 9, (dist - 1) % 256]
  }

  /** The pieces stay inside the input, with distances and lengths that can be spelled. */
  predicate Spellable(inp: seq<byte>, pieces: seq<Piece>, ip: nat)
    decreases |pieces|
  {
    if pieces == [] then ip <= |inp|
    else
      match pieces[0]
      case Literal => Spellable(inp, pieces[1..], ip + 1)
      case Copy(dist, len) => 0 < dist <= 8192 && 3 <= len <= 264 && Spellable(inp, pieces[1..], ip + len)
  }

  lemma {:induction false} SpellableInside(inp: seq<byte>, pieces: seq<Piece>, ip: nat)
    requires Spellable(inp, pieces, ip)
    ensures ip <= |inp| && (pieces != [] ==> ip < |inp|)
    decreases |pieces|
  {
    if pieces != [] {
      match pieces[0]
      case Literal => SpellableInside(inp, pieces[1..], ip + 1);
      case Copy(dist, len) => SpellableInside(inp, pieces[1..], ip + len);
    }
  }

  /** The bytes for the pieces from ip on, behind an open run of `lit` literals. */
  function Spelling(inp: seq<byte>, pieces: seq<Piece>, ip: nat, lit: nat): seq<byte>
    requires Spellable(inp, pieces, ip) && lit <= ip && lit < 32
    decreases |pieces|
  {
    SpellableInside(inp, pieces, ip);
    if pieces == [] then Flush(inp, ip, lit)
    else
      match pieces[0]
      case Literal =>
        SpellableInside(inp, pieces[1..], ip + 1);
        if lit + 1 == 32 then Flush(inp, ip + 1, 32) + Spelling(inp, pieces[1..], ip + 1, 0)
        else Spelling(inp, pieces[1..], ip + 1, lit + 1)
      case Copy(dist, len) => Flush(inp, ip, lit) + Back(dist, len) + Spelling(inp, pieces[1..], ip + len, 0)
  }

  lemma {:induction false} GreedySpellable(inp: seq<byte>, pieces: seq<Piece>, ip: nat, hist: set<nat>)
    requires Greedy(inp, pieces, ip, hist)
    ensures Spellable(inp, pieces, ip)
    decreases |pieces|
  {
    hide LastSeen;
    if ip + 2 >= |inp| {
      LiteralsSpellable(inp, pieces, ip);
    } else {
      match pieces[0]
      case Literal => GreedySpellable(inp, pieces[1..], ip + 1, hist + {ip});
      case Copy(dist, len) => GreedySpellable(inp, pieces[1..], ip + len, hist + Stored(inp, ip, len));
    }
  }

  lemma {:induction false} LiteralsSpellable(inp: seq<byte>, pieces: seq<Piece>, ip: nat)
    requires ip + |pieces| == |inp| && forall k :: 0 <= k < |pieces| ==> pieces[k] == Literal
    ensures Spellable(inp, pieces, ip)
    decreases |pieces|
  {
    if pieces != [] {
      assert pieces[0] == Literal;
      LiteralsSpellable(inp, pieces[1..], ip + 1);
    }
  }

  // ----- There is exactly one such list of choices -----

  lemma LastSeenOnce(inp: seq<byte>, hist: set<nat>, ip: nat, q: nat, r: nat)
    requires ip + 2 < |inp| && LastSeen(inp, hist, ip, q) && LastSeen(inp, hist, ip, r)
    ensures q == r
  {
    hide SlotAt;
  }

  lemma LongestEnds(inp: seq<byte>, q: nat, ip: nat, m: nat, n: nat)
    requires q < ip && ip + 4 < |inp| && Longest(inp, q, ip, m) && Longest(inp, q, ip, n)
    ensures n <= m
  {
    assert m < Limit(|inp| - ip) ==> inp[q + m] != inp[ip + m];
    assert Longest(inp, q, ip, n) ==> forall k :: ip <= k < ip + n ==> inp[k] == inp[k - (ip - q)];
  }

  lemma LongestOnce(inp: seq<byte>, q: nat, ip: nat, m: nat, n: nat)
    requires q < ip && ip + 4 < |inp| && Longest(inp, q, ip, m) && Longest(inp, q, ip, n)
    ensures m == n
  {
    hide Longest;
    LongestEnds(inp, q, ip, m, n);
    LongestEnds(inp, q, ip, n, m);
  }

  lemma {:induction false} GreedyOnce(inp: seq<byte>, a: seq<Piece>, b: seq<Piece>, ip: nat, hist: set<nat>)
    requires Greedy(inp, a, ip, hist) && Greedy(inp, b, ip, hist)
    ensures a == b
    decreases |a|
  {
    hide LastSeen, Stored;
    if ip + 2 < |inp| {
      FirstOnce(inp, a, b, ip, hist);
      match a[0]
      case Literal => GreedyOnce(inp, a[1..], b[1..], ip + 1, hist + {ip});
      case Copy(dist, len) => GreedyOnce(inp, a[1..], b[1..], ip + len, hist + Stored(inp, ip, len));
      assert a == [a[0]] + a[1..] && b == [b[0]] + b[1..];
    }
  }

  lemma FirstOnce(inp: seq<byte>, a: seq<Piece>, b: seq<Piece>, ip: nat, hist: set<nat>)
    requires ip + 2 < |inp| && Greedy(inp, a, ip, hist) && Greedy(inp, b, ip, hist)
    ensures a != [] && b != [] && a[0] == b[0]
  {
    hide LastSeen, Longest, Stored;
    if a[0].Copy? && b[0].Copy? {
      LastSeenOnce(inp, hist, ip, ip - a[0].dist, ip - b[0].dist);
      LongestOnce(inp, ip - a[0].dist, ip, a[0].len, b[0].len);
    }
  }

  // ----- The compressor makes these choices -----

  /** The table holds, for each slot, the last stored position. */
  ghost predicate Agrees(inp: seq<byte>, tab: Positions, hist: set<nat>, ip: nat) {
    && (forall q :: q in hist ==> q < ip && q + 2 < |inp| && SlotAt(inp, q) in tab && q <= tab[SlotAt(inp, q)])
    && (forall h :: h in tab ==> tab[h] in hist && tab[h] + 2 < |inp| && SlotAt(inp, tab[h]) == h)
  }

  lemma AgreesStore(inp: seq<byte>, tab: Positions, hist: set<nat>, ip: nat, q: nat)
    requires Agrees(inp, tab, hist, ip) && ip <= q && q + 2 < |inp|
    ensures Agrees(inp, Store(inp, tab, q), hist + {q}, q + 1)
  {
    hide SlotAt;
  }

  /** The table offers exactly the last stored position of the slot. */
  lemma LookIs(inp: seq<byte>, tab: Positions, hist: set<nat>, ip: nat)
    requires Agrees(inp, tab, hist, ip) && ip + 2 < |inp|
    ensures Look(inp, ip, tab).Some? ==> ip + 4 < |inp| && Offered(inp, hist, ip, Look(inp, ip, tab).value)
    ensures Look(inp, ip, tab).None? && ip + 4 < |inp| ==> forall q :: !Offered(inp, hist, ip, q)
  {
    hide SlotAt;
    var h := SlotAt(inp, ip);
    if h in tab {
      assert LastSeen(inp, hist, ip, tab[h]);
      forall q | Offered(inp, hist, ip, q) ensures q == tab[h] {
        LastSeenOnce(inp, hist, ip, q, tab[h]);
      }
    }
  }

  lemma {:induction false} ExtendIs(inp: seq<byte>, q: nat, ip: nat, len: nat, limit: nat)
    requires q < ip && len <= limit && ip + limit <= |inp|
    ensures var r := Extend(inp, q, ip, len, limit);
      && len <= r <= limit && (forall k :: ip + len <= k < ip + r ==> inp[k] == inp[k - (ip - q)])
      && (r < limit ==> inp[q + r] != inp[ip + r])
    decreases limit - len
  {
    if len < limit && inp[q + len] == inp[ip + len] {
      ExtendIs(inp, q, ip, len + 1, limit);
    }
  }

  lemma MatchIsLongest(inp: seq<byte>, q: nat, ip: nat)
    requires q < ip && ip + 4 < |inp|
    requires inp[q] == inp[ip] && inp[q + 1] == inp[ip + 1] && inp[q + 2] == inp[ip + 2]
    ensures Longest(inp, q, ip, MatchLen(inp, q, ip))
  {
    hide Extend;
    if |inp| - ip <= 18 {
      ExtendIs(inp, q, ip, 3, |inp| - ip - 2);
    } else {
      LongMatch(inp, q, ip);
    }
  }

  lemma LongMatch(inp: seq<byte>, q: nat, ip: nat)
    requires q < ip && ip + 18 < |inp|
    requires inp[q] == inp[ip] && inp[q + 1] == inp[ip + 1] && inp[q + 2] == inp[ip + 2]
    ensures Longest(inp, q, ip, MatchLen(inp, q, ip))
  {
    hide Extend, Longest;
    var left := |inp| - ip;
    var maxlen := if left - 2 > 264 then 264 else left - 2;
    ExtendIs(inp, q, ip, 3, 19);
    var u := Extend(inp, q, ip, 3, 19);
    if u < 19 {
      Stops(inp, q, ip, u);
    } else {
      if maxlen >= 19 {
        ExtendIs(inp, q, ip, 19, maxlen);
      } else {
        ExtendPast(inp, q, ip, 19, maxlen);
      }
      var r := Extend(inp, q, ip, 19, maxlen);
      assert forall k :: ip + 3 <= k < ip + r ==> inp[k] == inp[k - (ip - q)];
      Stops(inp, q, ip, r);
    }
  }

  lemma Stops(inp: seq<byte>, q: nat, ip: nat, r: nat)
    requires q < ip && ip + 4 < |inp| && 3 <= r <= Limit(|inp| - ip)
    requires inp[q] == inp[ip] && inp[q + 1] == inp[ip + 1] && inp[q + 2] == inp[ip + 2]
    requires forall k :: ip + 3 <= k < ip + r ==> inp[k] == inp[k - (ip - q)]
    requires r < Limit(|inp| - ip) ==> inp[q + r] != inp[ip + r]
    ensures Longest(inp, q, ip, r)
  {
  }

  lemma ExtendPast(inp: seq<byte>, q: nat, ip: nat, len: nat, limit: nat)
    requires q < ip && len >= limit
    ensures Extend(inp, q, ip, len, limit) == len
  {
  }

  /** The table after a match. */
  function AfterTable(inp: seq<byte>, tab: Positions, ip: nat, len: nat): Positions
    requires len >= 3
  {
    if ip + len + 2 < |inp| then Store(inp, Store(inp, Store(inp, tab, ip), ip + len - 2), ip + len - 1) else tab
  }

  lemma StoreThree(inp: seq<byte>, tab: Positions, hist: set<nat>, ip: nat, len: nat)
    requires Agrees(inp, tab, hist, ip) && len >= 3 && ip + len + 2 < |inp|
    ensures Agrees(inp, AfterTable(inp, tab, ip, len), hist + Stored(inp, ip, len), ip + len)
  {
    hide Agrees, Store;
    AgreesStore(inp, tab, hist, ip, ip);
    var t := Store(inp, tab, ip);
    AgreesStore(inp, t, hist + {ip}, ip + 1, ip + len - 2);
    var u := Store(inp, t, ip + len - 2);
    AgreesStore(inp, u, hist + {ip} + {ip + len - 2}, ip + len - 1, ip + len - 1);
    assert hist + {ip} + {ip + len - 2} + {ip + len - 1} == hist + Stored(inp, ip, len);
  }

  /** There is such a list of choices for every input. */
  lemma {:induction false} GreedyExists(inp: seq<byte>, ip: nat, tab: Positions, hist: set<nat>)
    returns (pieces: seq<Piece>)
    requires ip <= |inp| && (ip + 2 < |inp| ==> Agrees(inp, tab, hist, ip))
    ensures Greedy(inp, pieces, ip, hist)
    decreases |inp| - ip
  {
    hide Agrees, Store, Look, Offered, Longest, Stored, MatchLen;
    if ip + 2 >= |inp| {
      pieces := seq(|inp| - ip, _ => Literal);
    } else {
      LookIs(inp, tab, hist, ip);
      match Look(inp, ip, tab)
      case None =>
        AgreesStore(inp, tab, hist, ip, ip);
        var others := GreedyExists(inp, ip + 1, Store(inp, tab, ip), hist + {ip});
        pieces := [Literal] + others;
        assert pieces[1..] == others;
      case Some(q) =>
        OfferedMatches(inp, hist, ip, q);
        var len := MatchLen(inp, q, ip);
        if ip + len + 2 < |inp| {
          StoreThree(inp, tab, hist, ip, len);
        }
        var others := GreedyExists(inp, ip + len, AfterTable(inp, tab, ip, len), hist + Stored(inp, ip, len));
        pieces := [Copy(ip - q, len)] + others;
        assert pieces[1..] == others;
    }
  }

  lemma OfferedMatches(inp: seq<byte>, hist: set<nat>, ip: nat, q: nat)
    requires ip + 4 < |inp| && Offered(inp, hist, ip, q)
    ensures 0 < q < ip && ip - q <= 8192 && Longest(inp, q, ip, MatchLen(inp, q, ip))
    ensures var len := MatchLen(inp, q, ip); 3 <= len <= 264 && ip + len <= |inp|
  {
    hide LastSeen, MatchLen;
    MatchIsLongest(inp, q, ip);
  }

  lemma {:induction false} SpellingSize(inp: seq<byte>, pieces: seq<Piece>, ip: nat, lit: nat)
    requires Spellable(inp, pieces, ip) && lit <= ip && lit < 32
    ensures |Spelling(inp, pieces, ip, lit)| >= (if lit > 0 then lit + 1 else 0)
    ensures pieces != [] && pieces[0].Literal? ==> |Spelling(inp, pieces, ip, lit)| >= lit + 2
    decreases |pieces|
  {
    SpellableInside(inp, pieces, ip);
    if pieces != [] {
      match pieces[0]
      case Literal =>
        SpellableInside(inp, pieces[1..], ip + 1);
        SpellingSize(inp, pieces[1..], ip + 1, if lit + 1 == 32 then 0 else lit + 1);
      case Copy(dist, len) =>
    }
  }

  lemma {:induction false} RestSpells(inp: seq<byte>, done: seq<byte>, pieces: seq<Piece>, ip: nat, lit: nat)
    requires lit <= ip && lit < 32 && ip + |pieces| == |inp| && Spellable(inp, pieces, ip)
    requires forall k :: 0 <= k < |pieces| ==> pieces[k] == Literal
    ensures Rest(inp, done, ip, lit) == done + Spelling(inp, pieces, ip, lit)
    decreases |pieces|
  {
    hide AddLiteral, Flush, EndRun;
    if pieces == [] {
      FlushIsEndRun(inp, done, ip, lit);
    } else {
      assert pieces[0] == Literal;
      var r := AddLiteral(inp, done, ip, lit);
      RestSpells(inp, r.0, pieces[1..], ip + 1, r.1);
      LiteralSpelling(inp, done, pieces, ip, lit);
    }
  }

  lemma FlushIsEndRun(inp: seq<byte>, done: seq<byte>, ip: nat, lit: nat)
    requires lit <= ip <= |inp| && lit <= 32
    ensures EndRun(inp, done, ip, lit) == done + Flush(inp, ip, lit)
  {
  }

  /** A literal first: what it completes, and what is left to spell. */
  lemma LiteralSpelling(inp: seq<byte>, done: seq<byte>, pieces: seq<Piece>, ip: nat, lit: nat)
    requires lit <= ip < |inp| && lit < 32 && pieces != [] && pieces[0] == Literal && Spellable(inp, pieces, ip)
    ensures Spellable(inp, pieces[1..], ip + 1)
    ensures var r := AddLiteral(inp, done, ip, lit);
      r.0 + Spelling(inp, pieces[1..], ip + 1, r.1) == done + Spelling(inp, pieces, ip, lit)
  {
    hide Flush, EndRun;
    FlushIsEndRun(inp, done, ip + 1, lit + 1);
    if lit + 1 == 32 {
      var f, s := Flush(inp, ip + 1, 32), Spelling(inp, pieces[1..], ip + 1, 0);
      assert (done + f) + s == done + (f + s);
    }
  }

  /** What the compressor yields, if `out` is what it still has to write behind `done`. */
  predicate Yields(packed: seq<byte>, done: seq<byte>, out: seq<byte>, outLen: nat) {
    && (packed == [] || packed == done + out)
    && (|done| + |out| + 4 <= outLen ==> packed == done + out)
  }

  lemma {:induction false} PackGreedy(inp: seq<byte>, outLen: nat, done: seq<byte>, ip: nat, lit: nat, tab: Positions,
                                      hist: set<nat>, pieces: seq<Piece>)
    requires lit <= ip <= |inp| && lit < 32 && (ip + 2 < |inp| ==> Agrees(inp, tab, hist, ip))
    requires Greedy(inp, pieces, ip, hist) && Spellable(inp, pieces, ip)
    ensures Yields(PackFrom(inp, outLen, done, ip, lit, tab), done, Spelling(inp, pieces, ip, lit), outLen)
    decreases |inp| - ip
  {
    hide Agrees, Store, Look, Offered, Longest, Stored, MatchLen, EndRun, Tail, Rest, PackFrom, Spelling, Yields, Code,
      AddLiteral, Back, Flush;
    if ip + 2 >= |inp| {
      LzfCompress.PackTail(inp, outLen, done, ip, lit, tab);
      TailYields(inp, outLen, done, pieces, ip, lit);
    } else {
      LookIs(inp, tab, hist, ip);
      match Look(inp, ip, tab)
      case None =>
        NoCopy(inp, pieces, ip, hist);
        AgreesStore(inp, tab, hist, ip, ip);
        var r := AddLiteral(inp, done, ip, lit);
        LiteralLeft(inp, pieces, ip, lit);
        PackGreedy(inp, outLen, r.0, ip + 1, r.1, Store(inp, tab, ip), hist + {ip}, pieces[1..]);
        LiteralYields(inp, outLen, done, ip, lit, tab, pieces);
      case Some(q) =>
        OfferedMatches(inp, hist, ip, q);
        var len := MatchLen(inp, q, ip);
        OneCopy(inp, pieces, ip, hist, q);
        var next := ip + len;
        var d := EndRun(inp, done, ip, lit) + Code(ip - q - 1, len);
        if next + 2 < |inp| {
          StoreThree(inp, tab, hist, ip, len);
        }
        PackGreedy(inp, outLen, d, next, 0, AfterTable(inp, tab, ip, len), hist + Stored(inp, ip, len), pieces[1..]);
        CopyYields(inp, outLen, done, ip, lit, tab, q, pieces);
    }
  }

  lemma TailYields(inp: seq<byte>, outLen: nat, done: seq<byte>, pieces: seq<Piece>, ip: nat, lit: nat)
    requires lit <= ip && lit < 32 && ip + |pieces| == |inp| && Spellable(inp, pieces, ip)
    requires forall k :: 0 <= k < |pieces| ==> pieces[k] == Literal
    ensures Yields(Tail(inp, outLen, done, ip, lit), done, Spelling(inp, pieces, ip, lit), outLen)
  {
    hide Rest, Spelling;
    RestSpells(inp, done, pieces, ip, lit);
    SpellingSize(inp, pieces, ip, lit);
  }

  lemma NoCopy(inp: seq<byte>, pieces: seq<Piece>, ip: nat, hist: set<nat>)
    requires ip + 2 < |inp| && Greedy(inp, pieces, ip, hist)
    requires ip + 4 < |inp| ==> forall q :: !Offered(inp, hist, ip, q)
    ensures pieces != [] && pieces[0] == Literal && Greedy(inp, pieces[1..], ip + 1, hist + {ip})
  {
    hide Offered, Longest;
  }

  lemma OneCopy(inp: seq<byte>, pieces: seq<Piece>, ip: nat, hist: set<nat>, q: nat)
    requires ip + 4 < |inp| && q < ip && Greedy(inp, pieces, ip, hist) && Spellable(inp, pieces, ip)
    requires Offered(inp, hist, ip, q) && Longest(inp, q, ip, MatchLen(inp, q, ip))
    ensures var len := MatchLen(inp, q, ip);
      && pieces != [] && pieces[0] == Copy(ip - q, len)
      && Greedy(inp, pieces[1..], ip + len, hist + Stored(inp, ip, len))
      && Spellable(inp, pieces[1..], ip + len) && 0 < ip - q <= 8192 && 3 <= len <= 264
  {
    hide Longest, LastSeen, MatchLen, Stored;
    assert Offered(inp, hist, ip, q);
    LastSeenOnce(inp, hist, ip, q, ip - pieces[0].dist);
    LongestOnce(inp, q, ip, MatchLen(inp, q, ip), pieces[0].len);
  }

  lemma LiteralLeft(inp: seq<byte>, pieces: seq<Piece>, ip: nat, lit: nat)
    requires lit <= ip && ip + 2 < |inp| && lit < 32 && pieces != [] && pieces[0] == Literal
    requires Spellable(inp, pieces, ip)
    ensures Spellable(inp, pieces[1..], ip + 1)
  {
  }

  lemma LiteralYields(inp: seq<byte>, outLen: nat, done: seq<byte>, ip: nat, lit: nat, tab: Positions,
                      pieces: seq<Piece>)
    requires lit <= ip && ip + 2 < |inp| && lit < 32 && Look(inp, ip, tab).None?
    requires pieces != [] && pieces[0] == Literal && Spellable(inp, pieces, ip)
    requires Spellable(inp, pieces[1..], ip + 1)
    requires
      var r := AddLiteral(inp, done, ip, lit);
      Yields(PackFrom(inp, outLen, r.0, ip + 1, r.1, Store(inp, tab, ip)), r.0,
             Spelling(inp, pieces[1..], ip + 1, r.1), outLen)
    ensures Yields(PackFrom(inp, outLen, done, ip, lit, tab), done, Spelling(inp, pieces, ip, lit), outLen)
  {
    hide Look, PackFrom, Store, AddLiteral, Spelling;
    LzfCompress.PackLiteral(inp, outLen, done, ip, lit, tab);
    SpellingSize(inp, pieces, ip, lit);
    LiteralSpelling(inp, done, pieces, ip, lit);
  }

  /** A match first: what it completes, and what is left to spell. */
  lemma CopySpelling(inp: seq<byte>, done: seq<byte>, pieces: seq<Piece>, ip: nat, lit: nat, dist: nat, len: nat)
    requires lit <= ip < |inp| && lit < 32 && pieces != [] && pieces[0] == Copy(dist, len)
    requires Spellable(inp, pieces, ip)
    ensures 0 < dist <= 8192 && 3 <= len <= 264 && Spellable(inp, pieces[1..], ip + len)
    ensures var d := EndRun(inp, done, ip, lit) + Code(dist - 1, len);
      d + Spelling(inp, pieces[1..], ip + len, 0) == done + Spelling(inp, pieces, ip, lit)
  {
    hide Flush, EndRun;
    FlushIsEndRun(inp, done, ip, lit);
    var f, b, s := Flush(inp, ip, lit), Back(dist, len), Spelling(inp, pieces[1..], ip + len, 0);
    assert Code(dist - 1, len) == b;
    assert ((done + f) + b) + s == done + (f + b + s);
  }

  /** The next turn of the packing after a match: in the main loop, or in the tail. */
  lemma AfterCopy(inp: seq<byte>, outLen: nat, done: seq<byte>, ip: nat, lit: nat, tab: Positions, q: nat)
    requires lit <= ip && ip + 4 < |inp| && lit < 32 && Look(inp, ip, tab) == Some(q) && q < ip && ip - q <= 8192
    requires MatchLen(inp, q, ip) <= 264 && ip + MatchLen(inp, q, ip) <= |inp|
    ensures
      var len := MatchLen(inp, q, ip);
      var d := EndRun(inp, done, ip, lit) + Code(ip - q - 1, len);
      PackFrom(inp, outLen, done, ip, lit, tab) ==
        if |EndRun(inp, done, ip, lit)| + 4 >= outLen then []
        else PackFrom(inp, outLen, d, ip + len, 0, AfterTable(inp, tab, ip, len))
  {
    hide Look, PackFrom, Store, MatchLen, Tail, EndRun, Code;
    var len := MatchLen(inp, q, ip);
    LzfCompress.PackMatch(inp, outLen, done, ip, lit, tab, q);
    if ip + len + 2 >= |inp| {
      LzfCompress.PackTail(inp, outLen, EndRun(inp, done, ip, lit) + Code(ip - q - 1, len), ip + len, 0, tab);
    }
  }

  lemma CopyYields(inp: seq<byte>, outLen: nat, done: seq<byte>, ip: nat, lit: nat, tab: Positions, q: nat,
                   pieces: seq<Piece>)
    requires lit <= ip && ip + 4 < |inp| && lit < 32 && Look(inp, ip, tab) == Some(q) && q < ip && ip - q <= 8192
    requires MatchLen(inp, q, ip) <= 264 && ip + MatchLen(inp, q, ip) <= |inp|
    requires pieces != [] && pieces[0] == Copy(ip - q, MatchLen(inp, q, ip)) && Spellable(inp, pieces, ip)
    requires Spellable(inp, pieces[1..], ip + MatchLen(inp, q, ip))
    requires
      var len := MatchLen(inp, q, ip);
      var d := EndRun(inp, done, ip, lit) + Code(ip - q - 1, len);
      Yields(PackFrom(inp, outLen, d, ip + len, 0, AfterTable(inp, tab, ip, len)), d,
             Spelling(inp, pieces[1..], ip + len, 0), outLen)
    ensures Yields(PackFrom(inp, outLen, done, ip, lit, tab), done, Spelling(inp, pieces, ip, lit), outLen)
  {
    hide Look, PackFrom, AfterTable, MatchLen, EndRun, Code, Spelling, Spellable;
    var len := MatchLen(inp, q, ip);
    AfterCopy(inp, outLen, done, ip, lit, tab, q);
    CopySpelling(inp, done, pieces, ip, lit, ip - q, len);
    CodeSize(ip - q, len);
  }

  lemma CodeSize(dist: nat, len: nat)
    requires 0 < dist <= 8192 && 3 <= len <= 264
    ensures |Code(dist - 1, len)| >= 2
  {
  }

  /**
    * The compressor's output is the spelling of the greedy choices, whenever four bytes are to spare, and nothing else
    * ever. No match is missed: these are the only choices that pass over none.
    */
  lemma PackedIsGreedy(inp: seq<byte>, outLen: nat, pieces: seq<Piece>)
    requires |inp| >= 2 && outLen > 0 && Greedy(inp, pieces, 0, {})
    ensures Spellable(inp, pieces, 0)
    ensures var s := Spelling(inp, pieces, 0, 0);
      && (Packed(inp, outLen) == [] || Packed(inp, outLen) == s)
      && (|s| + 4 <= outLen ==> Packed(inp, outLen) == s)
      && (|s| > outLen ==> Packed(inp, outLen) == [])
  {
    hide PackFrom, Greedy, Spelling, Spellable;
    GreedySpellable(inp, pieces, 0, {});
    PackGreedy(inp, outLen, [], 0, 0, map[], {}, pieces);
    assert [] + Spelling(inp, pieces, 0, 0) == Spelling(inp, pieces, 0, 0);
    PackedFits(inp, outLen);
  }
}
