/** A text written twice: the compressor finds the repetition, at whatever distance up to 8192, and spells it in few
    bytes. */
module LzfDoubled {
  import opened Bytes
  import opened LzfGreedy
  import LzfCompress
  import LzfPack
  import LzfSpec

  /** No two positions of the text have the same slot. */
  ghost predicate DistinctSlots(u: seq<byte>)
    requires |u| >= 2
  {
    forall i, j :: 0 <= i < j < |u| ==> LzfPack.SlotAt(u + u, i) != LzfPack.SlotAt(u + u, j)
  }

  function Literals(n: nat): (s: seq<Piece>)
    ensures |s| == n && forall k :: 0 <= k < n ==> s[k] == Literal
  {
    if n == 0 then [] else [Literal] + Literals(n - 1)
  }

  /** Copies from n bytes back, as long as they may be, and a few literals at the end. */
  function Copies(n: nat, left: nat): seq<Piece> {
    if left <= 4 then Literals(left) else [Copy(n, Limit(left))] + Copies(n, left - Limit(left))
  }

  // ----- These are the greedy choices -----

  lemma {:induction false} LastLiterals(inp: seq<byte>, ip: nat, hist: set<nat>)
    requires ip <= |inp| <= ip + 4
    ensures Greedy(inp, Literals(|inp| - ip), ip, hist)
    decreases |inp| - ip
  {
    hide Offered;
    if ip + 2 < |inp| {
      LastLiterals(inp, ip + 1, hist + {ip});
      assert Literals(|inp| - ip)[1..] == Literals(|inp| - ip - 1);
    }
  }

  /** The second half repeats the first, byte by byte and so slot by slot. */
  lemma SecondHalf(u: seq<byte>, k: nat)
    requires |u| <= k < 2 * |u|
    ensures (u + u)[k] == (u + u)[k - |u|]
    ensures k + 2 < 2 * |u| ==> LzfPack.SlotAt(u + u, k) == LzfPack.SlotAt(u + u, k - |u|)
  {
    hide LzfPack.Slot;
  }

  lemma OfferedBack(u: seq<byte>, ip: nat, hist: set<nat>)
    requires 20 <= |u| <= 8192 && DistinctSlots(u) && |u| < ip && ip + 4 < 2 * |u|
    requires forall q :: q in hist ==> q < ip
    requires forall q :: 0 <= q <= |u| ==> q in hist
    ensures Offered(u + u, hist, ip, ip - |u|)
  {
    hide LzfPack.SlotAt;
    var n, s := |u|, u + u;
    SecondHalf(u, ip);
    SecondHalf(u, ip + 1);
    SecondHalf(u, ip + 2);
    forall x | x in hist && x + 2 < |s| && LzfPack.SlotAt(s, x) == LzfPack.SlotAt(s, ip) ensures x <= ip - n {
      if x >= n {
        SecondHalf(u, x);
      }
      OneSlot(u, if x >= n then x - n else x, ip - n);
    }
  }

  lemma OneSlot(u: seq<byte>, i: nat, j: nat)
    requires |u| >= 2 && DistinctSlots(u) && i < |u| && j < |u|
    requires LzfPack.SlotAt(u + u, i) == LzfPack.SlotAt(u + u, j)
    ensures i == j
  {
    hide LzfPack.SlotAt;
  }

  lemma LongestBack(u: seq<byte>, ip: nat)
    requires 0 < |u| <= ip && ip + 4 < 2 * |u|
    ensures Longest(u + u, ip - |u|, ip, Limit(2 * |u| - ip))
  {
    var s, len := u + u, Limit(2 * |u| - ip);
    forall k | ip <= k < ip + len ensures s[k] == s[k - |u|] {
      SecondHalf(u, k);
    }
  }

  lemma {:induction false} CopiesGreedy(u: seq<byte>, ip: nat, hist: set<nat>)
    requires 20 <= |u| <= 8192 && DistinctSlots(u) && |u| < ip <= 2 * |u|
    requires forall q :: q in hist ==> q < ip
    requires forall q :: 0 <= q <= |u| ==> q in hist
    ensures Greedy(u + u, Copies(|u|, 2 * |u| - ip), ip, hist)
    decreases 2 * |u| - ip
  {
    hide Offered, Longest, DistinctSlots;
    var n, s := |u|, u + u;
    var left := 2 * n - ip;
    if left <= 4 {
      LastLiterals(s, ip, hist);
    } else {
      OfferedBack(u, ip, hist);
      LongestBack(u, ip);
      var len := Limit(left);
      CopiesGreedy(u, ip + len, hist + Stored(s, ip, len));
      assert Copies(n, left)[1..] == Copies(n, left - len);
    }
  }

  /** Before a position of the first half, or the first of the second, nothing is offered: no slot comes twice but that
      of position 0, and a match at position 0 is not taken. */
  lemma NothingOffered(u: seq<byte>, ip: nat, hist: set<nat>, q: nat)
    requires |u| >= 20 && DistinctSlots(u) && ip <= |u|
    requires forall x :: x in hist ==> x < ip
    ensures !Offered(u + u, hist, ip, q)
  {
    hide LzfPack.SlotAt, DistinctSlots;
    if ip == |u| {
      SecondHalf(u, ip);
    }
    if LastSeen(u + u, hist, ip, q) && q > 0 {
      OneSlot(u, q, if ip == |u| then 0 else ip);
      assert false;
    }
  }

  function Choices(n: nat, ip: nat): seq<Piece>
    requires 0 < n && ip <= n + 1
  {
    Literals(n + 1 - ip) + Copies(n, n - 1)
  }

  lemma {:induction false} ChoicesGreedy(u: seq<byte>, ip: nat, hist: set<nat>)
    requires 20 <= |u| <= 8192 && DistinctSlots(u) && ip <= |u| + 1
    requires forall q :: q in hist <==> 0 <= q < ip
    ensures Greedy(u + u, Choices(|u|, ip), ip, hist)
    decreases |u| + 1 - ip
  {
    hide Offered, DistinctSlots, Copies;
    if ip <= |u| {
      forall q ensures !Offered(u + u, hist, ip, q) {
        NothingOffered(u, ip, hist, q);
      }
      ChoicesGreedy(u, ip + 1, hist + {ip});
      assert Choices(|u|, ip)[1..] == Choices(|u|, ip + 1);
    } else {
      CopiesGreedy(u, ip, hist);
      assert Choices(|u|, ip) == Copies(|u|, |u| - 1);
    }
  }

  // ----- How long they are -----

  lemma LiteralFirst(inp: seq<byte>, pieces: seq<Piece>, ip: nat, lit: nat)
    requires lit <= ip && lit < 32 && pieces != [] && pieces[0] == Literal && Spellable(inp, pieces, ip)
    ensures Spellable(inp, pieces[1..], ip + 1)
    ensures |Spelling(inp, pieces, ip, lit)| ==
      if lit == 31 then 33 + |Spelling(inp, pieces[1..], ip + 1, 0)|
      else |Spelling(inp, pieces[1..], ip + 1, lit + 1)|
  {
    SpellableInside(inp, pieces[1..], ip + 1);
  }

  lemma {:induction false} LiteralsSize(inp: seq<byte>, m: nat, others: seq<Piece>, ip: nat, lit: nat)
    requires lit <= ip && lit < 32 && Spellable(inp, Literals(m) + others, ip)
    ensures Spellable(inp, others, ip + m)
    ensures |Spelling(inp, Literals(m) + others, ip, lit)| ==
      33 * ((lit + m) / 32) + |Spelling(inp, others, ip + m, (lit + m) % 32)|
    decreases m
  {
    hide Spelling, Spellable;
    var all := Literals(m) + others;
    if m == 0 {
      assert all == others;
    } else {
      assert all[1..] == Literals(m - 1) + others;
      LiteralFirst(inp, all, ip, lit);
      LiteralsSize(inp, m - 1, others, ip + 1, if lit + 1 == 32 then 0 else lit + 1);
    }
  }

  function RunSize(lit: nat): nat {
    if lit > 0 then lit + 1 else 0
  }

  lemma LastSize(inp: seq<byte>, left: nat, ip: nat, lit: nat)
    requires lit <= ip && lit < 32 && left <= 4 && Spellable(inp, Literals(left), ip)
    ensures |Spelling(inp, Literals(left), ip, lit)| <= RunSize(lit) + left + 1
  {
    assert Literals(left) + [] == Literals(left);
    LiteralsSize(inp, left, [], ip, lit);
    SpellableInside(inp, [], ip + left);
  }

  lemma {:induction false} CopiesSize(inp: seq<byte>, n: nat, left: nat, ip: nat, lit: nat)
    requires lit <= ip && lit < 32 && Spellable(inp, Copies(n, left), ip)
    ensures |Spelling(inp, Copies(n, left), ip, lit)| <= RunSize(lit) + 3 * ((left + 263) / 264) + 5
    decreases left
  {
    hide Flush, Back;
    if left <= 4 {
      LastSize(inp, left, ip, lit);
    } else {
      var len := Limit(left);
      assert Copies(n, left)[1..] == Copies(n, left - len);
      SpellableInside(inp, Copies(n, left), ip);
      SpellableInside(inp, Copies(n, left - len), ip + len);
      if left > 266 {
        CopiesSize(inp, n, left - len, ip + len, 0);
      } else {
        LastSize(inp, left - len, ip + len, 0);
      }
    }
  }

  /** What the bound on the compressed size of a text of n bytes written twice is. */
  function Bound(n: nat): nat {
    n + (n + 1) / 32 + 3 * ((n + 262) / 264) + 7
  }

  lemma ChoicesSize(inp: seq<byte>, n: nat)
    requires n > 0 && Spellable(inp, Choices(n, 0), 0)
    ensures |Spelling(inp, Choices(n, 0), 0, 0)| <= Bound(n)
  {
    LiteralsSize(inp, n + 1, Copies(n, n - 1), 0, 0);
    CopiesSize(inp, n, n - 1, n + 1, (n + 1) % 32);
  }

  /**
    * A text of 20 to 8192 bytes whose positions have different slots, written twice, is compressed into a room of four
    * bytes less, and to little more than half.
    */
  lemma DoubledPacks(u: seq<byte>)
    requires 20 <= |u| <= 8192 && DistinctSlots(u)
    ensures var r := |LzfPack.Packed(u + u, 2 * |u| - 4)|;
      0 < r <= |u| + (|u| + 1) / 32 + 3 * ((|u| + 262) / 264) + 7
  {
    hide Greedy, Choices, DistinctSlots, Spelling, Spellable, LzfPack.Packed;
    ChoicesGreedy(u, 0, {});
    PackedIsGreedy(u + u, 2 * |u| - 4, Choices(|u|, 0));
    ChoicesSize(u + u, |u|);
    BoundFits(|u|);
    SomethingSpelled(u + u, |u|);
  }

  lemma BoundFits(n: nat)
    requires n >= 20
    ensures Bound(n) + 4 <= 2 * n - 4 && Bound(n) == n + (n + 1) / 32 + 3 * ((n + 262) / 264) + 7
  {
  }

  lemma SomethingSpelled(inp: seq<byte>, n: nat)
    requires n > 0 && Spellable(inp, Choices(n, 0), 0)
    ensures Spelling(inp, Choices(n, 0), 0, 0) != []
  {
    assert Choices(n, 0)[0] == Literal;
    SpellingSize(inp, Choices(n, 0), 0, 0);
  }

  /** The compressor run on such an input. */
  method CompressDoubled(u: seq<byte>, inp: array<byte>, base: nat, htab: array<int>, out: array<byte>)
    returns (r: nat)
    requires 20 <= |u| <= 8192 && DistinctSlots(u) && inp[..] == u + u
    requires LzfSpec.MAX_OFF <= base && base + inp.Length < TWO_64
    requires htab.Length == LzfPack.HSIZE && forall k :: 0 <= k < LzfPack.HSIZE ==> 0 <= htab[k] < TWO_64
    requires 2 * |u| - 4 < out.Length && inp != out
    modifies htab, out
    ensures 0 < r <= |u| + (|u| + 1) / 32 + 3 * ((|u| + 262) / 264) + 7
    ensures LzfSpec.Decode(out[..r], [], 2 * |u|) == LzfSpec.Done(u + u)
  {
    hide DistinctSlots, LzfPack.Packed, LzfSpec.Decode;
    DoubledPacks(u);
    r := LzfCompress.Compress(inp, base, htab, out, 2 * |u| - 4);
  }

  // ----- The alphabet, twice -----

  function Alphabet(): (u: seq<byte>)
    ensures |u| == 26
  {
    seq(26, i requires 0 <= i < 26 => 97 + i)
  }

  lemma AlphabetSlot(i: nat)
    requires i < 26
    ensures LzfPack.SlotAt(Alphabet() + Alphabet(), i) ==
      if i < 24 then 30067 - 1028 * i else if i == 24 then 5525 else 37751
  {
    hide LzfPack.Slot;
    var s := Alphabet() + Alphabet();
    LzfPack.SlotParts(s, i);
    if i < 24 {
      assert s[i] == 97 + i && s[i + 1] == 98 + i && s[i + 2] == 99 + i;
      SlotIs((97 + i) * 65536 + (98 + i) * 256 + (99 + i), -5 * (97 + i) - 2, 30067 - 1028 * i);
    } else if i == 24 {
      SlotIs(121 * 65536 + 122 * 256 + 97, -5 * 121 - 2, 5525);
    } else {
      SlotIs(122 * 65536 + 97 * 256 + 98, -5 * 122 - 2, 37751);
    }
  }

  lemma SlotIs(h: int, k: int, r: nat)
    requires r < 65536 && h / 256 - h * 5 == r + k * 65536
    ensures LzfPack.Slot(h) == r
  {
    LzfPack.ModShift(r, k);
  }

  lemma AlphabetDistinct()
    ensures DistinctSlots(Alphabet())
  {
    hide LzfPack.SlotAt, Alphabet;
    forall i, j | 0 <= i < j < 26
      ensures LzfPack.SlotAt(Alphabet() + Alphabet(), i) != LzfPack.SlotAt(Alphabet() + Alphabet(), j)
    {
      AlphabetSlot(i);
      AlphabetSlot(j);
    }
  }

  /** Its 52 bytes take 34: 27 literals in a run, a match of 23 bytes at distance 26, and a run of two. */
  lemma AlphabetTwice()
    ensures |LzfPack.Packed(Alphabet() + Alphabet(), 48)| == 34
  {
    hide Greedy, DistinctSlots, Alphabet, LzfPack.Packed, Spelling, Spellable, Copies, Literals;
    var s := Alphabet() + Alphabet();
    AlphabetDistinct();
    ChoicesGreedy(Alphabet(), 0, {});
    GreedySpellable(s, Choices(26, 0), 0, {});
    LiteralsSize(s, 27, Copies(26, 25), 0, 0);
    assert Copies(26, 25) == [Copy(26, 23)] + Literals(2) by { AlphabetCopies(); }
    CopyFirst(s, Copies(26, 25), 27, 27);
    assert Copies(26, 25)[1..] == Literals(2);
    assert Literals(2) + [] == Literals(2);
    LiteralsSize(s, 2, [], 50, 0);
    NothingLeft(s, 2);
    PackedIsGreedy(s, 48, Choices(26, 0));
  }

  lemma AlphabetCopies()
    ensures Copies(26, 25) == [Copy(26, 23)] + Literals(2)
  {
  }

  lemma CopyFirst(inp: seq<byte>, pieces: seq<Piece>, ip: nat, lit: nat)
    requires 0 < lit <= ip && lit < 32 && pieces != [] && pieces[0].Copy? && pieces[0].len >= 9
    requires Spellable(inp, pieces, ip)
    ensures Spellable(inp, pieces[1..], ip + pieces[0].len)
    ensures |Spelling(inp, pieces, ip, lit)| == lit + 1 + 3 + |Spelling(inp, pieces[1..], ip + pieces[0].len, 0)|
  {
    SpellableInside(inp, pieces, ip);
  }

  lemma NothingLeft(inp: seq<byte>, lit: nat)
    requires 0 < lit < 32 && lit <= |inp|
    ensures Spellable(inp, [], |inp|) && |Spelling(inp, [], |inp|, lit)| == lit + 1
  {
  }
}
