/** The LZF stream format as a mathematical decoder, and the two ways a stream grows. */
module LzfSpec {
  import opened Bytes

  const MAX_LIT := 32
  const MAX_OFF := 8192
  const MAX_REF := 264

  /** What decoding yields: the bytes, or the error the C code reports through errno. */
  datatype Outcome = Done(data: seq<byte>) | TooBig | Invalid

  /** The instruction at the front of a stream. `Cut` is a back reference that the input ends in the middle of. */
  datatype Instr = Literal(count: nat) | BackRef(dist: nat, count: nat, size: nat) | Cut

  function Head(c: seq<byte>): (i: Instr)
    requires c != []
    ensures i.Literal? ==> 1 <= i.count <= MAX_LIT
    ensures i.BackRef? ==> 2 <= i.size <= |c| && 1 <= i.dist <= MAX_OFF && 3 <= i.count <= MAX_REF
  {
    var ctrl: int := c[0];
    if ctrl < 32 then Literal(ctrl + 1)
    else if |c| < 2 then Cut
    else
      var b: int := c[1];
      if ctrl / 32 < 7 then BackRef(ctrl % 32 * 256 + b + 1, ctrl / 32 + 2, 2)
      else if |c| < 3 then Cut
      else
        var low: int := c[2];
        BackRef(ctrl % 32 * 256 + low + 1, 7 + b + 2, 3)
  }

  /** `acc` followed by `n` bytes, each a copy of the byte `dist` places before it; the copy may overlap its source. */
  function CopyBack(acc: seq<byte>, dist: nat, n: nat): (r: seq<byte>)
    requires 1 <= dist <= |acc|
    ensures |r| == |acc| + n && acc <= r
    decreases n
  {
    if n == 0 then acc else
      var s := CopyBack(acc, dist, n - 1);
      s + [s[|s| - dist]]
  }

  /** Every new byte equals the byte `dist` places before it, also where that one is new itself. */
  lemma {:induction false} CopyBackRepeats(acc: seq<byte>, dist: nat, n: nat, k: nat)
    requires 1 <= dist <= |acc| && |acc| <= k < |acc| + n
    ensures CopyBack(acc, dist, n)[k] == CopyBack(acc, dist, n)[k - dist]
    decreases n
  {
    if k < |acc| + n - 1 {
      CopyBackRepeats(acc, dist, n - 1, k);
    }
  }

  /** The state after one instruction: the rest of the stream and everything produced, or an error. */
  datatype Step = Next(rest: seq<byte>, acc: seq<byte>) | Stop(error: Outcome)

  function Advance(c: seq<byte>, acc: seq<byte>, room: nat): (s: Step)
    requires c != []
    ensures s.Next? ==> |s.rest| < |c|
  {
    match Head(c)
    case Literal(n) =>
      if |acc| + n > room then Stop(TooBig)
      else if 1 + n > |c| then Stop(Invalid)
      else Next(c[1 + n..], acc + c[1..1 + n])
    case BackRef(dist, n, size) =>
      if |acc| + n > room then Stop(TooBig)
      else if dist > |acc| then Stop(Invalid)
      else Next(c[size..], CopyBack(acc, dist, n))
    case Cut => Stop(Invalid)
  }

  /** Decodes the rest of a stream when `acc` has been produced already and at most `room` bytes fit. */
  function Decode(c: seq<byte>, acc: seq<byte>, room: nat): Outcome
    decreases |c|
  {
    if c == [] then Done(acc) else
      match Advance(c, acc, room)
      case Next(rest, more) => Decode(rest, more, room)
      case Stop(error) => error
  }

  lemma AdvanceAppend(c: seq<byte>, t: seq<byte>, acc: seq<byte>, room: nat)
    requires c != [] && Advance(c, acc, room).Next?
    ensures var s := Advance(c, acc, room);
            Advance(c + t, acc, room) == Next(s.rest + t, s.acc)
  {
    assert Head(c + t) == Head(c);
    var n := match Head(c) case Literal(k) => 1 + k case BackRef(_, _, size) => size case Cut => 0;
    assert (c + t)[n..] == c[n..] + t;
    assert (c + t)[..n] == c[..n];
    assert Head(c).Literal? ==> (c + t)[1..n] == c[1..n];
  }

  /** A decoded prefix can be forgotten: only what it produced matters for the rest. */
  lemma {:induction false} DecodeAppend(c: seq<byte>, t: seq<byte>, acc: seq<byte>, room: nat)
    requires Decode(c, acc, room).Done?
    ensures Decode(c + t, acc, room) == Decode(t, Decode(c, acc, room).data, room)
    decreases |c|
  {
    if c == [] {
      assert c + t == t;
    } else {
      var s := Advance(c, acc, room);
      AdvanceAppend(c, t, acc, room);
      DecodeAppend(s.rest, t, s.acc, room);
    }
  }

  /** More room never changes a successful result. */
  lemma {:induction false} DecodeMoreRoom(c: seq<byte>, acc: seq<byte>, room: nat, more: nat)
    requires room <= more
    requires Decode(c, acc, room).Done?
    ensures Decode(c, acc, more) == Decode(c, acc, room)
    decreases |c|
  {
    if c != [] {
      var s := Advance(c, acc, room);
      assert Advance(c, acc, more) == s;
      DecodeMoreRoom(s.rest, s.acc, room, more);
    }
  }

  /** A stream that is found malformed is so with any larger room: that error is about the stream. */
  lemma {:induction false} InvalidStays(c: seq<byte>, acc: seq<byte>, room: nat, more: nat)
    requires room <= more && Decode(c, acc, room) == Invalid
    ensures Decode(c, acc, more) == Invalid
    decreases |c|
  {
    hide Head;
    if Advance(c, acc, room).Next? {
      var s := Advance(c, acc, room);
      assert Advance(c, acc, more) == s;
      InvalidStays(s.rest, s.acc, room, more);
    }
  }

  /** The other error is about the room: with 264 bytes for each byte of the stream it never comes. */
  lemma {:induction false} EnoughRoom(c: seq<byte>, acc: seq<byte>, room: nat)
    requires |acc| + 264 * |c| <= room
    ensures Decode(c, acc, room) != TooBig
    decreases |c|
  {
    hide Head;
    if c != [] && Advance(c, acc, room).Next? {
      var s := Advance(c, acc, room);
      EnoughRoom(s.rest, s.acc, room);
    }
  }

  /** Whatever the stream, a result extends what was there, fits the room, and is longer if the stream is not empty. */
  lemma {:induction false} DecodeFits(c: seq<byte>, acc: seq<byte>, room: nat)
    requires Decode(c, acc, room).Done? && |acc| <= room
    ensures acc <= Decode(c, acc, room).data && |Decode(c, acc, room).data| <= room
    ensures c != [] ==> |acc| < |Decode(c, acc, room).data|
    decreases |c|
  {
    if c != [] {
      var s := Advance(c, acc, room);
      assert acc <= s.acc && |acc| < |s.acc| <= room;
      DecodeFits(s.rest, s.acc, room);
    }
  }

  /** inp[at..at + n] repeats the n bytes that start at `ref`. */
  ghost predicate Match(inp: seq<byte>, ref: nat, at: nat, n: nat) {
    && ref < at && at + n <= |inp|
    && forall k :: at <= k < at + n ==> inp[k] == inp[k - (at - ref)]
  }

  lemma DecodeRun(run: seq<byte>, acc: seq<byte>, room: nat)
    requires 2 <= |run| <= MAX_LIT + 1 && run[0] as int == |run| - 2 && |acc| + |run| - 1 <= room
    ensures Decode(run, acc, room) == Done(acc + run[1..])
  {
    assert Head(run) == Literal(|run| - 1);
    assert run[1..|run|] == run[1..] && run[|run|..] == [];
  }

  /** Appending a literal run to a stream that decodes to inp[..from] makes it decode to inp[..from + n]. */
  lemma AppendLiteral(c: seq<byte>, run: seq<byte>, inp: seq<byte>, from: nat)
    requires 2 <= |run| <= MAX_LIT + 1 && run[0] as int == |run| - 2
    requires from + |run| - 1 <= |inp| && run[1..] == inp[from..from + |run| - 1]
    requires Decode(c, [], |inp|) == Done(inp[..from])
    ensures Decode(c + run, [], |inp|) == Done(inp[..from + |run| - 1])
  {
    hide Decode;
    DecodeAppend(c, run, [], |inp|);
    DecodeRun(run, inp[..from], |inp|);
    assert inp[..from] + inp[from..from + |run| - 1] == inp[..from + |run| - 1];
  }

  lemma DecodeCode(code: seq<byte>, acc: seq<byte>, dist: nat, n: nat, room: nat)
    requires code != [] && Head(code) == BackRef(dist, n, |code|) && 1 <= dist <= |acc| && |acc| + n <= room
    ensures Decode(code, acc, room) == Done(CopyBack(acc, dist, n))
  {
    assert code[|code|..] == [];
    assert Advance(code, acc, room) == Next([], CopyBack(acc, dist, n));
  }

  /** Appending a back reference to a match at `ref` makes a stream for inp[..at] decode to inp[..at + n]. */
  lemma AppendBackRef(c: seq<byte>, code: seq<byte>, inp: seq<byte>, ref: nat, at: nat, n: nat)
    requires Match(inp, ref, at, n) && code != []
    requires Head(code) == BackRef(at - ref, n, |code|)
    requires Decode(c, [], |inp|) == Done(inp[..at])
    ensures Decode(c + code, [], |inp|) == Done(inp[..at + n])
  {
    hide Decode, Head, CopyBack;
    DecodeAppend(c, code, [], |inp|);
    DecodeCode(code, inp[..at], at - ref, n, |inp|);
    CopyBackIsMatch(inp, ref, at, n);
  }

  /** Copying back over a match, overlapping or not, reproduces the input. */
  lemma {:induction false} CopyBackIsMatch(inp: seq<byte>, ref: nat, at: nat, n: nat)
    requires Match(inp, ref, at, n)
    ensures CopyBack(inp[..at], at - ref, n) == inp[..at + n]
    decreases n
  {
    if n > 0 {
      CopyBackIsMatch(inp, ref, at, n - 1);
      assert inp[..at + n] == inp[..at + n - 1] + [inp[at + n - 1]];
    } else {
      assert inp[..at + n] == inp[..at];
    }
  }
}
