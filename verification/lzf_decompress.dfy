/** lzf_decompress, proved equal to the mathematical decoder on every non-empty input, errors included. */
module LzfDecompress {
  import opened Bytes
  import opened LzfSpec
  import opened LzfCompress
  import opened LzfPack

  datatype Errno = NoError | E2BIG | EINVAL

  function ErrnoOf(o: Outcome): Errno {
    match o
    case Done(_) => NoError
    case TooBig => E2BIG
    case Invalid => EINVAL
  }

  lemma CopyNothing(acc: seq<byte>, dist: nat)
    requires 1 <= dist <= |acc|
    ensures CopyBack(acc, dist, 0) == acc
  {
  }

  lemma CopyOne(acc: seq<byte>, dist: nat, n: nat)
    requires 1 <= dist <= |acc|
    ensures var s := CopyBack(acc, dist, n); CopyBack(acc, dist, n + 1) == s + [s[|s| - dist]]
  {
  }

  /** Copies the bytes of a literal run, one by one. */
  method CopyLiteral(inp: array<byte>, ip0: nat, out: array<byte>, op0: nat, n: nat)
    requires inp != out && n > 0 && ip0 + n <= inp.Length && op0 + n <= out.Length
    modifies out
    ensures out[..op0 + n] == old(out[..op0]) + inp[ip0..ip0 + n]
    ensures forall k :: op0 + n <= k < out.Length ==> out[k] == old(out[k])
  {
    var i := 0;
    while i < n
      invariant 0 <= i <= n
      invariant out[..op0] == old(out[..op0]) && out[op0..op0 + i] == inp[ip0..ip0 + i]
      invariant forall k :: op0 + n <= k < out.Length ==> out[k] == old(out[k])
    {
      out[op0 + i] := inp[ip0 + i];
      i := i + 1;
    }
    assert out[..op0 + n] == out[..op0] + out[op0..op0 + n];
  }

  /** The byte-by-byte copy of a back reference: every byte read lies below op, so it was written before. */
  method CopyRef(out: array<byte>, ref0: nat, op0: nat, n: nat)
    requires n >= 3 && ref0 < op0 && op0 + n <= out.Length
    modifies out
    ensures out[..op0 + n] == CopyBack(old(out[..op0]), op0 - ref0, n)
    ensures forall k :: op0 + n <= k < out.Length ==> out[k] == old(out[k])
  {
    hide CopyBack;
    var ref, op := ref0, op0;
    ghost var start := out[..op0];
    CopyNothing(start, op0 - ref0);
    while op < op0 + n
      invariant op0 <= op <= op0 + n && ref == ref0 + (op - op0) && ref < op
      invariant out[..op] == CopyBack(start, op0 - ref0, op - op0)
      invariant forall k :: op0 + n <= k < out.Length ==> out[k] == old(out[k])
    {
      ghost var s := out[..op];
      out[op] := out[ref];
      CopyOne(start, op0 - ref0, op - op0);
      assert out[..op + 1] == s + [s[ref]];
      op, ref := op + 1, ref + 1;
    }
  }

  /** Reads the rest of a back-reference code: len is its length field, dist how far back it points. */
  method ReadRef(inp: array<byte>, inLen: nat, ip0: nat) returns (ok: bool, ip: nat, dist: int, len: int)
    requires ip0 < inLen <= inp.Length && inp[ip0] >= 32
    ensures ok ==> ip0 < ip <= inLen && dist > 0 && len > 0
    ensures Head(inp[ip0..inLen]) == if ok then BackRef(dist, len + 2, ip - ip0) else Cut
  {
    var ctrl: int := inp[ip0];
    ip := ip0 + 1;
    len := ctrl / 32;
    dist := ctrl % 32 * 256 + 1;
    if ip >= inLen { return false, ip, dist, len; }
    if len == 7 {
      var more: int := inp[ip];
      len := len + more;
      ip := ip + 1;
      if ip >= inLen { return false, ip, dist, len; }
    }
    var low: int := inp[ip];
    dist := dist + low;
    ip := ip + 1;
    ok := true;
  }

  /** The back-reference branch: reads the code, checks it in the C code's order, and copies. */
  method BackReference(inp: array<byte>, inLen: nat, ip0: nat, out: array<byte>, op0: nat, outLen: nat)
    returns (ip: nat, op: nat, errno: Errno)
    requires inp != out && ip0 < inLen <= inp.Length && op0 <= outLen <= out.Length && inp[ip0] >= 32
    modifies out
    ensures match Advance(inp[ip0..inLen], old(out[..op0]), outLen)
            case Next(rest, acc) =>
              errno == NoError && ip0 < ip <= inLen && op0 < op <= outLen && rest == inp[ip..inLen] && acc == out[..op]
            case Stop(error) => errno == ErrnoOf(error) && errno != NoError
    ensures op0 <= op <= outLen && forall k :: op <= k < out.Length ==> out[k] == old(out[k])
  {
    hide Head, CopyBack;
    var ok, dist, len;
    op := op0;
    ok, ip, dist, len := ReadRef(inp, inLen, ip0);
    if !ok { return ip, op, EINVAL; }
    if op + len + 2 > outLen { return ip, op, E2BIG; }
    if op - dist < 0 { return ip, op, EINVAL; }
    CopyRef(out, op - dist, op, len + 2);
    op := op + len + 2;
    assert inp[ip0..inLen][ip - ip0..] == inp[ip..inLen];
    errno := NoError;
  }

  lemma LiteralSlices(s: seq<byte>, from: nat, end: nat, n: nat)
    requires from + 1 + n <= end <= |s|
    ensures s[from..end][1..1 + n] == s[from + 1..from + 1 + n] && s[from..end][1 + n..] == s[from + 1 + n..end]
  {
    var c, m := s[from..end], from + 1 + n;
    var run, same, rest, tail := c[1..1 + n], s[from + 1..m], c[1 + n..], s[m..end];
    assert forall k :: 0 <= k < n ==> run[k] == same[k];
    assert forall k :: 0 <= k < end - m ==> rest[k] == tail[k];
  }

  /** The literal branch. */
  method LiteralRun(inp: array<byte>, inLen: nat, ip0: nat, out: array<byte>, op0: nat, outLen: nat)
    returns (ip: nat, op: nat, errno: Errno)
    requires inp != out && ip0 < inLen <= inp.Length && op0 <= outLen <= out.Length && inp[ip0] < 32
    modifies out
    ensures match Advance(inp[ip0..inLen], old(out[..op0]), outLen)
            case Next(rest, acc) =>
              errno == NoError && ip0 < ip <= inLen && op0 < op <= outLen && rest == inp[ip..inLen] && acc == out[..op]
            case Stop(error) => errno == ErrnoOf(error) && errno != NoError
    ensures op0 <= op <= outLen && forall k :: op <= k < out.Length ==> out[k] == old(out[k])
  {
    var ctrl: int := inp[ip0];
    ip, op := ip0 + 1, op0;
    ctrl := ctrl + 1;
    if op + ctrl > outLen { return ip, op, E2BIG; }
    if ip + ctrl > inLen { return ip, op, EINVAL; }
    ghost var s := inp[..];
    LiteralSlices(s, ip0, inLen, ctrl);
    assert inp[ip0..inLen] == s[ip0..inLen] && inp[ip..ip + ctrl] == s[ip..ip + ctrl];
    assert inp[ip + ctrl..inLen] == s[ip + ctrl..inLen];
    CopyLiteral(inp, ip, out, op, ctrl);
    ip, op := ip + ctrl, op + ctrl;
    errno := NoError;
  }

  /** The decompressor: r is the number of bytes written to the front of `out`, or 0 with errno set. */
  method Decompress(inp: array<byte>, inLen: nat, out: array<byte>, outLen: nat) returns (r: nat, errno: Errno)
    requires inp != out && 1 <= inLen <= inp.Length && outLen <= out.Length
    modifies out
    ensures errno == ErrnoOf(Decode(inp[..inLen], [], outLen))
    ensures match Decode(inp[..inLen], [], outLen)
            case Done(data) => 0 < r <= outLen && r == |data| && out[..r] == data
            case _ => r == 0
    ensures forall k :: outLen <= k < out.Length ==> out[k] == old(out[k])
    ensures forall k :: 0 < r <= k < out.Length ==> out[k] == old(out[k])
  {
    ghost var goal := Decode(inp[..inLen], [], outLen);
    var ip, op := 0, 0;
    assert inp[0..inLen] == inp[..inLen] && out[..0] == [];
    while true
      invariant 0 <= ip < inLen && 0 <= op <= outLen
      invariant Decode(inp[ip..inLen], out[..op], outLen) == goal
      invariant forall k :: op <= k < out.Length ==> out[k] == old(out[k])
      decreases inLen - ip
    {
      if inp[ip] < 32 {
        ip, op, errno := LiteralRun(inp, inLen, ip, out, op, outLen);
      } else {
        ip, op, errno := BackReference(inp, inLen, ip, out, op, outLen);
      }
      if errno != NoError { return 0, errno; }
      if !(ip < inLen) { break; }
    }
    assert inp[ip..inLen] == [];
    r := op;
  }

  /** The round trip: whatever the hash table held, a nonzero result decompresses to the input in exactly its length. */
  method RoundTrip(inp: array<byte>, base: nat, htab: array<int>, packed: array<byte>, room: nat, back: array<byte>)
    returns (n: nat)
    requires inp.Length >= 2 && MAX_OFF <= base && base + inp.Length < TWO_64
    requires htab.Length == HSIZE && forall k :: 0 <= k < HSIZE ==> 0 <= htab[k] < TWO_64
    requires room < packed.Length && inp != packed && back != inp && back != packed && back.Length == inp.Length
    modifies htab, packed, back
    ensures n > 0 ==> back[..] == inp[..]
    ensures room >= inp.Length + inp.Length / 32 + 4 ==> n > 0
  {
    n := Compress(inp, base, htab, packed, room);
    if n > 0 {
      var r, errno := Decompress(packed, n, back, back.Length);
      assert back[..r] == back[..];
    }
  }
}
