/** Little-endian two's complement integers of a fixed number of bytes. */
module FixedWidth {
  import opened Bytes

  function Pow256(n: nat): (p: int)
    ensures p >= 1
  {
    if n == 0 then 1 else 256 * Pow256(n - 1)
  }

  /** The low n bytes of v, least significant first. */
  function ToBytes(v: nat, n: nat): (s: seq<byte>)
    ensures |s| == n
  {
    if n == 0 then [] else [v % 256] + ToBytes(v / 256, n - 1)
  }

  function FromBytes(s: seq<byte>): (v: nat)
  {
    if s == [] then 0 else
      var low: int := s[0];
      low + 256 * FromBytes(s[1..])
  }

  lemma {:induction false} FromBytesBound(s: seq<byte>)
    ensures FromBytes(s) < Pow256(|s|)
  {
    if s != [] {
      FromBytesBound(s[1..]);
    }
  }

  lemma {:induction false} BytesRoundTrip(v: nat, n: nat)
    requires v < Pow256(n)
    ensures FromBytes(ToBytes(v, n)) == v
  {
    if n > 0 {
      BytesRoundTrip(v / 256, n - 1);
      assert ToBytes(v, n)[1..] == ToBytes(v / 256, n - 1);
    }
  }

  /** Range of a signed integer of n bytes. */
  predicate Fits(v: int, n: nat) {
    -Pow256(n) <= 2 * v < Pow256(n)
  }

  function Encode(v: int, n: nat): (s: seq<byte>)
    requires Fits(v, n)
    ensures |s| == n
  {
    ToBytes(if v < 0 then v + Pow256(n) else v, n)
  }

  function Decode(s: seq<byte>): int {
    var u := FromBytes(s);
    if 2 * u < Pow256(|s|) then u else u - Pow256(|s|)
  }

  lemma DecodeFits(s: seq<byte>)
    ensures Fits(Decode(s), |s|)
  {
    FromBytesBound(s);
  }

  lemma SignedRoundTrip(v: int, n: nat)
    requires Fits(v, n)
    ensures Decode(Encode(v, n)) == v
  {
    BytesRoundTrip(if v < 0 then v + Pow256(n) else v, n);
  }

  lemma Pow256Values()
    ensures Pow256(1) == 0x100 && Pow256(2) == 0x1_0000 && Pow256(4) == 0x1_0000_0000 && Pow256(8) == TWO_64
  {
    assert Pow256(3) == 256 * Pow256(2);
    assert Pow256(5) == 256 * Pow256(4) && Pow256(6) == 256 * Pow256(5) && Pow256(7) == 256 * Pow256(6);
  }

  lemma FitsWider(v: int, n: nat, m: nat)
    requires Fits(v, n) && n <= m
    ensures Fits(v, m)
    decreases m
  {
    if n < m {
      FitsWider(v, n, m - 1);
    }
  }
}
