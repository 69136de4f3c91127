/** Decimal numbers as the C library prints and reads them: %d, %lu and ll2string on one side, strtol on the other. */
module Decimal {
  import opened Bytes

  const LONG_MIN: int := -0x8000_0000_0000_0000

  predicate IsDigit(b: byte) {
    48 <= b <= 57
  }

  /** isspace in the C locale. */
  predicate IsSpace(b: byte) {
    b == 32 || 9 <= b <= 13
  }

  /** The digits of n, most significant first, without leading zeros. */
  function Digits(n: nat): (s: seq<byte>)
    ensures |s| >= 1 && forall k :: 0 <= k < |s| ==> IsDigit(s[k])
  {
    if n < 10 then [48 + n] else Digits(n / 10) + [48 + n % 10]
  }

  function Print(v: int): (s: seq<byte>)
    ensures |s| >= 1
    ensures s[0] == 45 || IsDigit(s[0])
  {
    if v < 0 then [45] + Digits(-v) else Digits(v)
  }

  /** A number read off the front of a string, and what follows it. */
  datatype Parsed = Parsed(value: int, rest: seq<byte>)

  /** Reads digits as long as there are any, after digits worth `acc`. */
  function ReadDigits(s: seq<byte>, acc: nat): (p: Parsed)
    ensures |p.rest| <= |s| && p.value >= 0
    decreases |s|
  {
    if s == [] || !IsDigit(s[0]) then Parsed(acc, s) else
      var d: int := s[0];
      ReadDigits(s[1..], acc * 10 + (d - 48))
  }

  function SkipSpaces(s: seq<byte>): (r: seq<byte>)
    ensures |r| <= |s|
    decreases |s|
  {
    if s != [] && IsSpace(s[0]) then SkipSpaces(s[1..]) else s
  }

  function Clamp(v: int): (r: int)
    ensures LONG_MIN <= r <= LONG_MAX
  {
    if v < LONG_MIN then LONG_MIN else if v > LONG_MAX then LONG_MAX else v
  }

  /** strtol(s, &rest, 10). The end of the sequence plays the role of the terminating NUL. */
  function Strtol(s: seq<byte>): (p: Parsed)
    ensures |p.rest| <= |s| && LONG_MIN <= p.value <= LONG_MAX
  {
    var t := SkipSpaces(s);
    var negative := t != [] && t[0] == 45;
    var u := if t != [] && (t[0] == 45 || t[0] == 43) then t[1..] else t;
    if u == [] || !IsDigit(u[0]) then Parsed(0, s) else
      var p := ReadDigits(u, 0);
      Parsed(Clamp(if negative then -p.value else p.value), p.rest)
  }

  lemma {:induction false} DigitsSuffix(s: seq<byte>, acc: nat)
    ensures var r := ReadDigits(s, acc).rest; r == s[|s| - |r|..]
    decreases |s|
  {
    if s != [] && IsDigit(s[0]) {
      DigitsSuffix(s[1..], acc * 10 + (s[0] as int - 48));
    }
  }

  lemma {:induction false} SpacesSuffix(s: seq<byte>)
    ensures var r := SkipSpaces(s); r == s[|s| - |r|..]
    decreases |s|
  {
    if s != [] && IsSpace(s[0]) {
      SpacesSuffix(s[1..]);
    }
  }

  /** What strtol leaves is the end of what it was given. */
  lemma StrtolSuffix(s: seq<byte>)
    ensures var r := Strtol(s).rest; r == s[|s| - |r|..]
  {
    hide ReadDigits, SkipSpaces, Clamp;
    SpacesSuffix(s);
    var t := SkipSpaces(s);
    var u := if t != [] && (t[0] == 45 || t[0] == 43) then t[1..] else t;
    DigitsSuffix(u, 0);
  }

  lemma ReadStep(s: seq<byte>, acc: nat)
    requires s != [] && IsDigit(s[0])
    ensures ReadDigits(s, acc) == ReadDigits(s[1..], acc * 10 + (s[0] as int - 48))
  {
  }

  lemma ReadOne(d: nat, t: seq<byte>, acc: nat)
    requires d < 10
    ensures ReadDigits([48 + d] + t, acc) == ReadDigits(t, acc * 10 + d)
  {
    hide ReadDigits, Digits, Strtol, SkipSpaces, Clamp, Print;
    var s: seq<byte> := [48 + d] + t;
    ReadStep(s, acc);
    assert s[1..] == t;
  }

  lemma {:induction false} ReadPrinted(n: nat, t: seq<byte>)
    ensures ReadDigits(Digits(n) + t, 0) == ReadDigits(t, n)
    decreases n
  {
    hide ReadDigits, Strtol, SkipSpaces, Clamp, Print;
    if n < 10 {
      ReadOne(n, t, 0);
    } else {
      var last: seq<byte> := [48 + n % 10];
      ReadPrinted(n / 10, last + t);
      assert Digits(n) + t == Digits(n / 10) + (last + t);
      ReadOne(n % 10, t, n / 10);
      assert n / 10 * 10 + n % 10 == n;
    }
  }

  lemma ReadNothing(t: seq<byte>, n: nat)
    requires t == [] || !IsDigit(t[0])
    ensures ReadDigits(t, n) == Parsed(n, t)
  {
  }

  lemma StrtolPlain(u: seq<byte>)
    requires u != [] && IsDigit(u[0])
    ensures Strtol(u) == Parsed(Clamp(ReadDigits(u, 0).value), ReadDigits(u, 0).rest)
  {
    hide ReadDigits, Digits, Clamp;
    assert SkipSpaces(u) == u;
  }

  lemma StrtolMinus(u: seq<byte>)
    requires u != [] && IsDigit(u[0])
    ensures Strtol([45] + u) == Parsed(Clamp(-ReadDigits(u, 0).value), ReadDigits(u, 0).rest)
  {
    hide ReadDigits, Digits, Clamp;
    var s: seq<byte> := [45] + u;
    assert s[0] == 45 && s[1..] == u;
    assert SkipSpaces(s) == s;
  }

  lemma ClampLong(v: int)
    requires LONG_MIN <= v <= LONG_MAX
    ensures Clamp(v) == v
  {
  }

  lemma PrintShape(v: int)
    ensures v < 0 ==> Print(v) == [45] + Digits(-v)
    ensures v >= 0 ==> Print(v) == Digits(v)
  {
  }

  lemma ReadDigitsBack(n: nat, t: seq<byte>)
    requires t == [] || !IsDigit(t[0])
    ensures var u := Digits(n) + t; IsDigit(u[0]) && ReadDigits(u, 0) == Parsed(n, t)
  {
    hide ReadDigits, Digits, Strtol, SkipSpaces;
    var u := Digits(n) + t;
    assert u[0] == Digits(n)[0];
    ReadPrinted(n, t);
    ReadNothing(t, n);
  }

  lemma {:induction false} NaturalRoundTrip(n: nat, t: seq<byte>)
    requires n <= LONG_MAX && (t == [] || !IsDigit(t[0]))
    ensures Strtol(Digits(n) + t) == Parsed(n, t)
  {
    hide ReadDigits, Digits, Strtol, SkipSpaces, IsDigit, Print, Clamp;
    ReadDigitsBack(n, t);
    StrtolPlain(Digits(n) + t);
    ClampLong(n);
  }

  lemma {:induction false} NegativeRoundTrip(v: int, t: seq<byte>)
    requires LONG_MIN <= v < 0 && (t == [] || !IsDigit(t[0]))
    ensures Strtol([45] + (Digits(-v) + t)) == Parsed(v, t)
  {
    hide ReadDigits, Digits, Strtol, SkipSpaces, IsDigit, Print, Clamp;
    ReadDigitsBack(-v, t);
    StrtolMinus(Digits(-v) + t);
    ClampLong(v);
  }

  /** Reading what was printed gives the number back and stops right behind it, whatever follows that is no digit. */
  lemma {:induction false} PrintRoundTrip(v: int, t: seq<byte>)
    requires LONG_MIN <= v <= LONG_MAX && (t == [] || !IsDigit(t[0]))
    ensures Strtol(Print(v) + t) == Parsed(v, t)
  {
    hide ReadDigits, Digits, Strtol, SkipSpaces, IsDigit, Print, Clamp;
    PrintShape(v);
    if v < 0 {
      NegativeRoundTrip(v, t);
      var d := Digits(-v);
      assert [45] + d + t == [45] + (d + t);
    } else {
      NaturalRoundTrip(v, t);
    }
  }

  /** In front of anything, digits included: these are then read as a continuation. */
  lemma ReadOn(v: int, t: seq<byte>)
    ensures var r := ReadDigits(t, if v < 0 then -v else v);
      Strtol(Print(v) + t) == Parsed(Clamp(if v < 0 then -r.value else r.value), r.rest)
  {
    hide ReadDigits, Digits, Strtol, SkipSpaces, IsDigit, Print, Clamp;
    PrintShape(v);
    var n: nat := if v < 0 then -v else v;
    var u := Digits(n) + t;
    ReadPrinted(n, t);
    assert u[0] == Digits(n)[0];
    if v < 0 {
      StrtolMinus(u);
      assert [45] + Digits(n) + t == [45] + u;
    } else {
      StrtolPlain(u);
    }
  }

  function AfterZeros(t: seq<byte>): (r: seq<byte>)
    ensures |r| <= |t|
  {
    if t != [] && t[0] == 48 then AfterZeros(t[1..]) else t
  }

  /** Further digits never leave a number as it is, except that zeros leave zero. */
  lemma {:induction false} DigitsChange(t: seq<byte>, n: nat)
    ensures ReadDigits(t, n).value >= n
    ensures n > 0 && t != [] && IsDigit(t[0]) ==> ReadDigits(t, n).value > n
    ensures ReadDigits(t, 0).value == 0 ==> ReadDigits(t, 0).rest == AfterZeros(t)
    ensures AfterZeros(t) == [] || !IsDigit(AfterZeros(t)[0]) ==> ReadDigits(t, 0) == Parsed(0, AfterZeros(t))
    decreases |t|
  {
    hide ReadDigits;
    if t != [] && IsDigit(t[0]) {
      var next: nat := n * 10 + (t[0] as int - 48);
      ReadStep(t, n);
      ReadStep(t, 0);
      DigitsChange(t[1..], next);
      DigitsChange(t[1..], t[0] as int - 48);
    } else {
      ReadNothing(t, n);
      ReadNothing(t, 0);
    }
  }

  /** Printing is injective: a canonical number has one spelling. */
  lemma PrintInjective(v: int, w: int)
    requires LONG_MIN <= v <= LONG_MAX && LONG_MIN <= w <= LONG_MAX && Print(v) == Print(w)
    ensures v == w
  {
    PrintRoundTrip(v, []);
    PrintRoundTrip(w, []);
  }

  function Pow10(k: nat): nat {
    if k == 0 then 1 else 10 * Pow10(k - 1)
  }

  lemma {:induction false} DigitsFit(n: nat, k: nat)
    requires k > 0 && n < Pow10(k)
    ensures |Digits(n)| <= k
    decreases k
  {
    if n >= 10 {
      DigitsFit(n / 10, k - 1);
    }
  }

  /** A long has at most 19 digits and a sign. */
  lemma PrintIsShort(v: int)
    requires LONG_MIN <= v <= LONG_MAX
    ensures |Print(v)| <= 20
  {
    hide Digits;
    assert Pow10(4) == 10000;
    assert Pow10(8) == 10000 * Pow10(4);
    assert Pow10(12) == 10000 * Pow10(8);
    assert Pow10(16) == 10000 * Pow10(12);
    assert Pow10(19) == 1000 * Pow10(16);
    DigitsFit(if v < 0 then -v else v, 19);
    PrintShape(v);
  }

  /** A 32-bit number has at most ten digits and a sign. */
  lemma PrintIntIsShort(v: int)
    requires -0x8000_0000 <= v <= 0x7FFF_FFFF
    ensures |Print(v)| <= 11
  {
    hide Digits;
    assert Pow10(4) == 10000;
    assert Pow10(8) == 10000 * Pow10(4);
    assert Pow10(10) == 100 * Pow10(8);
    DigitsFit(if v < 0 then -v else v, 10);
    PrintShape(v);
  }

  /** The number that a row of decimal digits stands for. */
  function Worth(s: seq<byte>): int {
    if s == [] then 0 else Worth(s[..|s| - 1]) * 10 + (s[|s| - 1] as int - 48)
  }

  /** The digits are those of the number in base ten, and the first of them is not a zero unless it is the only one. */
  lemma {:induction false} DigitsWorth(n: nat)
    ensures Worth(Digits(n)) == n && (n > 0 ==> Digits(n)[0] != 48) && (n == 0 ==> Digits(n) == [48])
  {
    var s := Digits(n);
    if n < 10 {
      assert s[..|s| - 1] == [];
    } else {
      DigitsWorth(n / 10);
      assert s[..|s| - 1] == Digits(n / 10);
    }
  }
}
