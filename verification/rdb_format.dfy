/** The snapshot format: variable-width lengths, strings in one of three forms, and objects made of strings. */
module RdbFormat {
  import opened Bytes
  import Decimal
  import FixedWidth
  import LzfSpec

  /** The length that stands for a read error. */
  const LENERR: int := 0xFFFF_FFFF

  // ----- Lengths -----

  /** A 32-bit number in network byte order. */
  function BigEndian(v: nat): (s: seq<byte>)
    requires v < 0x1_0000_0000
    ensures |s| == 4
  {
    [v / 0x100_0000, v / 0x1_0000 % 256, v / 0x100 % 256, v % 256]
  }

  function FromBigEndian(s: seq<byte>): nat
    requires |s| == 4
  {
    var a: int := s[0];
    var b: int := s[1];
    var c: int := s[2];
    var d: int := s[3];
    a * 0x100_0000 + b * 0x1_0000 + c * 0x100 + d
  }

  lemma BigEndianRoundTrip(v: nat)
    requires v < 0x1_0000_0000
    ensures FromBigEndian(BigEndian(v)) == v
    ensures var s := BigEndian(v);
      v == (s[0] as int) * 16777216 + (s[1] as int) * 65536 + (s[2] as int) * 256 + (s[3] as int)
  {
    var q := v / 0x100;
    var r := v / 0x1_0000;
    assert r == q / 0x100 && v / 0x100_0000 == r / 0x100;
    assert v == q * 0x100 + v % 0x100 && q == r * 0x100 + q % 0x100 && r == r / 0x100 * 0x100 + r % 0x100;
  }

  /** The bytes of a length, which is first cut to 32 bits. */
  function LenBytes(n: nat): (s: seq<byte>)
    ensures 1 <= |s| <= 5
  {
    var len := n % 0x1_0000_0000;
    if len < 0x40 then [len]
    else if len < 0x4000 then [0x40 + len / 256, len % 256]
    else [0x80] + BigEndian(len)
  }

  /** A length read from the front, or the number of an encoding, and what follows. */
  datatype Len = Len(value: nat, encoded: bool, rest: seq<byte>) | LenErr

  function LoadLen(s: seq<byte>): (r: Len)
    ensures r.Len? ==> |r.rest| < |s| && r.rest == s[|s| - |r.rest|..]
  {
    if s == [] then LenErr
    else
      var b: int := s[0];
      if b < 0x40 then Len(b, false, s[1..])
      else if b >= 0xC0 then Len(b - 0xC0, true, s[1..])
      else if b < 0x80 then
        if |s| < 2 then LenErr else var low: int := s[1]; Len((b - 0x40) * 256 + low, false, s[2..])
      else if |s| < 5 then LenErr
      else
        var v := FromBigEndian(s[1..5]);
        if v == LENERR then LenErr else Len(v, false, s[5..])
  }

  lemma LenRoundTrip(n: nat, t: seq<byte>)
    requires n < LENERR
    ensures LoadLen(LenBytes(n) + t) == Len(n, false, t)
  {
    hide FromBigEndian, BigEndian;
    var s := LenBytes(n) + t;
    if n < 0x40 {
      assert s[1..] == t;
    } else if n < 0x4000 {
      assert s[2..] == t;
    } else {
      BigEndianRoundTrip(n);
      assert s[1..5] == BigEndian(n);
      assert s[5..] == t;
    }
  }

  /** A length survives exactly if it is below the value reserved for errors. */
  lemma LenSurvives(n: nat)
    ensures LoadLen(LenBytes(n)) == Len(n, false, []) <==> n < LENERR
  {
    hide FromBigEndian, BigEndian;
    if n < LENERR {
      LenRoundTrip(n, []);
      assert LenBytes(n) + [] == LenBytes(n);
    } else if n == LENERR {
      BigEndianRoundTrip(n);
      assert n % 0x1_0000_0000 == n;
      assert LenBytes(n)[1..5] == BigEndian(n);
    } else {
      var m := n % 0x1_0000_0000;
      if m < LENERR {
        LenRoundTrip(m, []);
        assert LenBytes(m) + [] == LenBytes(m) == LenBytes(n);
      } else {
        LenSurvives(m);
        BigEndianRoundTrip(m);
        assert LenBytes(n)[1..5] == BigEndian(m);
      }
    }
  }

  // ----- Strings -----

  /** A string read from the front. `raw` says that it was not read as an integer. */
  datatype Piece = Piece(text: seq<byte>, raw: bool, rest: seq<byte>) | Bad

  /** The number of bytes of each integer encoding. */
  function Width(enctype: nat): (w: nat)
    requires enctype <= 2
  {
    if enctype == 0 then 1 else if enctype == 1 then 2 else 4
  }

  function LoadInteger(enctype: nat, s: seq<byte>): (r: Piece)
    requires enctype <= 2
    ensures r.Piece? ==> |r.rest| <= |s| && r.rest == s[|s| - |r.rest|..]
  {
    var w := Width(enctype);
    if |s| < w then Bad else Piece(Decimal.Print(FixedWidth.Decode(s[..w])), false, s[w..])
  }

  function Zeros(n: nat): (s: seq<byte>)
    ensures |s| == n
  {
    seq(n, _ => 0)
  }

  /** A compressed string: compressed length, length, data. A shorter result leaves zeros at the end of the string. */
  function LoadLzf(s: seq<byte>): (r: Piece)
    ensures r.Piece? ==> |r.rest| <= |s| && r.rest == s[|s| - |r.rest|..]
  {
    var packed := LoadLen(s);
    if packed.LenErr? then Bad
    else
      var full := LoadLen(packed.rest);
      if full.LenErr? then Bad
      else
        var n, t := packed.value, full.rest;
        if n == 0 || n > |t| then Bad
        else
          match LzfSpec.Decode(t[..n], [], full.value)
          case Done(data) =>
            LzfSpec.DecodeFits(t[..n], [], full.value);
            Piece(data + Zeros(full.value - |data|), true, t[n..])
          case _ => Bad
  }

  function LoadText(s: seq<byte>): (r: Piece)
    ensures r.Piece? ==> |r.rest| < |s| && r.rest == s[|s| - |r.rest|..]
  {
    match LoadLen(s)
    case LenErr => Bad
    case Len(n, encoded, t) =>
      if encoded then
        if n <= 2 then LoadInteger(n, t) else if n == 3 then LoadLzf(t) else Bad
      else if n > |t| then Bad
      else Piece(t[..n], true, t[n..])
  }

  /** `bytes` is one form of `text`: wherever it stands, it loads as that text and nothing behind it is consumed. */
  ghost predicate Encodes(bytes: seq<byte>, text: seq<byte>) {
    forall t: seq<byte> :: LoadText(bytes + t).Piece? && LoadText(bytes + t).text == text &&
      LoadText(bytes + t).rest == t
  }

  /** The integer form, or nothing if the value has more than 32 bits. */
  function IntegerBytes(v: int): (s: seq<byte>)
    ensures |s| <= 5
  {
    if FixedWidth.Fits(v, 1) then [0xC0] + FixedWidth.Encode(v, 1)
    else if FixedWidth.Fits(v, 2) then [0xC1] + FixedWidth.Encode(v, 2)
    else if FixedWidth.Fits(v, 4) then [0xC2] + FixedWidth.Encode(v, 4)
    else []
  }

  /** The three tests are those of the C code. */
  lemma FitsRanges(v: int)
    ensures FixedWidth.Fits(v, 1) <==> -128 <= v <= 127
    ensures FixedWidth.Fits(v, 2) <==> -32768 <= v <= 32767
    ensures FixedWidth.Fits(v, 4) <==> -0x8000_0000 <= v <= 0x7FFF_FFFF
  {
    FixedWidth.Pow256Values();
  }

  /** The integer form is the shortest that holds the value: 2, 3 or 5 bytes, or none beyond 32 bits. */
  lemma IntegerSizes(v: int)
    ensures |IntegerBytes(v)| ==
      if -128 <= v <= 127 then 2
      else if -32768 <= v <= 32767 then 3
      else if -0x8000_0000 <= v <= 0x7FFF_FFFF then 5
      else 0
  {
    hide FixedWidth.Encode, FixedWidth.Fits;
    FitsRanges(v);
  }

  lemma TwoBytes(u: nat)
    ensures FixedWidth.ToBytes(u, 1) == [u % 256] && FixedWidth.ToBytes(u, 2) == [u % 256, u / 256 % 256]
  {
  }

  lemma FourBytes(u: nat)
    ensures FixedWidth.ToBytes(u, 4) == [u % 256, u / 256 % 256, u / 256 / 256 % 256, u / 256 / 256 / 256 % 256]
  {
    TwoBytes(u / 256 / 256);
    assert FixedWidth.ToBytes(u / 256, 3) == [u / 256 % 256] + FixedWidth.ToBytes(u / 256 / 256, 2);
  }

  lemma LowByte(v: int, m: int)
    ensures (v + 256 * m) % 256 == v % 256 && (v + 256 * m) / 256 == v / 256 + m
  {
  }

  /** Adding a power of 256 leaves the bytes below it alone. */
  lemma LowBytes(v: int)
    ensures (v + 0x100) % 256 == v % 256
    ensures var u := v + 0x1_0000; u % 256 == v % 256 && u / 256 % 256 == v / 256 % 256
    ensures
      var u := v + 0x1_0000_0000;
      && u % 256 == v % 256 && u / 256 % 256 == v / 256 % 256
      && u / 256 / 256 % 256 == v / 256 / 256 % 256 && u / 256 / 256 / 256 % 256 == v / 256 / 256 / 256 % 256
  {
    LowByte(v, 1);
    LowByte(v, 0x100);
    LowByte(v / 256, 1);
    LowByte(v, 0x100_0000);
    LowByte(v / 256, 0x1_0000);
    LowByte(v / 256 / 256, 0x100);
    LowByte(v / 256 / 256 / 256, 1);
  }

  /** The layout: a marker, then the low bytes of the number, the lowest first. */
  lemma IntegerLayout(v: int)
    ensures -128 <= v <= 127 ==> IntegerBytes(v) == [0xC0, v % 256]
    ensures -32768 <= v < -128 || 127 < v <= 32767 ==> IntegerBytes(v) == [0xC1, v % 256, v / 256 % 256]
    ensures -0x8000_0000 <= v < -32768 || 32767 < v <= 0x7FFF_FFFF ==>
      IntegerBytes(v) == [0xC2, v % 256, v / 256 % 256, v / 256 / 256 % 256, v / 256 / 256 / 256 % 256]
  {
    hide FixedWidth.ToBytes, FixedWidth.Fits, FixedWidth.Encode;
    FitsRanges(v);
    if -128 <= v <= 127 {
      EncodeIs(v, 1, 0x100);
    } else if -32768 <= v <= 32767 {
      EncodeIs(v, 2, 0x1_0000);
    } else if -0x8000_0000 <= v <= 0x7FFF_FFFF {
      EncodeIs(v, 4, 0x1_0000_0000);
    }
  }

  lemma EncodeIs(v: int, n: nat, p: nat)
    requires FixedWidth.Fits(v, n)
    requires (n == 1 && p == 0x100) || (n == 2 && p == 0x1_0000) || (n == 4 && p == 0x1_0000_0000)
    ensures n == 1 ==> FixedWidth.Encode(v, n) == [v % 256]
    ensures n == 2 ==> FixedWidth.Encode(v, n) == [v % 256, v / 256 % 256]
    ensures n == 4 ==>
      FixedWidth.Encode(v, n) == [v % 256, v / 256 % 256, v / 256 / 256 % 256, v / 256 / 256 / 256 % 256]
  {
    hide FixedWidth.ToBytes;
    FixedWidth.Pow256Values();
    var u: nat := if v < 0 then v + p else v;
    LowBytes(v);
    if n == 4 {
      FourBytes(u);
    } else {
      TwoBytes(u);
    }
  }

  lemma IntegerForm(v: int, enctype: nat)
    requires enctype <= 2 && FixedWidth.Fits(v, Width(enctype))
    ensures Encodes([0xC0 + enctype] + FixedWidth.Encode(v, Width(enctype)), Decimal.Print(v))
  {
    hide FixedWidth.Encode, FixedWidth.Decode, FixedWidth.Fits, Decimal.Print, LoadLzf;
    var w := Width(enctype);
    var e := FixedWidth.Encode(v, w);
    FixedWidth.SignedRoundTrip(v, w);
    var bytes: seq<byte> := [0xC0 + enctype] + e;
    forall t: seq<byte>
      ensures LoadText(bytes + t) == Piece(Decimal.Print(v), false, t)
    {
      var s := bytes + t;
      assert s[1..] == e + t && (e + t)[..w] == e && (e + t)[w..] == t;
      assert LoadLen(s) == Len(enctype, true, e + t);
    }
  }

  lemma IntegerEncodes(v: int)
    requires IntegerBytes(v) != []
    ensures Encodes(IntegerBytes(v), Decimal.Print(v))
  {
    hide FixedWidth.Encode, FixedWidth.Fits, Encodes, Decimal.Print;
    if FixedWidth.Fits(v, 1) {
      IntegerForm(v, 0);
    } else if FixedWidth.Fits(v, 2) {
      IntegerForm(v, 1);
    } else {
      IntegerForm(v, 2);
    }
  }

  /**
    * rdbTryIntegerEncoding: only a string that is the canonical spelling of its own value. `behind` is what follows the
    * string in memory: nothing up to a NUL for most strings, but the next entry for those inside a zipmap.
    */
  function TryInteger(s: seq<byte>, behind: seq<byte>): (e: seq<byte>)
    ensures |e| <= 5
  {
    var p := Decimal.Strtol(s + behind);
    if p.rest != [] && p.rest[0] != 0 then []
    else if Decimal.Print(p.value) != s then []
    else IntegerBytes(p.value)
  }

  lemma TryIntegerEncodes(s: seq<byte>, behind: seq<byte>)
    requires TryInteger(s, behind) != []
    ensures Encodes(TryInteger(s, behind), s)
  {
    hide IntegerBytes, Encodes, Decimal.Strtol, Decimal.Print;
    IntegerEncodes(Decimal.Strtol(s + behind).value);
  }

  /** A NUL follows the string, or the zeros that follow the string "0". */
  predicate Terminated(s: seq<byte>, behind: seq<byte>) {
    var t := if s == [48] then Decimal.AfterZeros(behind) else behind;
    t == [] || t[0] == 0
  }

  lemma ZeroSpelling(v: int)
    requires Decimal.LONG_MIN <= v <= LONG_MAX
    ensures Decimal.Print(v) == [48] <==> v == 0
  {
    hide Decimal.Digits;
    assert Decimal.Print(0) == [48] by { ZeroDigits(); }
    if Decimal.Print(v) == [48] {
      Decimal.PrintInjective(v, 0);
    }
  }

  lemma ZeroDigits()
    ensures Decimal.Print(0) == [48]
  {
  }

  /** strtol finds the value of a canonical spelling, and a NUL, exactly if that is terminated so. */
  lemma FoundExactlyIf(v: int, behind: seq<byte>)
    requires -0x8000_0000 <= v <= 0x7FFF_FFFF
    ensures var s := Decimal.Print(v); var p := Decimal.Strtol(s + behind);
      p.value == v && (p.rest == [] || p.rest[0] == 0) <==> Terminated(s, behind)
  {
    hide Decimal.Strtol, Decimal.Print, Decimal.ReadDigits;
    var n: nat := if v < 0 then -v else v;
    ZeroSpelling(v);
    Decimal.ReadOn(v, behind);
    Decimal.DigitsChange(behind, n);
    if behind == [] || !Decimal.IsDigit(behind[0]) {
      Decimal.ReadNothing(behind, n);
    }
  }

  /** Exactly the canonical spellings of 32-bit numbers that are terminated take the integer form. */
  lemma TryIntegerTakes(s: seq<byte>, behind: seq<byte>)
    ensures TryInteger(s, behind) != [] <==>
      Terminated(s, behind) && exists v: int :: -0x8000_0000 <= v <= 0x7FFF_FFFF && s == Decimal.Print(v)
  {
    hide Decimal.Strtol, Decimal.Print, Terminated, IntegerBytes;
    var p := Decimal.Strtol(s + behind);
    IntegerExists(p.value);
    if TryInteger(s, behind) != [] {
      assert s == Decimal.Print(p.value);
      FoundExactlyIf(p.value, behind);
    }
    forall v: int | -0x8000_0000 <= v <= 0x7FFF_FFFF && s == Decimal.Print(v) && Terminated(s, behind)
      ensures TryInteger(s, behind) != []
    {
      FoundExactlyIf(v, behind);
    }
  }

  lemma IntegerExists(v: int)
    ensures IntegerBytes(v) != [] <==> -0x8000_0000 <= v <= 0x7FFF_FFFF
  {
    hide FixedWidth.Encode, FixedWidth.Fits;
    FitsRanges(v);
  }

  lemma VerbatimEncodes(s: seq<byte>)
    requires |s| < LENERR
    ensures Encodes(LenBytes(|s|) + s, s)
  {
    hide LoadLen, LenBytes;
    forall t: seq<byte>
      ensures LoadText(LenBytes(|s|) + s + t) == Piece(s, true, t)
    {
      LenRoundTrip(|s|, s + t);
      assert LenBytes(|s|) + s + t == LenBytes(|s|) + (s + t);
      assert (s + t)[..|s|] == s && (s + t)[|s|..] == t;
    }
  }

  lemma LzfEncodes(packed: seq<byte>, s: seq<byte>)
    requires packed != [] && |packed| < LENERR && |s| < LENERR
    requires LzfSpec.Decode(packed, [], |s|) == LzfSpec.Done(s)
    ensures Encodes([0xC3] + LenBytes(|packed|) + LenBytes(|s|) + packed, s)
  {
    hide LenBytes, LzfSpec.Decode, LoadInteger, LoadLzf, LoadText;
    var bytes: seq<byte> := [0xC3] + LenBytes(|packed|) + LenBytes(|s|) + packed;
    forall t: seq<byte>
      ensures LoadText(bytes + t) == Piece(s, true, t)
    {
      var all := LenBytes(|packed|) + (LenBytes(|s|) + (packed + t));
      Regroup([0xC3], LenBytes(|packed|), LenBytes(|s|), packed, t);
      LoadLzfText(all);
      LzfBodyLoads(packed, s, t);
    }
  }

  lemma Regroup(a: seq<byte>, b: seq<byte>, c: seq<byte>, d: seq<byte>, t: seq<byte>)
    ensures a + b + c + d + t == a + (b + (c + (d + t)))
  {
  }

  lemma LoadLzfText(t: seq<byte>)
    ensures LoadText([0xC3] + t) == LoadLzf(t)
  {
    hide LoadLzf, LoadInteger;
    assert ([0xC3] + t)[1..] == t;
  }

  lemma LzfBodyLoads(packed: seq<byte>, s: seq<byte>, t: seq<byte>)
    requires packed != [] && |packed| < LENERR && |s| < LENERR
    requires LzfSpec.Decode(packed, [], |s|) == LzfSpec.Done(s)
    ensures LoadLzf(LenBytes(|packed|) + (LenBytes(|s|) + (packed + t))) == Piece(s, true, t)
  {
    hide LenBytes, LzfSpec.Decode, LoadLen;
    var body := packed + t;
    LenRoundTrip(|packed|, LenBytes(|s|) + body);
    LenRoundTrip(|s|, body);
    assert body[..|packed|] == packed && body[|packed|..] == t;
    assert s + Zeros(0) == s;
  }

  // ----- Objects -----

  /** A string object: encoded as an integer, or raw, with what follows it in memory up to a NUL. */
  datatype Str = Int(value: int) | Raw(data: seq<byte>, behind: seq<byte>)

  function TextOf(x: Str): seq<byte> {
    match x
    case Int(v) => Decimal.Print(v)
    case Raw(s, _) => s
  }

  /** An object as it is stored; the elements of sets and hashes are in iteration order. */
  datatype Object =
    | StringObject(str: Str)
    | ListObject(items: seq<Str>)
    | SetObject(members: seq<Str>)
    | HashObject(fields: seq<(Str, Str)>)

  datatype Value =
    | StringValue(text: seq<byte>)
    | ListValue(texts: seq<seq<byte>>)
    | SetValue(members: set<seq<byte>>)
    | HashValue(fields: map<seq<byte>, seq<byte>>)

  datatype Kind = StringKind | ListKind | SetKind | HashKind

  function KindOf(o: Object): Kind {
    match o
    case StringObject(_) => StringKind
    case ListObject(_) => ListKind
    case SetObject(_) => SetKind
    case HashObject(_) => HashKind
  }

  function Texts(items: seq<Str>): (texts: seq<seq<byte>>)
    ensures |texts| == |items|
  {
    seq(|items|, k requires 0 <= k < |items| => TextOf(items[k]))
  }

  function Members(texts: seq<seq<byte>>): set<seq<byte>> {
    set x | x in texts
  }

  /** Later fields overwrite earlier ones. */
  function FieldMap(fields: seq<(Str, Str)>): map<seq<byte>, seq<byte>> {
    if fields == [] then map[]
    else
      var last := fields[|fields| - 1];
      FieldMap(fields[..|fields| - 1])[TextOf(last.0) := TextOf(last.1)]
  }

  /** What an object means to a client. */
  function ValueOf(o: Object): Value {
    match o
    case StringObject(x) => StringValue(TextOf(x))
    case ListObject(items) => ListValue(Texts(items))
    case SetObject(members) => SetValue(Members(Texts(members)))
    case HashObject(fields) => HashValue(FieldMap(fields))
  }

  /** A run of strings read from the front. */
  datatype Run = Run(texts: seq<seq<byte>>, rest: seq<byte>) | BadRun

  function LoadTexts(s: seq<byte>, n: nat): (r: Run)
    ensures r.Run? ==> |r.texts| == n && |r.rest| <= |s|
  {
    if n == 0 then Run([], s)
    else
      match LoadText(s)
      case Bad => BadRun
      case Piece(x, _, t) =>
        match LoadTexts(t, n - 1)
        case BadRun => BadRun
        case Run(xs, rest) => Run([x] + xs, rest)
  }

  /** From these sizes on a hash is loaded into a real hash table rather than a zipmap. */
  datatype Limits = Limits(entries: nat, value: nat)

  /** The fields read so far, and whether they are in a real hash table. */
  datatype Fields = Fields(fields: map<seq<byte>, seq<byte>>, table: bool, rest: seq<byte>) | BadFields

  /** A zipmap overwrites a field that is there already, a hash table keeps it. */
  function AddField(fields: map<seq<byte>, seq<byte>>, table: bool, key: seq<byte>, val: seq<byte>)
    : map<seq<byte>, seq<byte>>
  {
    if table && key in fields then fields else fields[key := val]
  }

  function LoadField(f: Fields, limits: Limits): (r: Fields)
    requires f.Fields?
    ensures r.Fields? ==> |r.rest| <= |f.rest|
  {
    var key := LoadText(f.rest);
    if key.Bad? then BadFields
    else
      var val := LoadText(key.rest);
      if val.Bad? then BadFields
      else
        var table := f.table || (key.raw && |key.text| > limits.value) || (val.raw && |val.text| > limits.value);
        Fields(AddField(f.fields, table, key.text, val.text), table, val.rest)
  }

  function LoadFields(f: Fields, n: nat, limits: Limits): (r: Fields)
    requires f.Fields?
    ensures r.Fields? ==> |r.rest| <= |f.rest|
  {
    if n == 0 then f
    else
      var g := LoadFields(f, n - 1, limits);
      if g.BadFields? then BadFields else LoadField(g, limits)
  }

  lemma FieldStep(f: Fields, k: nat, limits: Limits)
    requires f.Fields? && LoadFields(f, k, limits).Fields?
    ensures LoadFields(f, k + 1, limits) == LoadField(LoadFields(f, k, limits), limits)
  {
    hide LoadField;
  }

  lemma {:induction false} StuckFields(f: Fields, k: nat, n: nat, limits: Limits)
    requires f.Fields? && k <= n && LoadFields(f, k, limits).BadFields?
    ensures LoadFields(f, n, limits).BadFields?
    decreases n
  {
    hide LoadField;
    if k < n {
      StuckFields(f, k, n - 1, limits);
    }
  }

  datatype Loaded = Loaded(value: Value, rest: seq<byte>) | Failed

  function LoadObject(kind: Kind, s: seq<byte>, limits: Limits): Loaded {
    if kind == StringKind then
      match LoadText(s)
      case Bad => Failed
      case Piece(x, _, t) => Loaded(StringValue(x), t)
    else
      match LoadLen(s)
      case LenErr => Failed
      case Len(n, _, t) =>
        if kind == HashKind then
          match LoadFields(Fields(map[], n > limits.entries, t), n, limits)
          case BadFields => Failed
          case Fields(m, _, rest) => Loaded(HashValue(m), rest)
        else
          match LoadTexts(t, n)
          case BadRun => Failed
          case Run(xs, rest) => Loaded(if kind == ListKind then ListValue(xs) else SetValue(Members(xs)), rest)
  }

  /** `bytes` is a form of a run of strings, wherever it stands. */
  ghost predicate EncodesAll(bytes: seq<byte>, texts: seq<seq<byte>>) {
    forall t: seq<byte> :: LoadTexts(bytes + t, |texts|) == Run(texts, t)
  }

  ghost predicate EncodesFields(bytes: seq<byte>, fields: seq<(Str, Str)>) {
    forall t: seq<byte>, table: bool, limits: Limits ::
      var r := LoadFields(Fields(map[], table, bytes + t), |fields|, limits);
      r.Fields? && r.fields == FieldMap(fields) && r.rest == t
  }

  ghost predicate EncodesObject(bytes: seq<byte>, o: Object) {
    forall t: seq<byte>, limits: Limits :: LoadObject(KindOf(o), bytes + t, limits) == Loaded(ValueOf(o), t)
  }

  lemma {:induction false} LoadTextsSplit(s: seq<byte>, n: nat)
    ensures var r := LoadTexts(s, n);
      LoadTexts(s, n + 1) ==
        if r.BadRun? then BadRun
        else
          match LoadText(r.rest)
          case Bad => BadRun
          case Piece(x, _, t) => Run(r.texts + [x], t)
    decreases n
  {
    hide LoadText;
    if n == 0 {
      match LoadText(s)
      case Bad =>
      case Piece(x, _, t) =>
        assert LoadTexts(t, 0) == Run([], t);
        assert [x] + [] == [] + [x];
    } else {
      match LoadText(s)
      case Bad =>
      case Piece(x, _, t) =>
        LoadTextsSplit(t, n - 1);
        var r := LoadTexts(t, n - 1);
        if r.Run? {
          var last := LoadText(r.rest);
          if last.Piece? {
            assert [x] + (r.texts + [last.text]) == [x] + r.texts + [last.text];
          }
        }
    }
  }

  lemma EncodesAllAppend(bytes: seq<byte>, texts: seq<seq<byte>>, more: seq<byte>, text: seq<byte>)
    requires EncodesAll(bytes, texts) && Encodes(more, text)
    ensures EncodesAll(bytes + more, texts + [text])
  {
    hide LoadText, LoadTexts;
    forall t: seq<byte>
      ensures LoadTexts(bytes + more + t, |texts + [text]|) == Run(texts + [text], t)
    {
      var u := more + t;
      assert bytes + more + t == bytes + u;
      assert LoadTexts(bytes + u, |texts|) == Run(texts, u);
      LoadTextsSplit(bytes + u, |texts|);
    }
  }

  predicate DistinctKeys(fields: seq<(Str, Str)>) {
    forall i, j :: 0 <= i < j < |fields| ==> TextOf(fields[i].0) != TextOf(fields[j].0)
  }

  lemma {:induction false} FieldMapKeys(fields: seq<(Str, Str)>)
    ensures FieldMap(fields).Keys == set k | 0 <= k < |fields| :: TextOf(fields[k].0)
    decreases |fields|
  {
    hide TextOf;
    if fields != [] {
      var front := fields[..|fields| - 1];
      FieldMapKeys(front);
      var keys := set k | 0 <= k < |fields| :: TextOf(fields[k].0);
      var before := set k | 0 <= k < |front| :: TextOf(front[k].0);
      assert TextOf(fields[|fields| - 1].0) in keys;
      forall x | x in keys ensures x in before + {TextOf(fields[|fields| - 1].0)} {
        var k :| 0 <= k < |fields| && x == TextOf(fields[k].0);
        assert k < |front| ==> front[k] == fields[k];
      }
      forall x | x in before ensures x in keys {
        var k :| 0 <= k < |front| && x == TextOf(front[k].0);
        assert front[k] == fields[k];
      }
      assert keys == before + {TextOf(fields[|fields| - 1].0)};
    }
  }

  lemma EncodesFieldsAppend(bytes: seq<byte>, fields: seq<(Str, Str)>, k: nat, key: seq<byte>, val: seq<byte>)
    requires k < |fields| && DistinctKeys(fields) && EncodesFields(bytes, fields[..k])
    requires Encodes(key, TextOf(fields[k].0)) && Encodes(val, TextOf(fields[k].1))
    ensures EncodesFields(bytes + key + val, fields[..k + 1])
  {
    hide LoadText, TextOf, FieldMap, Encodes;
    var front, all := fields[..k], fields[..k + 1];
    var m := FieldMap(front);
    FieldMapLast(fields, k);
    assert TextOf(fields[k].0) !in m by {
      FieldMapKeys(front);
    }
    forall t: seq<byte>, table: bool, limits: Limits
      ensures var r := LoadFields(Fields(map[], table, bytes + key + val + t), |all|, limits);
        r.Fields? && r.fields == FieldMap(all) && r.rest == t
    {
      var u := key + (val + t);
      assert bytes + key + val + t == bytes + u;
      var f := LoadFields(Fields(map[], table, bytes + u), |front|, limits);
      assert f.Fields? && f.fields == m && f.rest == u;
      TwoTexts(key, val, TextOf(fields[k].0), TextOf(fields[k].1), t);
    }
  }

  lemma TwoTexts(key: seq<byte>, val: seq<byte>, k: seq<byte>, v: seq<byte>, t: seq<byte>)
    requires Encodes(key, k) && Encodes(val, v)
    ensures var a := LoadText(key + (val + t)); var b := LoadText(val + t);
      a.Piece? && a.text == k && a.rest == val + t && b.Piece? && b.text == v && b.rest == t
  {
    hide LoadText;
  }

  lemma FieldMapLast(fields: seq<(Str, Str)>, k: nat)
    requires k < |fields|
    ensures FieldMap(fields[..k + 1]) == FieldMap(fields[..k])[TextOf(fields[k].0) := TextOf(fields[k].1)]
  {
    hide TextOf;
    assert fields[..k + 1][..k] == fields[..k];
  }

  lemma CountedEncodes(o: Object, n: nat, body: seq<byte>)
    requires n < LENERR
    requires match o
      case StringObject(_) => false
      case ListObject(items) => n == |items| && EncodesAll(body, Texts(items))
      case SetObject(items) => n == |items| && EncodesAll(body, Texts(items))
      case HashObject(fields) => n == |fields| && EncodesFields(body, fields)
    ensures EncodesObject(LenBytes(n) + body, o)
  {
    hide LenBytes, LoadLen, LoadTexts, LoadFields, FieldMap, TextOf;
    forall t: seq<byte>, limits: Limits
      ensures LoadObject(KindOf(o), LenBytes(n) + body + t, limits) == Loaded(ValueOf(o), t)
    {
      assert LenBytes(n) + body + t == LenBytes(n) + (body + t);
      LenRoundTrip(n, body + t);
    }
  }

  lemma StringEncodes(x: Str, bytes: seq<byte>)
    requires Encodes(bytes, TextOf(x))
    ensures EncodesObject(bytes, StringObject(x))
  {
    hide LoadText, TextOf;
  }
}
