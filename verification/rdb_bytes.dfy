/** What a save writes, and how many bytes that takes: which of the forms of a string is chosen, and when. */
module RdbBytes {
  import opened Bytes
  import opened RdbFormat
  import Decimal
  import LzfPack

  // ----- What is written -----

  /** The compressed form of a string, or nothing if it does not save four bytes. */
  function LzfBytes(s: seq<byte>): seq<byte> {
    if |s| <= 4 then []
    else
      var packed := LzfPack.Packed(s, |s| - 4);
      if packed == [] then [] else [0xC3] + LenBytes(|packed|) + LenBytes(|s|) + packed
  }

  function RawBytes(s: seq<byte>, behind: seq<byte>, compression: bool): (r: seq<byte>)
    ensures r != []
  {
    if |s| <= 11 && TryInteger(s, behind) != [] then TryInteger(s, behind)
    else if compression && |s| > 20 && LzfBytes(s) != [] then LzfBytes(s)
    else LenBytes(|s|) + s
  }

  function TextBytes(x: Str, compression: bool): (s: seq<byte>)
    ensures s != []
  {
    match x
    case Int(v) => if IntegerBytes(v) != [] then IntegerBytes(v) else LenBytes(|Decimal.Print(v)|) + Decimal.Print(v)
    case Raw(s, behind) => RawBytes(s, behind, compression)
  }

  function RunBytes(items: seq<Str>, compression: bool): seq<byte> {
    if items == [] then []
    else RunBytes(items[..|items| - 1], compression) + TextBytes(items[|items| - 1], compression)
  }

  function FieldsBytes(fields: seq<(Str, Str)>, compression: bool): seq<byte> {
    if fields == [] then []
    else
      var last := fields[|fields| - 1];
      FieldsBytes(fields[..|fields| - 1], compression) + TextBytes(last.0, compression) + TextBytes(last.1, compression)
  }

  /** What a save writes: it depends on the object and the compression setting, and on nothing else. */
  function ObjectBytes(o: Object, compression: bool): seq<byte> {
    match o
    case StringObject(x) => TextBytes(x, compression)
    case ListObject(items) => LenBytes(|items|) + RunBytes(items, compression)
    case SetObject(members) => LenBytes(|members|) + RunBytes(members, compression)
    case HashObject(fields) => LenBytes(|fields|) + FieldsBytes(fields, compression)
  }

  predicate Short(x: Str) {
    match x
    case Int(v) => Decimal.LONG_MIN <= v <= LONG_MAX
    case Raw(s, _) => |s| < LENERR
  }

  predicate Storable(o: Object) {
    match o
    case StringObject(x) => Short(x)
    case ListObject(items) => |items| < LENERR && forall k :: 0 <= k < |items| ==> Short(items[k])
    case SetObject(members) => |members| < LENERR && forall k :: 0 <= k < |members| ==> Short(members[k])
    case HashObject(fields) =>
      |fields| < LENERR && DistinctKeys(fields)
      && forall k :: 0 <= k < |fields| ==> Short(fields[k].0) && Short(fields[k].1)
  }

  lemma RunBytesNext(items: seq<Str>, k: nat, compression: bool)
    requires k < |items|
    ensures RunBytes(items[..k + 1], compression) ==
      RunBytes(items[..k], compression) + TextBytes(items[k], compression)
  {
    hide TextBytes;
    assert items[..k + 1][..k] == items[..k];
  }

  lemma FieldsBytesNext(fields: seq<(Str, Str)>, k: nat, compression: bool)
    requires k < |fields|
    ensures FieldsBytes(fields[..k + 1], compression) == FieldsBytes(fields[..k], compression) +
      TextBytes(fields[k].0, compression) + TextBytes(fields[k].1, compression)
  {
    hide TextBytes;
    assert fields[..k + 1][..k] == fields[..k];
  }

  // ----- Which form is chosen -----

  /** The string is the canonical spelling of a 32-bit number, and terminated. */
  ghost predicate Spells(s: seq<byte>, behind: seq<byte>, v: int) {
    -0x8000_0000 <= v <= 0x7FFF_FFFF && s == Decimal.Print(v) && Terminated(s, behind)
  }

  ghost predicate Numeric(s: seq<byte>, behind: seq<byte>) {
    exists v: int :: Spells(s, behind, v)
  }

  /** What the compressor makes of a string in a room of four bytes less. */
  function Squeezed(s: seq<byte>): seq<byte> {
    if |s| > 20 then LzfPack.Packed(s, |s| - 4) else []
  }

  /** The number of bytes of a length below 2^32. */
  function LenSize(n: nat): nat {
    if n < 64 then 1 else if n < 16384 then 2 else 5
  }

  /** The number of bytes of a 32-bit number. */
  function NumberSize(v: int): nat {
    if -128 <= v <= 127 then 2 else if -32768 <= v <= 32767 then 3 else 5
  }

  /**
    * The bytes have the form that is due to the string: a number if it spells one; otherwise compressed if that is
    * wanted, it is longer than 20 bytes and four bytes are saved; otherwise as it is.
    */
  ghost predicate DueForm(bytes: seq<byte>, s: seq<byte>, behind: seq<byte>, compression: bool) {
    && bytes != []
    && (forall v: int :: Spells(s, behind, v) ==> |bytes| == NumberSize(v) && 0xC0 <= bytes[0] <= 0xC2)
    && (!Numeric(s, behind) ==>
          if compression && Squeezed(s) != [] then
            var n := 1 + LenSize(|Squeezed(s)|) + LenSize(|s|);
            bytes[0] == 0xC3 && |bytes| == n + |Squeezed(s)| && bytes[n..] == Squeezed(s)
          else bytes[0] < 0xC0 && |bytes| == LenSize(|s|) + |s| && bytes[LenSize(|s|)..] == s)
  }

  /** The size that is due to a string object. */
  ghost function TextSize(x: Str, compression: bool): nat {
    match x
    case Int(v) =>
      if -0x8000_0000 <= v <= 0x7FFF_FFFF then NumberSize(v)
      else LenSize(|Decimal.Print(v)|) + |Decimal.Print(v)|
    case Raw(s, behind) =>
      if Numeric(s, behind) then
        var v: int :| Spells(s, behind, v);
        NumberSize(v)
      else if compression && Squeezed(s) != [] then
        1 + LenSize(|Squeezed(s)|) + LenSize(|s|) + |Squeezed(s)|
      else LenSize(|s|) + |s|
  }

  ghost function RunSize(items: seq<Str>, compression: bool): nat {
    if items == [] then 0 else RunSize(items[..|items| - 1], compression) + TextSize(items[|items| - 1], compression)
  }

  ghost function FieldsSize(fields: seq<(Str, Str)>, compression: bool): nat {
    if fields == [] then 0
    else
      var last := fields[|fields| - 1];
      FieldsSize(fields[..|fields| - 1], compression) + TextSize(last.0, compression) + TextSize(last.1, compression)
  }

  /** The size that is due to an object: its count, and the sizes of its strings. */
  ghost function ObjectSize(o: Object, compression: bool): nat {
    match o
    case StringObject(x) => TextSize(x, compression)
    case ListObject(items) => LenSize(|items|) + RunSize(items, compression)
    case SetObject(members) => LenSize(|members|) + RunSize(members, compression)
    case HashObject(fields) => LenSize(|fields|) + FieldsSize(fields, compression)
  }

  /** Which lengths take one, two and five bytes, and how they are marked. */
  lemma LenSizes(n: nat)
    requires n < LENERR
    ensures |LenBytes(n)| == (if n < 64 then 1 else if n < 16384 then 2 else 5) && LenBytes(n)[0] < 0xC0
  {
    hide BigEndian;
    assert n % 0x1_0000_0000 == n;
  }

  lemma NumberForm(v: int)
    requires -0x8000_0000 <= v <= 0x7FFF_FFFF
    ensures |IntegerBytes(v)| == NumberSize(v) && 0xC0 <= IntegerBytes(v)[0] <= 0xC2
  {
    IntegerSizes(v);
  }

  lemma SpellsForm(s: seq<byte>, behind: seq<byte>, v: int)
    requires Spells(s, behind, v)
    ensures TryInteger(s, behind) == IntegerBytes(v) && |s| <= 11
  {
    hide Decimal.Strtol, Decimal.Print, Terminated, IntegerBytes;
    FoundExactlyIf(v, behind);
    Decimal.PrintIntIsShort(v);
  }

  lemma NumericTakes(s: seq<byte>, behind: seq<byte>)
    ensures Numeric(s, behind) <==> TryInteger(s, behind) != []
  {
    hide TryInteger, Decimal.Print, Terminated;
    TryIntegerTakes(s, behind);
    if TryInteger(s, behind) != [] {
      var v: int :| -0x8000_0000 <= v <= 0x7FFF_FFFF && s == Decimal.Print(v);
      assert Spells(s, behind, v);
    }
  }

  lemma SqueezedForm(s: seq<byte>)
    requires |s| < LENERR && |s| > 20
    ensures LzfBytes(s) != [] <==> Squeezed(s) != []
    ensures Squeezed(s) != [] ==>
      var n := 1 + LenSize(|Squeezed(s)|) + LenSize(|s|);
      LzfBytes(s)[0] == 0xC3 && |LzfBytes(s)| == n + |Squeezed(s)| && LzfBytes(s)[n..] == Squeezed(s)
  {
    hide LenBytes, LzfPack.Packed;
    LenSizes(|s|);
    LzfPack.PackedFits(s, |s| - 4);
    LenSizes(|Squeezed(s)|);
  }

  lemma OneSpelling(s: seq<byte>, behind: seq<byte>, v: int, w: int)
    requires Spells(s, behind, v) && Spells(s, behind, w)
    ensures v == w
  {
    hide Decimal.Print, Terminated;
    Decimal.PrintInjective(v, w);
  }

  /** The form that is written is the one that is due. */
  lemma RawIsDue(s: seq<byte>, behind: seq<byte>, compression: bool)
    requires |s| < LENERR
    ensures DueForm(RawBytes(s, behind, compression), s, behind, compression)
    ensures |RawBytes(s, behind, compression)| == TextSize(Raw(s, behind), compression)
  {
    hide Spells, LenBytes, LzfBytes, TryInteger, IntegerBytes, Squeezed, LenSize;
    forall v: int | Spells(s, behind, v)
      ensures RawBytes(s, behind, compression) == IntegerBytes(v) && |IntegerBytes(v)| == NumberSize(v)
      ensures 0xC0 <= IntegerBytes(v)[0] <= 0xC2
      ensures forall w: int :: Spells(s, behind, w) ==> w == v
    {
      SpellsForm(s, behind, v);
      SpellsRange(s, behind, v);
      NumberForm(v);
      forall w: int | Spells(s, behind, w) ensures w == v {
        OneSpelling(s, behind, v, w);
      }
    }
    if !Numeric(s, behind) {
      NumericTakes(s, behind);
      LenSizes(|s|);
      LenIs(|s|);
      if |s| > 20 {
        SqueezedForm(s);
      } else {
        ShortNotSqueezed(s);
      }
    }
  }

  lemma SpellsRange(s: seq<byte>, behind: seq<byte>, v: int)
    requires Spells(s, behind, v)
    ensures -0x8000_0000 <= v <= 0x7FFF_FFFF
  {
  }

  lemma LenIs(n: nat)
    requires n < LENERR
    ensures |LenBytes(n)| == LenSize(n)
  {
    hide LenBytes;
    LenSizes(n);
  }

  lemma ShortNotSqueezed(s: seq<byte>)
    requires |s| <= 20
    ensures Squeezed(s) == []
  {
  }

  lemma TextHasSize(x: Str, compression: bool)
    requires Short(x)
    ensures |TextBytes(x, compression)| == TextSize(x, compression)
  {
    hide RawBytes, IntegerBytes, LenBytes, Decimal.Print, Numeric, Squeezed;
    match x
    case Int(v) =>
      Decimal.PrintIsShort(v);
      LenIs(|Decimal.Print(v)|);
      IntegerSizes(v);
    case Raw(s, behind) =>
      RawIsDue(s, behind, compression);
  }

  lemma {:induction false} RunHasSize(items: seq<Str>, compression: bool)
    requires forall k :: 0 <= k < |items| ==> Short(items[k])
    ensures |RunBytes(items, compression)| == RunSize(items, compression)
  {
    hide TextBytes, TextSize, Short;
    if items != [] {
      RunHasSize(items[..|items| - 1], compression);
      TextHasSize(items[|items| - 1], compression);
    }
  }

  lemma {:induction false} FieldsHaveSize(fields: seq<(Str, Str)>, compression: bool)
    requires forall k :: 0 <= k < |fields| ==> Short(fields[k].0) && Short(fields[k].1)
    ensures |FieldsBytes(fields, compression)| == FieldsSize(fields, compression)
  {
    hide TextBytes, TextSize, Short;
    if fields != [] {
      FieldsHaveSize(fields[..|fields| - 1], compression);
      TextHasSize(fields[|fields| - 1].0, compression);
      TextHasSize(fields[|fields| - 1].1, compression);
    }
  }

  /** A save takes exactly the size that is due to the object. */
  lemma ObjectHasSize(o: Object, compression: bool)
    requires Storable(o)
    ensures |ObjectBytes(o, compression)| == ObjectSize(o, compression)
  {
    hide TextBytes, TextSize, RunBytes, FieldsBytes, LenBytes, LenSize, Short;
    match o
    case StringObject(x) => TextHasSize(x, compression);
    case ListObject(items) =>
      LenIs(|items|);
      RunHasSize(items, compression);
    case SetObject(members) =>
      LenIs(|members|);
      RunHasSize(members, compression);
    case HashObject(fields) =>
      LenIs(|fields|);
      FieldsHaveSize(fields, compression);
  }
}
