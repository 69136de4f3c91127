/** Saving objects to a snapshot file and loading them back. */
module Rdb {
  import opened Bytes
  import opened RdbBytes
  import opened RdbFormat
  import Decimal
  import FixedWidth
  import LzfCompress
  import LzfDecompress
  import LzfPack
  import LzfSpec

  // ----- Saving -----

  /** A file being written. Saving to no file at all only counts the bytes. */
  class File {
    var data: seq<byte>

    constructor ()
      ensures data == []
    {
      data := [];
    }
  }

  ghost function Target(fp: File?): set<File> {
    if fp == null then {} else {fp}
  }

  twostate predicate Appended(fp: File?, bytes: seq<byte>)
    reads Target(fp)
  {
    fp != null ==> fp.data == old(fp.data) + bytes
  }

  method WriteRaw(fp: File?, p: seq<byte>) returns (n: nat)
    requires p != []
    modifies Target(fp)
    ensures n == |p| && Appended(fp, p)
  {
    if fp != null {
      fp.data := fp.data + p;
    }
    n := |p|;
  }

  method SaveLen(fp: File?, length: nat) returns (n: nat)
    modifies Target(fp)
    ensures n == |LenBytes(length)| && Appended(fp, LenBytes(length))
  {
    hide BigEndian;
    var len := length % 0x1_0000_0000;
    if len < 0x40 {
      n := WriteRaw(fp, [len]);
    } else if len < 0x4000 {
      n := WriteRaw(fp, [0x40 + len / 256, len % 256]);
    } else {
      var first := WriteRaw(fp, [0x80]);
      var rest := WriteRaw(fp, BigEndian(len));
      n := 1 + 4;
    }
  }

  /** Writes the compressed form, or nothing. */
  method SaveLzfString(fp: File?, s: seq<byte>) returns (n: nat)
    requires |s| < LENERR
    modifies Target(fp)
    ensures n == |LzfBytes(s)| && Appended(fp, LzfBytes(s))
    ensures n > 0 ==> Encodes(LzfBytes(s), s)
  {
    hide LenBytes, Encodes, LzfSpec.Decode, LzfPack.Packed;
    if |s| <= 4 { return 0; }
    var outlen := |s| - 4;
    var inp := new byte[|s|](i requires 0 <= i < |s| => s[i]);
    var out := new byte[outlen + 1];
    var htab, base := Memory(|s|);
    assert inp[..] == s;
    var comprlen := LzfCompress.Compress(inp, base, htab, out, outlen);
    if comprlen == 0 { return 0; }
    var packed := out[..comprlen];
    LzfEncodes(packed, s);
    n := SaveLzfParts(fp, packed, |s|);
  }

  /** The stack as the compressor finds it: a table of arbitrary 64-bit words, and some address for the input. */
  method Memory(length: nat) returns (htab: array<int>, base: nat)
    requires length < LENERR
    ensures fresh(htab) && htab.Length == LzfPack.HSIZE
    ensures forall k :: 0 <= k < htab.Length ==> 0 <= htab[k] < TWO_64
    ensures LzfSpec.MAX_OFF <= base && base + length < TWO_64
  {
    htab := new int[LzfPack.HSIZE];
    forall k | 0 <= k < htab.Length {
      htab[k] := htab[k] % TWO_64;
    }
    assert LzfSpec.MAX_OFF <= LzfSpec.MAX_OFF && LzfSpec.MAX_OFF + length < TWO_64;
    base :| LzfSpec.MAX_OFF <= base && base + length < TWO_64;
  }

  method SaveLzfParts(fp: File?, packed: seq<byte>, length: nat) returns (nwritten: nat)
    requires packed != []
    modifies Target(fp)
    ensures var bytes := [0xC3] + LenBytes(|packed|) + LenBytes(length) + packed;
      nwritten == |bytes| && Appended(fp, bytes)
  {
    hide LenBytes;
    var n := WriteRaw(fp, [0xC3]);
    nwritten := n;
    n := SaveLen(fp, |packed|);
    nwritten := nwritten + n;
    n := SaveLen(fp, length);
    nwritten := nwritten + n;
    n := WriteRaw(fp, packed);
    nwritten := nwritten + n;
  }

  method SaveRawString(fp: File?, s: seq<byte>, behind: seq<byte>, compression: bool) returns (nwritten: nat)
    requires |s| < LENERR
    modifies Target(fp)
    ensures var bytes := RawBytes(s, behind, compression);
      nwritten == |bytes| && Appended(fp, bytes) && Encodes(bytes, s)
    ensures nwritten == TextSize(Raw(s, behind), compression)
    ensures fp != null ==>
      |fp.data| >= old(|fp.data|) && DueForm(fp.data[old(|fp.data|)..], s, behind, compression)
  {
    hide LenBytes, LzfBytes, Encodes, TryInteger, DueForm, TextSize;
    RawIsDue(s, behind, compression);
    nwritten := SaveRawForm(fp, s, behind, compression);
    if fp != null {
      assert fp.data[old(|fp.data|)..] == RawBytes(s, behind, compression);
    }
  }

  /** The three branches of rdbSaveRawString. */
  method SaveRawForm(fp: File?, s: seq<byte>, behind: seq<byte>, compression: bool) returns (nwritten: nat)
    requires |s| < LENERR
    modifies Target(fp)
    ensures var bytes := RawBytes(s, behind, compression);
      nwritten == |bytes| && Appended(fp, bytes) && Encodes(bytes, s)
  {
    hide LenBytes, LzfBytes, Encodes, TryInteger;
    if |s| <= 11 {
      var buf := TryInteger(s, behind);
      if buf != [] {
        TryIntegerEncodes(s, behind);
        nwritten := WriteRaw(fp, buf);
        return;
      }
    }
    if compression && |s| > 20 {
      nwritten := SaveLzfString(fp, s);
      if nwritten > 0 { return; }
    }
    VerbatimEncodes(s);
    nwritten := SaveLen(fp, |s|);
    if |s| > 0 {
      var n := WriteRaw(fp, s);
      nwritten := nwritten + n;
    }
  }

  method SaveLongLong(fp: File?, value: int) returns (nwritten: nat)
    requires Decimal.LONG_MIN <= value <= LONG_MAX
    modifies Target(fp)
    ensures var bytes := TextBytes(Int(value), true);
      nwritten == |bytes| && Appended(fp, bytes) && Encodes(bytes, Decimal.Print(value))
  {
    hide LenBytes, Encodes, IntegerBytes, Decimal.Print;
    var enc := IntegerBytes(value);
    if enc != [] {
      IntegerEncodes(value);
      nwritten := WriteRaw(fp, enc);
    } else {
      var buf := Decimal.Print(value);
      Decimal.PrintIsShort(value);
      VerbatimEncodes(buf);
      nwritten := SaveLen(fp, |buf|);
      var n := WriteRaw(fp, buf);
      nwritten := nwritten + n;
    }
  }

  method SaveStringObject(fp: File?, x: Str, compression: bool) returns (n: nat)
    requires Short(x)
    modifies Target(fp)
    ensures var bytes := TextBytes(x, compression);
      n == |bytes| && Appended(fp, bytes) && Encodes(bytes, TextOf(x))
    ensures n == TextSize(x, compression)
  {
    hide Encodes, Decimal.Print, RawBytes, LenBytes, TextSize, DueForm;
    TextHasSize(x, compression);
    match x
    case Int(v) => n := SaveLongLong(fp, v);
    case Raw(s, behind) => n := SaveRawString(fp, s, behind, compression);
  }

  /** The elements of a list or of a set, one after the other. */
  method SaveRun(fp: File?, items: seq<Str>, compression: bool) returns (nwritten: nat)
    requires forall k :: 0 <= k < |items| ==> Short(items[k])
    modifies Target(fp)
    ensures var bytes := RunBytes(items, compression);
      nwritten == |bytes| && Appended(fp, bytes) && EncodesAll(bytes, Texts(items))
    ensures nwritten == RunSize(items, compression)
  {
    hide Encodes, EncodesAll, TextOf, TextBytes, TextSize, RunSize, Short;
    RunHasSize(items, compression);
    nwritten := 0;
    ghost var bytes: seq<byte> := [];
    NothingEncodes();
    var k := 0;
    while k < |items|
      invariant 0 <= k <= |items| && nwritten == |bytes| && Appended(fp, bytes)
      invariant bytes == RunBytes(items[..k], compression) && EncodesAll(bytes, Texts(items[..k]))
    {
      ghost var more := TextBytes(items[k], compression);
      var n := SaveStringObject(fp, items[k], compression);
      EncodesAllAppend(bytes, Texts(items[..k]), more, TextOf(items[k]));
      TextsNext(items, k);
      RunBytesNext(items, k, compression);
      nwritten, bytes, k := nwritten + n, bytes + more, k + 1;
    }
    assert items[..k] == items;
  }

  lemma NothingEncodes()
    ensures EncodesAll([], Texts([])) && EncodesFields([], [])
  {
    forall t: seq<byte> ensures LoadTexts([] + t, 0) == Run([], t) {
      assert [] + t == t;
    }
    forall t: seq<byte>, table: bool, limits: Limits
      ensures LoadFields(Fields(map[], table, [] + t), 0, limits) == Fields(map[], table, t)
    {
      assert [] + t == t;
    }
  }

  lemma TextsNext(items: seq<Str>, k: nat)
    requires k < |items|
    ensures Texts(items[..k + 1]) == Texts(items[..k]) + [TextOf(items[k])]
  {
    hide TextOf;
  }

  method SaveFields(fp: File?, fields: seq<(Str, Str)>, compression: bool) returns (nwritten: nat)
    requires DistinctKeys(fields) && forall k :: 0 <= k < |fields| ==> Short(fields[k].0) && Short(fields[k].1)
    modifies Target(fp)
    ensures var bytes := FieldsBytes(fields, compression);
      nwritten == |bytes| && Appended(fp, bytes) && EncodesFields(bytes, fields)
    ensures nwritten == FieldsSize(fields, compression)
  {
    hide Encodes, EncodesFields, TextOf, TextBytes, TextSize, FieldsSize, Short, DistinctKeys;
    FieldsHaveSize(fields, compression);
    nwritten := 0;
    ghost var bytes: seq<byte> := [];
    NothingEncodes();
    var k := 0;
    while k < |fields|
      invariant 0 <= k <= |fields| && nwritten == |bytes| && Appended(fp, bytes)
      invariant bytes == FieldsBytes(fields[..k], compression) && EncodesFields(bytes, fields[..k])
    {
      ghost var key, val := TextBytes(fields[k].0, compression), TextBytes(fields[k].1, compression);
      var n := SaveStringObject(fp, fields[k].0, compression);
      var m := SaveStringObject(fp, fields[k].1, compression);
      EncodesFieldsAppend(bytes, fields, k, key, val);
      FieldsBytesNext(fields, k, compression);
      nwritten, bytes, k := nwritten + n + m, bytes + key + val, k + 1;
    }
    assert fields[..k] == fields;
  }

  /**
    * Saves an object; the result is the exact number of bytes that are written, or that would be written if there is
    * no file. What is written loads as the same value wherever it stands, and nothing behind it is consumed.
    */
  method SaveObject(fp: File?, o: Object, compression: bool) returns (nwritten: nat)
    requires Storable(o)
    modifies Target(fp)
    ensures var bytes := ObjectBytes(o, compression);
      nwritten == |bytes| && Appended(fp, bytes) && EncodesObject(bytes, o)
    ensures nwritten == ObjectSize(o, compression)
  {
    hide Encodes, EncodesAll, EncodesFields, EncodesObject, Short, TextBytes, RunBytes, FieldsBytes, DistinctKeys,
      LenBytes, TextSize, RunSize, FieldsSize, ObjectSize;
    ObjectHasSize(o, compression);
    match o
    case StringObject(x) =>
      nwritten := SaveStringObject(fp, x, compression);
      StringEncodes(x, TextBytes(x, compression));
    case ListObject(items) =>
      var n := SaveLen(fp, |items|);
      nwritten := SaveRun(fp, items, compression);
      CountedEncodes(o, |items|, RunBytes(items, compression));
      nwritten := n + nwritten;
    case SetObject(members) =>
      var n := SaveLen(fp, |members|);
      nwritten := SaveRun(fp, members, compression);
      CountedEncodes(o, |members|, RunBytes(members, compression));
      nwritten := n + nwritten;
    case HashObject(fields) =>
      var n := SaveLen(fp, |fields|);
      nwritten := SaveFields(fp, fields, compression);
      CountedEncodes(o, |fields|, FieldsBytes(fields, compression));
      nwritten := n + nwritten;
  }

  /** The length that the object has on disk if it is saved, whatever memory either save meets. */
  method SavedObjectLen(o: Object, compression: bool) returns (n: nat)
    requires Storable(o)
    ensures n == |ObjectBytes(o, compression)| && n == ObjectSize(o, compression)
  {
    hide Storable, EncodesObject, ObjectBytes, ObjectSize;
    n := SaveObject(null, o, compression);
  }

  /** The number of bytes reserved for an object is the number a later save of it takes. */
  method MeasureAndSave(fp: File, o: Object, compression: bool) returns (reserved: nat, written: nat)
    requires Storable(o)
    modifies fp
    ensures reserved == written && |fp.data| == old(|fp.data|) + reserved && written == ObjectSize(o, compression)
  {
    hide Storable, EncodesObject, ObjectBytes, ObjectSize;
    reserved := SavedObjectLen(o, compression);
    written := SaveObject(fp, o, compression);
  }

  // ----- Loading -----

  /** A file being read. */
  class Reader {
    const data: seq<byte>
    var pos: nat

    ghost predicate Valid()
      reads this
    {
      pos <= |data|
    }

    function Rest(): seq<byte>
      requires Valid()
      reads this
    {
      data[pos..]
    }

    constructor (data: seq<byte>)
      ensures Valid() && this.data == data && Rest() == data
    {
      this.data, pos := data, 0;
    }

    /** fread of n bytes, n > 0. */
    method Read(n: nat) returns (ok: bool, p: seq<byte>)
      requires Valid() && n > 0
      modifies this
      ensures Valid() && ok == (n <= |old(Rest())|)
      ensures ok ==> p == old(Rest())[..n] && Rest() == old(Rest())[n..]
    {
      if n > |data| - pos { return false, []; }
      p := data[pos..pos + n];
      pos := pos + n;
      ok := true;
    }

    method ReadLen() returns (r: Len)
      requires Valid()
      modifies this
      ensures Valid() && r == LoadLen(old(Rest())) && (r.Len? ==> Rest() == r.rest)
    {
      hide FromBigEndian;
      ghost var s := Rest();
      var ok, p := Read(1);
      if !ok { return LenErr; }
      var b: int := p[0];
      if b < 0x40 { return Len(b, false, Rest()); }
      if b >= 0xC0 { return Len(b - 0xC0, true, Rest()); }
      if b < 0x80 {
        ok, p := Read(1);
        if !ok { return LenErr; }
        assert p[0] == s[1] && Rest() == s[2..];
        var low: int := p[0];
        return Len((b - 0x40) * 256 + low, false, Rest());
      }
      ok, p := Read(4);
      if !ok { return LenErr; }
      assert p == s[1..5] && Rest() == s[5..];
      var v := FromBigEndian(p);
      r := if v == LENERR then LenErr else Len(v, false, Rest());
    }

    method ReadInteger(enctype: nat) returns (r: Piece)
      requires Valid() && enctype <= 2
      modifies this
      ensures Valid() && r == LoadInteger(enctype, old(Rest())) && (r.Piece? ==> Rest() == r.rest)
    {
      hide FixedWidth.Decode, Decimal.Print;
      var ok, enc := Read(Width(enctype));
      if !ok { return Bad; }
      r := Piece(Decimal.Print(FixedWidth.Decode(enc)), false, Rest());
    }

    method ReadLzf() returns (r: Piece)
      requires Valid()
      modifies this
      ensures Valid() && r == LoadLzf(old(Rest())) && (r.Piece? ==> Rest() == r.rest)
    {
      hide LoadLen, LzfSpec.Decode;
      var clen := ReadLen();
      if clen.LenErr? { return Bad; }
      var len := ReadLen();
      if len.LenErr? { return Bad; }
      if clen.value == 0 { return Bad; }
      var ok, c := Read(clen.value);
      if !ok { return Bad; }
      var text;
      ok, text := Unpack(c, len.value);
      if !ok { return Bad; }
      r := Piece(text, true, Rest());
    }

    method ReadText() returns (r: Piece)
      requires Valid()
      modifies this
      ensures Valid() && r == LoadText(old(Rest())) && (r.Piece? ==> Rest() == r.rest)
    {
      hide LoadLen, LoadInteger, LoadLzf;
      var len := ReadLen();
      if len.LenErr? { return Bad; }
      if len.encoded {
        if len.value <= 2 {
          r := ReadInteger(len.value);
        } else if len.value == 3 {
          r := ReadLzf();
        } else {
          r := Bad;
        }
        return;
      }
      if len.value == 0 {
        assert Rest()[..0] == [] && Rest()[0..] == Rest();
        return Piece([], true, Rest());
      }
      var ok, val := Read(len.value);
      r := if ok then Piece(val, true, Rest()) else Bad;
    }

    method ReadTexts(n: nat) returns (r: Run)
      requires Valid()
      modifies this
      ensures Valid() && r == LoadTexts(old(Rest()), n) && (r.Run? ==> Rest() == r.rest)
    {
      hide LoadText;
      var texts := [];
      var left: nat := n;
      ghost var s := Rest();
      while left > 0
        invariant left <= n && Valid()
        invariant LoadTexts(s, n) ==
          match LoadTexts(Rest(), left)
          case BadRun => BadRun
          case Run(xs, rest) => Run(texts + xs, rest)
      {
        left := left - 1;
        var ele := ReadText();
        if ele.Bad? { return BadRun; }
        assert forall xs: seq<seq<byte>> :: texts + ([ele.text] + xs) == texts + [ele.text] + xs;
        texts := texts + [ele.text];
      }
      assert texts + [] == texts;
      r := Run(texts, Rest());
    }

    /** One turn of the loop over the fields of a hash. */
    method ReadField(fields: map<seq<byte>, seq<byte>>, table0: bool, limits: Limits) returns (r: Fields)
      requires Valid()
      modifies this
      ensures Valid() && r == LoadField(Fields(fields, table0, old(Rest())), limits)
      ensures r.Fields? ==> Rest() == r.rest
    {
      hide LoadText, AddField;
      var key := ReadText();
      if key.Bad? { return BadFields; }
      var val := ReadText();
      if val.Bad? { return BadFields; }
      var table := table0;
      if !table && ((key.raw && |key.text| > limits.value) || (val.raw && |val.text| > limits.value)) {
        table := true;
      }
      r := Fields(AddField(fields, table, key.text, val.text), table, Rest());
    }

    method ReadFields(n: nat, limits: Limits) returns (r: Fields)
      requires Valid()
      modifies this
      ensures Valid()
      ensures r == LoadFields(Fields(map[], n > limits.entries, old(Rest())), n, limits)
      ensures r.Fields? ==> Rest() == r.rest
    {
      hide LoadText, AddField, LoadField, LoadFields;
      ghost var start := Fields(map[], n > limits.entries, Rest());
      r := Fields(map[], n > limits.entries, Rest());
      NoFields(start, limits);
      var k := 0;
      while k < n
        invariant 0 <= k <= n && Valid() && r.Fields? && Rest() == r.rest
        invariant LoadFields(start, k, limits) == r
      {
        FieldStep(start, k, limits);
        r := ReadField(r.fields, r.table, limits);
        k := k + 1;
        if r.BadFields? {
          StuckFields(start, k, n, limits);
          return;
        }
      }
    }

    /** Loads an object of the given kind. */
    method ReadObject(kind: Kind, limits: Limits) returns (r: Loaded)
      requires Valid()
      modifies this
      ensures Valid() && r == LoadObject(kind, old(Rest()), limits) && (r.Loaded? ==> Rest() == r.rest)
    {
      hide LoadText, LoadTexts, LoadFields, LoadLen, Members;
      if kind == StringKind {
        var x := ReadText();
        return if x.Bad? then Failed else Loaded(StringValue(x.text), Rest());
      }
      var len := ReadLen();
      if len.LenErr? { return Failed; }
      if kind == HashKind {
        var f := ReadFields(len.value, limits);
        return if f.BadFields? then Failed else Loaded(HashValue(f.fields), Rest());
      }
      var run := ReadTexts(len.value);
      if run.BadRun? { return Failed; }
      r := Loaded(if kind == ListKind then ListValue(run.texts) else SetValue(Members(run.texts)), Rest());
    }
  }

  lemma NoFields(f: Fields, limits: Limits)
    requires f.Fields?
    ensures LoadFields(f, 0, limits) == f
  {
  }

  /** Decompresses into a zero-filled string of the announced length. */
  method Unpack(c: seq<byte>, len: nat) returns (ok: bool, text: seq<byte>)
    requires c != []
    ensures var d := LzfSpec.Decode(c, [], len);
      if d.Done? then ok && |d.data| <= len && text == d.data + Zeros(len - |d.data|) else !ok
  {
    hide LzfSpec.Decode;
    var packed := new byte[|c|](i requires 0 <= i < |c| => c[i]);
    var val := new byte[len](_ => 0);
    assert packed[..|c|] == c;
    var r, errno := LzfDecompress.Decompress(packed, |c|, val, len);
    ghost var d := LzfSpec.Decode(c, [], len);
    if d.Done? {
      LzfSpec.DecodeFits(c, [], len);
      assert val[..r] == d.data;
      assert val[..] == d.data + Zeros(len - |d.data|);
    }
    ok, text := r > 0, val[..];
  }

  /** An object that is saved behind anything and in front of anything loads back as the same value. */
  method SaveAndLoad(before: seq<byte>, o: Object, after: seq<byte>, compression: bool, limits: Limits)
    returns (n: nat, r: Loaded)
    requires Storable(o)
    ensures r == Loaded(ValueOf(o), after) && n == |ObjectBytes(o, compression)|
  {
    hide Storable, LoadObject, ObjectBytes, ObjectSize, EncodesObject, ValueOf, KindOf;
    ghost var bytes := ObjectBytes(o, compression);
    var fp := new File();
    fp.data := before;
    n := SaveObject(fp, o, compression);
    LoadsBack(o, bytes, after, limits);
    var reader := new Reader(fp.data + after);
    reader.pos := |before|;
    assert before + bytes + after == before + (bytes + after);
    assert reader.Rest() == bytes + after;
    r := reader.ReadObject(KindOf(o), limits);
  }

  lemma LoadsBack(o: Object, bytes: seq<byte>, after: seq<byte>, limits: Limits)
    requires EncodesObject(bytes, o)
    ensures LoadObject(KindOf(o), bytes + after, limits) == Loaded(ValueOf(o), after)
  {
    hide LoadObject, ValueOf, KindOf;
  }
}
