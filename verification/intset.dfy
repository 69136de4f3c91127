/** The integer set: a strictly increasing array of 2-, 4- or 8-byte integers packed in one byte buffer. */
module IntSets {
  import opened Bytes
  import opened FixedWidth
  import opened Sequences

  predicate IsEncoding(enc: int) {
    enc == 2 || enc == 4 || enc == 8
  }

  /** The least width that holds the value. */
  function ValueEncoding(v: int): (enc: int)
    ensures IsEncoding(enc)
  {
    if v < -0x8000_0000 || v > 0x7FFF_FFFF then 8
    else if v < -0x8000 || v > 0x7FFF then 4
    else 2
  }

  function Wider(a: int, b: int): int {
    if b > a then b else a
  }

  lemma ValueEncodingIsLeast(v: int, enc: int)
    requires Fits(v, 8) && IsEncoding(enc)
    ensures ValueEncoding(v) <= enc <==> Fits(v, enc)
  {
    Pow256Values();
  }

  /** Byte offset of an element. */
  function Offset(pos: nat, enc: int): (o: nat)
    requires IsEncoding(enc)
  {
    if enc == 8 then pos * 8 else if enc == 4 then pos * 4 else pos * 2
  }

  /** The element at `pos` when the buffer holds integers of `enc` bytes. */
  function GetEncoded(s: seq<byte>, pos: nat, enc: int): (v: int)
    requires IsEncoding(enc) && Offset(pos, enc) + enc <= |s|
  {
    Decode(s[Offset(pos, enc)..Offset(pos, enc) + enc])
  }

  ghost function Elements(s: seq<byte>, n: nat, enc: int): (e: seq<int>)
    requires IsEncoding(enc) && Offset(n, enc) <= |s|
    ensures |e| == n
    ensures forall k :: 0 <= k < n ==> e[k] == GetEncoded(s, k, enc)
  {
    seq(n, k requires 0 <= k < n => GetEncoded(s, k, enc))
  }

  ghost predicate Increasing(e: seq<int>) {
    forall i, j :: 0 <= i < j < |e| ==> e[i] < e[j]
  }

  ghost function AsSet(e: seq<int>): set<int> {
    set x | x in e
  }

  lemma NotEmpty(e: seq<int>)
    requires e != []
    ensures e[0] in AsSet(e) && AsSet(e) != {}
  {
  }

  /** A strictly increasing sequence is determined by its elements, so contracts may speak of the set alone. */
  lemma {:induction false} IncreasingUnique(a: seq<int>, b: seq<int>)
    requires Increasing(a) && Increasing(b) && AsSet(a) == AsSet(b)
    ensures a == b
  {
    if a == [] {
      if b != [] {
        NotEmpty(b);
      }
    } else {
      assert a[0] in AsSet(a) && b != [];
      assert b[0] in AsSet(b);
      assert a[0] == b[0];
      forall x ensures x in AsSet(a[1..]) <==> x in AsSet(b[1..]) {
        assert x in AsSet(a[1..]) <==> x in AsSet(a) && x != a[0];
        assert x in AsSet(b[1..]) <==> x in AsSet(b) && x != b[0];
      }
      IncreasingUnique(a[1..], b[1..]);
      assert a == [a[0]] + a[1..] && b == [b[0]] + b[1..];
    }
  }

  lemma {:induction false} AsSetSize(e: seq<int>)
    requires Increasing(e)
    ensures |AsSet(e)| == |e|
    decreases |e|
  {
    if e != [] {
      var n := |e| - 1;
      AsSetSize(e[..n]);
      assert e[n] !in e[..n];
      assert AsSet(e) == AsSet(e[..n]) + {e[n]};
    }
  }

  /** Strictly increasing integers are at least as far apart as their positions. */
  lemma {:induction false} GapsAddUp(e: seq<int>, k: nat)
    requires Increasing(e) && k < |e|
    ensures e[k] >= e[0] + k
    decreases k
  {
    if k > 0 {
      GapsAddUp(e, k - 1);
    }
  }

  /** A buffer whose size fits 32 bits holds few enough elements, in every encoding: two bytes have few values, and
      wider elements take more room. */
  lemma StorableIsShort(s: seq<byte>, n: nat, enc: int)
    requires IsEncoding(enc) && |s| == Offset(n, enc) < 0x1_0000_0000 && Increasing(Elements(s, n, enc))
    ensures n <= 0x4000_0000 && (enc == 2 ==> n <= 0x1_0000)
  {
    hide GetEncoded, Fits;
    if enc == 2 && n > 0 {
      var e := Elements(s, n, enc);
      GapsAddUp(e, n - 1);
      TwoByteRange(s, 0);
      TwoByteRange(s, n - 1);
    }
  }

  lemma TwoByteRange(s: seq<byte>, k: nat)
    requires Offset(k, 2) + 2 <= |s|
    ensures -0x8000 <= GetEncoded(s, k, 2) <= 0x7FFF
  {
    hide Decode;
    DecodeFits(s[Offset(k, 2)..Offset(k, 2) + 2]);
    Pow256Values();
  }

  /** An element depends only on its own bytes. */
  lemma SameBytes(s: seq<byte>, i: nat, t: seq<byte>, j: nat, enc: int)
    requires IsEncoding(enc) && Offset(i, enc) + enc <= |s| && Offset(j, enc) + enc <= |t|
    requires forall b :: Offset(j, enc) <= b < Offset(j, enc) + enc ==> t[b] == s[b - Offset(j, enc) + Offset(i, enc)]
    ensures GetEncoded(s, i, enc) == GetEncoded(t, j, enc)
  {
    var x, y := s[Offset(i, enc)..Offset(i, enc) + enc], t[Offset(j, enc)..Offset(j, enc) + enc];
    assert forall b :: 0 <= b < enc ==> y[b] == t[b + Offset(j, enc)];
    assert x == y;
  }

  lemma ElementFits(s: seq<byte>, pos: nat, enc: int, wider: int)
    requires IsEncoding(enc) && Offset(pos, enc) + enc <= |s| && enc <= wider
    ensures Fits(GetEncoded(s, pos, enc), wider)
  {
    DecodeFits(s[Offset(pos, enc)..Offset(pos, enc) + enc]);
    FitsWider(GetEncoded(s, pos, enc), enc, wider);
  }

  lemma OffsetOrder(a: nat, b: nat, enc: int)
    requires IsEncoding(enc) && a < b
    ensures Offset(a, enc) + enc == Offset(a + 1, enc) <= Offset(b, enc)
  {
  }

  lemma ElementBefore(s: seq<byte>, t: seq<byte>, pos: nat, enc: int, k: nat)
    requires IsEncoding(enc) && k < pos && Offset(pos, enc) <= |s| && Offset(pos, enc) <= |t|
    requires forall b :: 0 <= b < Offset(pos, enc) ==> t[b] == s[b]
    ensures Offset(k, enc) + enc <= |s| && Offset(k, enc) + enc <= |t|
    ensures GetEncoded(t, k, enc) == GetEncoded(s, k, enc)
  {
    hide GetEncoded, Offset;
    OffsetOrder(k, pos, enc);
    SameBytes(s, k, t, k, enc);
  }

  lemma ElementBehind(s: seq<byte>, t: seq<byte>, n: nat, pos: nat, enc: int, k: nat)
    requires IsEncoding(enc) && pos < k <= n && Offset(n, enc) <= |s| && Offset(n + 1, enc) <= |t|
    requires forall b :: Offset(pos + 1, enc) <= b < Offset(n + 1, enc) && b - enc < |s| ==> t[b] == s[b - enc]
    ensures Offset(k - 1, enc) + enc <= |s| && Offset(k, enc) + enc <= |t|
    ensures GetEncoded(t, k, enc) == GetEncoded(s, k - 1, enc)
  {
    hide GetEncoded, Offset;
    OffsetOrder(k - 1, n, enc);
    OffsetOrder(k, n + 1, enc);
    OffsetOrder(pos, k, enc);
    SameBytes(s, k - 1, t, k, enc);
  }

  /** Elements before a gap stay where they are, elements behind it are one place further. */
  lemma GapElements(s: seq<byte>, t: seq<byte>, n: nat, pos: nat, enc: int)
    requires IsEncoding(enc) && pos <= n && |s| == Offset(n, enc) && |t| == Offset(n + 1, enc)
    requires forall b :: 0 <= b < Offset(pos, enc) ==> t[b] == s[b]
    requires forall b :: Offset(pos + 1, enc) <= b < |t| ==> t[b] == s[b - enc]
    ensures forall k :: 0 <= k < pos ==> GetEncoded(t, k, enc) == GetEncoded(s, k, enc)
    ensures forall k :: pos < k <= n ==> GetEncoded(t, k, enc) == GetEncoded(s, k - 1, enc)
  {
    hide GetEncoded;
    forall k | 0 <= k < pos ensures GetEncoded(t, k, enc) == GetEncoded(s, k, enc) {
      ElementBefore(s, t, pos, enc, k);
    }
    forall k | pos < k <= n ensures GetEncoded(t, k, enc) == GetEncoded(s, k - 1, enc) {
      ElementBehind(s, t, n, pos, enc, k);
    }
  }

  /** A gap that is closed: the same the other way round. */
  lemma ClosedGap(s: seq<byte>, t: seq<byte>, n: nat, pos: nat, enc: int)
    requires IsEncoding(enc) && pos < n && |s| == Offset(n, enc) && |t| == Offset(n - 1, enc)
    requires forall b :: 0 <= b < Offset(pos, enc) ==> t[b] == s[b]
    requires forall b :: Offset(pos, enc) <= b < |t| ==> t[b] == s[b + enc]
    ensures forall k :: 0 <= k < pos ==> GetEncoded(t, k, enc) == GetEncoded(s, k, enc)
    ensures forall k :: pos <= k < n - 1 ==> GetEncoded(t, k, enc) == GetEncoded(s, k + 1, enc)
  {
    hide GetEncoded;
    forall k | 0 <= k < pos ensures GetEncoded(t, k, enc) == GetEncoded(s, k, enc) {
      ElementBefore(s, t, pos, enc, k);
    }
    forall k | pos <= k < n - 1 ensures GetEncoded(t, k, enc) == GetEncoded(s, k + 1, enc) {
      ElementBehind(t, s, n - 1, pos, enc, k + 1);
    }
  }

  /** A value too wide for the encoding lies outside the range of everything stored in it. */
  lemma WideValueIsExtreme(value: int, enc: int, x: int)
    requires IsEncoding(enc) && ValueEncoding(value) > enc && Fits(x, enc)
    ensures if value < 0 then value < x else x < value
  {
    Pow256Values();
  }

  lemma InsertKeepsOrder(e: seq<int>, pos: nat, value: int)
    requires Increasing(e) && pos <= |e|
    requires (forall k :: 0 <= k < pos ==> e[k] < value) && (forall k :: pos <= k < |e| ==> value < e[k])
    ensures Increasing(Inserted(e, pos, value))
    ensures AsSet(Inserted(e, pos, value)) == AsSet(e) + {value} && value !in AsSet(e)
  {
    var f := Inserted(e, pos, value);
    forall x ensures x in AsSet(f) <==> x in AsSet(e) + {value} {
      if x in e {
        var k :| 0 <= k < |e| && e[k] == x;
        assert f[if k < pos then k else k + 1] == x;
      }
      assert f[pos] == value;
    }
  }

  lemma RemoveKeepsOrder(e: seq<int>, pos: nat)
    requires Increasing(e) && pos < |e|
    ensures Increasing(Removed(e, pos))
    ensures AsSet(Removed(e, pos)) == AsSet(e) - {e[pos]}
  {
    var f := Removed(e, pos);
    forall x ensures x in AsSet(f) <==> x in AsSet(e) - {e[pos]} {
      if x in e && x != e[pos] {
        var k :| 0 <= k < |e| && e[k] == x;
        assert f[if k < pos then k else k - 1] == x;
      }
      if x in f {
        var k :| 0 <= k < |f| && f[k] == x;
        assert x == e[if k < pos then k else k + 1];
      }
    }
  }

  /** A sequence that agrees with the buffer at every position is what the buffer holds. */
  lemma ElementsAre(s: seq<byte>, enc: int, e: seq<int>)
    requires IsEncoding(enc) && Offset(|e|, enc) <= |s|
    requires forall k :: 0 <= k < |e| ==> GetEncoded(s, k, enc) == e[k]
    ensures Elements(s, |e|, enc) == e
  {
  }

  /** The sums min + max that a search for `value` computes, in order. */
  function Probes(e: seq<int>, value: int, min: int, max: int): seq<int>
    requires 0 <= min && max < |e|
    decreases max - min
  {
    if max < min then [] else
      var mid := (min + max) / 2;
      [min + max] + (if value > e[mid] then Probes(e, value, mid + 1, max)
                     else if value < e[mid] then Probes(e, value, min, mid - 1)
                     else [])
  }

  lemma {:induction false} ProbesBound(e: seq<int>, value: int, min: int, max: int)
    requires 0 <= min && max < |e|
    ensures forall s :: s in Probes(e, value, min, max) ==> s <= 2 * (|e| - 1)
    decreases max - min
  {
    if min <= max {
      var mid := (min + max) / 2;
      if value > e[mid] {
        ProbesBound(e, value, mid + 1, max);
      } else if value < e[mid] {
        ProbesBound(e, value, min, mid - 1);
      }
    }
  }

  lemma {:induction false} ProbesForLast(e: seq<int>, min: int)
    requires Increasing(e) && 0 <= min < |e|
    ensures 2 * (|e| - 1) in Probes(e, e[|e| - 1], min, |e| - 1)
    decreases |e| - min
  {
    var mid := (min + (|e| - 1)) / 2;
    if min < |e| - 1 {
      ProbesForLast(e, mid + 1);
    }
  }

  /** No sum of a search for `value` overflows a 32-bit int. */
  ghost predicate SumsFit(e: seq<int>, value: int)
    requires e != []
  {
    forall s :: s in AllProbes(e, value) ==> s <= 0x7FFF_FFFF
  }

  function AllProbes(e: seq<int>, value: int): seq<int>
    requires e != []
  {
    Probes(e, value, 0, |e| - 1)
  }

  /** Binary search stays inside a 32-bit int for every value exactly when there are at most 2^30 elements. */
  lemma SearchSumsFit(e: seq<int>)
    requires Increasing(e) && e != []
    ensures (forall v :: SumsFit(e, v)) <==> |e| <= 0x4000_0000
  {
    if |e| <= 0x4000_0000 {
      forall v ensures SumsFit(e, v) {
        ProbesBound(e, v, 0, |e| - 1);
      }
    } else {
      ProbesForLast(e, 0);
      assert 2 * (|e| - 1) in AllProbes(e, e[|e| - 1]);
      assert !SumsFit(e, e[|e| - 1]);
    }
  }

  /** The integer set object. The C code's one allocation is an object here; realloc replaces `contents`. */
  class IntSet {
    var encoding: int
    var length: nat
    var contents: array<byte>

    ghost predicate Shaped()
      reads this, contents
    {
      IsEncoding(encoding) && contents.Length == Offset(length, encoding)
    }

    ghost function Elems(): (e: seq<int>)
      requires Shaped()
      reads this, contents
      ensures |e| == length
    {
      Elements(contents[..], length, encoding)
    }

    /** Strictly increasing; that every element fits the encoding is implied by how it is stored. */
    ghost predicate Valid()
      reads this, contents
    {
      Shaped() && Increasing(Elems())
    }

    /** A set as the C code can store it: the size of the buffer fits a uint32_t. */
    ghost predicate Stored()
      reads this, contents
    {
      Valid() && contents.Length < 0x1_0000_0000
    }

    /** No search on a stored set overflows an int when it adds its two bounds, whatever value it looks for. */
    lemma EverySumFits()
      requires Stored() && length > 0
      ensures forall v :: SumsFit(Elems(), v)
    {
      hide SumsFit, Elements;
      StorableIsShort(contents[..], length, encoding);
      SearchSumsFit(Elems());
    }

    constructor ()
      ensures Stored() && fresh(contents) && Elems() == [] && encoding == 2
    {
      encoding := 2;
      length := 0;
      contents := new byte[0];
    }

    function Get(pos: nat): (v: int)
      requires Shaped() && pos < length
      reads this, contents
      ensures v == Elems()[pos]
    {
      GetEncoded(contents[..], pos, encoding)
    }

    /** Writes the bytes of one element and nothing else. */
    method Set(pos: nat, v: int)
      requires IsEncoding(encoding) && Offset(pos, encoding) + encoding <= contents.Length && Fits(v, encoding)
      modifies contents
      ensures contents[Offset(pos, encoding)..Offset(pos, encoding) + encoding] == Encode(v, encoding)
      ensures GetEncoded(contents[..], pos, encoding) == v
      ensures forall b ::
        0 <= b < contents.Length && !(Offset(pos, encoding) <= b < Offset(pos, encoding) + encoding) ==>
                            contents[b] == old(contents[b])
    {
      var o := Offset(pos, encoding);
      var bytes := Encode(v, encoding);
      forall b | 0 <= b < encoding {
        contents[o + b] := bytes[b];
      }
      assert contents[o..o + encoding] == bytes;
      assert contents[..][o..o + encoding] == contents[o..o + encoding];
      SignedRoundTrip(v, encoding);
    }

    /** realloc to `len` elements: a new buffer with the same leading bytes; what follows is arbitrary. */
    method Resize(len: nat)
      requires IsEncoding(encoding)
      modifies this`contents
      ensures fresh(contents) && contents.Length == Offset(len, encoding)
      ensures forall b :: 0 <= b < contents.Length && b < old(contents.Length) ==> contents[b] == old(contents[b])
    {
      var bigger := new byte[Offset(len, encoding)];
      forall b | 0 <= b < bigger.Length && b < contents.Length {
        bigger[b] := contents[b];
      }
      contents := bigger;
    }

    /** Binary search; min + max stays inside a C int because the buffer's size does. */
    method Search(value: int) returns (found: bool, pos: nat)
      requires Stored()
      ensures pos <= length && (found <==> value in Elems())
      ensures found ==> pos < length && Elems()[pos] == value
      ensures !found ==> (forall k :: 0 <= k < pos ==> Elems()[k] < value) &&
                         (forall k :: pos <= k < length ==> value < Elems()[k])
    {
      hide Elements, GetEncoded, Offset, IntSet.Get;
      StorableIsShort(contents[..], length, encoding);
      ghost var e := Elems();
      var min, max, mid, cur := 0, length as int - 1, -1, -1;
      if length == 0 {
        return false, 0;
      } else {
        var last := Get(length - 1);
        var first := Get(0);
        if value > last { return false, length; }
        else if value < first { return false, 0; }
      }
      while max >= min
        invariant 0 <= min <= max + 1 <= length && min + max <= 0x7FFF_FFFF
        invariant forall k :: 0 <= k < min ==> e[k] < value
        invariant forall k :: max < k < length ==> value < e[k]
        invariant if mid == -1 then min == 0 && max == length - 1
                  else cur == value ==> 0 <= mid < length && e[mid] == value
        decreases max - min
      {
        mid := (min + max) / 2;
        cur := Get(mid);
        if value > cur { min := mid + 1; }
        else if value < cur { max := mid - 1; }
        else { break; }
      }
      if value == cur { return true, mid; }
      return false, min;
    }

    /** The widening loop of intsetUpgradeAndAdd, back to front: no element is overwritten before it is moved. */
    method WidenInPlace(curenc: int, prepend: int, ghost e: seq<int>)
      requires IsEncoding(encoding) && IsEncoding(curenc) && curenc < encoding && (prepend == 0 || prepend == 1)
      requires |e| == length && contents.Length == Offset(length + 1, encoding)
      requires forall k :: 0 <= k < length ==> GetEncoded(contents[..], k, curenc) == e[k]
      modifies contents
      ensures forall k :: 0 <= k < length ==> GetEncoded(contents[..], k + prepend, encoding) == e[k]
    {
      hide GetEncoded, Encode, Fits;
      var left: int := length;
      while left > 0
        invariant 0 <= left <= length
        invariant forall k :: 0 <= k < left ==> GetEncoded(contents[..], k, curenc) == e[k]
        invariant forall k :: left <= k < length ==> GetEncoded(contents[..], k + prepend, encoding) == e[k]
      {
        left := left - 1;
        var v := GetEncoded(contents[..], left, curenc);
        ElementFits(contents[..], left, curenc, encoding);
        ghost var s := contents[..];
        Set(left + prepend, v);
        forall k | 0 <= k < left ensures GetEncoded(contents[..], k, curenc) == e[k] {
          SameBytes(s, k, contents[..], k, curenc);
        }
        forall k | left < k < length ensures GetEncoded(contents[..], k + prepend, encoding) == e[k] {
          SameBytes(s, k + prepend, contents[..], k + prepend, encoding);
        }
      }
    }

    /** The new encoding, the reallocation and the widening loop; position 0 or `length` is left free. */
    method Upgrade(newenc: int, prepend: int)
      requires Valid() && IsEncoding(newenc) && newenc > encoding && (prepend == 0 || prepend == 1)
      modifies this, contents
      ensures fresh(contents) && encoding == newenc && length == old(length)
      ensures contents.Length == Offset(length + 1, encoding)
      ensures forall k :: 0 <= k < length ==> GetEncoded(contents[..], k + prepend, encoding) == old(Elems())[k]
    {
      hide GetEncoded;
      ghost var e, s := Elems(), contents[..];
      var curenc := encoding;
      encoding := newenc;
      Resize(length + 1);
      forall k | 0 <= k < length ensures GetEncoded(contents[..], k, curenc) == e[k] {
        SameBytes(s, k, contents[..], k, curenc);
      }
      WidenInPlace(curenc, prepend, e);
    }

    /** Upgrades the encoding for a value that does not fit it; the value goes to the front or to the back. */
    method UpgradeAndAdd(value: int)
      requires Valid() && Fits(value, 8) && ValueEncoding(value) > encoding
      modifies this, contents
      ensures Shaped() && fresh(contents) && encoding == ValueEncoding(value)
      ensures Elems() == Inserted(old(Elems()), if value < 0 then 0 else old(length), value)
    {
      hide GetEncoded, ValueEncoding, Fits, Elements, Encode, Increasing;
      ghost var e := Elems();
      var prepend := if value < 0 then 1 else 0;
      var newenc := ValueEncoding(value);
      ValueEncodingIsLeast(value, newenc);
      Upgrade(newenc, prepend);
      ghost var t, f := contents[..], Inserted(e, if value < 0 then 0 else length, value);
      var pos := if prepend == 1 then 0 else length;
      Set(pos, value);
      forall k | 0 <= k < length + 1 ensures GetEncoded(contents[..], k, newenc) == f[k] {
        if k != pos {
          SameBytes(t, k, contents[..], k, newenc);
          assert GetEncoded(t, (k - prepend) + prepend, newenc) == e[k - prepend];
        }
      }
      ElementsAre(contents[..], newenc, f);
      length := length + 1;
    }

    lemma ExtremeForAll(value: int)
      requires Shaped() && ValueEncoding(value) > encoding
      ensures forall k :: 0 <= k < length ==> if value < 0 then value < Elems()[k] else Elems()[k] < value
    {
      forall k | 0 <= k < length ensures if value < 0 then value < Elems()[k] else Elems()[k] < value {
        ElementFits(contents[..], k, encoding, encoding);
        WideValueIsExtreme(value, encoding, Elems()[k]);
      }
    }

    /** memmove of the elements from..length to position `to`. */
    method MoveTail(from: nat, to: nat)
      requires IsEncoding(encoding) && from <= length && Offset(length, encoding) <= contents.Length
      requires Offset(to + (length - from), encoding) <= contents.Length
      modifies contents
      ensures forall b :: Offset(to, encoding) <= b < Offset(to + (length - from), encoding) ==>
                            contents[b] == old(contents[b - Offset(to, encoding) + Offset(from, encoding)])
      ensures forall b ::
        0 <= b < contents.Length && !(Offset(to, encoding) <= b < Offset(to + (length - from), encoding)) ==>
                            contents[b] == old(contents[b])
    {
      var src, dst := Offset(from, encoding), Offset(to, encoding);
      var bytes := Offset(length - from, encoding);
      assert src + bytes == Offset(length, encoding) && dst + bytes == Offset(to + (length - from), encoding);
      forall k | 0 <= k < bytes {
        contents[dst + k] := contents[src + k];
      }
      forall b | dst <= b < dst + bytes ensures contents[b] == old(contents[b - dst + src]) {
        var k := b - dst;
        assert contents[dst + k] == old(contents[src + k]);
      }
    }

    /** Reallocation and memmove, byte by byte. */
    method OpenGap(pos: nat)
      requires Shaped() && pos <= length
      modifies this`contents
      ensures fresh(contents) && contents.Length == Offset(length + 1, encoding)
      ensures forall b :: 0 <= b < Offset(pos, encoding) ==> contents[b] == old(contents[b])
      ensures forall b :: Offset(pos + 1, encoding) <= b < contents.Length ==>
        contents[b] == old(contents[b - encoding])
    {
      Resize(length + 1);
      if pos < length { MoveTail(pos, pos + 1); }
    }

    /** Opens a gap at `pos` and stores the value there. */
    method InsertAt(pos: nat, value: int)
      requires Shaped() && pos <= length && Fits(value, encoding)
      modifies this, contents
      ensures Shaped() && fresh(contents) && encoding == old(encoding)
      ensures Elems() == Inserted(old(Elems()), pos, value)
    {
      hide GetEncoded, Fits, Encode, Elements;
      ghost var enc, s, f := encoding, contents[..], Inserted(Elems(), pos, value);
      OpenGap(pos);
      ghost var t := contents[..];
      GapElements(s, t, length, pos, enc);
      Set(pos, value);
      forall k | 0 <= k < length + 1 ensures GetEncoded(contents[..], k, enc) == f[k] {
        if k != pos {
          SameBytes(t, k, contents[..], k, enc);
        }
      }
      ElementsAre(contents[..], enc, f);
      length := length + 1;
    }

    /** Overwrites the element at `pos` with the tail behind it and shrinks the buffer. */
    method RemoveAt(pos: nat)
      requires Shaped() && pos < length
      modifies this, contents
      ensures Shaped() && fresh(contents) && encoding == old(encoding)
      ensures Elems() == Removed(old(Elems()), pos)
    {
      hide GetEncoded, Elements;
      ghost var e, s, enc := Elems(), contents[..], encoding;
      ghost var f := Removed(e, pos);
      if pos < length - 1 { MoveTail(pos + 1, pos); }
      Resize(length - 1);
      ClosedGap(s, contents[..], length, pos, enc);
      ElementsAre(contents[..], enc, f);
      length := length - 1;
    }

    /** Adds a 64-bit value; success is false exactly when it was there already. A value that is new must leave the size
        of the buffer within 32 bits. */
    method Add(value: int) returns (success: bool)
      requires Stored() && Fits(value, 8)
      requires value !in Elems() ==> Offset(length + 1, Wider(encoding, ValueEncoding(value))) < 0x1_0000_0000
      modifies this, contents
      ensures Stored() && encoding == Wider(old(encoding), ValueEncoding(value))
      ensures success <==> value !in old(Elems())
      ensures AsSet(Elems()) == old(AsSet(Elems())) + {value} && length == old(length) + (if success then 1 else 0)
      ensures contents == old(contents) || fresh(contents)
    {
      hide GetEncoded, Elements, Fits, ValueEncoding, Inserted, Removed;
      ghost var e := Elems();
      var valenc := ValueEncoding(value);
      success := true;
      TooWideIsAbsent(value);
      if valenc > encoding {
        ExtremeForAll(value);
        InsertKeepsOrder(e, if value < 0 then 0 else |e|, value);
        UpgradeAndAdd(value);
        return;
      }
      var found, pos := Search(value);
      if found {
        assert AsSet(e) == AsSet(e) + {value};
        return false;
      }
      InsertKeepsOrder(e, pos, value);
      ValueEncodingIsLeast(value, encoding);
      InsertAt(pos, value);
    }

    /** Removes a value; success is true exactly when it was there. The encoding never narrows. */
    method Remove(value: int) returns (success: bool)
      requires Stored() && Fits(value, 8)
      modifies this, contents
      ensures Stored() && encoding == old(encoding)
      ensures success <==> value in old(Elems())
      ensures AsSet(Elems()) == old(AsSet(Elems())) - {value} && length == old(length) - (if success then 1 else 0)
      ensures contents == old(contents) || fresh(contents)
    {
      hide GetEncoded, Elements, Fits, ValueEncoding, Inserted, Removed;
      ghost var e := Elems();
      var valenc := ValueEncoding(value);
      success := false;
      TooWideIsAbsent(value);
      if valenc <= encoding {
        var found, pos := Search(value);
        if found {
          success := true;
          RemoveKeepsOrder(e, pos);
          RemoveAt(pos);
        }
      }
      assert value !in e ==> AsSet(e) == AsSet(e) - {value};
    }

    lemma TooWideIsAbsent(value: int)
      requires Shaped() && Fits(value, 8)
      ensures ValueEncoding(value) > encoding ==> value !in Elems()
    {
      if ValueEncoding(value) > encoding {
        ExtremeForAll(value);
      }
    }

    /** Membership; a value too wide for the encoding is answered without a search. */
    method Find(value: int) returns (found: bool)
      requires Stored() && Fits(value, 8)
      ensures found <==> value in Elems()
    {
      hide GetEncoded, Elements, Fits, ValueEncoding, Inserted, Removed;
      TooWideIsAbsent(value);
      found := false;
      if ValueEncoding(value) <= encoding {
        var pos;
        found, pos := Search(value);
      }
    }
  }

  datatype Op = AddOp(v: int) | RemoveOp(v: int) | FindOp(v: int)

  /** The mathematical set, and the width of the elements, which never narrows. */
  datatype Model = Model(members: set<int>, encoding: int)

  function Applied(m: Model, op: Op): Model {
    match op
    case AddOp(v) => Model(m.members + {v}, Wider(m.encoding, ValueEncoding(v)))
    case RemoveOp(v) => m.(members := m.members - {v})
    case FindOp(_) => m
  }

  /** Whether an addition or removal changes the set, and whether a lookup finds its value. */
  function Answer(m: Model, op: Op): bool {
    match op
    case AddOp(v) => v !in m.members
    case RemoveOp(v) => v in m.members
    case FindOp(v) => v in m.members
  }

  function After(m: Model, ops: seq<Op>): Model
    decreases |ops|
  {
    if ops == [] then m else After(Applied(m, ops[0]), ops[1..])
  }

  function Answers(m: Model, ops: seq<Op>): (r: seq<bool>)
    ensures |r| == |ops|
    decreases |ops|
  {
    if ops == [] then [] else [Answer(m, ops[0])] + Answers(Applied(m, ops[0]), ops[1..])
  }

  /** Every addition of a new value leaves a buffer whose size fits 32 bits. */
  ghost predicate Fitting(m: Model, op: Op) {
    op.AddOp? && op.v !in m.members ==>
      var enc := Wider(m.encoding, ValueEncoding(op.v));
      IsEncoding(enc) && Offset(|m.members| + 1, enc) < 0x1_0000_0000
  }

  ghost predicate StaysSmall(m: Model, ops: seq<Op>)
    decreases |ops|
  {
    ops == [] || (Fitting(m, ops[0]) && StaysSmall(Applied(m, ops[0]), ops[1..]))
  }

  ghost function ModelOf(ints: IntSet): Model
    requires ints.Shaped()
    reads ints, ints.contents
  {
    Model(AsSet(ints.Elems()), ints.encoding)
  }

  method Perform(ints: IntSet, op: Op) returns (answer: bool)
    requires ints.Stored() && Fits(op.v, 8) && Fitting(ModelOf(ints), op)
    modifies ints, ints.contents
    ensures ints.Stored() && (ints.contents == old(ints.contents) || fresh(ints.contents))
    ensures ModelOf(ints) == Applied(old(ModelOf(ints)), op) && answer == Answer(old(ModelOf(ints)), op)
  {
    hide Fits, GetEncoded, Elements, Increasing, ValueEncoding, Offset;
    AsSetSize(ints.Elems());
    match op {
      case AddOp(v) => answer := ints.Add(v);
      case RemoveOp(v) => answer := ints.Remove(v);
      case FindOp(v) => answer := ints.Find(v);
    }
  }

  /** Any run of operations gives the answers of the mathematical set, and the stored array ends up as its increasing
      enumeration, as long as the buffer can be stored. */
  method Run(ints: IntSet, ops: seq<Op>) returns (answers: seq<bool>)
    requires ints.Stored() && StaysSmall(ModelOf(ints), ops) && forall o :: o in ops ==> Fits(o.v, 8)
    modifies ints, ints.contents
    ensures ints.Stored() && ModelOf(ints) == After(old(ModelOf(ints)), ops)
    ensures answers == Answers(old(ModelOf(ints)), ops)
  {
    hide Fits, Fitting, Applied, Answer, ModelOf, Increasing, Elements, Offset;
    ghost var m := ModelOf(ints);
    answers := [];
    var i := 0;
    assert ops[0..] == ops;
    while i < |ops|
      invariant 0 <= i <= |ops| && ints.Stored() && (ints.contents == old(ints.contents) || fresh(ints.contents))
      invariant StaysSmall(ModelOf(ints), ops[i..]) && After(ModelOf(ints), ops[i..]) == After(m, ops)
      invariant answers + Answers(ModelOf(ints), ops[i..]) == Answers(m, ops)
    {
      assert ops[i..][1..] == ops[i + 1..];
      ghost var now := ModelOf(ints);
      var answer := Perform(ints, ops[i]);
      assert answers + ([answer] + Answers(ModelOf(ints), ops[i + 1..])) ==
        answers + [answer] + Answers(ModelOf(ints), ops[i + 1..]);
      answers := answers + [answer];
      i := i + 1;
    }
    assert answers + [] == answers;
  }
}
