/** The escaped list format of every key and message in the store. */
module ListCodec {

  // ----- Python's string operations -----

  /** s.replace(c, t) for a single character c. */
  function ReplaceChar(s: string, c: char, t: string): string {
    if s == [] then [] else (if s[0] == c then t else [s[0]]) + ReplaceChar(s[1..], c, t)
  }

  /** s.replace([a, b], [c]): from left to right, without overlaps. */
  function ReplacePair(s: string, a: char, b: char, c: char): string {
    if s == [] then []
    else if |s| >= 2 && s[0] == a && s[1] == b then [c] + ReplacePair(s[2..], a, b, c)
    else [s[0]] + ReplacePair(s[1..], a, b, c)
  }

  function IndexOf(s: string, c: char): (i: nat)
    ensures i <= |s| && (forall k :: 0 <= k < i ==> s[k] != c) && (i < |s| ==> s[i] == c)
  {
    if s == [] || s[0] == c then 0
    else
      var i := IndexOf(s[1..], c);
      assert forall k :: 0 < k < i + 1 ==> s[k] == s[1..][k - 1];
      i + 1
  }

  /** s.split(c) */
  function Split(s: string, c: char): (r: seq<string>)
    ensures r != []
    decreases |s|
  {
    var i := IndexOf(s, c);
    if i == |s| then [s] else [s[..i]] + Split(s[i + 1..], c)
  }

  /** c.join(fields) */
  function Join(fields: seq<string>, c: char): string {
    if fields == [] then []
    else if |fields| == 1 then fields[0]
    else fields[0] + [c] + Join(fields[1..], c)
  }

  // ----- The codec -----

  function EncodeField(x: string): string {
    ReplaceChar(ReplaceChar(ReplaceChar(x, '\\', "\\\\"), '\n', "\\n"), '|', "\\:")
  }

  function DecodeField(x: string): string {
    ReplacePair(ReplacePair(ReplacePair(x, '\\', ':', '|'), '\\', 'n', '\n'), '\\', '\\', '\\')
  }

  function EncodeFields(fields: seq<string>): (r: seq<string>)
    ensures |r| == |fields|
  {
    seq(|fields|, k requires 0 <= k < |fields| => EncodeField(fields[k]))
  }

  function DecodeFields(fields: seq<string>): (r: seq<string>)
    ensures |r| == |fields|
  {
    seq(|fields|, k requires 0 <= k < |fields| => DecodeField(fields[k]))
  }

  function EncodeList(fields: seq<string>): string {
    Join(EncodeFields(fields) + [""], '|')
  }

  function DecodeList(text: string): seq<string> {
    var fields := DecodeFields(Split(text, '|'));
    fields[..|fields| - 1]
  }

  // ----- What one pass of escaping does -----

  /** The code of one character. */
  function Code(c: char): (s: string)
    ensures 1 <= |s| <= 2 && forall k :: 0 <= k < |s| ==> s[k] != '|' && s[k] != '\n'
  {
    if c == '\\' then "\\\\" else if c == '\n' then "\\n" else if c == '|' then "\\:" else [c]
  }

  function Codes(x: string): string {
    if x == [] then [] else Code(x[0]) + Codes(x[1..])
  }

  lemma {:induction false} ReplaceAppend(s: string, t: string, c: char, r: string)
    ensures ReplaceChar(s + t, c, r) == ReplaceChar(s, c, r) + ReplaceChar(t, c, r)
    decreases |s|
  {
    if s == [] {
      assert s + t == t;
    } else {
      assert (s + t)[1..] == s[1..] + t;
      ReplaceAppend(s[1..], t, c, r);
    }
  }

  lemma ReplaceOne(x: char, c: char, r: string)
    ensures ReplaceChar([x], c, r) == if x == c then r else [x]
  {
    assert [x][1..] == [];
  }

  lemma ReplaceTwo(x: char, y: char, c: char, r: string)
    requires x != c && y != c
    ensures ReplaceChar([x, y], c, r) == [x, y]
  {
    assert [x, y] == [x] + [y];
    ReplaceAppend([x], [y], c, r);
    ReplaceOne(x, c, r);
    ReplaceOne(y, c, r);
  }

  lemma EncodeChar(c: char)
    ensures EncodeField([c]) == Code(c)
  {
    hide ReplaceChar;
    ReplaceOne(c, '\\', "\\\\");
    ReplaceOne(c, '\n', "\\n");
    ReplaceOne(c, '|', "\\:");
    ReplaceTwo('\\', '\\', '\n', "\\n");
    ReplaceTwo('\\', '\\', '|', "\\:");
    ReplaceTwo('\\', 'n', '|', "\\:");
  }

  lemma EncodeAppend(s: string, t: string)
    ensures EncodeField(s + t) == EncodeField(s) + EncodeField(t)
  {
    hide ReplaceChar;
    ReplaceAppend(s, t, '\\', "\\\\");
    var s1, t1 := ReplaceChar(s, '\\', "\\\\"), ReplaceChar(t, '\\', "\\\\");
    ReplaceAppend(s1, t1, '\n', "\\n");
    ReplaceAppend(ReplaceChar(s1, '\n', "\\n"), ReplaceChar(t1, '\n', "\\n"), '|', "\\:");
  }

  /** The three replacements in a row escape each character on its own. */
  lemma {:induction false} EncodeIsCodes(x: string)
    ensures EncodeField(x) == Codes(x)
    decreases |x|
  {
    hide EncodeField, Code;
    if x == [] {
      EncodeNothing();
    } else {
      assert x == [x[0]] + x[1..];
      EncodeAppend([x[0]], x[1..]);
      EncodeChar(x[0]);
      EncodeIsCodes(x[1..]);
    }
  }

  lemma EncodeNothing()
    ensures EncodeField([]) == []
  {
  }

  lemma {:induction false} CodesAreClean(x: string)
    ensures forall k :: 0 <= k < |Codes(x)| ==> Codes(x)[k] != '|'
    decreases |x|
  {
    hide Code;
    if x != [] {
      CodesAreClean(x[1..]);
    }
  }

  // ----- Different lists have different texts -----

  /** Reads codes from left to right, the way the decoder does not. */
  function Uncode(s: string): string {
    if s == [] then []
    else if |s| >= 2 && s[0] == '\\' then
      [if s[1] == 'n' then '\n' else if s[1] == ':' then '|' else s[1]] + Uncode(s[2..])
    else [s[0]] + Uncode(s[1..])
  }

  lemma {:induction false} UncodeCodes(x: string)
    ensures Uncode(Codes(x)) == x
    decreases |x|
  {
    if x != [] {
      var c, rest := Code(x[0]), Codes(x[1..]);
      UncodeCodes(x[1..]);
      assert (c + rest)[|c|..] == rest;
      assert [x[0]] + x[1..] == x;
    }
  }

  lemma {:induction false} SplitJoined(fields: seq<string>)
    requires forall i :: 0 <= i < |fields| ==> forall k :: 0 <= k < |fields[i]| ==> fields[i][k] != '|'
    ensures Split(Join(fields + [""], '|'), '|') == fields + [""]
    decreases |fields|
  {
    hide IndexOf;
    if fields == [] {
      assert fields + [""] == [""];
    } else {
      var rest := Join(fields[1..] + [""], '|');
      var all := fields + [""];
      assert all[1..] == fields[1..] + [""];
      var s := fields[0] + ['|'] + rest;
      assert Join(all, '|') == s;
      SplitJoined(fields[1..]);
      assert s[|fields[0]|] == '|';
      assert forall k :: 0 <= k < |fields[0]| ==> s[k] == fields[0][k];
      var i := IndexOf(s, '|');
      assert i == |fields[0]|;
      assert s[..i] == fields[0] && s[i + 1..] == rest;
      assert [fields[0]] + (fields[1..] + [""]) == all;
    }
  }

  /** The boundaries survive: splitting the text gives back the escaped fields, and one empty piece behind them. */
  lemma BoundariesSurvive(fields: seq<string>)
    ensures Split(EncodeList(fields), '|') == EncodeFields(fields) + [""]
  {
    hide EncodeField, Split, Join, Codes;
    forall i | 0 <= i < |fields|
      ensures forall k :: 0 <= k < |EncodeFields(fields)[i]| ==> EncodeFields(fields)[i][k] != '|'
    {
      EncodeIsCodes(fields[i]);
      CodesAreClean(fields[i]);
    }
    SplitJoined(EncodeFields(fields));
  }

  /** Different lists of fields never share a text, so different key tuples never share a key. */
  lemma EncodeListInjective(a: seq<string>, b: seq<string>)
    requires EncodeList(a) == EncodeList(b)
    ensures a == b
  {
    hide EncodeField, Split, EncodeList, Codes, Uncode;
    BoundariesSurvive(a);
    BoundariesSurvive(b);
    var x, y := EncodeFields(a), EncodeFields(b);
    assert x == (x + [""])[..|x|] && y == (y + [""])[..|y|];
    assert |x| == |x + [""]| - 1 == |y|;
    forall i | 0 <= i < |a| ensures a[i] == b[i] {
      assert x[i] == y[i];
      EncodeIsCodes(a[i]);
      EncodeIsCodes(b[i]);
      UncodeCodes(a[i]);
      UncodeCodes(b[i]);
    }
  }

  // ----- What decoding an encoded field gives -----

  /** Behind a backslash, 'n' comes back as a newline and ':' as '|'. */
  function Mangled(x: string): (r: string)
    ensures |r| == |x|
  {
    if x == [] then []
    else if |x| >= 2 && x[0] == '\\' && x[1] == 'n' then ['\\', '\n'] + Mangled(x[2..])
    else if |x| >= 2 && x[0] == '\\' && x[1] == ':' then ['\\', '|'] + Mangled(x[2..])
    else [x[0]] + Mangled(x[1..])
  }

  /** The text after the first replacement: codes of '|' are decoded, and a backslash before ':' has lost its double. */
  function AfterBar(x: string): string {
    if x == [] then []
    else if |x| >= 2 && x[0] == '\\' && x[1] == ':' then ['\\', '|'] + AfterBar(x[2..])
    else (if x[0] == '|' then ['|'] else Code(x[0])) + AfterBar(x[1..])
  }

  /** The text after the second replacement. */
  function AfterNewline(x: string): string {
    if x == [] then []
    else if |x| >= 2 && x[0] == '\\' && x[1] == ':' then ['\\', '|'] + AfterNewline(x[2..])
    else if |x| >= 2 && x[0] == '\\' && x[1] == 'n' then ['\\', '\n'] + AfterNewline(x[2..])
    else (if x[0] == '|' || x[0] == '\n' then [x[0]] else Code(x[0])) + AfterNewline(x[1..])
  }

  lemma PairHit(a: char, b: char, c: char, t: string)
    ensures ReplacePair([a, b] + t, a, b, c) == [c] + ReplacePair(t, a, b, c)
  {
    assert ([a, b] + t)[2..] == t;
  }

  lemma PairMiss(x: char, t: string, a: char, b: char, c: char)
    requires x != a || t == [] || t[0] != b
    ensures ReplacePair([x] + t, a, b, c) == [x] + ReplacePair(t, a, b, c)
  {
    assert ([x] + t)[1..] == t;
  }

  lemma PairMissTwo(x: char, y: char, t: string, a: char, b: char, c: char)
    requires (x != a || y != b) && (y != a || t == [] || t[0] != b)
    ensures ReplacePair([x, y] + t, a, b, c) == [x, y] + ReplacePair(t, a, b, c)
  {
    hide ReplacePair;
    assert [x, y] + t == [x] + ([y] + t);
    PairMiss(x, [y] + t, a, b, c);
    PairMiss(y, t, a, b, c);
    assert [x] + ([y] + ReplacePair(t, a, b, c)) == [x, y] + ReplacePair(t, a, b, c);
  }

  /** How codes begin. */
  lemma CodesFront(x: string)
    ensures Codes(x) == [] <==> x == []
    ensures x != [] && Codes(x)[0] == ':' ==> x[0] == ':'
    ensures x != [] && x[0] == ':' ==> Codes(x) == [':'] + Codes(x[1..])
  {
  }

  lemma {:induction false} BarStep(x: string)
    ensures ReplacePair(Codes(x), '\\', ':', '|') == AfterBar(x)
    decreases |x|
  {
    hide ReplacePair;
    if x == [] {
      PairNothing('\\', ':', '|');
    } else {
      var t := Codes(x[1..]);
      CodesFront(x[1..]);
      if |x| >= 2 && x[0] == '\\' && x[1] == ':' {
        var u := Codes(x[2..]);
        assert x[1..][1..] == x[2..];
        assert Codes(x) == ['\\'] + (['\\', ':'] + u);
        PairMiss('\\', ['\\', ':'] + u, '\\', ':', '|');
        PairHit('\\', ':', '|', u);
        BarStep(x[2..]);
        assert ['\\'] + (['|'] + AfterBar(x[2..])) == ['\\', '|'] + AfterBar(x[2..]);
      } else {
        BarStep(x[1..]);
        if x[0] == '|' {
          PairHit('\\', ':', '|', t);
        } else if x[0] == '\\' {
          PairMissTwo('\\', '\\', t, '\\', ':', '|');
        } else if x[0] == '\n' {
          PairMissTwo('\\', 'n', t, '\\', ':', '|');
        } else {
          PairMiss(x[0], t, '\\', ':', '|');
        }
      }
    }
  }

  lemma PairNothing(a: char, b: char, c: char)
    ensures ReplacePair([], a, b, c) == []
  {
  }

  lemma AfterBarFront(x: string)
    ensures AfterBar(x) == [] <==> x == []
    ensures x != [] && AfterBar(x)[0] == 'n' ==> x[0] == 'n'
    ensures x != [] && x[0] == 'n' ==> AfterBar(x) == ['n'] + AfterBar(x[1..])
  {
  }

  lemma TrapFronts(x: string)
    requires |x| >= 2 && x[0] == '\\' && x[1] == 'n'
    ensures AfterBar(x) == ['\\', '\\'] + AfterBar(x[1..]) && AfterBar(x[1..]) == ['n'] + AfterBar(x[2..])
    ensures AfterNewline(x) == ['\\', '\n'] + AfterNewline(x[2..])
  {
    AfterBarFront(x[1..]);
    assert x[1..][1..] == x[2..];
  }

  lemma NewlineTrap(x: string)
    requires |x| >= 2 && x[0] == '\\' && x[1] == 'n'
    requires ReplacePair(AfterBar(x[2..]), '\\', 'n', '\n') == AfterNewline(x[2..])
    ensures ReplacePair(AfterBar(x), '\\', 'n', '\n') == AfterNewline(x)
  {
    hide ReplacePair, AfterBar, AfterNewline;
    TrapFronts(x);
    var u, v := AfterBar(x[2..]), AfterNewline(x[2..]);
    assert ['\\', '\\'] + (['n'] + u) == ['\\'] + (['\\', 'n'] + u);
    PairMiss('\\', ['\\', 'n'] + u, '\\', 'n', '\n');
    PairHit('\\', 'n', '\n', u);
    assert ['\\'] + (['\n'] + v) == ['\\', '\n'] + v;
  }

  lemma {:induction false} NewlineStep(x: string)
    ensures ReplacePair(AfterBar(x), '\\', 'n', '\n') == AfterNewline(x)
    decreases |x|
  {
    hide ReplacePair;
    if x == [] {
      PairNothing('\\', 'n', '\n');
    } else if |x| >= 2 && x[0] == '\\' && x[1] == ':' {
      NewlineStep(x[2..]);
      PairMissTwo('\\', '|', AfterBar(x[2..]), '\\', 'n', '\n');
    } else {
      var t := AfterBar(x[1..]);
      AfterBarFront(x[1..]);
      if |x| >= 2 && x[0] == '\\' && x[1] == 'n' {
        NewlineStep(x[2..]);
        NewlineTrap(x);
      } else {
        NewlineStep(x[1..]);
        if x[0] == '\n' {
          PairHit('\\', 'n', '\n', t);
        } else if x[0] == '\\' {
          PairMissTwo('\\', '\\', t, '\\', 'n', '\n');
        } else {
          PairMiss(x[0], t, '\\', 'n', '\n');
        }
      }
    }
  }

  lemma {:induction false} BackslashStep(x: string)
    ensures ReplacePair(AfterNewline(x), '\\', '\\', '\\') == Mangled(x)
    decreases |x|
  {
    hide ReplacePair;
    if x == [] {
      PairNothing('\\', '\\', '\\');
    } else if |x| >= 2 && x[0] == '\\' && x[1] == ':' {
      BackslashStep(x[2..]);
      PairMissTwo('\\', '|', AfterNewline(x[2..]), '\\', '\\', '\\');
    } else if |x| >= 2 && x[0] == '\\' && x[1] == 'n' {
      BackslashStep(x[2..]);
      PairMissTwo('\\', '\n', AfterNewline(x[2..]), '\\', '\\', '\\');
    } else {
      BackslashStep(x[1..]);
      if x[0] == '\\' {
        PairHit('\\', '\\', '\\', AfterNewline(x[1..]));
      } else {
        PairMiss(x[0], AfterNewline(x[1..]), '\\', '\\', '\\');
      }
    }
  }

  /** Decoding an encoded field, for every field. */
  lemma DecodedField(x: string)
    ensures DecodeField(EncodeField(x)) == Mangled(x)
  {
    hide ReplacePair, EncodeField, Codes;
    EncodeIsCodes(x);
    BarStep(x);
    NewlineStep(x);
    BackslashStep(x);
  }

  /** A backslash stands right before an 'n' or a ':' at position k. */
  predicate Trap(x: string, k: nat) {
    0 < k < |x| && x[k - 1] == '\\' && (x[k] == 'n' || x[k] == ':')
  }

  predicate Harmless(x: string) {
    forall k: nat :: k < |x| ==> !Trap(x, k)
  }

  lemma {:induction false} MangledAt(x: string, k: nat)
    requires k < |x|
    ensures Mangled(x)[k] ==
      if k > 0 && x[k - 1] == '\\' && x[k] == 'n' then '\n'
      else if k > 0 && x[k - 1] == '\\' && x[k] == ':' then '|'
      else x[k]
    decreases |x|
  {
    var step := if |x| >= 2 && x[0] == '\\' && (x[1] == 'n' || x[1] == ':') then 2 else 1;
    if k >= step {
      MangledAt(x[step..], k - step);
      assert Mangled(x)[k] == Mangled(x[step..])[k - step];
    }
  }

  /** A field survives the round trip exactly if it is harmless. */
  lemma FieldSurvives(x: string)
    ensures DecodeField(EncodeField(x)) == x <==> Harmless(x)
  {
    hide DecodeField, EncodeField, Mangled;
    DecodedField(x);
    forall k | 0 <= k < |x|
      ensures Mangled(x)[k] == x[k] <==> !Trap(x, k)
    {
      MangledAt(x, k);
    }
    var m := Mangled(x);
    if Harmless(x) {
      assert forall k :: 0 <= k < |x| ==> !Trap(x, k);
    } else {
      var k: nat :| k < |x| && Trap(x, k);
      assert m[k] != x[k];
    }
  }

  /** The number of fields always survives, and each field comes back as its own mangled form. */
  lemma DecodedList(fields: seq<string>)
    ensures |DecodeList(EncodeList(fields))| == |fields|
    ensures forall i :: 0 <= i < |fields| ==> DecodeList(EncodeList(fields))[i] == Mangled(fields[i])
  {
    hide EncodeField, DecodeField, Split, EncodeList, Mangled;
    BoundariesSurvive(fields);
    var pieces := Split(EncodeList(fields), '|');
    forall i | 0 <= i < |fields| ensures DecodeList(EncodeList(fields))[i] == Mangled(fields[i]) {
      assert pieces[i] == EncodeField(fields[i]);
      DecodedField(fields[i]);
    }
  }

  /** decodeList is the inverse of encodeList exactly on the lists of harmless fields. */
  lemma ListSurvives(fields: seq<string>)
    ensures DecodeList(EncodeList(fields)) == fields <==> forall i :: 0 <= i < |fields| ==> Harmless(fields[i])
  {
    hide EncodeField, DecodeField, DecodeList, EncodeList, Mangled, Harmless;
    DecodedList(fields);
    forall i | 0 <= i < |fields| ensures Mangled(fields[i]) == fields[i] <==> Harmless(fields[i]) {
      FieldSurvives(fields[i]);
      DecodedField(fields[i]);
    }
  }
}
