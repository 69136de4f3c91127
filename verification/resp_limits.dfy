/** What the request parser accepts and refuses, exactly, and where it would leave its buffer. */
module RespLimits {
  import opened Bytes
  import opened Decimal
  import opened Resp

  // ----- Reading a number line -----

  predicate AllSpaces(s: seq<byte>) {
    forall k :: 0 <= k < |s| ==> IsSpace(s[k])
  }

  predicate AllDigits(s: seq<byte>) {
    forall k :: 0 <= k < |s| ==> IsDigit(s[k])
  }

  /** A CRLF starts at position k. */
  predicate LineEndAt(s: seq<byte>, k: nat) {
    k + 1 < |s| && s[k] == 13 && s[k + 1] == 10
  }

  ghost predicate HasLineEnd(s: seq<byte>) {
    exists k: nat :: LineEndAt(s, k)
  }

  /** The value of a run of digits, with its sign. */
  function SignedValue(sign: seq<byte>, digits: seq<byte>): int {
    var v := ReadDigits(digits, 0).value;
    if sign == [45] then -v else v
  }

  predicate IsSign(sign: seq<byte>) {
    sign == [] || sign == [43] || sign == [45]
  }

  lemma {:induction false} SpacesSkipped(s: seq<byte>) returns (w: seq<byte>)
    ensures s == w + SkipSpaces(s) && AllSpaces(w)
    ensures SkipSpaces(s) == [] || !IsSpace(SkipSpaces(s)[0])
    decreases |s|
  {
    hide IsSpace;
    w := [];
    if s != [] && IsSpace(s[0]) {
      var v := SpacesSkipped(s[1..]);
      w := [s[0]] + v;
    }
  }

  lemma {:induction false} SkipsSpaces(w: seq<byte>, t: seq<byte>)
    requires AllSpaces(w) && (t == [] || !IsSpace(t[0]))
    ensures SkipSpaces(w + t) == t
    decreases |w|
  {
    if w == [] {
      assert w + t == t;
    } else {
      assert (w + t)[0] == w[0] && (w + t)[1..] == w[1..] + t;
      SkipsSpaces(w[1..], t);
    }
  }

  lemma ConsDigits(x: byte, e: seq<byte>, acc: nat)
    requires IsDigit(x) && AllDigits(e)
    ensures AllDigits([x] + e) && ReadDigits([x] + e, acc) == ReadDigits(e, acc * 10 + (x as int - 48))
  {
    hide ReadDigits;
    ReadStep([x] + e, acc);
    assert ([x] + e)[1..] == e;
  }

  lemma {:induction false} DigitsTaken(s: seq<byte>, acc: nat) returns (d: seq<byte>)
    ensures var p := ReadDigits(s, acc);
      s == d + p.rest && AllDigits(d) && (p.rest == [] || !IsDigit(p.rest[0])) &&
        ReadDigits(d, acc) == Parsed(p.value, [])
    decreases |s|
  {
    hide ReadDigits, AllDigits;
    if s != [] && IsDigit(s[0]) {
      ReadStep(s, acc);
      d := DigitsTaken(s[1..], acc * 10 + (s[0] as int - 48));
      ConsDigits(s[0], d, acc);
      assert s == [s[0]] + s[1..];
      d := [s[0]] + d;
    } else {
      d := [];
      ReadNothing(s, acc);
      ReadNothing([], acc);
      NoDigits();
    }
  }

  lemma NoDigits()
    ensures AllDigits([])
  {
  }

  lemma {:induction false} TakesDigits(d: seq<byte>, t: seq<byte>, acc: nat)
    requires AllDigits(d) && (t == [] || !IsDigit(t[0]))
    ensures ReadDigits(d + t, acc) == Parsed(ReadDigits(d, acc).value, t)
    decreases |d|
  {
    hide ReadDigits;
    if d == [] {
      assert d + t == t;
      ReadNothing(t, acc);
      ReadNothing([], acc);
    } else {
      var next: nat := acc * 10 + (d[0] as int - 48);
      assert (d + t)[1..] == d[1..] + t;
      assert IsDigit(d[0]);
      ReadStep(d + t, acc);
      ReadStep(d, acc);
      TakesDigits(d[1..], t, next);
    }
  }

  lemma {:induction false} StrStrAt(s: seq<byte>)
    ensures var r := StrStr(s);
      r.Some? ==> LineEndAt(s, r.value) && forall k: nat :: k < r.value ==> !LineEndAt(s, k) && s[k] != 0
    decreases |s|
  {
    if |s| >= 2 && s[0] != 0 && !(s[0] == 13 && s[1] == 10) {
      StrStrAt(s[1..]);
      var r := StrStr(s);
      if r.Some? {
        forall k: nat | k < r.value ensures !LineEndAt(s, k) && s[k] != 0 {
          if k > 0 {
            assert LineEndAt(s, k) <==> LineEndAt(s[1..], k - 1);
            assert s[k] == s[1..][k - 1];
          }
        }
      }
    }
  }

  lemma {:induction false} StrStrSome(s: seq<byte>, k: nat)
    requires LineEndAt(s, k) && forall j :: 0 <= j < k ==> s[j] != 0
    ensures StrStr(s).Some?
    decreases |s|
  {
    if k > 0 && !(s[0] == 13 && s[1] == 10) {
      assert LineEndAt(s[1..], k - 1);
      StrStrSome(s[1..], k - 1);
    }
  }

  // ----- The language of argument lengths -----

  /** A dollar sign, white space, an optional sign, digits worth 0 to 512 MB, a carriage return, and what follows. */
  ghost predicate LengthInput(buf: seq<byte>, w: seq<byte>, sign: seq<byte>, d: seq<byte>, rest: seq<byte>) {
    && buf == [36] + w + sign + d + [13] + rest
    && AllSpaces(w) && IsSign(sign) && d != [] && AllDigits(d) && 0 <= SignedValue(sign, d) <= 512 * 1024 * 1024
  }

  function SignOf(t: seq<byte>): seq<byte> {
    if t != [] && (t[0] == 45 || t[0] == 43) then t[..1] else []
  }

  function AfterSign(t: seq<byte>): (u: seq<byte>)
    ensures t == SignOf(t) + u
  {
    if t != [] && (t[0] == 45 || t[0] == 43) then t[1..] else t
  }

  /** strtol in three parts: white space, sign, digits. */
  lemma StrtolParts(s: seq<byte>)
    ensures var t := SkipSpaces(s); var u := AfterSign(t); var p := ReadDigits(u, 0);
      Strtol(s) ==
        if u == [] || !IsDigit(u[0]) then Parsed(0, s)
        else Parsed(Clamp(if SignOf(t) == [45] then -p.value else p.value), p.rest)
  {
    hide ReadDigits, SkipSpaces, IsDigit, Clamp;
  }

  lemma SignSplit(sign: seq<byte>, u: seq<byte>)
    requires IsSign(sign) && u != [] && IsDigit(u[0])
    ensures SignOf(sign + u) == sign && AfterSign(sign + u) == u && !IsSpace((sign + u)[0])
  {
    if sign != [] {
      assert (sign + u)[0] == sign[0] && (sign + u)[1..] == u && (sign + u)[..1] == sign;
    } else {
      assert sign + u == u;
    }
  }

  /** What strtol makes of such a text. */
  lemma NumberRead(w: seq<byte>, sign: seq<byte>, d: seq<byte>, t: seq<byte>)
    requires AllSpaces(w) && IsSign(sign) && d != [] && AllDigits(d) && (t == [] || !IsDigit(t[0]))
    ensures Strtol(w + (sign + (d + t))) == Parsed(Clamp(SignedValue(sign, d)), t)
  {
    hide ReadDigits, Clamp, SkipSpaces, Strtol, SignOf, AfterSign;
    var u := d + t;
    assert u[0] == d[0] && IsDigit(d[0]);
    hide IsDigit, IsSpace, AllSpaces;
    SignSplit(sign, u);
    SkipsSpaces(w, sign + u);
    TakesDigits(d, t, 0);
    StrtolParts(w + (sign + u));
  }

  /** And conversely: a number that strtol reads, with something behind it that it did not, has this form. */
  lemma NumberForm(s: seq<byte>) returns (w: seq<byte>, sign: seq<byte>, d: seq<byte>)
    requires Strtol(s).rest != s
    ensures s == w + (sign + (d + Strtol(s).rest)) && AllSpaces(w) && IsSign(sign) && d != [] && AllDigits(d)
    ensures Strtol(s).value == Clamp(SignedValue(sign, d))
  {
    hide ReadDigits, Clamp, SkipSpaces, Strtol, IsDigit, IsSpace, AllSpaces, AllDigits, SignOf, AfterSign;
    StrtolParts(s);
    w := SpacesSkipped(s);
    var t := SkipSpaces(s);
    var u := AfterSign(t);
    sign := SignOf(t);
    SignIs(t);
    d := DigitsTaken(u, 0);
    DigitFirst(u, d);
  }

  lemma SignIs(t: seq<byte>)
    ensures IsSign(SignOf(t))
  {
  }

  lemma DigitFirst(u: seq<byte>, d: seq<byte>)
    requires u != [] && IsDigit(u[0]) && u == d + ReadDigits(u, 0).rest
    ensures d != []
  {
    ReadStep(u, 0);
  }

  lemma ClampInRange(v: int)
    ensures 0 <= Clamp(v) <= MAX_BULK <==> 0 <= v <= MAX_BULK
    ensures 0 <= v <= MAX_BULK ==> Clamp(v) == v
  {
  }

  lemma InputIs(buf: seq<byte>, w: seq<byte>, sign: seq<byte>, d: seq<byte>, rest: seq<byte>)
    requires buf == [36] + w + sign + d + [13] + rest
    ensures buf != [] && buf[0] == 36 && buf[1..] == w + (sign + (d + ([13] + rest)))
  {
    assert buf == [36] + (w + (sign + (d + ([13] + rest))));
  }

  /**
    * Where the length of an argument is due and a line end has arrived, the buffer is read as a length exactly if it
    * has this form. If anything follows the carriage return the length is accepted; if nothing does, the cursor passes
    * the end of the buffer. Everything else shuts the connection.
    */
  lemma LengthLanguage(s: State, w: seq<byte>, sign: seq<byte>, d: seq<byte>, rest: seq<byte>)
    requires s.bulklen == -1 && StrStr(s.buf).Some? && LengthInput(s.buf, w, sign, d, rest)
    ensures ParseBulkLen(s) ==
      if rest == [] then Step(Stray, s) else Step(Ready, s.(buf := rest[1..], bulklen := SignedValue(sign, d)))
  {
    hide StrStr, Strtol, Clamp, SignedValue;
    InputIs(s.buf, w, sign, d, rest);
    NumberRead(w, sign, d, [13] + rest);
    ClampInRange(SignedValue(sign, d));
    assert ([13] + rest)[0] == 13;
    if rest != [] {
      assert ([13] + rest)[2..] == rest[1..];
    }
  }

  /** White space, an optional sign, and then no digit; nothing of the white space and the sign is left in `rest`. */
  predicate NoNumberInput(buf: seq<byte>, w: seq<byte>, sign: seq<byte>, rest: seq<byte>) {
    && buf == [36] + w + sign + rest && w != [] && w[0] == 13 && AllSpaces(w) && IsSign(sign)
    && (rest != [] ==> !IsDigit(rest[0]) && (sign == [] ==> !IsSpace(rest[0]) && rest[0] != 43 && rest[0] != 45))
  }

  /** A carriage return right behind the dollar sign, and no number behind any white space: it is read as length 0. */
  ghost predicate NoNumber(buf: seq<byte>) {
    exists w, sign, rest :: NoNumberInput(buf, w, sign, rest)
  }

  /** strtol takes nothing of such a line. */
  predicate TakesNothing(buf: seq<byte>) {
    |buf| >= 2 && buf[0] == 36 && buf[1] == 13 && Strtol(buf[1..]).rest == buf[1..]
  }

  /** What strtol finds behind the white space. */
  function Unsigned(t: seq<byte>): seq<byte> {
    if t != [] && (t[0] == 45 || t[0] == 43) then t[1..] else t
  }

  lemma NothingTaken(s: seq<byte>)
    ensures var u := Unsigned(SkipSpaces(s)); Strtol(s).rest == s <==> u == [] || !IsDigit(u[0])
  {
    hide ReadDigits, SkipSpaces, Clamp;
    var u := Unsigned(SkipSpaces(s));
    if u != [] && IsDigit(u[0]) {
      var d := DigitsTaken(u, 0);
      DigitFirst(u, d);
      assert |ReadDigits(u, 0).rest| < |u| <= |s|;
    }
  }

  lemma NoNumberIs(buf: seq<byte>)
    ensures NoNumber(buf) <==> TakesNothing(buf)
  {
    hide Strtol, SkipSpaces, IsSpace, IsDigit;
    if TakesNothing(buf) {
      var line := buf[1..];
      NothingTaken(line);
      var w := SpacesSkipped(line);
      var t := SkipSpaces(line);
      var sign := if t != [] && (t[0] == 45 || t[0] == 43) then [t[0]] else [];
      FrontSpace(w, t, line);
      assert buf == [36] + line && t == sign + Unsigned(t);
      assert NoNumberInput(buf, w, sign, Unsigned(t));
    }
    forall w, sign, rest | NoNumberInput(buf, w, sign, rest) ensures TakesNothing(buf) {
      SignIsNoSpace(sign, rest);
      SkipsSpaces(w, sign + rest);
      assert buf[1..] == w + (sign + rest);
      assert sign != [] ==> (sign + rest)[1..] == rest;
      assert sign == [] ==> sign + rest == rest;
      NothingTaken(buf[1..]);
    }
  }

  lemma FrontSpace(w: seq<byte>, t: seq<byte>, line: seq<byte>)
    requires line == w + t && line != [] && line[0] == 13 && (t == [] || !IsSpace(t[0]))
    ensures w != [] && w[0] == 13
  {
    assert w == [] ==> line == t;
  }

  lemma SignIsNoSpace(sign: seq<byte>, rest: seq<byte>)
    requires IsSign(sign) && (sign == [] && rest != [] ==> !IsSpace(rest[0]))
    ensures sign + rest == [] || !IsSpace((sign + rest)[0])
  {
  }

  /** Conversely, a length that is accepted, or read past the end, was written in this form, or is no number. */
  lemma LengthForm(s: State) returns (w: seq<byte>, sign: seq<byte>, d: seq<byte>, rest: seq<byte>)
    requires s.bulklen == -1 && (ParseBulkLen(s).status.Ready? || ParseBulkLen(s).status.Stray?)
    ensures StrStr(s.buf).Some?
    ensures NoNumber(s.buf) || LengthInput(s.buf, w, sign, d, rest)
    ensures NoNumber(s.buf) ==> ParseBulkLen(s).status.Ready?
    ensures !NoNumber(s.buf) ==> (rest == [] <==> ParseBulkLen(s).status.Stray?)
  {
    hide StrStr, Strtol, Clamp, SignedValue, NoNumber;
    NoNumberIs(s.buf);
    var line := s.buf[1..];
    var p := Strtol(line);
    w, sign, d, rest := [], [], [], p.rest[1..];
    if p.rest == line {
      LongEnough(s.buf);
    } else {
      w, sign, d := NumberForm(line);
      ClampInRange(SignedValue(sign, d));
      assert p.rest == [13] + rest;
      assert s.buf == [36] + line;
      Regroup(w, sign, d, rest);
    }
  }

  lemma LongEnough(buf: seq<byte>)
    requires StrStr(buf).Some? && buf[0] == 36
    ensures |buf| >= 3
  {
    StrStrAt(buf);
  }

  lemma Regroup(w: seq<byte>, sign: seq<byte>, d: seq<byte>, rest: seq<byte>)
    ensures [36] + (w + (sign + (d + ([13] + rest)))) == [36] + w + sign + d + [13] + rest
  {
  }

  /** Which complete lines are accepted as the length of an argument, exactly. */
  lemma AcceptedExactlyIf(s: State)
    requires s.bulklen == -1 && StrStr(s.buf).Some?
    ensures ParseBulkLen(s).status.Ready? <==>
      NoNumber(s.buf) || exists w, sign, d, rest :: LengthInput(s.buf, w, sign, d, rest) && rest != []
    ensures !ParseBulkLen(s).status.Ready? && !ParseBulkLen(s).status.Stray? ==>
      ParseBulkLen(s) == Step(Malformed, s.(closing := true))
  {
    hide StrStr, Strtol, LengthInput, NoNumber;
    NoNumberIs(s.buf);
    if ParseBulkLen(s).status.Ready? {
      var w, sign, d, rest := LengthForm(s);
    }
    forall w, sign, d, rest | LengthInput(s.buf, w, sign, d, rest) && rest != [] ensures ParseBulkLen(s).status.Ready? {
      LengthLanguage(s, w, sign, d, rest);
    }
    if NoNumber(s.buf) {
      LongEnough(s.buf);
      ReadAsZero(s);
    }
  }

  lemma ReadAsZero(s: State)
    requires s.bulklen == -1 && StrStr(s.buf).Some? && TakesNothing(s.buf) && |s.buf| >= 3
    ensures ParseBulkLen(s).status.Ready?
  {
    hide StrStr, Strtol;
    NoValue(s.buf[1..]);
  }

  lemma NoValue(s: seq<byte>)
    requires Strtol(s).rest == s
    ensures Strtol(s).value == 0
  {
    NothingTaken(s);
  }

  // ----- Where the cursor passes the end -----

  lemma SpacesAreNotNul(buf: seq<byte>, w: seq<byte>, rest: seq<byte>, k: nat)
    requires buf == [36] + w + rest && AllSpaces(w) && LineEndAt(w, k)
    ensures LineEndAt(buf, k + 1) && forall j :: 0 <= j < k + 1 ==> buf[j] != 0
  {
    assert forall j :: 1 <= j < |w| + 1 ==> buf[j] == w[j - 1];
  }

  lemma Behind(buf: seq<byte>, w: seq<byte>, v: seq<byte>, k: nat)
    requires buf == [36] + w + v && |w| <= k < |buf| - 1
    ensures buf[k + 1] == v[k - |w|]
  {
  }

  lemma InWhiteSpace(buf: seq<byte>, w: seq<byte>, sign: seq<byte>, d: seq<byte>, k: nat)
    requires LengthInput(buf, w, sign, d, []) && LineEndAt(buf, k)
    ensures 0 < k && LineEndAt(w, k - 1)
  {
    hide SignedValue, ReadDigits;
    var v := sign + d + [13];
    assert buf == [36] + w + v;
    assert forall j :: 0 <= j < |v| ==> v[j] != 10;
    assert forall j :: 0 <= j < |w| ==> buf[j + 1] == w[j];
    if k + 1 >= |w| + 1 {
      Behind(buf, w, v, k);
      assert false;
    }
    assert buf[k] == w[k - 1] && buf[k + 1] == w[k];
  }

  /**
    * The parser leaves its buffer exactly on these inputs: a dollar sign, white space with a line end in it, an
    * optional sign and digits worth at most 512 MB, and a carriage return as the last byte that has arrived.
    */
  lemma StrayExactlyIf(s: State)
    requires s.bulklen == -1
    ensures ParseBulkLen(s).status.Stray? <==>
      exists w, sign, d :: LengthInput(s.buf, w, sign, d, []) && HasLineEnd(w)
  {
    hide StrStr, Strtol, LengthInput, LineEndAt, SignedValue;
    if ParseBulkLen(s).status.Stray? {
      var w, sign, d, rest := LengthForm(s);
      StrStrAt(s.buf);
      InWhiteSpace(s.buf, w, sign, d, StrStr(s.buf).value);
    }
    forall w, sign, d | LengthInput(s.buf, w, sign, d, []) && HasLineEnd(w) ensures ParseBulkLen(s).status.Stray? {
      var k: nat :| LineEndAt(w, k);
      StrayText(s.buf, w, sign, d);
      SpacesAreNotNul(s.buf, w, sign + d + [13], k);
      StrStrSome(s.buf, k + 1);
      LengthLanguage(s, w, sign, d, []);
    }
  }

  lemma StrayText(buf: seq<byte>, w: seq<byte>, sign: seq<byte>, d: seq<byte>)
    requires LengthInput(buf, w, sign, d, [])
    ensures AllSpaces(w) && buf == [36] + w + (sign + d + [13])
  {
    hide SignedValue;
  }

  /** A caller that puts anything but white space between the dollar sign and the line end never gets there. */
  lemma NeverStray(s: State, j: nat)
    requires s.bulklen == -1 && StrStr(s.buf).Some? && 0 < j < StrStr(s.buf).value && !IsSpace(s.buf[j])
    ensures !ParseBulkLen(s).status.Stray?
  {
    hide StrStr, Strtol, LengthInput, SignedValue;
    StrayExactlyIf(s);
    if ParseBulkLen(s).status.Stray? {
      var w, sign, d :| LengthInput(s.buf, w, sign, d, []) && HasLineEnd(w);
      StrStrAt(s.buf);
      var k := StrStr(s.buf).value;
      InWhiteSpace(s.buf, w, sign, d, k);
      StrayText(s.buf, w, sign, d);
      SpaceBefore(s.buf, w, sign + d + [13], j);
    }
  }

  lemma SpaceBefore(buf: seq<byte>, w: seq<byte>, rest: seq<byte>, j: nat)
    requires buf == [36] + w + rest && AllSpaces(w) && 0 < j <= |w|
    ensures IsSpace(buf[j])
  {
    assert buf[j] == w[j - 1];
  }

  /** Five bytes that do it. */
  const STRAY_INPUT: seq<byte> := [36, 13, 10, 53, 13]

  lemma StrayWitness()
    ensures ParseBulkLen(FRESH.(buf := STRAY_INPUT, reqtype := Multibulk, multibulklen := 1)).status == Stray
  {
    hide StrStr, Strtol, ReadDigits;
    var s := FRESH.(buf := STRAY_INPUT, reqtype := Multibulk, multibulklen := 1);
    var w: seq<byte>, d: seq<byte> := [13, 10], [53];
    assert LineEndAt(w, 0);
    ReadStep(d, 0);
    assert d[1..] == [];
    ReadNothing([], 5);
    assert s.buf == [36] + w + [] + d + [13] + [];
    assert SignedValue([], d) == 5;
    assert LengthInput(s.buf, w, [], d, []) && HasLineEnd(w);
    StrayExactlyIf(s);
  }

  // ----- Limits -----

  /** A header with any number, which %d and %lu never print negative. */
  function NumberLine(prefix: byte, v: int): (s: seq<byte>)
    ensures s != [] && s[0] == prefix
  {
    [prefix] + Print(v) + CRLF
  }

  lemma ReadNumberLine(prefix: byte, v: int, t: seq<byte>)
    requires LONG_MIN <= v <= LONG_MAX && (prefix == 42 || prefix == 36)
    ensures var s := NumberLine(prefix, v) + t;
      StrStr(s) == Some(|NumberLine(prefix, v)| - 2) && Strtol(s[1..]) == Parsed(v, CRLF + t)
  {
    hide Strtol, StrStr, Print, Digits;
    var x := [prefix] + Print(v);
    PrintShape(v);
    StrStrFinds(x, t);
    assert NumberLine(prefix, v) + t == x + CRLF + t;
    assert (NumberLine(prefix, v) + t)[1..] == Print(v) + (CRLF + t);
    PrintRoundTrip(v, CRLF + t);
  }

  /** Which printed lengths are accepted: 0 to 512 MB; anything else shuts the connection. */
  lemma BulkLimit(s: State, v: int, t: seq<byte>)
    requires s.bulklen == -1 && LONG_MIN <= v <= LONG_MAX && s.buf == NumberLine(36, v) + t
    ensures ParseBulkLen(s) ==
      if 0 <= v <= 512 * 1024 * 1024 then Step(Ready, s.(buf := t, bulklen := v))
      else Step(Malformed, s.(closing := true))
  {
    hide NumberLine, StrStr, Strtol;
    ReadNumberLine(36, v, t);
    assert s.buf[0] == NumberLine(36, v)[0];
    assert (CRLF + t)[2..] == t;
  }

  /** Which printed counts are accepted: the number is cut to an int; then none or less is an empty request, and more
      than 1024 * 1024 shuts the connection. */
  lemma CountLimit(s: State, v: int, t: seq<byte>)
    requires Resumable(s) && s.reqtype.Multibulk? && s.multibulklen == 0
    requires LONG_MIN <= v <= LONG_MAX && s.buf == NumberLine(42, v) + t
    ensures var n := ToInt32(v); var u := s.(buf := t, multibulklen := n);
      ParseMultibulk(s) ==
        if n <= 0 then Step(Ready, u)
        else if n <= 1024 * 1024 then ParseArgs(u)
        else Step(Malformed, u.(closing := true))
  {
    hide NumberLine, StrStr, Strtol, ParseArgs;
    ReadNumberLine(42, v, t);
    assert s.buf[|NumberLine(42, v)|..] == t;
  }

  lemma {:induction false} ArgsShut(s: State)
    requires s.bulklen >= -1 && s.multibulklen > 0 && s.reqtype.Multibulk?
    ensures ParseArgs(s).status.Malformed? ==> ParseArgs(s).state.closing && Resumable(ParseArgs(s).state)
    decreases |s.buf|
  {
    hide StrStr, Strtol;
    var h := ParseBulkLen(s);
    if h.status.Ready? && |h.state.buf| >= h.state.bulklen + 2 && h.state.multibulklen > 1 {
      ArgsShut(TakeBulk(h.state));
    }
  }

  lemma RequestShut(s: State)
    requires Resumable(s) && s.buf != []
    ensures var p := ParseRequest(s); p.status.Malformed? ==> p.state.closing && Resumable(p.state)
  {
    hide StrStr, Strtol, ParseArgs, Words;
    var t := Typed(s);
    if t.reqtype.Multibulk? {
      if s.multibulklen > 0 {
        ArgsShut(t);
      } else if StrStr(t.buf).Some? {
        var n := ToInt32(Strtol(t.buf[1..]).value);
        if 0 < n <= MAX_ARGS {
          ArgsShut(t.(buf := t.buf[StrStr(t.buf).value + 2..], multibulklen := n));
        }
      }
    }
  }

  /** After a protocol error the connection is shut: whatever else arrives, nothing more is dispatched. */
  lemma {:induction false} MalformedStaysShut(s: State, more: seq<byte>)
    requires Resumable(s) && Serve(s).status.Malformed?
    ensures var t := Serve(s).state.(buf := Serve(s).state.buf + more);
      t.closing && Resumable(t) && Serve(t).dispatched == [] && Serve(t).state == t
    decreases |s.buf|
  {
    hide ParseRequest;
    RequestShut(s);
    var p := ParseRequest(s);
    if p.status.Ready? {
      MalformedStaysShut(Reset(p.state), more);
    }
  }
}
