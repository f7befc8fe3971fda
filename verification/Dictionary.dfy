/** The dictionary on its way from the compiler passes to the fuzzer: tokens are printed, kept as metadata of
    instructions, written to a file as name="value" lines, and parsed again. Characters are bytes. */
module Dictionary {
  import opened Bytes

  datatype Option<T> = None | Some(value: T)

  type Text = seq<byte>

  const MIN_AUTO_EXTRA := 1

  const MAX_AUTO_EXTRA := 56

  const MAX_DICT_FILE := 128

  const MAX_LINE := 8192

  const U32 := 0x1_0000_0000

  const NEWLINE: byte := 10

  const QUOTE: byte := 34

  const HASH: byte := 35

  const EQUALS: byte := 61

  const AT: byte := 64

  const BACKSLASH: byte := 92

  const UNDERSCORE: byte := 95

  const X: byte := 120

  predicate IsSpace(c: byte) { 9 <= c <= 13 || c == 32 }

  predicate IsDigit(c: byte) { 48 <= c <= 57 }

  predicate IsAlnum(c: byte) { IsDigit(c) || 65 <= c <= 90 || 97 <= c <= 122 }

  predicate IsNameChar(c: byte) { IsAlnum(c) || c == UNDERSCORE }

  predicate IsHex(c: byte) { IsDigit(c) || 65 <= c <= 70 || 97 <= c <= 102 }

  function HexValue(c: byte): (v: nat)
    requires IsHex(c)
    ensures v < 16
  {
    if IsDigit(c) then c - 48 else if c <= 70 then c - 55 else c - 87
  }

  function HexDigit(v: nat): (c: byte)
    requires v < 16
    ensures IsHex(c) && HexValue(c) == v && IsNameChar(c) && c != X
  {
    if v < 10 then 48 + v else 87 + v
  }

  // ----- printing --------------------------------------------------------------------------------

  /** Which bytes are printed as they are: none in binary tokens; in text, what is printable, except the
      characters that have a meaning in metadata and files. The run-time collector keeps the equals sign. */
  datatype Style = Printable | Binary | Collected

  predicate Plain(c: byte, style: Style)
  {
    style != Binary && 32 <= c <= 126 && c != QUOTE && c != BACKSLASH && (style == Printable ==> c != EQUALS)
  }

  function Escape(c: byte): (r: Text)
    ensures |r| == 4
  {
    [BACKSLASH, X, HexDigit(c / 16), HexDigit(c % 16)]
  }

  function Shown(c: byte, style: Style): Text { if Plain(c, style) then [c] else Escape(c) }

  function Escaped(data: Text, style: Style): Text
  {
    if data == [] then [] else Escaped(data[..|data| - 1], style) + Shown(data[|data| - 1], style)
  }

  /** Printable characters without quotes, backslashes and, but for the run-time collector, equals signs. */
  predicate Ordinary(data: Text, style: Style)
  {
    forall c :: c in data ==> 32 <= c <= 126 && c != QUOTE && c != BACKSLASH && (c == EQUALS ==> style == Collected)
  }

  lemma OrdinaryLast(data: Text, style: Style)
    requires data != []
    ensures var (init, c) := (data[..|data| - 1], data[|data| - 1]);
            style != Binary && Ordinary(data, style) <==>
            (init != [] ==> style != Binary) && Ordinary(init, style) && Plain(c, style)
  {
    var init, c := data[..|data| - 1], data[|data| - 1];
    assert data == init + [c];
    assert c in data && forall d :: d in data <==> d in init || d == c;
    if style != Binary && Ordinary(data, style) {
      assert Ordinary(init, style) && Plain(c, style);
    } else if (init != [] ==> style != Binary) && Ordinary(init, style) && Plain(c, style) {
      assert Ordinary(data, style);
    }
  }

  lemma PlainLast(e: Text, t: Text, init: Text, c: byte)
    requires |e| >= |init| && (t == [c] || |t| == 4)
    ensures e + t == init + [c] <==> e == init && t == [c]
  {
    if e + t == init + [c] {
      assert |e| == |init| && |t| == 1;
      assert e == (e + t)[..|init|] == init;
    }
  }

  /** A token is printed as it is exactly if it is ordinary text, or nothing at all. */
  lemma {:induction false} PrintsItselfIff(data: Text, style: Style)
    ensures Escaped(data, style) == data <==> data == [] || (style != Binary && Ordinary(data, style))
    decreases |data|
  {
    if data != [] {
      var init, c := data[..|data| - 1], data[|data| - 1];
      PrintsItselfIff(init, style);
      EscapedSize(init, style);
      OrdinaryLast(data, style);
      assert data == init + [c];
      assert Shown(c, style) == [c] <==> Plain(c, style);
      assert Shown(c, style) == [c] || |Shown(c, style)| == 4;
      PlainLast(Escaped(init, style), Shown(c, style), init, c);
      assert Escaped(data, style) == Escaped(init, style) + Shown(c, style);
      hide Shown, Ordinary, Plain, Escaped;
      assert init == [] ==> Ordinary(init, style) by { NothingOrdinary(style); }
    }
  }

  lemma NothingOrdinary(style: Style)
    ensures Ordinary([], style)
  {
  }

  /** The bytes of a token that count: a text loses a final NUL. */
  function Meant(data: Text, isText: bool): Text
  {
    if isText && data != [] && data[|data| - 1] == 0 then data[..|data| - 1] else data
  }

  predicate Acceptable(data: Text) { MIN_AUTO_EXTRA <= |data| <= MAX_AUTO_EXTRA }

  function Printed(data: Text, isText: bool): Text
  {
    if Acceptable(data) then Escaped(Meant(data, isText), if isText then Printable else Binary) else []
  }

  lemma {:induction false} EscapedSize(data: Text, style: Style)
    ensures |data| <= |Escaped(data, style)| <= 4 * |data|
    decreases |data|
  {
    if data != [] {
      EscapedSize(data[..|data| - 1], style);
    }
  }

  method Stringify(data: Text, isText: bool) returns (token: Text)
    ensures token == Printed(data, isText) && |token| <= 224
  {
    EscapedSize(Meant(data, isText), if isText then Printable else Binary);
    token := [];
    if |data| < MIN_AUTO_EXTRA || |data| > MAX_AUTO_EXTRA {
      return;
    }
    ghost var style := if isText then Printable else Binary;
    for i := 0 to |data|
      invariant token == Escaped(data[..i], style)
      invariant i == |data| ==> Meant(data, isText) == data
    {
      if isText && i == |data| - 1 && data[|data| - 1] == 0 {
        return;
      }
      var c := data[i];
      assert Escaped(data[..i + 1], style) == Escaped(data[..i], style) + Shown(c, style) by {
        assert data[..i + 1][..i] == data[..i];
      }
      if c <= 31 || c >= 127 || c == EQUALS || c == QUOTE || c == BACKSLASH {
        token := token + Escape(c);
      } else if isText {
        token := token + [c];
      } else {
        token := token + Escape(c);
      }
    }
    assert data[..|data|] == data;
  }

  /** The bytes before the first NUL, if there is one. */
  function UpToNul(data: Text): Text
  {
    if data == [] || data[0] == 0 then [] else [data[0]] + UpToNul(data[1..])
  }

  lemma {:induction false} UpToNulIs(data: Text, n: nat)
    requires n <= |data| && 0 !in data[..n] && (n == |data| || data[n] == 0)
    ensures UpToNul(data) == data[..n]
    decreases |data|
  {
    if n > 0 {
      assert data[..n][0] == data[0];
      assert data[1..][..n - 1] == data[..n][1..];
      UpToNulIs(data[1..], n - 1);
    }
  }

  method Put(buf: array<byte>, pos: nat, s: Text) returns (pos': nat)
    requires pos + |s| <= buf.Length
    modifies buf
    ensures pos' == pos + |s| && buf[..pos'] == old(buf[..pos]) + s
  {
    for k := 0 to |s|
      invariant buf[..pos + k] == old(buf[..pos]) + s[..k]
    {
      buf[pos + k] := s[k];
    }
    pos' := pos + |s|;
  }

  /** The run-time collector: one line, into a buffer that never overflows. */
  method TokencapDump(data: Text, isText: bool) returns (line: Text)
    ensures line == if Acceptable(data) then [QUOTE] + Escaped(if isText then UpToNul(data) else data, Collected)
            + [QUOTE, NEWLINE]
                    else []
  {
    line := [];
    if |data| < MIN_AUTO_EXTRA || |data| > MAX_AUTO_EXTRA {
      return;
    }
    var buf := new byte[MAX_AUTO_EXTRA * 4 + 1];
    var pos: nat, i: nat := 0, 0;
    while i < |data| && !(isText && data[i] == 0)
      invariant i <= |data| && pos <= 4 * i && buf[..pos] == Escaped(data[..i], Collected)
      invariant isText ==> 0 !in data[..i]
    {
      var c := data[i];
      if c <= 31 || c >= 127 || c == QUOTE || c == BACKSLASH {
        pos := Put(buf, pos, Escape(c));
      } else {
        pos := Put(buf, pos, [c]);
      }
      assert data[..i + 1][..i] == data[..i];
      i := i + 1;
    }
    buf[pos] := 0;
    if isText {
      UpToNulIs(data, i);
    } else {
      assert data[..i] == data;
    }
    line := [QUOTE] + buf[..pos] + [QUOTE, NEWLINE];
  }

  // ----- parsing one line ------------------------------------------------------------------------

  function Leading(s: Text, p: byte -> bool): (n: nat)
    ensures n <= |s|
  {
    if s == [] || !p(s[0]) then 0 else 1 + Leading(s[1..], p)
  }

  lemma {:induction false} LeadingIs(s: Text, p: byte -> bool, n: nat)
    requires n <= |s| && (forall i :: 0 <= i < n ==> p(s[i])) && (n == |s| || !p(s[n]))
    ensures Leading(s, p) == n
    decreases |s|
  {
    if n > 0 {
      LeadingIs(s[1..], p, n - 1);
    }
  }

  function TrimEnd(s: Text): (r: Text)
    ensures |r| <= |s|
  {
    if s != [] && IsSpace(s[|s| - 1]) then TrimEnd(s[..|s| - 1]) else s
  }

  function Trim(s: Text): Text { TrimEnd(s[Leading(s, IsSpace)..]) }

  function Number(s: Text, acc: nat): nat
  {
    if s == [] || !IsDigit(s[0]) then acc else Number(s[1..], 10 * acc + s[0] - 48)
  }

  /** What atoi makes of the text, seen as an unsigned 32-bit number. */
  function Level(s: Text): nat
  {
    var t := s[Leading(s, IsSpace)..];
    if t != [] && t[0] == 45 then (U32 - Number(t[1..], 0) % U32) % U32
    else if t != [] && t[0] == 43 then Number(t[1..], 0) % U32
    else Number(t, 0) % U32
  }

  /** How many characters stand for the first byte of a value; none where the parser gives up. */
  function UnitLength(s: Text): (n: nat)
    requires s != []
    ensures n <= |s|
  {
    if s[0] < 32 || s[0] >= 128 then 0
    else if s[0] != BACKSLASH then 1
    else if |s| >= 2 && (s[1] == BACKSLASH || s[1] == QUOTE) then 2
    else if |s| >= 4 && s[1] == X && IsHex(s[2]) && IsHex(s[3]) then 4
    else 0
  }

  function UnitByte(s: Text): byte
    requires s != [] && UnitLength(s) > 0
  {
    if UnitLength(s) == 1 then s[0] else if UnitLength(s) == 2 then s[1] else HexValue(s[2]) * 16 + HexValue(s[3])
  }

  /** The value between the quotes; None where the parser gives up. */
  function Decode(s: Text): Option<Text>
  {
    if s == [] then Some([])
    else if UnitLength(s) == 0 then None
    else Prepend([UnitByte(s)], Decode(s[UnitLength(s)..]))
  }

  function Prepend(a: Text, rest: Option<Text>): Option<Text>
  {
    if rest.None? then None else Some(a + rest.value)
  }

  function HexNumber(s: Text, acc: nat): nat
  {
    if s == [] || !IsHex(s[0]) then acc else HexNumber(s[1..], 16 * acc + HexValue(s[0]))
  }

  /** What strtoul makes of the last eight characters of a name in base 16. */
  function HexIndex(s: Text): nat
  {
    if |s| >= 3 && s[0] == 48 && (s[1] == X || s[1] == 88) && IsHex(s[2]) then HexNumber(s[2..], 0) else HexNumber(s, 0)
  }

  /** The index at the end of the name of a token, after an underscore. */
  function IndexOf(name: Text): Option<nat>
  {
    if |name| > 8 && name[|name| - 9] == UNDERSCORE then Some(HexIndex(name[|name| - 8..])) else None
  }

  datatype Parsed = Skip | Fatal | Token(data: Text, index: Option<nat>)

  function Finish(name: Text, value: Text, optimized: bool): Parsed
  {
    if value == [] || |value| > 256 || Decode(value).None? then Fatal
    else if optimized && IndexOf(name).None? then Fatal
    else Token(Decode(value).value, if optimized then IndexOf(name) else None)
  }

  function IsGap(c: byte): bool { IsSpace(c) || c == EQUALS }

  /** A line without its closing quote. */
  function ParseOpen(s: Text, level: nat, optimized: bool): Parsed
  {
    var n := Leading(s, IsNameChar);
    if n < |s| && s[n] == AT && Level(s[n + 1..]) > level then Skip
    else
      var m := if n < |s| && s[n] == AT then n + 1 + Leading(s[n + 1..], IsDigit) else n;
      var o := m + Leading(s[m..], IsGap);
      if o == |s| || s[o] != QUOTE then Fatal else Finish(s[..m], s[o + 1..], optimized)
  }

  predicate NotNul(c: byte) { c != 0 }

  /** What is in a C string: nothing from the first NUL on. */
  function Cut(s: Text): Text { s[..Leading(s, NotNul)] }

  /** A line of a dictionary file as the fuzzer understands it; a NUL ends it. */
  function Parse(line: Text, level: nat, optimized: bool): Parsed { ParseText(Cut(line), level, optimized) }

  function ParseText(line: Text, level: nat, optimized: bool): Parsed
  {
    var s := Trim(line);
    if s == [] || s[0] == HASH then Skip
    else if s[|s| - 1] != QUOTE then Fatal
    else ParseOpen(s[..|s| - 1], level, optimized)
  }

  lemma {:induction false} TrimEndIs(s: Text, n: nat)
    requires n <= |s| && (forall i :: n <= i < |s| ==> IsSpace(s[i])) && (n == 0 || !IsSpace(s[n - 1]))
    ensures TrimEnd(s) == s[..n]
    decreases |s|
  {
    if n < |s| {
      TrimEndIs(s[..|s| - 1], n);
      assert s[..|s| - 1][..n] == s[..n];
    }
  }

  /** Unescaping into the buffer of 256 bytes. */
  method Unescape(value: Text) returns (data: Option<Text>)
    requires |value| <= 256
    ensures data == Decode(value)
  {
    var buf := new byte[256];
    var l, klen := 0, 0;
    assert value[0..] == value;
    PrependNothing(Decode(value), []);
    while l < |value|
      invariant l <= |value| && klen <= l
      invariant Decode(value) == Prepend(buf[..klen], Decode(value[l..]))
    {
      ghost var rest, was := value[l..], buf[..klen];
      assert forall i :: 0 <= i < |rest| ==> rest[i] == value[l + i];
      if value[l] < 32 || value[l] >= 128 {
        return None;
      }
      ghost var start := l;
      if value[l] == BACKSLASH {
        if l + 1 < |value| && (value[l + 1] == BACKSLASH || value[l + 1] == QUOTE) {
          buf[klen] := value[l + 1];
          l := l + 2;
        } else if l + 3 < |value| && value[l + 1] == X && IsHex(value[l + 2]) && IsHex(value[l + 3]) {
          buf[klen] := HexValue(value[l + 2]) * 16 + HexValue(value[l + 3]);
          l := l + 4;
        } else {
          return None;
        }
      } else {
        buf[klen] := value[l];
        l := l + 1;
      }
      assert l - start == UnitLength(rest) && buf[klen] == UnitByte(rest);
      assert rest[l - start..] == value[l..];
      klen := klen + 1;
      assert buf[..klen] == was + [buf[klen - 1]];
      PrependTwice(was, [buf[klen - 1]], Decode(value[l..]));
    }
    data := Some(buf[..klen]);
    PrependNothing(None, buf[..klen]);
  }

  lemma PrependNothing(r: Option<Text>, a: Text)
    ensures Prepend([], r) == r && Prepend(a, Some([])) == Some(a)
  {
    if r.Some? {
      assert [] + r.value == r.value;
    }
    assert a + [] == a;
  }

  lemma PrependTwice(a: Text, b: Text, rest: Option<Text>)
    ensures Prepend(a, Prepend(b, rest)) == Prepend(a + b, rest)
  {
    if rest.Some? {
      assert a + (b + rest.value) == a + b + rest.value;
    }
  }

  // ----- loading a file --------------------------------------------------------------------------

  datatype Extra = Extra(data: Text, index: Option<nat>)

  /** The tokens after one more line: a plain dictionary keeps the first of equal tokens, an optimized one keeps
      all, as their indices differ. */
  function Loaded(extras: seq<Extra>, p: Parsed, optimized: bool): Option<seq<Extra>>
  {
    match p
    case Skip => Some(extras)
    case Fatal => None
    case Token(d, i) =>
      if !optimized && exists e :: e in extras && e.data == d then Some(extras)
      else if |d| > MAX_DICT_FILE then None
      else Some(extras + [Extra(d, i)])
  }

  /** The tokens after all lines of a file; None if the load ends in a fatal error. */
  function LoadedAll(extras: seq<Extra>, lines: seq<Text>, level: nat, optimized: bool): Option<seq<Extra>>
    decreases |lines|
  {
    if lines == [] then Some(extras)
    else
      var r := Loaded(extras, Parse(lines[0], level, optimized), optimized);
      if r.None? then None else LoadedAll(r.value, lines[1..], level, optimized)
  }

  lemma SkipIsNothing(extras: seq<Extra>, optimized: bool)
    ensures Loaded(extras, Skip, optimized) == Some(extras)
  {
  }

  lemma FatalIsNothing(extras: seq<Extra>, optimized: bool)
    ensures Loaded(extras, Fatal, optimized) == None
  {
  }

  lemma TrimEndStep(s: Text)
    ensures TrimEnd(s) == if s != [] && IsSpace(s[|s| - 1]) then TrimEnd(s[..|s| - 1]) else s
  {
  }

  /** Moves a pointer past the characters of a kind. */
  method SkipWhile(s: Text, from: nat, p: byte -> bool) returns (l: nat)
    requires from <= |s|
    ensures l == from + Leading(s[from..], p)
  {
    l := from;
    while l < |s| && p(s[l])
      invariant from <= l <= |s| && Leading(s[from..], p) == l - from + Leading(s[l..], p)
    {
      assert s[l..][1..] == s[l + 1..];
      l := l + 1;
    }
  }

  class Loader {
    const dictLevel: nat
    const optimized: bool
    var extras: seq<Extra>

    constructor (level: nat, opt: bool)
      ensures dictLevel == level && optimized == opt && extras == []
    {
      dictLevel, optimized, extras := level, opt, [];
    }

    /** One round of the loop over the lines, by two pointers into the line. */
    method LoadLine(line: Text) returns (ok: bool)
      modifies `extras
      ensures var r := Loaded(old(extras), Parse(line, dictLevel, optimized), optimized);
              ok == r.Some? && extras == if ok then r.value else old(extras)
    {
      var strlen := SkipWhile(line, 0, NotNul);
      assert line[0..] == line;
      ok := LoadText(line[..strlen]);
    }

    method LoadText(buf: Text) returns (ok: bool)
      modifies `extras
      ensures var r := Loaded(old(extras), ParseText(buf, dictLevel, optimized), optimized);
              ok == r.Some? && extras == if ok then r.value else old(extras)
    {
      hide ParseOpen, Loaded, TrimEnd, Leading;
      var l := SkipWhile(buf, 0, IsSpace);
      var r := |buf|;
      assert buf[0..] == buf && buf[l..] == buf[l..r];
      while r > l && IsSpace(buf[r - 1])
        invariant l <= r <= |buf| && TrimEnd(buf[l..r]) == Trim(buf) && extras == old(extras)
      {
        ghost var u := buf[l..r];
        TrimEndStep(u);
        assert u[|u| - 1] == buf[r - 1];
        assert buf[l..r][..|buf[l..r]| - 1] == buf[l..r - 1];
        r := r - 1;
      }
      TrimEndStep(buf[l..r]);
      ghost var s := buf[l..r];
      assert Trim(buf) == s && (s != [] ==> s[0] == buf[l]);
      if l == r || buf[l] == HASH {
        SkipIsNothing(extras, optimized);
        return true;
      }
      r := r - 1;
      if buf[r] != QUOTE {
        FatalIsNothing(extras, optimized);
        return false;
      }
      assert s[..|s| - 1] == buf[l..r];
      ok := LoadOpen(buf[l..r]);
    }

    /** The whole file; a fatal error ends the load. */
    method LoadFile(lines: seq<Text>) returns (ok: bool)
      modifies `extras
      ensures var r := LoadedAll(old(extras), lines, dictLevel, optimized); ok == r.Some? && (ok ==> extras == r.value)
    {
      hide Loaded, Parse;
      assert lines[0..] == lines;
      for i := 0 to |lines|
        invariant LoadedAll(extras, lines[i..], dictLevel, optimized) ==
                  LoadedAll(old(extras), lines, dictLevel, optimized)
      {
        ghost var rest := lines[i..];
        assert rest[0] == lines[i] && rest[1..] == lines[i + 1..];
        ok := LoadLine(lines[i]);
        if !ok {
          return;
        }
      }
      ok := true;
    }

    method LoadOpen(s: Text) returns (ok: bool)
      modifies `extras
      ensures var r := Loaded(old(extras), ParseOpen(s, dictLevel, optimized), optimized);
              ok == r.Some? && extras == if ok then r.value else old(extras)
    {
      hide Loaded, Leading, Level, Finish;
      var l := SkipWhile(s, 0, IsNameChar);
      assert s[0..] == s;
      if l < |s| && s[l] == AT {
        l := l + 1;
        if Level(s[l..]) > dictLevel {
          SkipIsNothing(extras, optimized);
          return true;
        }
        l := SkipWhile(s, l, IsDigit);
      }
      var tokLen := l;
      l := SkipWhile(s, l, IsGap);
      if l == |s| || s[l] != QUOTE {
        FatalIsNothing(extras, optimized);
        return false;
      }
      l := l + 1;
      ok := AddToken(s[..tokLen], s[l..]);
    }

    method AddToken(name: Text, value: Text) returns (ok: bool)
      modifies `extras
      ensures var r := Loaded(old(extras), Finish(name, value, optimized), optimized);
              ok == r.Some? && extras == if ok then r.value else old(extras)
    {
      if value == [] || |value| > 256 {
        return false;
      }
      var data := Unescape(value);
      if data == None {
        return false;
      }
      if !optimized {
        for k := 0 to |extras|
          invariant forall j :: 0 <= j < k ==> extras[j].data != data.value
        {
          if extras[k].data == data.value {
            return true;
          }
        }
      }
      var index := None;
      if optimized {
        index := IndexOf(name);
        if index == None {
          return false;
        }
      }
      if |data.value| > MAX_DICT_FILE {
        return false;
      }
      extras := extras + [Extra(data.value, index)];
      ok := true;
    }
  }

  // ----- metadata of instructions ----------------------------------------------------------------

  const NDEBUG: Text := [78, 68, 69, 66, 85, 71]

  /** The pieces between delimiters; what follows the last one is left out if it is empty. */
  function Pieces(s: Text): seq<Text>
    decreases |s|
  {
    if s == [] then []
    else
      var n := Leading(s, c => c != EQUALS);
      if n == |s| then [s] else [s[..n]] + Pieces(s[n + 1..])
  }

  /** Pieces seen before are dropped. */
  function Distinct(pieces: seq<Text>): seq<Text>
  {
    if pieces == [] then []
    else
      var before := Distinct(pieces[..|pieces| - 1]);
      if pieces[|pieces| - 1] in before then before else before + [pieces[|pieces| - 1]]
  }

  /** name="value", with a stand-in for a missing name. */
  function MetaText(name: Text, value: Text): Text
  {
    (if name == [] then NDEBUG else name) + [EQUALS, QUOTE] + value + [QUOTE]
  }

  /** The value, with its quotes, and the name; None where the assertion on two pieces fails. */
  function ReadMeta(meta: Text): Option<(Text, Text)>
  {
    var parts := Distinct(Pieces(meta));
    if |parts| == 2 then Some((parts[1], parts[0])) else None
  }

  method Split(s: Text) returns (v: seq<Text>)
    ensures v == Distinct(Pieces(s))
  {
    hide Pieces, Distinct;
    v := [];
    var at: nat := 0;
    ghost var seen: seq<Text> := [];
    StartPieces(s);
    while at < |s|
      invariant at <= |s| && Pieces(s) == seen + Pieces(s[at..]) && v == Distinct(seen)
    {
      var end := SkipWhile(s, at, c => c != EQUALS);
      var item := s[at..end];
      NextPiece(s, at, end);
      DistinctNext(seen, item);
      if item !in v {
        v := v + [item];
      }
      at := if end == |s| then end else end + 1;
      seen := seen + [item];
    }
    EndPieces(s, seen);
  }

  lemma StartPieces(s: Text)
    ensures Pieces(s) == [] + Pieces(s[0..]) && Distinct([]) == []
  {
    assert s[0..] == s;
    assert [] + Pieces(s) == Pieces(s);
  }

  lemma EndPieces(s: Text, seen: seq<Text>)
    ensures seen + Pieces(s[|s|..]) == seen
  {
    assert seen + [] == seen;
  }

  lemma NextPiece(s: Text, at: nat, end: nat)
    requires at < |s| && at <= end <= |s| && end == at + Leading(s[at..], c => c != EQUALS)
    ensures Pieces(s[at..]) == [s[at..end]] + Pieces(s[if end == |s| then end else end + 1..])
  {
    hide Leading;
    var rest := s[at..];
    if end == |s| {
      assert rest == s[at..end];
      assert s[end..] == [];
    } else {
      assert rest[..end - at] == s[at..end] && rest[end - at + 1..] == s[end + 1..];
    }
  }

  lemma DistinctNext(pieces: seq<Text>, item: Text)
    ensures var d := Distinct(pieces); Distinct(pieces + [item]) == if item in d then d else d + [item]
  {
    assert (pieces + [item])[..|pieces|] == pieces;
  }

  class Instruction {
    var metadata: map<Text, Text>

    /** Nothing is recorded for an empty token; a value already printed comes with its quotes. */
    method RecordDict(token: Text, name: Text, origin: Text, doStringify: bool, isText: bool) returns (ok: bool)
      modifies this
      ensures var value := if doStringify then Printed(token, isText) else token;
              ok == (doStringify || |value| != 1) &&
              metadata == if value == [] || !ok then old(metadata)
                          else old(metadata)[origin := MetaText(name,
                                                                if doStringify then value else value[1..|value| - 1])]
    {
      ok := true;
      var ss := token;
      if doStringify {
        ss := Stringify(token, isText);
      }
      if ss != [] {
        if !doStringify {
          if |ss| < 2 {
            return false;
          }
          ss := ss[1..|ss| - 1];
        }
        metadata := metadata[origin := MetaText(name, ss)];
      }
    }

    method GetDict(origin: Text) returns (ok: bool, found: bool, value: Text, name: Text)
      ensures if origin !in metadata then ok && !found
              else var r := ReadMeta(metadata[origin]); ok == r.Some? && (ok ==> found && r.value == (value, name))
    {
      if origin !in metadata {
        return true, false, [], [];
      }
      var values := Split(metadata[origin]);
      if |values| != 2 {
        return false, false, [], [];
      }
      return true, true, values[1], values[0];
    }
  }

  predicate NameOk(name: Text) { forall i :: 0 <= i < |name| ==> IsNameChar(name[i]) }

  predicate ValueOk(value: Text) { forall i :: 0 <= i < |value| ==> value[i] != EQUALS }

  predicate Holds(metadata: map<Text, Text>, origin: Text, name: Text, value: Text)
  {
    NameOk(name) && ValueOk(value) && origin in metadata && metadata[origin] == MetaText(name, value)
  }

  /** Copies the token of one instruction to another; the copy is exact for what RecordDict wrote. */
  method CopyDict(from: Instruction, to: Instruction, origin: Text) returns (ok: bool)
    modifies to
    ensures origin !in old(from.metadata) ==> ok && to.metadata == old(to.metadata)
    ensures forall name, value :: Holds(old(from.metadata), origin, name, value) ==>
              ok && to.metadata == old(to.metadata)[origin := MetaText(name, value)]
  {
    ghost var was := from.metadata;
    var found, value, name;
    ok, found, value, name := from.GetDict(origin);
    if ok && found {
      ok := to.RecordDict(value, name, origin, false, false);
    }
    forall n, v | Holds(was, origin, n, v)
      ensures ok && to.metadata == old(to.metadata)[origin := MetaText(n, v)]
    {
      MetaReadsBack(n, v);
    }
  }

  function Named(name: Text): Text { if name == [] then NDEBUG else name }

  function Quoted(value: Text): Text { [QUOTE] + value + [QUOTE] }

  lemma PiecesOfMeta(n: Text, q: Text)
    requires EQUALS !in n && EQUALS !in q && q != []
    ensures Pieces(n + [EQUALS] + q) == [n, q]
  {
    var m := n + [EQUALS] + q;
    var p: byte -> bool := c => c != EQUALS;
    LeadingIs(m, p, |n|);
    assert m[..|n|] == n && m[|n| + 1..] == q;
    LeadingIs(q, p, |q|);
    assert Pieces(q) == [q];
    assert [n] + [q] == [n, q];
  }

  /** What was recorded reads back as the same name and value, and records again as the same text. */
  lemma MetaReadsBack(name: Text, value: Text)
    requires NameOk(name) && ValueOk(value)
    ensures ReadMeta(MetaText(name, value)) == Some((Quoted(value), Named(name)))
    ensures MetaText(Named(name), Quoted(value)[1..|Quoted(value)| - 1]) == MetaText(name, value)
  {
    var n, q := Named(name), Quoted(value);
    assert MetaText(name, value) == n + [EQUALS] + q;
    assert NameOk(n);
    PiecesOfMeta(n, q);
    assert n != q by {
      assert q[0] == QUOTE && n != [] && IsNameChar(n[0]);
    }
    hide Pieces;
    DistinctNext([], n);
    DistinctNext([n], q);
    assert [] + [n] == [n] && [n] + [q] == [n, q];
    assert q[1..|q| - 1] == value;
  }

  // ----- there and back --------------------------------------------------------------------------

  /** Unescaping one part after the other. */
  lemma {:induction false} DecodeAppend(a: Text, b: Text)
    requires Decode(a).Some?
    ensures Decode(a + b) == Prepend(Decode(a).value, Decode(b))
    decreases |a|
  {
    hide Decode, UnitLength, UnitByte;
    if a == [] {
      assert a + b == b;
      DecodeNothing();
      PrependNothing(Decode(b), []);
    } else {
      DecodeStep(a);
      DecodeStep(a + b);
      UnitAppend(a, b);
      var k := UnitLength(a);
      assert (a + b)[k..] == a[k..] + b;
      DecodeAppend(a[k..], b);
      PrependTwice([UnitByte(a)], Decode(a[k..]).value, Decode(b));
    }
  }

  lemma DecodeNothing()
    ensures Decode([]) == Some([])
  {
  }

  lemma DecodeStep(s: Text)
    requires s != []
    ensures Decode(s) == if UnitLength(s) == 0 then None else Prepend([UnitByte(s)], Decode(s[UnitLength(s)..]))
  {
  }

  lemma UnitAppend(a: Text, b: Text)
    requires a != [] && UnitLength(a) > 0
    ensures UnitLength(a + b) == UnitLength(a) && UnitByte(a + b) == UnitByte(a)
  {
    assert forall i :: 0 <= i < |a| ==> (a + b)[i] == a[i];
  }

  /** Printing and unescaping a token gives the token back, whatever the style. */
  lemma {:induction false} EscapedDecodes(data: Text, style: Style)
    ensures Decode(Escaped(data, style)) == Some(data)
    decreases |data|
  {
    if data != [] {
      var init, c := data[..|data| - 1], data[|data| - 1];
      EscapedDecodes(init, style);
      assert Decode(Shown(c, style)) == Some([c]) by {
        var s := Shown(c, style);
        PrependNothing(None, [c]);
        if Plain(c, style) {
          var rest := s[1..];
          assert rest == [] && Decode(rest) == Some([]);
        } else {
          var rest := s[4..];
          assert rest == [] && Decode(rest) == Some([]);
          assert HexValue(s[2]) * 16 + HexValue(s[3]) == c;
          assert Decode(s) == Prepend([c], Decode(rest));
        }
      }
      DecodeAppend(Escaped(init, style), Shown(c, style));
      assert init + [c] == data;
    }
  }

  /** No printed character is special: no control characters, and no equals sign in what goes into metadata. */
  lemma {:induction false} EscapedIsClean(data: Text, style: Style)
    ensures forall i :: 0 <= i < |Escaped(data, style)| ==> 32 <= Escaped(data, style)[i] <= 126
    ensures style != Collected ==> ValueOk(Escaped(data, style))
    decreases |data|
  {
    if data != [] {
      EscapedIsClean(data[..|data| - 1], style);
    }
  }

  /** An index of 32 bits as eight digits. */
  function Hex(v: nat, digits: nat): (r: Text)
    ensures |r| == digits && NameOk(r)
  {
    if digits == 0 then [] else Hex(v / 16, digits - 1) + [HexDigit(v % 16)]
  }

  lemma {:induction false} HexNumberAppend(s: Text, c: byte, acc: nat)
    requires (forall i :: 0 <= i < |s| ==> IsHex(s[i])) && IsHex(c)
    ensures HexNumber(s + [c], acc) == 16 * HexNumber(s, acc) + HexValue(c)
    decreases |s|
  {
    if s == [] {
      assert s + [c] == [c];
      assert [c][1..] == [];
    } else {
      assert (s + [c])[1..] == s[1..] + [c];
      HexNumberAppend(s[1..], c, 16 * acc + HexValue(s[0]));
    }
  }

  function Power16(n: nat): nat { if n == 0 then 1 else 16 * Power16(n - 1) }

  lemma {:induction false} HexReadsBack(v: nat, digits: nat)
    requires v < Power16(digits)
    ensures HexNumber(Hex(v, digits), 0) == v
    ensures forall i :: 0 <= i < digits ==>
              IsHex(Hex(v, digits)[i]) && Hex(v, digits)[i] != X && Hex(v, digits)[i] != 88
    decreases digits
  {
    if digits > 0 {
      HexReadsBack(v / 16, digits - 1);
      HexNumberAppend(Hex(v / 16, digits - 1), HexDigit(v % 16), 0);
    }
  }

  const AFL: Text := [65, 70, 76, 95]

  /** The line for a token: the name gets the kind of token in front and the index of the edge behind. */
  function FileLine(kind: Text, name: Text, id: nat, quoted: Text): Text
  {
    AFL + kind + name + [UNDERSCORE] + Hex(id, 8) + [EQUALS] + quoted + [NEWLINE]
  }

  /** A line that starts and ends with what it is about. */
  lemma ParseWhole(s: Text, level: nat, optimized: bool)
    requires s != [] && !IsSpace(s[0]) && s[0] != HASH && s[|s| - 1] == QUOTE && forall i :: 0 <= i < |s| ==> s[i] != 0
    ensures Parse(s + [NEWLINE], level, optimized) == ParseOpen(s[..|s| - 1], level, optimized)
  {
    var line := s + [NEWLINE];
    hide ParseOpen, TrimEnd, Leading;
    LeadingIs(line, NotNul, |line|);
    assert Cut(line) == line;
    LeadingIs(line, IsSpace, 0);
    assert line[0..] == line;
    TrimEndIs(line, |s|);
    assert line[..|s|] == s;
  }

  /** A line of a name, an equals sign and a quoted value, with nothing else around. */
  lemma ParseClean(name: Text, value: Text, level: nat, optimized: bool)
    requires NameOk(name) && forall i :: 0 <= i < |value| ==> value[i] != 0
    ensures var eq := if name == [] then [] else [EQUALS];
            Parse(name + eq + Quoted(value) + [NEWLINE], level, optimized) == Finish(name, value, optimized)
  {
    var eq := if name == [] then [] else [EQUALS];
    var s := name + eq + Quoted(value);
    hide ParseOpen, Finish, Parse;
    assert s == name + (eq + Quoted(value)) && s[0] == if name == [] then QUOTE else name[0];
    assert s[..|s| - 1] == name + eq + [QUOTE] + value;
    ParseWhole(s, level, optimized);
    OpenClean(name, value, level, optimized);
  }

  lemma OpenClean(name: Text, value: Text, level: nat, optimized: bool)
    requires NameOk(name)
    ensures var eq := if name == [] then [] else [EQUALS];
            ParseOpen(name + eq + [QUOTE] + value, level, optimized) == Finish(name, value, optimized)
  {
    var eq, n := if name == [] then [] else [EQUALS], |name|;
    var open := name + eq + [QUOTE] + value;
    hide Finish, Level, Leading;
    LeadingIs(open, IsNameChar, n);
    var gap := open[n..];
    assert gap == eq + [QUOTE] + value;
    LeadingIs(gap, IsGap, |eq|);
    assert open[..n] == name && open[n + |eq| + 1..] == value;
  }

  /** The whole way of a token: from the instruction it is recorded on, through copies, to the file and into the
      fuzzer, which gets the same bytes, but for the final NUL of a text, and the same index. */
  lemma TokenRoundTrip(data: Text, isText: bool, kind: Text, name: Text, id: nat, level: nat)
    requires Acceptable(data) && Meant(data, isText) != [] && NameOk(kind) && NameOk(name) && id < U32
    ensures var quoted := Quoted(Printed(data, isText));
            && ReadMeta(MetaText(name, Printed(data, isText))) == Some((quoted, Named(name)))
            && Parse(FileLine(kind, Named(name), id, quoted), level, true) == Token(Meant(data, isText), Some(id))
  {
    var value := Printed(data, isText);
    var full := AFL + kind + Named(name) + [UNDERSCORE] + Hex(id, 8);
    PrintedFinishes(data, isText, full, id);
    MetaReadsBack(name, value);
    hide *;
    assert IndexOf((AFL + kind + Named(name)) + [UNDERSCORE] + Hex(id, 8)) == Some(id) by {
      var s := (AFL + kind + Named(name)) + [UNDERSCORE] + Hex(id, 8);
      assert Power16(8) == U32;
      HexReadsBack(id, 8);
      assert s[|s| - 9] == UNDERSCORE && s[|s| - 8..] == Hex(id, 8);
    }
    FullNameOk(kind, name, id);
    ParseClean(full, value, level, true);
  }

  lemma PrintedFinishes(data: Text, isText: bool, full: Text, id: nat)
    requires Acceptable(data) && Meant(data, isText) != []
    ensures ValueOk(Printed(data, isText))
    ensures forall i :: 0 <= i < |Printed(data, isText)| ==> Printed(data, isText)[i] != 0
    ensures IndexOf(full) == Some(id) ==>
              Finish(full, Printed(data, isText), true) == Token(Meant(data, isText), Some(id))
  {
    var style := if isText then Printable else Binary;
    EscapedIsClean(Meant(data, isText), style);
    EscapedDecodes(Meant(data, isText), style);
    EscapedSize(Meant(data, isText), style);
    hide Escaped, Decode, IndexOf, ValueOk;
  }

  lemma FullNameOk(kind: Text, name: Text, id: nat)
    requires NameOk(kind) && NameOk(name)
    ensures NameOk(AFL + kind + Named(name) + [UNDERSCORE] + Hex(id, 8))
  {
    var n := Named(name);
    assert NameOk(AFL) && NameOk(n) && NameOk([UNDERSCORE]);
    hide NameOk;
  }

  /** What the run-time collector prints parses back too, unless nothing is left of the token. */
  lemma CollectedRoundTrip(data: Text, level: nat)
    requires data != [] && |data| <= MAX_AUTO_EXTRA
    ensures Parse([QUOTE] + Escaped(data, Collected) + [QUOTE, NEWLINE], level, false) == Token(data, None)
  {
    var v := Escaped(data, Collected);
    EscapedDecodes(data, Collected);
    EscapedSize(data, Collected);
    EscapedIsClean(data, Collected);
    ParseClean([], v, level, false);
    assert Finish([], v, false) == Token(data, None);
    hide *;
    BareLine(v);
  }

  lemma BareLine(v: Text)
    ensures [] + [] + Quoted(v) + [NEWLINE] == [QUOTE] + v + [QUOTE, NEWLINE]
  {
  }

  // ----- levels ----------------------------------------------------------------------------------

  /** A number as it is written. */
  function Decimal(n: nat): (d: Text)
    ensures d != [] && forall i :: 0 <= i < |d| ==> IsDigit(d[i])
  {
    if n < 10 then [48 + n] else Decimal(n / 10) + [48 + n % 10]
  }

  lemma {:induction false} NumberAppend(s: Text, c: byte, acc: nat)
    requires IsDigit(c) && forall i :: 0 <= i < |s| ==> IsDigit(s[i])
    ensures Number(s + [c], acc) == 10 * Number(s, acc) + c - 48
    decreases |s|
  {
    if s == [] {
      assert s + [c] == [c];
      assert [c][1..] == [];
    } else {
      assert (s + [c])[1..] == s[1..] + [c];
      NumberAppend(s[1..], c, 10 * acc + s[0] - 48);
    }
  }

  lemma {:induction false} DecimalReadsBack(n: nat)
    ensures Number(Decimal(n), 0) == n
    decreases n
  {
    if n < 10 {
      assert [48 + n][1..] == [];
    } else {
      DecimalReadsBack(n / 10);
      NumberAppend(Decimal(n / 10), 48 + n % 10, 0);
    }
  }

  lemma {:induction false} NumberStops(s: Text, rest: Text, acc: nat)
    requires (forall i :: 0 <= i < |s| ==> IsDigit(s[i])) && (rest == [] || !IsDigit(rest[0]))
    ensures Number(s + rest, acc) == Number(s, acc)
    decreases |s|
  {
    if s == [] {
      assert s + rest == rest;
    } else {
      assert (s + rest)[1..] == s[1..] + rest;
      NumberStops(s[1..], rest, 10 * acc + s[0] - 48);
    }
  }

  lemma LevelReadsBack(n: nat, rest: Text)
    requires n < U32 && (rest == [] || !IsDigit(rest[0]))
    ensures Level(Decimal(n) + rest) == n
  {
    var s := Decimal(n) + rest;
    assert IsDigit(s[0]);
    LeadingIs(s, IsSpace, 0);
    assert s[0..] == s;
    NumberStops(Decimal(n), rest, 0);
    DecimalReadsBack(n);
  }

  /** A line with a level behind the name. */
  function LevelLine(name: Text, n: nat, value: Text): Text
  {
    name + [AT] + Decimal(n) + [EQUALS] + Quoted(value) + [NEWLINE]
  }

  lemma ParseLevel(name: Text, n: nat, value: Text, level: nat)
    requires NameOk(name) && n < U32 && forall i :: 0 <= i < |value| ==> value[i] != 0
    ensures Parse(LevelLine(name, n, value), level, false) ==
            if n > level then Skip else Finish(name + [AT] + Decimal(n), value, false)
  {
    var s := name + [AT] + Decimal(n) + [EQUALS] + Quoted(value);
    OpenLevel(name, n, value, level);
    hide *;
    LevelText(name, Decimal(n), value);
    ParseWhole(s, level, false);
    assert LevelLine(name, n, value) == s + [NEWLINE] by { LevelLineIs(name, n, value); }
  }

  lemma LevelLineIs(name: Text, n: nat, value: Text)
    ensures LevelLine(name, n, value) == name + [AT] + Decimal(n) + [EQUALS] + Quoted(value) + [NEWLINE]
  {
  }

  lemma LevelText(name: Text, d: Text, value: Text)
    requires NameOk(name) && forall i :: 0 <= i < |d| ==> IsDigit(d[i])
    requires forall i :: 0 <= i < |value| ==> value[i] != 0
    ensures var s := name + [AT] + d + [EQUALS] + Quoted(value);
      && s != [] && !IsSpace(s[0]) && s[0] != HASH && s[|s| - 1] == QUOTE && (forall i :: 0 <= i < |s| ==> s[i] != 0)
      && s[..|s| - 1] == name + [AT] + d + [EQUALS, QUOTE] + value
  {
    var s := name + [AT] + d + [EQUALS] + Quoted(value);
    assert s == name + ([AT] + d + [EQUALS] + Quoted(value));
    assert s[0] == if name == [] then AT else name[0];
  }

  lemma OpenLevel(name: Text, n: nat, value: Text, level: nat)
    requires NameOk(name) && n < U32
    ensures ParseOpen(name + [AT] + Decimal(n) + [EQUALS, QUOTE] + value, level, false) ==
            if n > level then Skip else Finish(name + [AT] + Decimal(n), value, false)
  {
    var d, m := Decimal(n), |name|;
    var open := name + [AT] + d + [EQUALS, QUOTE] + value;
    hide Finish, Level, Leading, Decimal;
    LeadingIs(open, IsNameChar, m);
    var behind := open[m + 1..];
    assert behind == d + ([EQUALS, QUOTE] + value);
    LevelReadsBack(n, [EQUALS, QUOTE] + value);
    LeadingIs(behind, IsDigit, |d|);
    var o := m + 1 + |d|;
    assert open[o..] == [EQUALS, QUOTE] + value;
    LeadingIs(open[o..], IsGap, 1);
    assert open[..o] == name + [AT] + d && open[o + 2..] == value;
  }

  /** A token is skipped exactly if its level is above the one asked for, and else loaded with its bytes. */
  lemma LevelsFilter(name: Text, n: nat, data: Text, style: Style, level: nat)
    requires NameOk(name) && n < U32 && data != [] && |data| <= MAX_AUTO_EXTRA
    ensures Parse(LevelLine(name, n, Escaped(data, style)), level, false) ==
            if n > level then Skip else Token(data, None)
  {
    var v := Escaped(data, style);
    EscapedDecodes(data, style);
    EscapedSize(data, style);
    EscapedIsClean(data, style);
    assert forall w :: Finish(w, v, false) == Token(data, None);
    hide *;
    ParseLevel(name, n, v, level);
  }

  // ----- a whole file ----------------------------------------------------------------------------

  datatype Entry = Entry(data: Text, isText: bool, kind: Text, name: Text, id: nat)

  predicate EntryOk(e: Entry)
  {
    Acceptable(e.data) && Meant(e.data, e.isText) != [] && NameOk(e.kind) && NameOk(e.name) && e.id < U32
  }

  function LineOf(e: Entry): Text { FileLine(e.kind, Named(e.name), e.id, Quoted(Printed(e.data, e.isText))) }

  function ExtraOf(e: Entry): Extra { Extra(Meant(e.data, e.isText), Some(e.id)) }

  function LinesOf(entries: seq<Entry>): seq<Text>
  {
    if entries == [] then [] else [LineOf(entries[0])] + LinesOf(entries[1..])
  }

  function ExtrasOf(entries: seq<Entry>): seq<Extra>
  {
    if entries == [] then [] else [ExtraOf(entries[0])] + ExtrasOf(entries[1..])
  }

  lemma EntryLoads(e: Entry, extras: seq<Extra>, level: nat)
    requires EntryOk(e)
    ensures Loaded(extras, Parse(LineOf(e), level, true), true) == Some(extras + [ExtraOf(e)])
  {
    TokenRoundTrip(e.data, e.isText, e.kind, e.name, e.id, level);
    hide Parse, FileLine;
  }

  /** An optimized dictionary loads exactly the tokens it was written from, in order, each with its index. */
  lemma {:induction false} FileRoundTrip(entries: seq<Entry>, extras: seq<Extra>, level: nat)
    requires forall i :: 0 <= i < |entries| ==> EntryOk(entries[i])
    ensures LoadedAll(extras, LinesOf(entries), level, true) == Some(extras + ExtrasOf(entries))
    decreases |entries|
  {
    hide Parse, LineOf, ExtraOf, Loaded, EntryOk, LoadedAll;
    if entries == [] {
      NoLines(extras, level);
      assert extras + [] == extras;
    } else {
      var e, rest := entries[0], entries[1..];
      assert forall i :: 0 <= i < |rest| ==> rest[i] == entries[i + 1];
      EntryLoads(e, extras, level);
      FileRoundTrip(rest, extras + [ExtraOf(e)], level);
      MoreLines(LineOf(e), LinesOf(rest), extras, extras + [ExtraOf(e)], level);
      assert extras + [ExtraOf(e)] + ExtrasOf(rest) == extras + ([ExtraOf(e)] + ExtrasOf(rest));
    }
  }

  lemma NoLines(extras: seq<Extra>, level: nat)
    ensures LoadedAll(extras, [], level, true) == Some(extras)
  {
  }

  lemma MoreLines(line: Text, lines: seq<Text>, extras: seq<Extra>, more: seq<Extra>, level: nat)
    requires Loaded(extras, Parse(line, level, true), true) == Some(more)
    ensures LoadedAll(extras, [line] + lines, level, true) == LoadedAll(more, lines, level, true)
  {
    hide Parse, Loaded;
    assert ([line] + lines)[1..] == lines;
  }

  // ----- what a plain dictionary loads -----------------------------------------------------------

  ghost predicate Known(extras: seq<Extra>, d: Text) { exists e :: e in extras && e.data == d }

  ghost predicate EachOnce(extras: seq<Extra>)
  {
    && (forall j, k :: 0 <= j < k < |extras| ==> extras[j].data != extras[k].data)
    && forall e :: e in extras ==> |e.data| <= MAX_DICT_FILE
  }

  /** A line that ends the load: it does not parse, or its token is too long. */
  predicate Spoils(line: Text, level: nat)
  {
    match Parse(line, level, false)
    case Skip => false
    case Fatal => true
    case Token(d, _) => |d| > MAX_DICT_FILE
  }

  predicate Brings(line: Text, level: nat, d: Text)
  {
    Parse(line, level, false).Token? && Parse(line, level, false).data == d
  }

  ghost predicate SomeSpoils(lines: seq<Text>, level: nat) { exists i :: 0 <= i < |lines| && Spoils(lines[i], level) }

  ghost predicate SomeBrings(lines: seq<Text>, level: nat, d: Text)
  {
    exists i :: 0 <= i < |lines| && Brings(lines[i], level, d)
  }

  lemma OneLine(extras: seq<Extra>, line: Text, level: nat)
    requires EachOnce(extras)
    ensures var r := Loaded(extras, Parse(line, level, false), false);
            && (r.None? <==> Spoils(line, level))
            && (r.Some? ==> EachOnce(r.value)
                            && forall d :: Known(r.value, d) <==> Known(extras, d) || Brings(line, level, d))
  {
    hide Parse;
    var p := Parse(line, level, false);
    if p.Token? && !Known(extras, p.data) && |p.data| <= MAX_DICT_FILE {
      var more := extras + [Extra(p.data, p.index)];
      assert forall e :: e in more <==> e in extras || e == Extra(p.data, p.index);
      assert Known(more, p.data) by {
        assert Extra(p.data, p.index) in more;
      }
      forall j | 0 <= j < |extras| ensures extras[j].data != p.data {
        assert extras[j] in extras;
      }
    }
  }

  lemma LinesSplit(lines: seq<Text>, level: nat)
    requires lines != []
    ensures SomeSpoils(lines, level) <==> Spoils(lines[0], level) || SomeSpoils(lines[1..], level)
    ensures forall d :: SomeBrings(lines, level, d) <==> Brings(lines[0], level, d) || SomeBrings(lines[1..], level, d)
  {
    hide Spoils, Brings;
    var rest := lines[1..];
    assert forall i :: 0 <= i < |rest| ==> rest[i] == lines[i + 1];
    if i :| 0 <= i < |lines| && Spoils(lines[i], level) {
      assert i > 0 ==> rest[i - 1] == lines[i];
    }
    forall d ensures SomeBrings(lines, level, d) <==> Brings(lines[0], level, d) || SomeBrings(rest, level, d) {
      if i :| 0 <= i < |lines| && Brings(lines[i], level, d) {
        assert i > 0 ==> rest[i - 1] == lines[i];
      }
    }
  }

  /** A plain dictionary fails to load exactly if some line spoils it. Otherwise it has the bytes of every token in it,
      each once. */
  lemma {:induction false} PlainDictionaryLoads(extras: seq<Extra>, lines: seq<Text>, level: nat)
    requires EachOnce(extras)
    ensures var r := LoadedAll(extras, lines, level, false);
            && (r.None? <==> SomeSpoils(lines, level))
            && (r.Some? ==> EachOnce(r.value)
                            && forall d :: Known(r.value, d) <==> Known(extras, d) || SomeBrings(lines, level, d))
    decreases |lines|
  {
    if lines == [] {
    } else {
      var p := Parse(lines[0], level, false);
      hide Parse, Spoils, Brings, EachOnce, Known, SomeSpoils, SomeBrings, Loaded;
      OneLine(extras, lines[0], level);
      LinesSplit(lines, level);
      var r := Loaded(extras, p, false);
      if r.Some? {
        PlainDictionaryLoads(r.value, lines[1..], level);
      }
    }
  }
}
