/** The havoc stage: stacks of random tweaks on a buffer that grows and shrinks, and the splicing of two inputs
    before it. */
module Havoc {
  import opened Bytes
  import opened Reachable
  import opened BitFlips
  import opened Stages
  import opened StageRuns
  import opened Tokens
  import opened Overwrite

  const HAVOC_BLK_SMALL := 32

  const HAVOC_BLK_MEDIUM := 128

  const HAVOC_BLK_LARGE := 1500

  const HAVOC_BLK_XL := 32768

  const HAVOC_STACK_POW2 := 7

  const HAVOC_MAX_MULT := 16

  // ----- numbers in memory -----------------------------------------------------------------------

  /** Words are stored with the least significant byte first, or the other way round. */
  function Get16(s: seq<byte>, p: nat, big: bool): (w: int)
    requires p + 2 <= |s|
    ensures 0 <= w < 0x1_0000
  {
    if big then Word(s[p + 1], s[p]) else Word(s[p], s[p + 1])
  }

  function Put16(s: seq<byte>, p: nat, w: int, big: bool): (r: seq<byte>)
    requires p + 2 <= |s| && 0 <= w < 0x1_0000
    ensures |r| == |s|
  {
    Over(s, p, if big then [w / 0x100, w % 0x100] else [w % 0x100, w / 0x100])
  }

  function Get32(s: seq<byte>, p: nat, big: bool): (w: int)
    requires p + 4 <= |s|
    ensures 0 <= w < 0x1_0000_0000
  {
    if big then Dword(s[p + 3], s[p + 2], s[p + 1], s[p]) else Dword(s[p], s[p + 1], s[p + 2], s[p + 3])
  }

  function Bytes32(w: int, big: bool): (r: seq<byte>)
    requires 0 <= w < 0x1_0000_0000
    ensures |r| == 4
  {
    var (lo, hi) := (w % 0x1_0000, w / 0x1_0000);
    if big then [hi / 0x100, hi % 0x100, lo / 0x100, lo % 0x100] else [lo % 0x100, lo / 0x100, hi % 0x100, hi / 0x100]
  }

  function Put32(s: seq<byte>, p: nat, w: int, big: bool): (r: seq<byte>)
    requires p + 4 <= |s| && 0 <= w < 0x1_0000_0000
    ensures |r| == |s|
  {
    Over(s, p, Bytes32(w, big))
  }

  /** The code swaps the bytes of a word to store it the other way round. */
  lemma Swapped(s: seq<byte>, p: nat, w: int)
    requires p + 2 <= |s| && 0 <= w < 0x1_0000
    ensures Put16(s, p, Swap16(w), false) == Put16(s, p, w, true)
    ensures Swap16(Get16(s, p, false)) == Get16(s, p, true)
  {
    Swapped16(s[p], s[p + 1]);
    Parts(w / 0x100, w % 0x100);
  }

  lemma SwappedBytes(w: int)
    requires 0 <= w < 0x1_0000_0000
    ensures Bytes32(Swap32(w), false) == Bytes32(w, true)
  {
    var lo, hi := w % 0x1_0000, w / 0x1_0000;
    SwapHalves(lo, hi);
    SwapParts(lo);
    SwapParts(hi);
    hide Swap32, Swap16;
    assert w == lo + 0x1_0000 * hi;
    var v := Swap32(w);
    assert v % 0x1_0000 == Swap16(hi) && v / 0x1_0000 == Swap16(lo);
  }

  lemma SwapParts(w: int)
    requires 0 <= w < 0x1_0000
    ensures 0 <= Swap16(w) < 0x1_0000 && Swap16(w) % 0x100 == w / 0x100 && Swap16(w) / 0x100 == w % 0x100
  {
    Parts(w / 0x100, w % 0x100);
  }

  // ----- tweaks ----------------------------------------------------------------------------------

  datatype Tweak =
    | Nothing
    | FlipOne(k: nat)
    | Set8(p: nat, v: byte)
    | Set16(p: nat, w: int, big: bool)
    | Set32(p: nat, w: int, big: bool)
    | Add8(p: nat, d: int)
    | Add16(p: nat, d: int, big: bool)
    | Add32(p: nat, d: int, big: bool)
    | Mix(p: nat, v: byte)
    | Delete(p: nat, n: nat)
    | Clone(from: nat, n: nat, to: nat)
    | Block(v: byte, n: nat, to: nat)
    | CopyOver(from: nat, n: nat, to: nat)
    | FillOver(v: byte, n: nat, to: nat)
    | TokenOver(t: Token, to: nat)
    | TokenInto(t: Token, to: nat)

  predicate Small(d: int) { 1 <= d <= ARITH_MAX || 1 <= -d <= ARITH_MAX }

  /** The choices that are open for a buffer with n bytes. */
  predicate Legal(n: nat, tokens: seq<Token>, t: Tweak)
  {
    match t
    case Nothing => true
    case FlipOne(k) => k < 8 * n
    case Set8(p, v) => p < n && v in INTERESTING_8
    case Set16(p, v, _) => p + 2 <= n && v in INTERESTING_16
    case Set32(p, v, _) => p + 4 <= n && v in INTERESTING_32
    case Add8(p, d) => p < n && Small(d)
    case Add16(p, d, _) => p + 2 <= n && Small(d)
    case Add32(p, d, _) => p + 4 <= n && Small(d)
    case Mix(p, v) => p < n && v != 0
    case Delete(p, m) => 0 < m < n && p + m <= n
    case Clone(from, m, to) => 0 < m && from + m <= n && to < n && n + m < MAX_FILE
    case Block(_, m, to) => 0 < m && to < n && n + m < MAX_FILE
    case CopyOver(from, m, to) => 0 < m < n && from + m <= n && to + m <= n
    case FillOver(_, m, to) => 0 < m < n && to + m <= n
    case TokenOver(tok, to) => tok in tokens && to + |tok.data| <= n
    case TokenInto(tok, to) => tok in tokens && to <= n && n + |tok.data| < MAX_FILE
  }

  /** The kinds of tweak that are given up at once for a buffer that is too short, or almost too long. */
  predicate GivesUp(kind: nat, n: nat)
  {
    || (kind in {2, 6, 7, 11, 12, 14} && n < 2) || (kind in {3, 8, 9} && n < 4)
    || (kind == 13 && n + HAVOC_BLK_XL >= MAX_FILE)
  }

  /** What a number that was drawn stands for, with a buffer of n bytes. Nothing happens only where a kind is given
      up, or where a token does not fit. */
  predicate Suits(kind: nat, n: nat, tokens: seq<Token>, t: Tweak)
  {
    if GivesUp(kind, n) then t.Nothing?
    else
      match t
      case Nothing =>
        || (kind == 15 && exists tok :: tok in tokens && |tok.data| > n)
        || (kind == 16 && exists tok :: tok in tokens && n + |tok.data| >= MAX_FILE)
      case FlipOne(_) => kind == 0
      case Set8(_, _) => kind == 1
      case Set16(_, _, _) => kind == 2
      case Set32(_, _, _) => kind == 3
      case Add8(_, d) => kind == if d < 0 then 4 else 5
      case Add16(_, d, _) => kind == if d < 0 then 6 else 7
      case Add32(_, d, _) => kind == if d < 0 then 8 else 9
      case Mix(_, _) => kind == 10
      case Delete(_, m) => (kind == 11 || kind == 12) && m <= HAVOC_BLK_XL
      case Clone(_, m, _) => kind == 13 && m <= HAVOC_BLK_XL
      case Block(_, m, _) => kind == 13 && m <= HAVOC_BLK_XL
      case CopyOver(_, m, _) => kind == 14 && m <= HAVOC_BLK_XL
      case FillOver(_, m, _) => kind == 14 && m <= HAVOC_BLK_XL
      case TokenOver(_, _) => kind == 15
      case TokenInto(_, _) => kind == 16
  }

  /** The last two kinds are drawn only when a flag says that tokens may be used, and there are some. */
  ghost predicate Drawn(useExtras: bool, n: nat, tokens: seq<Token>, t: Tweak)
  {
    exists kind: nat :: kind < (if useExtras && tokens != [] then 17 else 15) && Suits(kind, n, tokens, t)
  }

  function Into(s: seq<byte>, p: nat, t: seq<byte>): seq<byte>
    requires p <= |s|
  {
    s[..p] + t + s[p..]
  }

  function Apply(s: seq<byte>, tokens: seq<Token>, t: Tweak): seq<byte>
    requires Legal(|s|, tokens, t)
  {
    match t
    case Nothing => s
    case FlipOne(k) => FlipBit(s, k)
    case Set8(p, v) => s[p := v]
    case Set16(p, v, big) => Put16(s, p, v % 0x1_0000, big)
    case Set32(p, v, big) => Put32(s, p, v % 0x1_0000_0000, big)
    case Add8(p, d) => s[p := Wrap(s[p] + d, 0x100)]
    case Add16(p, d, big) => Put16(s, p, Wrap(Get16(s, p, big) + d, 0x1_0000), big)
    case Add32(p, d, big) => Put32(s, p, Wrap(Get32(s, p, big) + d, 0x1_0000_0000), big)
    case Mix(p, v) => s[p := Flip(s[p], v)]
    case Delete(p, n) => s[..p] + s[p + n..]
    case Clone(from, n, to) => Into(s, to, s[from..from + n])
    case Block(v, n, to) => Into(s, to, seq(n, _ => v))
    case CopyOver(from, n, to) => Over(s, to, s[from..from + n])
    case FillOver(v, n, to) => Over(s, to, seq(n, _ => v))
    case TokenOver(tok, to) => Over(s, to, tok.data)
    case TokenInto(tok, to) => Into(s, to, tok.data)
  }

  ghost function Run(s: seq<byte>, tokens: seq<Token>, ts: seq<Tweak>): seq<byte>
  {
    if ts == [] then s else
      var (r, t) := (Run(s, tokens, ts[..|ts| - 1]), ts[|ts| - 1]);
      if Legal(|r|, tokens, t) then Apply(r, tokens, t) else r
  }

  ghost predicate LegalRun(useExtras: bool, s: seq<byte>, tokens: seq<Token>, ts: seq<Tweak>)
  {
    forall k :: 0 <= k < |ts| ==>
      var n := |Run(s, tokens, ts[..k])|;
      Legal(n, tokens, ts[k]) && Drawn(useExtras, n, tokens, ts[k])
  }

  lemma {:induction false} RunInBounds(s: seq<byte>, tokens: seq<Token>, ts: seq<Tweak>)
    requires 1 <= |s| <= MAX_FILE
    ensures 1 <= |Run(s, tokens, ts)| <= MAX_FILE
  {
    if ts != [] {
      var (r, t) := (Run(s, tokens, ts[..|ts| - 1]), ts[|ts| - 1]);
      RunInBounds(s, tokens, ts[..|ts| - 1]);
      if Legal(|r|, tokens, t) {
      }
    }
  }

  // ----- in place --------------------------------------------------------------------------------

  /** Any number below the limit. */
  method UR(limit: nat) returns (r: nat)
    requires limit > 0
    ensures r < limit
  {
    r :| 0 <= r < limit;
  }

  method SmallStep() returns (d: int)
    ensures 1 <= d <= ARITH_MAX
  {
    var r := UR(ARITH_MAX);
    d := 1 + r;
  }

  /** Never zero, and never more than the limit. */
  method ChooseBlockLen(limit: nat, queueCycle: nat, runOver10m: bool) returns (n: nat)
    requires limit > 0 && queueCycle > 0
    ensures 1 <= n <= Min(limit, HAVOC_BLK_XL)
    ensures !runOver10m || queueCycle == 1 ==> n <= HAVOC_BLK_SMALL
    ensures queueCycle == 2 ==> n <= HAVOC_BLK_MEDIUM
  {
    var rlim: nat := if runOver10m then Min(queueCycle, 3) else 1;
    var minValue, maxValue;
    var choice := UR(rlim);
    if choice == 0 {
      minValue, maxValue := 1, HAVOC_BLK_SMALL;
    } else if choice == 1 {
      minValue, maxValue := HAVOC_BLK_SMALL, HAVOC_BLK_MEDIUM;
    } else {
      var large := UR(10);
      if large != 0 {
        minValue, maxValue := HAVOC_BLK_MEDIUM, HAVOC_BLK_LARGE;
      } else {
        minValue, maxValue := HAVOC_BLK_LARGE, HAVOC_BLK_XL;
      }
    }
    if minValue >= limit {
      minValue := 1;
    }
    var r := UR(Min(maxValue, limit) - minValue + 1);
    n := minValue + r;
  }

  lemma OverOne(s: seq<byte>, p: nat, v: byte)
    requires p < |s|
    ensures Over(s, p, [v]) == s[p := v]
  {
  }

  lemma Chunk(s: seq<byte>, m: nat, from: nat, n: nat)
    requires from + n <= m <= |s|
    ensures s[..m][from..from + n] == s[from..from + n]
  {
  }

  class Havoc {
    const fuzzer: Fuzzer
    const inBuf: array<byte>
    const extras: seq<Token>
    const autos: seq<Token>
    const queueCycle: nat
    const runOver10m: bool
    var outBuf: array<byte>
    var tempLen: nat

    ghost predicate Valid()
      reads this
    {
      && 1 <= tempLen <= outBuf.Length && tempLen <= MAX_FILE && outBuf != inBuf && 1 <= inBuf.Length <= MAX_FILE
      && queueCycle > 0 && Proper(extras) && Proper(autos)
    }

    constructor (f: Fuzzer, data: array<byte>, user: seq<Token>, learned: seq<Token>, cycle: nat, over10m: bool)
      requires 1 <= data.Length <= MAX_FILE && Proper(user) && Proper(learned) && cycle > 0
      ensures Valid() && fuzzer == f && inBuf == data && extras == user && autos == learned
      ensures fresh(outBuf) && Contents() == data[..]
    {
      fuzzer, inBuf, extras, autos, queueCycle, runOver10m := f, data, user, learned, cycle, over10m;
      outBuf := new byte[data.Length](i requires 0 <= i < data.Length reads data => data[i]);
      tempLen := data.Length;
    }

    ghost function Contents(): (s: seq<byte>)
      requires Valid()
      reads this, outBuf
      ensures |s| == tempLen
    {
      outBuf[..tempLen]
    }

    ghost function Known(): seq<Token> { extras + autos }

    method Poke(p: nat, data: seq<byte>)
      requires Valid() && p + |data| <= tempLen
      modifies outBuf
      ensures Contents() == Over(old(Contents()), p, data)
    {
      ghost var was := outBuf[..];
      WriteAt(outBuf, p, data);
      assert Over(was, p, data)[..tempLen] == Over(was[..tempLen], p, data);
    }

    /** What one tweak does, in terms of what it chose. */
    twostate predicate Tweaked(t: Tweak)
      requires old(Valid()) && Valid()
      reads this, outBuf
    {
      Legal(|old(Contents())|, Known(), t) && Contents() == Apply(old(Contents()), Known(), t)
    }

    method TweakByte(kind: nat) returns (ghost t: Tweak)
      requires Valid() && kind in {0, 1, 4, 5, 10}
      modifies outBuf
      ensures Valid() && Tweaked(t) && Suits(kind, tempLen, Known(), t)
    {
      ghost var s := Contents();
      if kind == 0 {
        var k := UR(8 * tempLen);
        OverOne(s, k / 8, Flip(s[k / 8], High(k % 8)));
        Poke(k / 8, [Flip(outBuf[k / 8], High(k % 8))]);
        t := FlipOne(k);
        return;
      }
      var p := UR(tempLen);
      var v: byte;
      if kind == 1 {
        var k := UR(|INTERESTING_8|);
        v := INTERESTING_8[k];
        t := Set8(p, v);
      } else if kind == 4 {
        var d := SmallStep();
        v := Wrap(outBuf[p] - d, 0x100);
        t := Add8(p, -d);
      } else if kind == 5 {
        var d := SmallStep();
        v := Wrap(outBuf[p] + d, 0x100);
        t := Add8(p, d);
      } else {
        var r := UR(255);
        v := Flip(outBuf[p], 1 + r);
        t := Mix(p, 1 + r);
      }
      OverOne(s, p, v);
      Poke(p, [v]);
    }

    /** The code swaps the bytes of what it reads and writes where they are the other way round. */
    method Load16(p: nat, big: bool) returns (w: int)
      requires Valid() && p + 2 <= tempLen
      ensures w == Get16(Contents(), p, big)
    {
      Swapped(Contents(), p, 0);
      w := Word(outBuf[p], outBuf[p + 1]);
      w := if big then Swap16(w) else w;
    }

    method Store16(p: nat, w: int, big: bool)
      requires Valid() && p + 2 <= tempLen && 0 <= w < 0x1_0000
      modifies outBuf
      ensures Contents() == Put16(old(Contents()), p, w, big)
    {
      Swapped(Contents(), p, w);
      var v := if big then Swap16(w) else w;
      Poke(p, [v % 0x100, v / 0x100]);
    }

    method Load32(p: nat, big: bool) returns (w: int)
      requires Valid() && p + 4 <= tempLen
      ensures w == Get32(Contents(), p, big)
    {
      Swapped16(outBuf[p], outBuf[p + 1]);
      Swapped16(outBuf[p + 2], outBuf[p + 3]);
      SwapHalves(Word(outBuf[p], outBuf[p + 1]), Word(outBuf[p + 2], outBuf[p + 3]));
      hide Word, Swap16, Swap32;
      w := Dword(outBuf[p], outBuf[p + 1], outBuf[p + 2], outBuf[p + 3]);
      w := if big then Swap32(w) else w;
    }

    method Store32(p: nat, w: int, big: bool)
      requires Valid() && p + 4 <= tempLen && 0 <= w < 0x1_0000_0000
      modifies outBuf
      ensures Contents() == Put32(old(Contents()), p, w, big)
    {
      SwappedBytes(w);
      hide Bytes32, Swap32;
      var v := if big then Swap32(w) else w;
      Poke(p, Bytes32(v, false));
    }

    method TweakWord(kind: nat) returns (ghost t: Tweak)
      requires Valid() && kind in {2, 6, 7}
      modifies outBuf
      ensures Valid() && Tweaked(t) && Suits(kind, tempLen, Known(), t)
    {
      t := Nothing;
      if tempLen < 2 {
        return;
      }
      var little := UR(2);
      var p := UR(tempLen - 1);
      hide Get16, Put16;
      if kind == 2 {
        var k := UR(|INTERESTING_16|);
        t := Set16(p, INTERESTING_16[k], little == 0);
        Store16(p, INTERESTING_16[k] % 0x1_0000, little == 0);
      } else {
        var d := SmallStep();
        d := if kind == 6 then -d else d;
        t := Add16(p, d, little == 0);
        var w := Load16(p, little == 0);
        Store16(p, Wrap(w + d, 0x1_0000), little == 0);
      }
    }

    method TweakDword(kind: nat) returns (ghost t: Tweak)
      requires Valid() && kind in {3, 8, 9}
      modifies outBuf
      ensures Valid() && Tweaked(t) && Suits(kind, tempLen, Known(), t)
    {
      t := Nothing;
      if tempLen < 4 {
        return;
      }
      var little := UR(2);
      var p := UR(tempLen - 3);
      if kind == 3 {
        var k := UR(|INTERESTING_32|);
        hide Get32, Put32;
        t := Set32(p, INTERESTING_32[k], little == 0);
        Store32(p, INTERESTING_32[k] % 0x1_0000_0000, little == 0);
      } else {
        var d := SmallStep();
        t := AddDword(p, if kind == 8 then -d else d, little == 0);
      }
    }

    method AddDword(p: nat, d: int, big: bool) returns (ghost t: Tweak)
      requires Valid() && p + 4 <= tempLen && Small(d)
      modifies outBuf
      ensures Valid() && Tweaked(t) && t == Add32(p, d, big)
    {
      hide Get32, Put32;
      t := Add32(p, d, big);
      var w := Load32(p, big);
      Store32(p, Wrap(w + d, 0x1_0000_0000), big);
    }

    method DeleteBlock() returns (ghost t: Tweak)
      requires Valid()
      modifies outBuf, `tempLen
      ensures Valid() && Tweaked(t)
      ensures Suits(11, old(tempLen), Known(), t) && Suits(12, old(tempLen), Known(), t)
    {
      t := Nothing;
      if tempLen < 2 {
        return;
      }
      var n := ChooseBlockLen(tempLen - 1, queueCycle, runOver10m);
      var p := UR(tempLen - n + 1);
      t := Delete(p, n);
      ApplyDelete(Contents(), Known(), p, n);
      hide Apply, Legal, Suits;
      CloseGap(p, n);
    }

    method CloseGap(p: nat, n: nat)
      requires Valid() && 0 < n < tempLen && p + n <= tempLen
      modifies outBuf, `tempLen
      ensures Valid() && Contents() == old(Contents()[..p] + Contents()[p + n..])
    {
      ghost var s := Contents();
      Move(outBuf, p, p + n, tempLen - p - n);
      tempLen := tempLen - n;
      assert Contents() == s[..p] + s[p + n..];
    }

    lemma ApplyDelete(s: seq<byte>, tokens: seq<Token>, p: nat, n: nat)
      requires 0 < n < |s| && p + n <= |s| && n <= HAVOC_BLK_XL
      ensures var t := Delete(p, n);
              && Legal(|s|, tokens, t) && Apply(s, tokens, t) == s[..p] + s[p + n..]
              && Suits(11, |s|, tokens, t) && Suits(12, |s|, tokens, t)
    {
    }

    /** A block is put between the bytes, in a new buffer of just the right size. */
    method Widen(p: nat, data: seq<byte>)
      requires Valid() && p <= tempLen && tempLen + |data| <= MAX_FILE
      modifies `outBuf, `tempLen
      ensures Valid() && fresh(outBuf) && Contents() == Into(old(Contents()), p, data)
    {
      ghost var s := Contents();
      var newBuf := new byte[tempLen + |data|];
      Copy(newBuf, 0, outBuf, 0, p);
      assert newBuf[..p] == s[..p];
      WriteAt(newBuf, p, data);
      assert newBuf[..p] == s[..p] && newBuf[p..p + |data|] == data;
      ghost var head := newBuf[..p + |data|];
      Copy(newBuf, p + |data|, outBuf, p, tempLen - p);
      assert newBuf[..p + |data|] == head == s[..p] + data;
      assert newBuf[p + |data|..] == s[p..];
      assert newBuf[..] == newBuf[..p + |data|] + newBuf[p + |data|..];
      outBuf := newBuf;
      tempLen := tempLen + |data|;
    }

    method CloneBlock() returns (ghost t: Tweak)
      requires Valid()
      modifies `outBuf, `tempLen
      ensures Valid() && (outBuf == old(outBuf) || fresh(outBuf)) && Tweaked(t)
      ensures Suits(13, old(tempLen), Known(), t)
    {
      t := Nothing;
      if tempLen + HAVOC_BLK_XL >= MAX_FILE {
        return;
      }
      var actuallyClone := UR(4);
      if actuallyClone != 0 {
        var n := ChooseBlockLen(tempLen, queueCycle, runOver10m);
        var from := UR(tempLen - n + 1);
        var to := UR(tempLen);
        t := Clone(from, n, to);
        Chunk(outBuf[..], tempLen, from, n);
        assert outBuf[from..from + n] == outBuf[..][from..from + n];
        Widen(to, outBuf[from..from + n]);
      } else {
        var n := ChooseBlockLen(HAVOC_BLK_XL, queueCycle, runOver10m);
        var to := UR(tempLen);
        var v := AnyOrOwn();
        t := Block(v, n, to);
        Widen(to, seq(n, _ => v));
      }
    }

    method AnyOrOwn() returns (v: byte)
      requires Valid()
    {
      var any := UR(2);
      var p := UR(tempLen);
      v := outBuf[p];
      if any != 0 {
        var r := UR(256);
        v := r;
      }
    }

    method CopyChunk(from: nat, n: nat, to: nat)
      requires Valid() && from + n <= tempLen && to + n <= tempLen
      modifies outBuf
      ensures Contents() == Over(old(Contents()), to, old(Contents())[from..from + n])
    {
      ghost var s := Contents();
      Chunk(outBuf[..], tempLen, from, n);
      assert outBuf[from..from + n] == outBuf[..][from..from + n];
      if from != to {
        Poke(to, outBuf[from..from + n]);
      } else {
        assert Over(s, to, s[from..from + n]) == s;
      }
    }

    method CopyBlock() returns (ghost t: Tweak)
      requires Valid()
      modifies outBuf
      ensures Valid() && Tweaked(t) && Suits(14, tempLen, Known(), t)
    {
      t := Nothing;
      if tempLen < 2 {
        return;
      }
      var n := ChooseBlockLen(tempLen - 1, queueCycle, runOver10m);
      var from := UR(tempLen - n + 1);
      var to := UR(tempLen - n + 1);
      hide Apply, Over;
      var actuallyCopy := UR(4);
      if actuallyCopy != 0 {
        t := CopyOver(from, n, to);
        ApplyCopy(Contents(), Known(), from, n, to);
        CopyChunk(from, n, to);
      } else {
        var v := AnyOrOwn();
        t := FillOver(v, n, to);
        ApplyFill(Contents(), Known(), v, n, to);
        Poke(to, seq(n, _ => v));
      }
    }

    lemma ApplyCopy(s: seq<byte>, tokens: seq<Token>, from: nat, n: nat, to: nat)
      requires Legal(|s|, tokens, CopyOver(from, n, to))
      ensures Apply(s, tokens, CopyOver(from, n, to)) == Over(s, to, s[from..from + n])
    {
    }

    lemma ApplyFill(s: seq<byte>, tokens: seq<Token>, v: byte, n: nat, to: nat)
      requires Legal(|s|, tokens, FillOver(v, n, to))
      ensures Apply(s, tokens, FillOver(v, n, to)) == Over(s, to, seq(n, _ => v))
    {
    }

    /** A token that was given, or one that was learned. */
    method PickToken() returns (t: Token)
      requires extras != [] || autos != []
      ensures t in Known()
    {
      var learned := UR(2);
      if extras == [] || (autos != [] && learned != 0) {
        var i := UR(|autos|);
        t := autos[i];
      } else {
        var i := UR(|extras|);
        t := extras[i];
      }
    }

    method OverwriteToken() returns (ghost t: Tweak)
      requires Valid() && (extras != [] || autos != [])
      modifies outBuf
      ensures Valid() && Tweaked(t) && Suits(15, tempLen, Known(), t)
    {
      var tok := PickToken();
      t := Nothing;
      if |tok.data| > tempLen {
        return;
      }
      var at := UR(tempLen - |tok.data| + 1);
      t := TokenOver(tok, at);
      Poke(at, tok.data);
    }

    method InsertToken() returns (ghost t: Tweak)
      requires Valid() && (extras != [] || autos != [])
      modifies `outBuf, `tempLen
      ensures Valid() && (outBuf == old(outBuf) || fresh(outBuf)) && Tweaked(t)
      ensures Suits(16, old(tempLen), Known(), t)
    {
      var at := UR(tempLen + 1);
      var tok := PickToken();
      t := Nothing;
      if tempLen + |tok.data| >= MAX_FILE {
        return;
      }
      t := TokenInto(tok, at);
      Widen(at, tok.data);
    }

    /** One tweak; the last two kinds are open only when a flag says that tokens may be used. */
    method TweakOnce(useExtras: bool) returns (ghost t: Tweak)
      requires Valid()
      modifies this`outBuf, this`tempLen, outBuf
      ensures Valid() && (outBuf == old(outBuf) || fresh(outBuf)) && Tweaked(t)
      ensures Drawn(useExtras, |old(Contents())|, Known(), t)
    {
      hide Legal, Apply, Suits;
      var kind := UR(if useExtras && |extras| + |autos| > 0 then 17 else 15);
      if kind in {0, 1, 4, 5, 10} {
        t := TweakByte(kind);
      } else if kind in {2, 6, 7} {
        t := TweakWord(kind);
      } else if kind in {3, 8, 9} {
        t := TweakDword(kind);
      } else if kind == 11 || kind == 12 {
        t := DeleteBlock();
      } else if kind == 13 {
        t := CloneBlock();
      } else if kind == 14 {
        t := CopyBlock();
      } else if kind == 15 {
        t := OverwriteToken();
      } else {
        t := InsertToken();
      }
      assert Suits(kind, |old(Contents())|, Known(), t);
    }

    /** The buffer has been tweaked as listed, and can hold what it should. */
    ghost predicate Stacked(useExtras: bool, b: seq<byte>, ts: seq<Tweak>)
      reads this, outBuf
    {
      Valid() && LegalRun(useExtras, b, Known(), ts) && Contents() == Run(b, Known(), ts)
    }

    method TweakMore(useExtras: bool, ghost b: seq<byte>, ghost ts: seq<Tweak>) returns (ghost t: Tweak)
      requires Stacked(useExtras, b, ts)
      modifies this`outBuf, this`tempLen, outBuf
      ensures (outBuf == old(outBuf) || fresh(outBuf)) && Stacked(useExtras, b, ts + [t])
    {
      hide Run, LegalRun, Legal, Apply, Drawn;
      t := TweakOnce(useExtras);
      RunMore(useExtras, b, Known(), ts, t);
    }

    method Stack(useExtras: bool, n: nat) returns (ghost ts: seq<Tweak>)
      requires Valid() && Contents() == inBuf[..]
      modifies this`outBuf, this`tempLen, outBuf
      ensures (outBuf == old(outBuf) || fresh(outBuf)) && |ts| == n && Stacked(useExtras, inBuf[..], ts)
    {
      ghost var b := inBuf[..];
      ts := [];
      for i := 0 to n
        invariant (outBuf == old(outBuf) || fresh(outBuf)) && inBuf[..] == b && |ts| == i && Stacked(useExtras, b, ts)
      {
        ghost var t := TweakMore(useExtras, b, ts);
        ts := ts + [t];
      }
    }

    /** What was executed came from the input by a legal stack of tweaks, a power of two of them from 2 to 128. */
    ghost predicate Havocked(useExtras: bool, b: seq<byte>, e: seq<byte>)
    {
      exists ts :: |ts| in {2, 4, 8, 16, 32, 64, 128} && LegalRun(useExtras, b, Known(), ts) && e == Run(b, Known(), ts)
    }

    lemma IsHavocked(useExtras: bool, b: seq<byte>, ts: seq<Tweak>)
      requires Stacked(useExtras, b, ts) && |ts| in {2, 4, 8, 16, 32, 64, 128}
      ensures Valid() && Havocked(useExtras, b, outBuf[..tempLen])
    {
      hide Run, LegalRun;
    }

    /** The buffer grows back if it has become too short. */
    method Restore()
      requires Valid()
      modifies this`outBuf, this`tempLen, outBuf
      ensures Valid() && (outBuf == old(outBuf) || fresh(outBuf)) && Contents() == inBuf[..]
    {
      var len := inBuf.Length;
      if tempLen < len {
        outBuf := new byte[len];
      }
      tempLen := len;
      Copy(outBuf, 0, inBuf, 0, len);
      assert Contents() == inBuf[..];
    }

    /** One round, after which the buffer is as before. */
    method Round(useExtras: bool) returns (failed: bool)
      requires Valid() && Contents() == inBuf[..]
      modifies this`outBuf, this`tempLen, outBuf, fuzzer`execs, fuzzer`traceBits
      ensures (outBuf == old(outBuf) || fresh(outBuf)) && Valid() && |fuzzer.execs| == |old(fuzzer.execs)| + 1
      ensures fuzzer.execs[..|old(fuzzer.execs)|] == old(fuzzer.execs)
      ensures var e := fuzzer.execs[|old(fuzzer.execs)|]; Havocked(useExtras, inBuf[..], e) && 1 <= |e| <= MAX_FILE
      ensures !failed ==> Contents() == inBuf[..]
    {
      hide Run, LegalRun;
      var power := UR(HAVOC_STACK_POW2);
      var stacking := Shift(1 + power);
      ghost var ts := Stack(useExtras, stacking);
      IsHavocked(useExtras, inBuf[..], ts);
      hide Havocked, Stacked;
      failed := fuzzer.CommonFuzzStuff(outBuf, tempLen);
      if failed {
        return;
      }
      Restore();
    }

    /** Rounds as long as they are worth it; new finds double their number, up to a limit on the score. */
    method HavocStage(useExtras: bool, rounds: nat, score: nat, finds: nat -> bool) returns (failed: bool)
      requires Valid() && Contents() == inBuf[..] && score > 0
      modifies this`outBuf, this`tempLen, outBuf, fuzzer`execs, fuzzer`traceBits
      ensures Valid() && |old(fuzzer.execs)| <= |fuzzer.execs|
              && fuzzer.execs[..|old(fuzzer.execs)|] == old(fuzzer.execs)
      ensures forall k :: |old(fuzzer.execs)| <= k < |fuzzer.execs| ==>
                Havocked(useExtras, inBuf[..], fuzzer.execs[k]) && 1 <= |fuzzer.execs[k]| <= MAX_FILE
      ensures !failed ==> Contents() == inBuf[..]
    {
      hide Havocked;
      ghost var b, n := inBuf[..], |fuzzer.execs|;
      var stageMax: int, perfScore: int, stageCur: int := rounds, score, 0;
      failed := false;
      while stageCur < stageMax
        invariant (outBuf == old(outBuf) || fresh(outBuf)) && Valid() && inBuf[..] == b && Contents() == b
                  && perfScore > 0
        invariant n <= |fuzzer.execs| && fuzzer.execs[..n] == old(fuzzer.execs)
        invariant forall k :: n <= k < |fuzzer.execs| ==>
                    Havocked(useExtras, b, fuzzer.execs[k]) && 1 <= |fuzzer.execs[k]| <= MAX_FILE
        decreases Max(0, HAVOC_MAX_MULT * 100 + 1 - perfScore), stageMax - stageCur
      {
        ghost var before := fuzzer.execs;
        failed := Round(useExtras);
        assert forall k :: 0 <= k < |before| ==> fuzzer.execs[k] == fuzzer.execs[..|before|][k] == before[k];
        if failed {
          return;
        }
        if finds(|fuzzer.execs|) && perfScore <= HAVOC_MAX_MULT * 100 {
          stageMax, perfScore := stageMax * 2, perfScore * 2;
        }
        stageCur := stageCur + 1;
      }
    }
  }

  method Shift(k: nat) returns (r: nat)
    requires 1 <= k <= 7
    ensures r in {2, 4, 8, 16, 32, 64, 128}
  {
    r := if k == 1 then 2 else if k == 2 then 4 else if k == 3 then 8 else if k == 4 then 16
         else if k == 5 then 32 else if k == 6 then 64 else 128;
  }

  lemma RunMore(useExtras: bool, s: seq<byte>, tokens: seq<Token>, ts: seq<Tweak>, t: Tweak)
    requires LegalRun(useExtras, s, tokens, ts) && Legal(|Run(s, tokens, ts)|, tokens, t)
    requires Drawn(useExtras, |Run(s, tokens, ts)|, tokens, t)
    ensures LegalRun(useExtras, s, tokens, ts + [t]) && Run(s, tokens, ts + [t]) == Apply(Run(s, tokens, ts), tokens, t)
  {
    hide Drawn, Legal;
    var more := ts + [t];
    assert more[..|ts|] == ts;
    forall k | 0 <= k < |more|
      ensures Legal(|Run(s, tokens, more[..k])|, tokens, more[k])
              && Drawn(useExtras, |Run(s, tokens, more[..k])|, tokens, more[k])
    {
      assert k < |ts| ==> more[..k] == ts[..k];
    }
  }

  // ----- splicing --------------------------------------------------------------------------------

  /** The first and the last position at which two buffers differ, or -1. */
  method LocateDiffs(a: seq<byte>, b: seq<byte>, n: nat) returns (first: int, last: int)
    requires n <= |a| && n <= |b|
    ensures if a[..n] == b[..n] then first == last == -1
            else 0 <= first <= last < n && a[..first] == b[..first] && a[first] != b[first]
                 && a[last] != b[last] && forall k :: last < k < n ==> a[k] == b[k]
  {
    first, last := -1, -1;
    for pos := 0 to n
      invariant if first == -1 then last == -1 && a[..pos] == b[..pos]
                else 0 <= first <= last < pos && a[..first] == b[..first] && a[first] != b[first]
                     && a[last] != b[last] && forall k :: last < k < pos ==> a[k] == b[k]
    {
      if a[pos] != b[pos] {
        if first == -1 {
          first := pos;
        }
        last := pos;
      }
    }
  }

  /** Two inputs are put together somewhere between their first and their last difference. The result is never
      the current input; it is the other one exactly if they are cut right at the first difference. */
  method Splice(current: seq<byte>, target: seq<byte>)
    returns (ok: bool, splitAt: nat, spliced: seq<byte>, ghost first: int)
    ensures ok ==> 0 <= first <= splitAt < Min(|current|, |target|) && current[..first] == target[..first]
                   && current[first] != target[first]
    ensures ok ==> spliced == current[..splitAt] + target[splitAt..] != current
    ensures ok ==> (spliced == target <==> splitAt == first)
  {
    splitAt, spliced := 0, [];
    var n := Min(|current|, |target|);
    var first', last := LocateDiffs(current, target, n);
    first := first';
    ok := !(first' < 0 || last < 2 || first' == last);
    if !ok {
      return;
    }
    var r := UR(last - first');
    splitAt := first' + r;
    spliced := current[..splitAt] + target[splitAt..];
    assert spliced[last] == target[last];
    assert splitAt > first ==> spliced[first] == current[first];
    assert splitAt == first ==> target == target[..splitAt] + target[splitAt..];
  }
}
