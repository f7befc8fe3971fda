/** The dictionary stages of afl-fuzz: every token is written over every position, and inserted everywhere. */
module Overwrite {
  import opened Bytes
  import opened StageRuns
  import opened Tokens

  const MAX_FILE := 1024 * 1024

  /** There is no effector map when the deterministic stages were skipped. */
  datatype Effect = Unknown | Known(map_: seq<bool>)

  function Over(b: seq<byte>, i: nat, t: seq<byte>): (r: seq<byte>)
    requires i + |t| <= |b|
    ensures |r| == |b|
  {
    b[..i] + t + b[i + |t|..]
  }

  /** A token is tried where it fits, unless no block it covers has an effect. */
  predicate Eligible(n: nat, i: nat, t: seq<byte>, eff: Effect)
    requires i < n && |t| > 0 && (eff.Known? ==> |eff.map_| == EffLen(n))
  {
    |t| <= n - i && (eff.Unknown? || exists g :: i / 8 <= g <= (i + |t| - 1) / 8 && At(eff.map_, g))
  }

  predicate At(map_: seq<bool>, g: int) { 0 <= g < |map_| && map_[g] }

  ghost predicate Fits(n: nat, eff: Effect) { eff.Known? ==> |eff.map_| == EffLen(n) }

  function Last(b: seq<byte>, log: seq<seq<byte>>): seq<byte> { if log == [] then b else log[|log| - 1] }

  /** What should run at a position: the original with one token in it, for each token in turn, but nothing
      twice in a row. */
  ghost function Tried(b: seq<byte>, i: nat, ts: seq<Token>, eff: Effect): (log: seq<seq<byte>>)
    requires i < |b| && Proper(ts) && Fits(|b|, eff)
  {
    if ts == [] then [] else
      var (log, t) := (Tried(b, i, ts[..|ts| - 1], eff), ts[|ts| - 1].data);
      if Eligible(|b|, i, t, eff) && Over(b, i, t) != Last(b, log) then log + [Over(b, i, t)] else log
  }

  ghost function TriedAll(b: seq<byte>, n: nat, ts: seq<Token>, eff: Effect): seq<seq<byte>>
    requires n <= |b| && Proper(ts) && Fits(|b|, eff)
  {
    if n == 0 then [] else TriedAll(b, n - 1, ts, eff) + Tried(b, n - 1, ts, eff)
  }

  /** Every token put between the bytes, as long as the result is not too large. */
  function Inserted(b: seq<byte>, i: nat, ts: seq<Token>): seq<seq<byte>>
    requires i <= |b|
  {
    if ts == [] then [] else
      var (log, t) := (Inserted(b, i, ts[..|ts| - 1]), ts[|ts| - 1].data);
      if |b| + |t| <= MAX_FILE then log + [b[..i] + t + b[i..]] else log
  }

  function InsertedAll(b: seq<byte>, n: nat, ts: seq<Token>): seq<seq<byte>>
    requires n <= |b| + 1
  {
    if n == 0 then [] else InsertedAll(b, n - 1, ts) + Inserted(b, n - 1, ts)
  }

  /** The input with a token at position i, if that is not too long. */
  ghost predicate HasToken(b: seq<byte>, i: nat, ts: seq<Token>, e: seq<byte>)
    requires i <= |b|
  {
    exists t :: t in ts && |b| + |t.data| <= MAX_FILE && e == b[..i] + t.data + b[i..]
  }

  lemma {:induction false} InsertedIs(b: seq<byte>, i: nat, ts: seq<Token>, e: seq<byte>)
    requires i <= |b|
    ensures e in Inserted(b, i, ts) <==> HasToken(b, i, ts, e)
    decreases |ts|
  {
    if ts != [] {
      var init, t := ts[..|ts| - 1], ts[|ts| - 1];
      InsertedIs(b, i, init, e);
      assert ts == init + [t];
      hide Inserted;
      assert forall u :: u in ts <==> u in init || u == t;
    }
  }

  /** The inputs of the insertion stage: one token each, at any position, both ends included. */
  lemma {:induction false} InsertedAllIs(b: seq<byte>, n: nat, ts: seq<Token>, e: seq<byte>)
    requires n <= |b| + 1
    ensures e in InsertedAll(b, n, ts) <==> exists i :: 0 <= i < n && HasToken(b, i, ts, e)
    decreases n
  {
    if n > 0 {
      InsertedAllIs(b, n - 1, ts, e);
      InsertedIs(b, n - 1, ts, e);
      hide HasToken, Inserted;
    }
  }

  lemma {:induction false} InsertedPrefix(b: seq<byte>, i: nat, ts: seq<Token>, j: nat)
    requires i <= |b| && j <= |ts|
    ensures Inserted(b, i, ts[..j]) <= Inserted(b, i, ts)
    decreases |ts|
  {
    if j == |ts| {
      assert ts[..j] == ts;
    } else {
      var ts' := ts[..|ts| - 1];
      InsertedPrefix(b, i, ts', j);
      assert ts'[..j] == ts[..j];
    }
  }

  lemma {:induction false} InsertedAllPrefix(b: seq<byte>, m: nat, n: nat, ts: seq<Token>)
    requires m <= n <= |b| + 1
    ensures InsertedAll(b, m, ts) <= InsertedAll(b, n, ts)
    decreases n
  {
    if m < n {
      InsertedAllPrefix(b, m, n - 1, ts);
    }
  }

  /** Nothing but the original with one token is executed, and no such buffer is lost, except the original. */
  lemma {:induction false} TriedIs(b: seq<byte>, i: nat, ts: seq<Token>, eff: Effect, x: seq<byte>)
    requires i < |b| && Proper(ts) && Fits(|b|, eff)
    ensures x in Tried(b, i, ts, eff) ==> exists j :: 0 <= j < |ts| && Makes(b, i, ts[j].data, eff, x)
    ensures x != b && (exists j :: 0 <= j < |ts| && Makes(b, i, ts[j].data, eff, x)) ==> x in Tried(b, i, ts, eff)
  {
    if ts != [] {
      var n := |ts| - 1;
      TriedIs(b, i, ts[..n], eff, x);
      var log, t := Tried(b, i, ts[..n], eff), ts[n].data;
      forall j | 0 <= j < n
        ensures ts[j] == ts[..n][j]
      {
      }
      if Makes(b, i, t, eff, x) && x == Last(b, log) && x != b {
        assert x in log;
      }
    }
  }

  ghost predicate Makes(b: seq<byte>, i: nat, t: seq<byte>, eff: Effect, x: seq<byte>)
    requires i < |b| && |t| > 0 && Fits(|b|, eff)
  {
    Eligible(|b|, i, t, eff) && x == Over(b, i, t)
  }

  lemma {:induction false} NoRepeats(b: seq<byte>, i: nat, ts: seq<Token>, eff: Effect, k: nat)
    requires i < |b| && Proper(ts) && Fits(|b|, eff) && k < |Tried(b, i, ts, eff)|
    ensures Tried(b, i, ts, eff)[k] != if k == 0 then b else Tried(b, i, ts, eff)[k - 1]
  {
    var log := Tried(b, i, ts[..|ts| - 1], eff);
    if k < |log| {
      NoRepeats(b, i, ts[..|ts| - 1], eff, k);
    }
  }

  // ----- without restoring the buffer ------------------------------------------------------------

  /** The buffer differs from the original in n bytes from position i on at most. */
  ghost predicate Clobbered(b: seq<byte>, o: seq<byte>, i: nat, n: nat)
  {
    i + n <= |b| == |o| && o[..i] == b[..i] && o[i + n..] == b[i + n..]
  }

  lemma SkipIs(b: seq<byte>, o: seq<byte>, i: nat, n: nat, t: seq<byte>)
    requires Clobbered(b, o, i, n) && n <= |t| <= |b| - i
    ensures o[i..i + |t|] == t <==> o == Over(b, i, t)
    ensures Clobbered(b, Over(b, i, t), i, |t|) && Over(o, i, t) == Over(b, i, t)
  {
    assert o == o[..i] + o[i..i + |t|] + o[i + |t|..];
    assert o[i + |t|..] == o[i + n..][|t| - n..] == b[i + n..][|t| - n..] == b[i + |t|..];
    var r := Over(b, i, t);
    assert r[i..i + |t|] == t && r[..i] == b[..i] && r[i + |t|..] == b[i + |t|..];
  }

  method WriteAt(a: array<byte>, i: nat, t: seq<byte>)
    requires i + |t| <= a.Length
    modifies a
    ensures a[..] == Over(old(a[..]), i, t)
  {
    ghost var b := a[..];
    for k := 0 to |t|
      invariant a[..i] == b[..i] && a[i..i + k] == t[..k] && a[i + k..] == b[i + k..]
    {
      assert a[i + k + 1..] == b[i + k..][1..];
      a[i + k] := t[k];
      assert a[i..i + k + 1] == a[i..i + k] + [t[k]];
    }
    assert a[..] == a[..i] + a[i..i + |t|] + a[i + |t|..];
  }

  lemma {:induction false} TriedPrefix(b: seq<byte>, i: nat, ts: seq<Token>, j: nat, eff: Effect)
    requires i < |b| && Proper(ts) && Fits(|b|, eff) && j <= |ts|
    ensures Tried(b, i, ts[..j], eff) <= Tried(b, i, ts, eff)
    decreases |ts|
  {
    if j == |ts| {
      assert ts[..j] == ts;
    } else {
      var ts' := ts[..|ts| - 1];
      TriedPrefix(b, i, ts', j, eff);
      assert ts'[..j] == ts[..j];
    }
  }

  lemma {:induction false} TriedAllPrefix(b: seq<byte>, m: nat, n: nat, ts: seq<Token>, eff: Effect)
    requires m <= n <= |b| && Proper(ts) && Fits(|b|, eff)
    ensures TriedAll(b, m, ts, eff) <= TriedAll(b, n, ts, eff)
    decreases n
  {
    if m < n {
      TriedAllPrefix(b, m, n - 1, ts, eff);
    }
  }

  class TokenStages {
    const fuzzer: Fuzzer
    const inBuf: array<byte>

    ghost predicate Valid() { inBuf != fuzzer.outBuf && inBuf.Length == fuzzer.outBuf.Length <= MAX_FILE }

    constructor (f: Fuzzer, data: array<byte>)
      requires data != f.outBuf && data.Length == f.outBuf.Length <= MAX_FILE
      ensures Valid() && fuzzer == f && inBuf == data
    {
      fuzzer, inBuf := f, data;
    }

    ghost predicate Progress(i: nat, ts: seq<Token>, j: nat, eff: Effect, start: seq<seq<byte>>, lastLen: nat)
      requires Valid() && i < inBuf.Length && j <= |ts| && Proper(ts) && Fits(inBuf.Length, eff)
      reads inBuf, fuzzer`execs, fuzzer.outBuf
    {
      var b, o, log := inBuf[..], fuzzer.outBuf[..], Tried(inBuf[..], i, ts[..j], eff);
      && Clobbered(b, o, i, lastLen) && o == Last(b, log) && fuzzer.execs == start + log
      && forall k :: j <= k < |ts| ==> lastLen <= |ts[k].data|
    }

    lemma Skipped(i: nat, ts: seq<Token>, j: nat, eff: Effect, start: seq<seq<byte>>, lastLen: nat)
      requires Valid() && i < inBuf.Length && j < |ts| && Proper(ts) && Fits(inBuf.Length, eff)
      requires Progress(i, ts, j, eff, start, lastLen)
      requires var (b, t) := (inBuf[..], ts[j].data);
               !Eligible(|b|, i, t, eff) || fuzzer.outBuf[i..i + |t|] == t
      ensures Progress(i, ts, j + 1, eff, start, lastLen)
    {
      var b, o, t := inBuf[..], fuzzer.outBuf[..], ts[j].data;
      assert ts[..j + 1][..j] == ts[..j];
      if Eligible(|b|, i, t, eff) {
        SkipIs(b, o, i, lastLen, t);
      }
    }

    lemma Written(i: nat, ts: seq<Token>, j: nat, eff: Effect, log: seq<seq<byte>>, o: seq<byte>, lastLen: nat)
      requires Valid() && i < inBuf.Length && j < |ts| && Proper(ts) && ByLength(ts) && Fits(inBuf.Length, eff)
      requires var (b, t) := (inBuf[..], ts[j].data);
               && log == Tried(b, i, ts[..j], eff) && Clobbered(b, o, i, lastLen) && o == Last(b, log)
               && lastLen <= |t| && Eligible(|b|, i, t, eff) && o[i..i + |t|] != t
      ensures var (b, t) := (inBuf[..], ts[j].data);
              && Tried(b, i, ts[..j + 1], eff) == log + [Over(b, i, t)] && Clobbered(b, Over(b, i, t), i, |t|)
              && Over(o, i, t) == Over(b, i, t)
    {
      var b, t := inBuf[..], ts[j].data;
      assert ts[..j + 1][..j] == ts[..j];
      SkipIs(b, o, i, lastLen, t);
    }

    /** One token at one position. */
    method Overwrite(i: nat, ts: seq<Token>, j: nat, eff: Effect, ghost start: seq<seq<byte>>, lastLen: nat)
      returns (failed: bool, lastLen': nat)
      requires Valid() && i < inBuf.Length && j < |ts| && Proper(ts) && ByLength(ts) && Fits(inBuf.Length, eff)
      requires Progress(i, ts, j, eff, start, lastLen)
      modifies fuzzer.outBuf, fuzzer`execs, fuzzer`traceBits
      ensures Progress(i, ts, j + 1, eff, start, lastLen')
    {
      var outBuf, t := fuzzer.outBuf, ts[j].data;
      failed, lastLen' := false, lastLen;
      if !Eligible(inBuf.Length, i, t, eff) || outBuf[i..i + |t|] == t {
        Skipped(i, ts, j, eff, start, lastLen);
        return;
      }
      ghost var b, o, log := inBuf[..], outBuf[..], Tried(inBuf[..], i, ts[..j], eff);
      Written(i, ts, j, eff, log, o, lastLen);
      lastLen' := |t|;
      WriteAt(outBuf, i, t);
      failed := fuzzer.Execute();
      assert fuzzer.execs == start + (log + [Over(b, i, t)]);
    }

    /** One position: tokens of growing length are written over each other, and the last of them is undone. */
    method OverwriteAt(i: nat, ts: seq<Token>, eff: Effect, ghost start: seq<seq<byte>>) returns (failed: bool)
      requires Valid() && i < inBuf.Length && Proper(ts) && ByLength(ts) && Fits(inBuf.Length, eff)
      requires fuzzer.outBuf[..] == inBuf[..] && fuzzer.execs == start
      modifies fuzzer.outBuf, fuzzer`execs, fuzzer`traceBits
      ensures Begins(fuzzer.execs, start, Tried(inBuf[..], i, ts, eff))
      ensures !failed ==> fuzzer.outBuf[..] == inBuf[..] && fuzzer.execs == start + Tried(inBuf[..], i, ts, eff)
    {
      failed := false;
      var lastLen: nat := 0;
      for j := 0 to |ts|
        invariant Progress(i, ts, j, eff, start, lastLen)
      {
        failed, lastLen := Overwrite(i, ts, j, eff, start, lastLen);
        Partly(i, ts, j + 1, eff, start, lastLen);
        if failed {
          return;
        }
      }
      Partly(i, ts, |ts|, eff, start, lastLen);
      hide *;
      Copy(fuzzer.outBuf, i, inBuf, i, lastLen);
    }

    lemma Partly(i: nat, ts: seq<Token>, j: nat, eff: Effect, start: seq<seq<byte>>, lastLen: nat)
      requires Valid() && i < inBuf.Length && j <= |ts| && Proper(ts) && Fits(inBuf.Length, eff)
      requires Progress(i, ts, j, eff, start, lastLen)
      ensures var (b, o) := (inBuf[..], fuzzer.outBuf[..]);
              && Begins(fuzzer.execs, start, Tried(b, i, ts, eff)) && i + lastLen <= |b| == |o|
              && o[..i] + b[i..i + lastLen] + o[i + lastLen..] == b
              && (j == |ts| ==> fuzzer.execs == start + Tried(b, i, ts, eff))
    {
      TriedPrefix(inBuf[..], i, ts, j, eff);
      assert ts[..|ts|] == ts;
    }

    method OverwriteStage(ts: seq<Token>, eff: Effect) returns (failed: bool)
      requires Valid() && Proper(ts) && ByLength(ts) && Fits(inBuf.Length, eff) && fuzzer.outBuf[..] == inBuf[..]
      modifies fuzzer.outBuf, fuzzer`execs, fuzzer`traceBits
      ensures var log := TriedAll(inBuf[..], inBuf.Length, ts, eff);
              && Begins(fuzzer.execs, old(fuzzer.execs), log)
              && (!failed ==> fuzzer.outBuf[..] == inBuf[..] && fuzzer.execs == old(fuzzer.execs) + log)
    {
      ghost var b, start := inBuf[..], fuzzer.execs;
      failed := false;
      for i := 0 to inBuf.Length
        invariant fuzzer.outBuf[..] == b && fuzzer.execs == start + TriedAll(b, i, ts, eff)
      {
        failed := OverwriteAt(i, ts, eff, fuzzer.execs);
        Joined(fuzzer.execs, start, TriedAll(b, i, ts, eff), Tried(b, i, ts, eff));
        if failed {
          TriedAllPrefix(b, i + 1, |b|, ts, eff);
          Longer(fuzzer.execs, start, TriedAll(b, i + 1, ts, eff), TriedAll(b, |b|, ts, eff));
          return;
        }
      }
    }

    /** The scratch buffer holds the bytes before the position; the rest is left from earlier rounds. */
    ghost predicate Ready(tmp: array<byte>, i: nat)
      reads tmp, inBuf
    {
      tmp.Length == inBuf.Length + MAX_DICT_FILE && i <= inBuf.Length && tmp[..i] == inBuf[..i]
    }

    method InsertOne(tmp: array<byte>, i: nat, t: seq<byte>) returns (failed: bool)
      requires Valid() && Ready(tmp, i) && 1 <= |t| <= MAX_DICT_FILE && fuzzer.outBuf[..] == inBuf[..]
      requires tmp != fuzzer.outBuf && tmp != inBuf
      modifies tmp, fuzzer`execs, fuzzer`traceBits
      ensures Ready(tmp, i) && fuzzer.execs == old(fuzzer.execs) + [inBuf[..i] + t + inBuf[i..]]
    {
      var len := inBuf.Length;
      WriteAt(tmp, i, t);
      ghost var o := tmp[..];
      assert o[..i] == inBuf[..i] && o[i..i + |t|] == t;
      Copy(tmp, i + |t|, fuzzer.outBuf, i, len - i);
      assert tmp[..i] == o[..i];
      assert tmp[..len + |t|] == o[..i + |t|] + inBuf[..][i..i + (len - i)] == inBuf[..i] + t + inBuf[i..];
      failed := fuzzer.CommonFuzzStuff(tmp, len + |t|);
    }

    method InsertAt(tmp: array<byte>, i: nat, ts: seq<Token>) returns (failed: bool)
      requires Valid() && Ready(tmp, i) && Proper(ts) && fuzzer.outBuf[..] == inBuf[..]
      requires tmp != fuzzer.outBuf && tmp != inBuf
      modifies tmp, fuzzer`execs, fuzzer`traceBits
      ensures Ready(tmp, i) && Begins(fuzzer.execs, old(fuzzer.execs), Inserted(inBuf[..], i, ts))
      ensures !failed ==> fuzzer.execs == old(fuzzer.execs) + Inserted(inBuf[..], i, ts)
    {
      ghost var b, start := inBuf[..], fuzzer.execs;
      failed := false;
      for j := 0 to |ts|
        invariant Ready(tmp, i) && inBuf[..] == b && fuzzer.execs == start + Inserted(b, i, ts[..j])
      {
        assert ts[..j + 1][..j] == ts[..j];
        InsertedPrefix(b, i, ts, j + 1);
        if inBuf.Length + |ts[j].data| <= MAX_FILE {
          failed := InsertOne(tmp, i, ts[j].data);
          assert b[..i] == inBuf[..i] && b[i..] == inBuf[i..];
          if failed {
            return;
          }
        }
      }
      assert ts[..|ts|] == ts;
    }

    /** After the last position a byte behind the contents is copied to the scratch buffer, whatever it is. */
    method InsertStage(ts: seq<Token>, behind: byte) returns (failed: bool)
      requires Valid() && Proper(ts) && fuzzer.outBuf[..] == inBuf[..]
      modifies fuzzer`execs, fuzzer`traceBits
      ensures var log := InsertedAll(inBuf[..], inBuf.Length + 1, ts);
              && Begins(fuzzer.execs, old(fuzzer.execs), log)
              && (!failed ==> fuzzer.execs == old(fuzzer.execs) + log)
    {
      ghost var b, start := inBuf[..], fuzzer.execs;
      failed := false;
      var len := inBuf.Length;
      var tmp := new byte[len + MAX_DICT_FILE];
      for i := 0 to len + 1
        invariant Ready(tmp, Min(i, len)) && inBuf[..] == b && fuzzer.outBuf[..] == b
        invariant fuzzer.execs == start + InsertedAll(b, i, ts)
      {
        failed := InsertAt(tmp, i, ts);
        Joined(fuzzer.execs, start, InsertedAll(b, i, ts), Inserted(b, i, ts));
        if failed {
          InsertedAllPrefix(b, i + 1, len + 1, ts);
          Longer(fuzzer.execs, start, InsertedAll(b, i + 1, ts), InsertedAll(b, len + 1, ts));
          return;
        }
        tmp[i] := if i < len then fuzzer.outBuf[i] else behind;
        assert i < len ==> tmp[..i + 1] == inBuf[..i + 1];
      }
    }

    /** The dictionary stages in their order; of the learned tokens only the first ones are used. */
    method DictionaryStages(ts: seq<Token>, auto_: AutoExtras, eff: Effect, behind: byte) returns (failed: bool)
      requires Valid() && Proper(ts) && ByLength(ts) && auto_.Valid() && Fits(inBuf.Length, eff)
      requires fuzzer.outBuf[..] == inBuf[..]
      modifies fuzzer.outBuf, fuzzer`execs, fuzzer`traceBits
      ensures var (b, used) := (inBuf[..], auto_.tokens[..Min(USE_AUTO_EXTRAS, |auto_.tokens|)]);
              && Proper(used)
              && var log := TriedAll(b, |b|, ts, eff) + InsertedAll(b, |b| + 1, ts) + TriedAll(b, |b|, used, eff);
                 && Begins(fuzzer.execs, old(fuzzer.execs), log)
                 && (!failed ==> fuzzer.outBuf[..] == b && fuzzer.execs == old(fuzzer.execs) + log)
    {
      var used := auto_.tokens[..Min(USE_AUTO_EXTRAS, |auto_.tokens|)];
      assert var used := auto_.tokens[..Min(USE_AUTO_EXTRAS, |auto_.tokens|)];
                Proper(used) && ByLength(used) by {
        forall j | 0 <= j < |auto_.tokens|
          ensures 1 <= |auto_.tokens[j].data| <= MAX_DICT_FILE
        {
          assert auto_.tokens[j] in multiset(auto_.tokens);
          assert Worthy(auto_.extras, auto_.tokens[j]);
        }
      }
      hide *;
      ghost var b, start := inBuf[..], fuzzer.execs;
      ghost var over, between := TriedAll(b, |b|, ts, eff), InsertedAll(b, |b| + 1, ts);
      ghost var learned := TriedAll(b, |b|, used, eff);
      failed := OverwriteStage(ts, eff);
      Within(fuzzer.execs, start, over, between);
      Within(fuzzer.execs, start, over + between, learned);
      if failed { return; }
      failed := InsertStage(ts, behind);
      Joined(fuzzer.execs, start, over, between);
      Within(fuzzer.execs, start, over + between, learned);
      if failed { return; }
      failed := OverwriteStage(used, eff);
      Joined(fuzzer.execs, start, over + between, learned);
    }
  }
}
