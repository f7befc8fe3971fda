/** The deterministic stages as they run: the buffer is changed in place, executed and put back. */
module StageRuns {
  import opened Bytes
  import opened Bitwise
  import opened Reachable
  import opened BitFlips
  import opened Stages

  const EFF_MIN_LEN := 128

  const EFF_MAX_PERC := 90

  // ----- the effector map ------------------------------------------------------------------------

  function EffLen(n: nat): nat { n / 8 + (if n % 8 != 0 then 1 else 0) }

  /** A block of eight bytes counts if it is the first or the last one, or one of its bytes has an effect. */
  ghost predicate Marked(active: seq<bool>, n: nat, g: nat)
    requires n <= |active|
  {
    g == 0 || g + 1 == EffLen(|active|) || exists i :: 0 <= i < n && i / 8 == g && active[i]
  }

  ghost function Marks(active: seq<bool>): (r: seq<bool>)
    ensures |r| == EffLen(|active|)
  {
    seq(EffLen(|active|), g requires 0 <= g => Marked(active, |active|, g))
  }

  function Count(s: seq<bool>): nat { multiset(s)[true] }

  /** Where more than nine tenths of the blocks are marked, all are. */
  ghost function EffMap(active: seq<bool>): (r: seq<bool>)
    requires |active| > 0
    ensures |r| == EffLen(|active|)
  {
    var marks := Marks(active);
    if Count(marks) * 100 / |marks| > EFF_MAX_PERC then seq(|marks|, _ => true) else marks
  }

  /** No byte with an effect is lost, nor are the first and the last one. */
  lemma EffMapCovers(active: seq<bool>, i: nat)
    requires i < |active| && (active[i] || i == 0 || i == |active| - 1)
    ensures Flagged(EffMap(active), i)
  {
    assert i / 8 < EffLen(|active|);
    assert Marked(active, |active|, i / 8);
  }

  function TrueAt(s: seq<bool>): set<nat> { set g: nat | g < |s| && s[g] }

  lemma {:induction false} CountIsSize(s: seq<bool>)
    ensures Count(s) == |TrueAt(s)|
    decreases |s|
  {
    if s == [] {
      assert TrueAt(s) == {};
    } else {
      var n := |s| - 1;
      CountIsSize(s[..n]);
      assert s == s[..n] + [s[n]];
      assert TrueAt(s) == if s[n] then TrueAt(s[..n]) + {n} else TrueAt(s[..n]);
    }
  }

  /** The blocks of eight bytes that count as effective: the first one, the last one, and all with a byte that has
      an effect. */
  ghost function EffectiveBlocks(active: seq<bool>): set<nat>
  {
    set g: nat | g < (|active| + 7) / 8 && EffectiveBlock(active, g)
  }

  ghost predicate EffectiveBlock(active: seq<bool>, g: nat)
  {
    g == 0 || 8 * g + 8 >= |active| || exists i :: 8 * g <= i < 8 * g + 8 && i < |active| && active[i]
  }

  lemma BlocksOf(active: seq<bool>, g: nat)
    requires g < (|active| + 7) / 8
    ensures EffLen(|active|) == (|active| + 7) / 8 && (Marks(active)[g] <==> EffectiveBlock(active, g))
  {
    assert forall i: nat :: i / 8 == g <==> 8 * g <= i < 8 * g + 8;
  }

  /** A block is in the map exactly if it is effective, or if more than nine tenths of all blocks are. */
  lemma EffMapIff(active: seq<bool>, g: nat)
    requires g < (|active| + 7) / 8
    ensures |EffMap(active)| == (|active| + 7) / 8
    ensures EffMap(active)[g] <==>
            EffectiveBlock(active, g) || |EffectiveBlocks(active)| * 100 / ((|active| + 7) / 8) > 90
  {
    var marks := Marks(active);
    BlocksOf(active, g);
    CountIsSize(marks);
    assert TrueAt(marks) == EffectiveBlocks(active) by {
      forall h: nat | h < |marks| ensures marks[h] <==> EffectiveBlock(active, h) {
        BlocksOf(active, h);
      }
    }
    hide EffectiveBlock, EffectiveBlocks, Marks, Count;
  }

  lemma CountAll(s: seq<bool>)
    ensures Count(s) == |s| <==> forall g :: 0 <= g < |s| ==> s[g]
    ensures Count(s) <= |s|
  {
    if s != [] {
      var n := |s| - 1;
      CountAll(s[..n]);
      assert s == s[..n] + [s[n]];
    }
  }

  lemma CountUpdate(s: seq<bool>, g: nat)
    requires g < |s| && !s[g]
    ensures Count(s[g := true]) == Count(s) + 1
  {
    assert s == s[..g] + [s[g]] + s[g + 1..];
    assert s[g := true] == s[..g] + [true] + s[g + 1..];
  }

  // ----- putting values --------------------------------------------------------------------------

  lemma PutPrefix(b: seq<byte>, i: nat, vs: seq<byte>, ws: seq<byte>)
    requires i < |b| && vs <= ws
    ensures Put(b, i, vs) <= Put(b, i, ws)
  {
  }

  lemma {:induction false} PutAllPrefix(b: seq<byte>, lists: seq<seq<byte>>, i: nat, vs: seq<byte>, n: nat)
    requires i < n <= |lists| == |b| && vs <= lists[i]
    ensures PutAll(b, lists, i) + Put(b, i, vs) <= PutAll(b, lists, n)
    decreases n
  {
    if n == i + 1 {
      PutPrefix(b, i, vs, lists[i]);
    } else {
      PutAllPrefix(b, lists, i, vs, n - 1);
    }
  }

  lemma NextList(b: seq<byte>, lists: seq<seq<byte>>, i: nat)
    requires i < |lists| == |b|
    ensures PutAll(b, lists, i + 1) == PutAll(b, lists, i) + Put(b, i, lists[i])
    ensures Leads(PutAll(b, lists, i) + Put(b, i, lists[i]), PutAll(b, lists, |b|))
    ensures lists[i] == [] ==> Put(b, i, lists[i]) == []
  {
    PutAllPrefix(b, lists, i, lists[i], |b|);
  }

  predicate Leads<T(==)>(p: seq<T>, q: seq<T>) { p <= q }

  /** From a start on, some of the entries of a log have been added, in order. */
  predicate Begins<T(==)>(e: seq<T>, start: seq<T>, log: seq<T>) { e <= start + log }

  lemma Longer<T>(e: seq<T>, start: seq<T>, p: seq<T>, q: seq<T>)
    requires Begins(e, start, p) && p <= q
    ensures Begins(e, start, q)
  {
    assert start + q == start + p + q[|p|..];
  }

  lemma Within<T>(e: seq<T>, start: seq<T>, p: seq<T>, q: seq<T>)
    requires Begins(e, start, p)
    ensures Begins(e, start, p + q)
  {
    assert start + (p + q) == start + p + q;
  }

  lemma Joined<T>(e: seq<T>, start: seq<T>, p: seq<T>, q: seq<T>)
    ensures Begins(e, start + p, q) <==> Begins(e, start, p + q)
    ensures start + p + q == start + (p + q)
  {
    assert start + p + q == start + (p + q);
  }

  lemma Ahead<T>(e: seq<T>, start: seq<T>, p: seq<T>, q: seq<T>, all: seq<T>)
    requires Begins(e, start + p, q) && Leads(p + q, all)
    ensures Begins(e, start, all)
  {
    Joined(e, start, p, q);
    Longer(e, start, p + q, all);
  }

  lemma ListsAt(b: seq<byte>, eff: seq<bool>, i: nat)
    requires i < |b| && |eff| == EffLen(|b|)
    ensures i / 8 < |eff|
    ensures ArithLists(b, eff)[i] == if eff[i / 8] then Sums(b[i], ARITH_MAX) else []
    ensures InterestLists(b, eff)[i] == if eff[i / 8] then Interesting(b[i], |INTERESTING_8|) else []
  {
    assert i / 8 < EffLen(|b|);
  }

  lemma {:induction false} SumsPrefix(orig: byte, j: nat, k: nat)
    requires j <= k <= ARITH_MAX
    ensures Sums(orig, j) <= Sums(orig, k)
    decreases k
  {
    if j < k {
      SumsPrefix(orig, j, k - 1);
    }
  }

  lemma {:induction false} InterestingPrefix(orig: byte, j: nat, k: nat)
    requires j <= k <= |INTERESTING_8|
    ensures Interesting(orig, j) <= Interesting(orig, k)
    decreases k
  {
    if j < k {
      InterestingPrefix(orig, j, k - 1);
    }
  }

  /** Flipping the same bits again restores the buffer. */
  lemma RunTwice(b: seq<byte>, k: nat, n: nat)
    requires 0 < n <= 8 && k + n <= 8 * |b|
    ensures FlipRun(FlipRun(b, k, n), k, n) == b
  {
    var (i, c) := (k / 8, 8 - k % 8);
    if n <= c {
      RunInside(b, k, n);
      RunInside(FlipRun(b, k, n), k, n);
      FlipTwice(b[i], Mask(k % 8, n));
    } else {
      RunAcross(b, k, n);
      RunAcross(FlipRun(b, k, n), k, n);
      FlipTwice(b[i], Mask(k % 8, c));
      FlipTwice(b[i + 1], Mask(0, n - c));
    }
  }

  /** Whether or not an entry is abandoned on the way, no change of one byte is executed twice by these stages. */
  lemma NeverTwice(b: seq<byte>, eff: seq<bool>, noArith: bool, done: seq<seq<byte>>, i: nat, v: byte)
    requires i < |b| && v != b[i] && done <= Mutants(b, eff, noArith)
    ensures multiset(done)[b[i := v]] <= 1
  {
    hide *;
    EveryMutantOnce(b, eff, noArith, i, v);
    assert Mutants(b, eff, noArith) == done + Mutants(b, eff, noArith)[|done|..];
  }

  datatype Report = Report(failed: bool, trace: seq<byte>)

  class Fuzzer {
    const target: seq<byte> -> Report
    const checksum: seq<byte> -> nat
    const execCksum: nat
    const dumbMode: bool
    const noArith: bool
    const outBuf: array<byte>
    var execs: seq<seq<byte>>
    var traceBits: seq<byte>

    constructor (run: seq<byte> -> Report, hash: seq<byte> -> nat, sum: nat, dumb: bool, no: bool, buf: array<byte>)
      ensures target == run && checksum == hash && execCksum == sum && dumbMode == dumb && noArith == no
              && outBuf == buf
      ensures execs == []
    {
      target, checksum, execCksum, dumbMode, noArith, outBuf := run, hash, sum, dumb, no, buf;
      execs, traceBits := [], [];
    }

    /** Inverting the byte leads to another trace; short files and dumb mode do not ask. */
    ghost predicate HasEffect(b: seq<byte>, i: nat)
      requires i < |b|
    {
      dumbMode || |b| < EFF_MIN_LEN || checksum(target(b[i := Flip(b[i], 255)]).trace) != execCksum
    }

    ghost function Active(b: seq<byte>): (r: seq<bool>)
      ensures |r| == |b|
    {
      seq(|b|, i requires 0 <= i < |b| => HasEffect(b, i))
    }

    /** An entry is abandoned when an execution fails. */
    method Execute() returns (failed: bool)
      modifies `execs, `traceBits
      ensures execs == old(execs) + [outBuf[..]]
      ensures failed == target(outBuf[..]).failed && traceBits == target(outBuf[..]).trace
    {
      failed := CommonFuzzStuff(outBuf, outBuf.Length);
      assert outBuf[..outBuf.Length] == outBuf[..];
    }

    method CommonFuzzStuff(buf: array<byte>, len: nat) returns (failed: bool)
      requires len <= buf.Length
      modifies `execs, `traceBits
      ensures execs == old(execs) + [buf[..len]]
      ensures failed == target(buf[..len]).failed && traceBits == target(buf[..len]).trace
    {
      execs := execs + [buf[..len]];
      var report := target(buf[..len]);
      failed, traceBits := report.failed, report.trace;
    }

    method FlipBits(k: nat, n: nat)
      requires k + n <= 8 * outBuf.Length
      modifies outBuf
      ensures outBuf[..] == FlipRun(old(outBuf[..]), k, n)
    {
      for t := 0 to n
        invariant outBuf[..] == FlipRun(old(outBuf[..]), k, t)
      {
        outBuf[(k + t) / 8] := Flip(outBuf[(k + t) / 8], High((k + t) % 8));
      }
    }

    method FlipStage(n: nat) returns (failed: bool)
      requires 0 < n <= 8 <= 8 * outBuf.Length
      modifies outBuf, `execs, `traceBits
      ensures if failed then Begins(execs, old(execs), FlipLog(old(outBuf[..]), n))
              else outBuf[..] == old(outBuf[..]) && execs == old(execs) + FlipLog(old(outBuf[..]), n)
    {
      ghost var b, log := outBuf[..], FlipLog(outBuf[..], n);
      failed := false;
      for k := 0 to 8 * outBuf.Length - n + 1
        invariant outBuf[..] == b && execs == old(execs) + log[..k]
      {
        FlipBits(k, n);
        failed := Execute();
        assert log[..k + 1] == log[..k] + [log[k]];
        if failed {
          return;
        }
        FlipBits(k, n);
        RunTwice(b, k, n);
      }
    }

    /** The map while the bytes are being inverted, with the number of blocks it marks. */
    ghost predicate MapSoFar(active: seq<bool>, k: nat, eff: seq<bool>, cnt: nat)
      requires k <= |active|
    {
      && |eff| == EffLen(|active|) && cnt == Count(eff)
      && forall g :: 0 <= g < |eff| ==> eff[g] == Marked(active, k, g)
    }

    method NewMap(ghost active: seq<bool>) returns (eff: array<bool>, cnt: nat)
      requires |active| == outBuf.Length > 0
      ensures fresh(eff) && MapSoFar(active, 0, eff[..], cnt)
    {
      var len := outBuf.Length;
      eff := new bool[EffLen(len)](_ => false);
      assert true !in eff[..];
      CountUpdate(eff[..], 0);
      eff[0], cnt := true, 1;
      if (len - 1) / 8 != 0 {
        CountUpdate(eff[..], (len - 1) / 8);
        eff[(len - 1) / 8], cnt := true, cnt + 1;
      }
      assert (len - 1) / 8 + 1 == EffLen(len);
    }

    method Densify(eff: array<bool>, cnt: nat, ghost active: seq<bool>)
      requires |active| > 0 && MapSoFar(active, |active|, eff[..], cnt)
      modifies eff
      ensures eff[..] == EffMap(active)
    {
      assert eff[..] == Marks(active);
      CountAll(eff[..]);
      if cnt != eff.Length && cnt * 100 / eff.Length > EFF_MAX_PERC {
        for g := 0 to eff.Length
          invariant forall h :: 0 <= h < g ==> eff[h]
        {
          eff[g] := true;
        }
      }
    }

    /** Invert each byte, and find out which blocks matter. */
    method ByteStage() returns (failed: bool, eff: array<bool>)
      requires outBuf.Length > 0
      modifies outBuf, `execs, `traceBits
      ensures fresh(eff)
      ensures if failed then Begins(execs, old(execs), ByteLog(old(outBuf[..])))
              else outBuf[..] == old(outBuf[..]) && execs == old(execs) + ByteLog(old(outBuf[..]))
                   && eff[..] == EffMap(Active(old(outBuf[..])))
    {
      ghost var b, active := outBuf[..], Active(outBuf[..]);
      failed := false;
      var cnt;
      eff, cnt := NewMap(active);
      hide *;
      for k := 0 to outBuf.Length
        invariant fresh(eff) && outBuf[..] == b && execs == old(execs) + ByteLog(b)[..k]
        invariant MapSoFar(active, k, eff[..], cnt)
      {
        failed, cnt := InvertByte(k, eff, cnt, old(execs));
        if failed {
          return;
        }
      }
      Densify(eff, cnt, active);
    }

    /** Invert one byte, and flag its block if that has an effect. */
    method InvertByte(k: nat, eff: array<bool>, cnt: nat, ghost start: seq<seq<byte>>) returns (failed: bool, cnt': nat)
      requires k < outBuf.Length && execs == start + ByteLog(outBuf[..])[..k]
      requires MapSoFar(Active(outBuf[..]), k, eff[..], cnt)
      modifies outBuf, eff, `execs, `traceBits
      ensures Begins(execs, start, ByteLog(old(outBuf[..])))
      ensures !failed ==> outBuf[..] == old(outBuf[..]) && execs == start + ByteLog(outBuf[..])[..k + 1]
                          && MapSoFar(Active(outBuf[..]), k + 1, eff[..], cnt')
    {
      ghost var b, log, active := outBuf[..], ByteLog(outBuf[..]), Active(outBuf[..]);
      assert active[k] == HasEffect(b, k) && log[k] == b[k := Flip(b[k], 255)] && log[..k + 1] == log[..k] + [log[k]];
      assert && k / 8 < |eff[..]|
             && (if !eff[..][k / 8] && active[k] then MapSoFar(active, k + 1, eff[..][k / 8 := true], cnt + 1)
                else MapSoFar(active, k + 1, eff[..], cnt)) by {
        assert k / 8 < EffLen(|active|);
        forall g | 0 <= g < |eff[..]|
          ensures Marked(active, k + 1, g) <==> Marked(active, k, g) || (k / 8 == g && active[k])
        {
        }
        if !eff[..][k / 8] {
          CountUpdate(eff[..], k / 8);
        }
      }
      FlipTwice(b[k], 255);
      hide MapSoFar, Active, ByteLog, Flip;
      cnt' := cnt;
      outBuf[k] := Flip(outBuf[k], 255);
      assert outBuf[..] == log[k];
      failed := Execute();
      if failed {
        return;
      }
      if !eff[k / 8] {
        if dumbMode || outBuf.Length < EFF_MIN_LEN || checksum(traceBits) != execCksum {
          eff[k / 8] := true;
          cnt' := cnt + 1;
        }
      }
      outBuf[k] := Flip(outBuf[k], 255);
      assert outBuf[..] == b;
    }

    /** Execute with one byte replaced, unless that is to be skipped. */
    method Place(i: nat, v: byte, skip: bool, ghost b: seq<byte>, ghost vs: seq<byte>, ghost start: seq<seq<byte>>)
      returns (failed: bool)
      requires i < outBuf.Length == |b| && outBuf[..][i := b[i]] == b && execs == start + Put(b, i, vs)
      modifies outBuf, `execs, `traceBits
      ensures outBuf[..][i := b[i]] == b && execs == start + Put(b, i, vs + Unless(skip, v))
      ensures skip ==> !failed
    {
      failed := false;
      if !skip {
        outBuf[i] := v;
        assert outBuf[..] == b[i := v];
        failed := Execute();
      } else {
        assert vs + Unless(skip, v) == vs;
      }
    }

    /** One sum and one difference. */
    method ArithStep(i: nat, j: nat, ghost b: seq<byte>, ghost start: seq<seq<byte>>) returns (failed: bool)
      requires i < outBuf.Length && outBuf[..] == b && 1 <= j <= ARITH_MAX
      requires execs == start + Put(b, i, Sums(b[i], j - 1))
      modifies outBuf, `execs, `traceBits
      ensures Begins(execs, start, Put(b, i, Sums(b[i], j)))
      ensures !failed ==> outBuf[..] == b && execs == start + Put(b, i, Sums(b[i], j))
    {
      var orig := outBuf[i];
      var up, down: byte := Wrap(orig + j, 256), Wrap(orig - j, 256);
      ghost var vs := Sums(orig, j - 1);
      SumsStep(orig, j);
      hide Sums, IsFlip, Put, Wrap;
      var skip := CouldBeBitflip(Xor(orig, up));
      failed := Place(i, up, skip, b, vs, start);
      vs := vs + Unless(skip, up);
      PutPrefix(b, i, vs, Sums(orig, j));
      if failed {
        return;
      }
      skip := CouldBeBitflip(Xor(orig, down));
      failed := Place(i, down, skip, b, vs, start);
      outBuf[i] := orig;
    }

    method ArithByte(i: nat, ghost start: seq<seq<byte>>) returns (failed: bool)
      requires i < outBuf.Length && execs == start
      modifies outBuf, `execs, `traceBits
      ensures var b := old(outBuf[..]);
              if failed then Begins(execs, start, Put(b, i, Sums(b[i], ARITH_MAX)))
              else outBuf[..] == b && execs == start + Put(b, i, Sums(b[i], ARITH_MAX))
    {
      ghost var b := outBuf[..];
      failed := false;
      for j := 1 to ARITH_MAX + 1
        invariant outBuf[..] == b && execs == start + Put(b, i, Sums(b[i], j - 1))
      {
        failed := ArithStep(i, j, b, start);
        SumsPrefix(b[i], j, ARITH_MAX);
        PutPrefix(b, i, Sums(b[i], j), Sums(b[i], ARITH_MAX));
        Longer(execs, start, Put(b, i, Sums(b[i], j)), Put(b, i, Sums(b[i], ARITH_MAX)));
        if failed {
          return;
        }
      }
    }

    method InterestByte(i: nat, ghost start: seq<seq<byte>>) returns (failed: bool)
      requires i < outBuf.Length && execs == start
      modifies outBuf, `execs, `traceBits
      ensures var b := old(outBuf[..]);
              if failed then Begins(execs, start, Put(b, i, Interesting(b[i], |INTERESTING_8|)))
              else outBuf[..] == b && execs == start + Put(b, i, Interesting(b[i], |INTERESTING_8|))
    {
      ghost var b := outBuf[..];
      var orig := outBuf[i];
      failed := false;
      for j := 0 to |INTERESTING_8|
        invariant outBuf[..] == b && execs == start + Put(b, i, Interesting(orig, j))
      {
        var v := INTERESTING_8[j];
        InterestingPrefix(orig, j + 1, |INTERESTING_8|);
        PutPrefix(b, i, Interesting(orig, j + 1), Interesting(orig, |INTERESTING_8|));
        var flip := CouldBeBitflip(Xor(orig, v));
        var arith := CouldBeArith([orig], [v]);
        failed := Place(i, v, flip || arith, b, Interesting(orig, j), start);
        if failed {
          return;
        }
        outBuf[i] := orig;
      }
    }

    /** A stage that puts values has dealt with the first i bytes. */
    ghost predicate Reached(b: seq<byte>, lists: seq<seq<byte>>, start: seq<seq<byte>>, i: nat)
      requires |lists| == |b|
      reads this`execs, outBuf
    {
      i <= |b| && outBuf[..] == b && execs == start + PutAll(b, lists, i)
    }

    lemma ReachedNext(b: seq<byte>, lists: seq<seq<byte>>, start: seq<seq<byte>>, i: nat)
      requires |lists| == |b| && i < |b| && outBuf[..] == b
      requires execs == start + PutAll(b, lists, i) + Put(b, i, lists[i])
      ensures Reached(b, lists, start, i + 1)
    {
      NextList(b, lists, i);
      hide PutAll, Put;
      Joined(execs, start, PutAll(b, lists, i), Put(b, i, lists[i]));
    }

    lemma ReachedSkips(b: seq<byte>, lists: seq<seq<byte>>, start: seq<seq<byte>>, i: nat)
      requires |lists| == |b| && i < |b| && outBuf[..] == b && execs == start + PutAll(b, lists, i) && lists[i] == []
      ensures Reached(b, lists, start, i + 1)
    {
      NextList(b, lists, i);
      hide PutAll, Put;
    }

    method ArithAt(i: nat, eff: array<bool>, ghost b: seq<byte>, ghost start: seq<seq<byte>>) returns (failed: bool)
      requires i < |b| && eff.Length == EffLen(|b|) && Reached(b, ArithLists(b, eff[..]), start, i)
      modifies outBuf, `execs, `traceBits
      ensures if failed then Begins(execs, start, PutAll(b, ArithLists(b, eff[..]), |b|))
              else Reached(b, ArithLists(b, eff[..]), start, i + 1)
    {
      ghost var lists := ArithLists(b, eff[..]);
      ListsAt(b, eff[..], i);
      hide *;
      failed := false;
      if eff[i / 8] {
        failed := ArithByte(i, execs);
        if failed {
          NextList(b, lists, i);
          Ahead(execs, start, PutAll(b, lists, i), Put(b, i, lists[i]), PutAll(b, lists, |b|));
          return;
        }
        ReachedNext(b, lists, start, i);
      } else {
        ReachedSkips(b, lists, start, i);
      }
    }

    method InterestAt(i: nat, eff: array<bool>, ghost b: seq<byte>, ghost start: seq<seq<byte>>) returns (failed: bool)
      requires i < |b| && eff.Length == EffLen(|b|) && Reached(b, InterestLists(b, eff[..]), start, i)
      modifies outBuf, `execs, `traceBits
      ensures if failed then Begins(execs, start, PutAll(b, InterestLists(b, eff[..]), |b|))
              else Reached(b, InterestLists(b, eff[..]), start, i + 1)
    {
      ghost var lists := InterestLists(b, eff[..]);
      ListsAt(b, eff[..], i);
      hide *;
      failed := false;
      if eff[i / 8] {
        failed := InterestByte(i, execs);
        if failed {
          NextList(b, lists, i);
          Ahead(execs, start, PutAll(b, lists, i), Put(b, i, lists[i]), PutAll(b, lists, |b|));
          return;
        }
        ReachedNext(b, lists, start, i);
      } else {
        ReachedSkips(b, lists, start, i);
      }
    }

    lemma StageStarts(b: seq<byte>, lists: seq<seq<byte>>)
      requires |lists| == |b| && outBuf[..] == b
      ensures Reached(b, lists, execs, 0)
    {
    }

    method ArithStage(eff: array<bool>) returns (failed: bool)
      requires eff.Length == EffLen(outBuf.Length)
      modifies outBuf, `execs, `traceBits
      ensures var b := old(outBuf[..]);
              var log := PutAll(b, ArithLists(b, eff[..]), |b|);
              if failed then Begins(execs, old(execs), log) else outBuf[..] == b && execs == old(execs) + log
    {
      ghost var b, start := outBuf[..], execs;
      failed := false;
      StageStarts(b, ArithLists(b, eff[..]));
      for i := 0 to outBuf.Length
        invariant Reached(b, ArithLists(b, eff[..]), start, i)
      {
        failed := ArithAt(i, eff, b, start);
        if failed {
          return;
        }
      }
    }

    method InterestStage(eff: array<bool>) returns (failed: bool)
      requires eff.Length == EffLen(outBuf.Length)
      modifies outBuf, `execs, `traceBits
      ensures var b := old(outBuf[..]);
              var log := PutAll(b, InterestLists(b, eff[..]), |b|);
              if failed then Begins(execs, old(execs), log) else outBuf[..] == b && execs == old(execs) + log
    {
      ghost var b, start := outBuf[..], execs;
      failed := false;
      StageStarts(b, InterestLists(b, eff[..]));
      for i := 0 to outBuf.Length
        invariant Reached(b, InterestLists(b, eff[..]), start, i)
      {
        failed := InterestAt(i, eff, b, start);
        if failed {
          return;
        }
      }
    }

    method FlipStages() returns (failed: bool, eff: array<bool>)
      requires outBuf.Length > 0
      modifies outBuf, `execs, `traceBits
      ensures failed || fresh(eff)
      ensures var b := old(outBuf[..]);
              if failed then Begins(execs, old(execs), Flips(b))
              else outBuf[..] == b && execs == old(execs) + Flips(b) && eff[..] == EffMap(Active(b))
    {
      ghost var start, b := execs, outBuf[..];
      ghost var one, two, four, full := FlipLog(b, 1), FlipLog(b, 2), FlipLog(b, 4), ByteLog(b);
      assert Flips(b) == one + (two + (four + full));
      assert Flips(b) == (one + two) + (four + full);
      assert Flips(b) == (one + two + four) + full;
      hide *;
      eff := new bool[0];
      failed := FlipStage(1);
      if failed {
        Within(execs, start, one, two + (four + full));
        return;
      }
      failed := FlipStage(2);
      Joined(execs, start, one, two);
      if failed {
        Within(execs, start, one + two, four + full);
        return;
      }
      failed := FlipStage(4);
      Joined(execs, start, one + two, four);
      if failed {
        Within(execs, start, one + two + four, full);
        return;
      }
      failed, eff := ByteStage();
      Joined(execs, start, one + two + four, full);
    }

    method ValueStages(eff: array<bool>) returns (failed: bool)
      requires eff.Length == EffLen(outBuf.Length)
      modifies outBuf, `execs, `traceBits
      ensures var b := old(outBuf[..]);
              var log := Values(b, eff[..], noArith);
              if failed then Begins(execs, old(execs), log) else outBuf[..] == b && execs == old(execs) + log
    {
      ghost var start, b, flags := execs, outBuf[..], eff[..];
      ghost var sums, values := PutAll(b, ArithLists(b, flags), |b|), PutAll(b, InterestLists(b, flags), |b|);
      assert Values(b, flags, noArith) == if noArith then values else sums + values;
      hide *;
      failed := false;
      if !noArith {
        failed := ArithStage(eff);
        if failed {
          Within(execs, start, sums, values);
          return;
        }
      }
      failed := InterestStage(eff);
      if !noArith {
        Joined(execs, start, sums, values);
      }
    }

    /** The stages for single bytes, in the order of the fuzzer. */
    method SingleByteStages() returns (failed: bool)
      requires outBuf.Length > 0
      modifies outBuf, `execs, `traceBits
      ensures var b := old(outBuf[..]);
              var log := Mutants(b, EffMap(Active(b)), noArith);
              if failed then Begins(execs, old(execs), log) else outBuf[..] == b && execs == old(execs) + log
    {
      ghost var start, b := execs, outBuf[..];
      ghost var flips, values := Flips(b), Values(b, EffMap(Active(b)), noArith);
      assert Mutants(b, EffMap(Active(b)), noArith) == flips + values;
      hide *;
      var eff;
      failed, eff := FlipStages();
      if failed {
        Within(execs, start, flips, values);
        return;
      }
      failed := ValueStages(eff);
      Joined(execs, start, flips, values);
    }
  }
}
