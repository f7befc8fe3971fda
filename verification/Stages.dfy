/** The deterministic stages that change one byte: walking bit flips, byte flips, arithmetic and interesting
    values, with the tests that keep them from repeating each other. */
module Stages {
  import opened Bytes
  import opened Ir
  import opened Halves
  import opened Bitwise
  import opened Reachable
  import opened BitFlips

  const INTERESTING_8: seq<byte> := [128, 255, 0, 1, 16, 32, 64, 100, 127]

  // ----- the stages that flip --------------------------------------------------------------------

  /** Every run of n neighbouring bits is flipped once. */
  function FlipLog(b: seq<byte>, n: nat): (log: seq<seq<byte>>)
    requires n <= 8 * |b|
    ensures |log| == 8 * |b| - n + 1
  {
    seq(8 * |b| - n + 1, k requires 0 <= k < 8 * |b| - n + 1 => FlipRun(b, k, n))
  }

  function ByteLog(b: seq<byte>): (log: seq<seq<byte>>)
    ensures |log| == |b|
  {
    seq(|b|, i requires 0 <= i < |b| => b[i := Flip(b[i], 255)])
  }

  /** The bits that differ are n neighbours inside the byte. */
  ghost predicate ByMask(x: nat, n: nat)
    requires n <= 8
  {
    exists j: nat :: j + n <= 8 && x == Mask(j, n)
  }

  lemma XorSolve(a: byte, v: byte, m: byte)
    ensures Flip(a, m) == v <==> Xor(a, v) == m
  {
    XorTwice(a, v);
    XorTwice(a, m);
  }

  lemma PutIs(b: seq<byte>, i: nat, v: byte, k: nat, w: byte)
    requires i < |b| && k < |b| && v != b[i] && w != b[k]
    ensures b[k := w] == b[i := v] <==> k == i && w == v
  {
    assert b[k := w][k] == w && b[i := v][i] == v;
  }

  /** A run is a change of just one byte only where it lies inside that byte. */
  lemma RunIsPut(b: seq<byte>, i: nat, v: byte, k: nat, n: nat)
    requires 0 < n <= 8 && k + n <= 8 * |b| && i < |b| && v != b[i]
    ensures FlipRun(b, k, n) == b[i := v] <==> k / 8 == i && k % 8 + n <= 8 && Xor(b[i], v) == Mask(k % 8, n)
  {
    var p := k / 8;
    if k % 8 + n <= 8 {
      var m := Mask(k % 8, n);
      RunInside(b, k, n);
      MaskNonZero(k % 8, n);
      FlipChanges(b[p], m);
      PutIs(b, i, v, p, Flip(b[p], m));
      XorSolve(b[p], v, m);
    } else {
      var c := 8 - k % 8;
      RunAcross(b, k, n);
      MaskNonZero(k % 8, c);
      MaskNonZero(0, n - c);
      FlipChanges(b[p], Mask(k % 8, c));
      FlipChanges(b[p + 1], Mask(0, n - c));
      assert FlipRun(b, k, n)[p] != b[p] && FlipRun(b, k, n)[p + 1] != b[p + 1];
    }
  }

  lemma OddMask(n: nat)
    requires n > 0
    ensures Pow2(n) >= 2 && (Pow2(n) - 1) % 2 == 1
  {
  }

  /** A pattern says which bits were flipped. */
  lemma MaskUnique(j: nat, n: nat, k: nat, m: nat)
    requires 0 < n && 0 < m && j + n <= 8 && k + m <= 8 && Mask(j, n) == Mask(k, m)
    ensures Pow2(n) == Pow2(m) && (n == m ==> j == k)
  {
    hide *;
    OddMask(n);
    OddMask(m);
    MaskForm(j, n);
    MaskForm(k, m);
    OddParts(Pow2(n) - 1, 8 - j - n, Pow2(m) - 1, 8 - k - m);
  }

  lemma MaskForm(j: nat, n: nat)
    requires j + n <= 8
    ensures Mask(j, n) == (Pow2(n) - 1) * Pow2(8 - j - n)
  {
    MaskIs(j, n);
  }

  lemma {:induction false} CountRuns(b: seq<byte>, n: nat, i: nat, v: byte)
    requires 0 < n <= 8 && i < |b| && v != b[i]
    ensures multiset(FlipLog(b, n))[b[i := v]] == if ByMask(Xor(b[i], v), n) then 1 else 0
  {
    var log, x := FlipLog(b, n), Xor(b[i], v);
    if j: nat :| j + n <= 8 && x == Mask(j, n) {
      var k := 8 * i + j;
      assert n < 8 ==> j < 8;
      if j < 8 {
        assert k / 8 == i && k % 8 == j;
      }
      forall k' | 0 <= k' < |log|
        ensures log[k'] == b[i := v] <==> k' == k
      {
        RunIsPut(b, i, v, k', n);
        if log[k'] == b[i := v] {
          MaskUnique(k' % 8, n, j, n);
        }
      }
      CountOne(log, b[i := v], k);
    } else {
      forall k | 0 <= k < |log|
        ensures log[k] != b[i := v]
      {
        RunIsPut(b, i, v, k, n);
      }
    }
  }

  lemma FullMask(x: nat)
    ensures ByMask(x, 8) <==> x == 255
  {
    Pow2Eight();
    MaskIs(0, 8);
    assert Mask(0, 8) == 255;
  }

  /** Below 256, the flips that a test of the code looks for are the masks. */
  lemma FlipIsMask(x: nat)
    requires 0 < x < 256
    ensures IsFlip(x) <==> ByMask(x, 1) || ByMask(x, 2) || ByMask(x, 4) || ByMask(x, 8)
  {
    FullMask(x);
    Pow2Small();
    if sh: nat :| FlipAt(x, sh) {
      assert ByMask(x, 1) || ByMask(x, 2) || ByMask(x, 4) || x == 255 by {
        Pow2Small();
        assert Pow2(3) == 8 && Pow2(6) == 64 && Pow2(7) == 128 by {
          assert Pow2(3) == 2 * Pow2(2);
          assert Pow2(6) == 4 * Pow2(4);
        }
        hide Pow2;
        if x == Pow2(sh) {
          if sh > 7 { Pow2Grows(7, sh); }
          assert x == Mask(7 - sh, 1);
        } else if x == 3 * Pow2(sh) {
          if sh > 6 { Pow2Grows(6, sh); }
          assert x == Mask(6 - sh, 2);
        } else if x == 15 * Pow2(sh) {
          if sh > 4 { Pow2Grows(4, sh); }
          assert x == Mask(4 - sh, 4);
        } else if sh > 0 {
          Pow2Grows(0, sh);
        }
      }
    }
    forall j: nat, n: nat | j + n <= 8 && (n == 1 || n == 2 || n == 4 || n == 8) && x == Mask(j, n)
      ensures IsFlip(x)
    {
      assert FlipAt(x, 8 - j - n);
    }
  }

  lemma Pow2Small()
    ensures Pow2(1) == 2 && Pow2(2) == 4 && Pow2(4) == 16 && Pow2(8) == 256 && Pow2(0) == 1
  {
    Pow2Eight();
    assert Pow2(2) == 4;
    assert Pow2(4) == 16;
  }

  function Flips(b: seq<byte>): seq<seq<byte>>
    requires |b| > 0
  {
    FlipLog(b, 1) + FlipLog(b, 2) + FlipLog(b, 4) + ByteLog(b)
  }

  /** The flips of 1, 2, 4 and 8 bits together make a change of one byte once if it passes for a bit flip, and
      not at all otherwise. */
  lemma CountFlips(b: seq<byte>, i: nat, v: byte)
    requires i < |b| && v != b[i]
    ensures multiset(Flips(b))[b[i := v]] == if IsFlip(Xor(b[i], v)) then 1 else 0
  {
    var x := Xor(b[i], v);
    assert 0 < Xor(b[i], v) < 256 by {
      Pow2Eight();
      XorBelow(b[i], v, 8);
      XorSelf(b[i]);
      XorInjective(v, b[i], b[i]);
    }
    CountRuns(b, 1, i, v);
    CountRuns(b, 2, i, v);
    CountRuns(b, 4, i, v);
    assert multiset(ByteLog(b))[b[i := v]] == if ByMask(Xor(b[i], v), 8) then 1 else 0 by {
      var log, x := ByteLog(b), Xor(b[i], v);
      FullMask(x);
      forall k | 0 <= k < |log|
        ensures log[k] == b[i := v] <==> k == i && x == 255
      {
        FlipChanges(b[k], 255);
        PutIs(b, i, v, k, Flip(b[k], 255));
        XorSolve(b[k], v, 255);
      }
      if x == 255 {
        CountOne(log, b[i := v], i);
      } else {
      }
    }
    FlipIsMask(x);
    forall n, m | n in {1, 2, 4, 8} && m in {1, 2, 4, 8} && ByMask(x, n) && ByMask(x, m)
      ensures n == m
    {
      assert n == m by {
        Pow2Small();
        var j: nat :| j + n <= 8 && x == Mask(j, n);
        var k: nat :| k + m <= 8 && x == Mask(k, m);
        MaskUnique(j, n, k, m);
      }
    }
  }

  // ----- the stages that put values --------------------------------------------------------------

  ghost function Unless(skip: bool, v: byte): seq<byte> { if skip then [] else [v] }

  /** The sums and differences with 1 up to j, but for those that pass for bit flips. */
  ghost function Sums(orig: byte, j: nat): seq<byte>
    requires j <= ARITH_MAX
  {
    if j == 0 then [] else
      Sums(orig, j - 1) + Unless(IsFlip(Xor(orig, Wrap(orig + j, 256))), Wrap(orig + j, 256))
      + Unless(IsFlip(Xor(orig, Wrap(orig - j, 256))), Wrap(orig - j, 256))
  }

  ghost predicate AdjustedUpTo(a: byte, v: int, j: nat)
    requires j <= ARITH_MAX
  {
    exists d :: 1 <= d <= j && AdjustedBy(a, v, d, 256)
  }

  lemma {:induction false} CountSums(orig: byte, j: nat, v: byte)
    requires j <= ARITH_MAX
    ensures multiset(Sums(orig, j))[v] == if AdjustedUpTo(orig, v, j) && !IsFlip(Xor(orig, v)) then 1 else 0
  {
    hide *;
    if j == 0 {
      NoSums(orig, v);
    } else {
      CountSums(orig, j - 1, v);
      CountNextSum(orig, j, v);
    }
  }

  lemma NoSums(orig: byte, v: byte)
    ensures Sums(orig, 0) == [] && !AdjustedUpTo(orig, v, 0)
  {
  }

  lemma CountNextSum(orig: byte, j: nat, v: byte)
    requires 0 < j <= ARITH_MAX
    requires multiset(Sums(orig, j - 1))[v] == if AdjustedUpTo(orig, v, j - 1) && !IsFlip(Xor(orig, v)) then 1 else 0
    ensures multiset(Sums(orig, j))[v] == if AdjustedUpTo(orig, v, j) && !IsFlip(Xor(orig, v)) then 1 else 0
  {
    var (p, q) := (Wrap(orig + j, 256), Wrap(orig - j, 256));
    hide *;
    NextSum(orig, v, j);
    SumsStep(orig, j);
  }

  lemma SumsStep(orig: byte, j: nat)
    requires 0 < j <= ARITH_MAX
    ensures var (p, q) := (Wrap(orig + j, 256), Wrap(orig - j, 256));
            && 0 <= p < 256 && 0 <= q < 256
            && Sums(orig, j) == Sums(orig, j - 1) + Unless(IsFlip(Xor(orig, p)), p) + Unless(IsFlip(Xor(orig, q)), q)
  {
  }

  lemma NextSum(a: byte, v: byte, j: nat)
    requires 0 < j <= ARITH_MAX
    ensures AdjustedUpTo(a, v, j) <==> AdjustedUpTo(a, v, j - 1) || AdjustedBy(a, v, j, 256)
    ensures AdjustedBy(a, v, j, 256) <==> v == Wrap(a + j, 256) || v == Wrap(a - j, 256)
    ensures Wrap(a + j, 256) != Wrap(a - j, 256) && (AdjustedBy(a, v, j, 256) ==> !AdjustedUpTo(a, v, j - 1))
  {
    if d :| 1 <= d <= j - 1 && AdjustedBy(a, v, d, 256) {
      assert AdjustedUpTo(a, v, j);
    }
  }

  ghost predicate Skipped(orig: byte, v: byte) { IsFlip(Xor(orig, v)) || IsArith([orig], [v]) }

  ghost function Interesting(orig: byte, n: nat): seq<byte>
    requires n <= |INTERESTING_8|
  {
    if n == 0 then [] else
      Interesting(orig, n - 1) + Unless(Skipped(orig, INTERESTING_8[n - 1]), INTERESTING_8[n - 1])
  }

  lemma {:induction false} CountInteresting(orig: byte, n: nat, v: byte)
    requires n <= |INTERESTING_8|
    ensures multiset(Interesting(orig, n))[v] == if v in INTERESTING_8[..n] && !Skipped(orig, v) then 1 else 0
  {
    hide Skipped, IsFlip, IsArith, Xor;
    if n > 0 {
      CountInteresting(orig, n - 1, v);
      NextInteresting(n);
    }
  }

  lemma NextInteresting(n: nat)
    requires 0 < n <= |INTERESTING_8|
    ensures INTERESTING_8[..n] == INTERESTING_8[..n - 1] + [INTERESTING_8[n - 1]]
    ensures INTERESTING_8[n - 1] !in INTERESTING_8[..n - 1]
  {
  }

  function Put(b: seq<byte>, i: nat, vs: seq<byte>): seq<seq<byte>>
    requires i < |b|
  {
    seq(|vs|, k requires 0 <= k < |vs| => b[i := vs[k]])
  }

  /** Each of the first n bytes is replaced by the values of its list in turn. */
  function PutAll(b: seq<byte>, lists: seq<seq<byte>>, n: nat): seq<seq<byte>>
    requires n <= |lists| == |b|
  {
    if n == 0 then [] else PutAll(b, lists, n - 1) + Put(b, n - 1, lists[n - 1])
  }

  lemma {:induction false} CountPut(b: seq<byte>, p: nat, vs: seq<byte>, i: nat, v: byte)
    requires p < |b| && i < |b| && v != b[i] && b[p] !in vs
    ensures multiset(Put(b, p, vs))[b[i := v]] == if i == p then multiset(vs)[v] else 0
  {
    if vs == [] {
    } else {
      var n := |vs| - 1;
      CountPut(b, p, vs[..n], i, v);
      assert vs == vs[..n] + [vs[n]];
      assert Put(b, p, vs) == Put(b, p, vs[..n]) + [b[p := vs[n]]];
      PutIs(b, i, v, p, vs[n]);
    }
  }

  lemma {:induction false} CountPutAll(b: seq<byte>, lists: seq<seq<byte>>, n: nat, i: nat, v: byte)
    requires n <= |lists| == |b| && i < |b| && v != b[i]
    requires forall p :: 0 <= p < |b| ==> b[p] !in lists[p]
    ensures multiset(PutAll(b, lists, n))[b[i := v]] == if i < n then multiset(lists[i])[v] else 0
  {
    if n > 0 {
      CountPutAll(b, lists, n - 1, i, v);
      CountPut(b, n - 1, lists[n - 1], i, v);
    }
  }

  // ----- all stages ------------------------------------------------------------------------------

  ghost predicate Flagged(eff: seq<bool>, i: nat) { i / 8 < |eff| && eff[i / 8] }

  ghost function ArithLists(b: seq<byte>, eff: seq<bool>): (r: seq<seq<byte>>)
    ensures |r| == |b|
  {
    seq(|b|, i requires 0 <= i < |b| => if Flagged(eff, i) then Sums(b[i], ARITH_MAX) else [])
  }

  ghost function InterestLists(b: seq<byte>, eff: seq<bool>): (r: seq<seq<byte>>)
    ensures |r| == |b|
  {
    seq(|b|, i requires 0 <= i < |b| => if Flagged(eff, i) then Interesting(b[i], |INTERESTING_8|) else [])
  }

  /** The sums unless arithmetic is switched off, and the interesting values. */
  ghost function Values(b: seq<byte>, eff: seq<bool>, noArith: bool): seq<seq<byte>>
  {
    (if noArith then [] else PutAll(b, ArithLists(b, eff), |b|)) + PutAll(b, InterestLists(b, eff), |b|)
  }

  /** What is executed. */
  ghost function Mutants(b: seq<byte>, eff: seq<bool>, noArith: bool): seq<seq<byte>>
    requires |b| > 0
  {
    Flips(b) + Values(b, eff, noArith)
  }

  lemma NeverSame(orig: byte)
    ensures orig !in Sums(orig, ARITH_MAX) && orig !in Interesting(orig, |INTERESTING_8|)
  {
    XorSelf(orig);
    assert IsFlip(0);
    CountSums(orig, ARITH_MAX, orig);
    CountInteresting(orig, |INTERESTING_8|, orig);
  }

  lemma CountInterest(b: seq<byte>, eff: seq<bool>, i: nat, v: byte)
    requires i < |b| && v != b[i]
    ensures multiset(PutAll(b, InterestLists(b, eff), |b|))[b[i := v]] ==
            if Flagged(eff, i) && v in INTERESTING_8 && !Adjusted(b[i], v, 256) && !IsFlip(Xor(b[i], v)) then 1 else 0
  {
    var lists := InterestLists(b, eff);
    forall p | 0 <= p < |b|
      ensures b[p] !in lists[p]
    {
      NeverSame(b[p]);
    }
    assert INTERESTING_8[..|INTERESTING_8|] == INTERESTING_8;
    assert IsArith([b[i]], [v]) <==> b[i] == v || Adjusted(b[i], v, 256) by {
      var o, n := [b[i]], [v];
      assert o[0] == b[i] && n[0] == v;
      if Adjusted(b[i], v, 256) {
        assert ByteStep(o, n, 0);
      }
    }
    hide Adjusted, IsFlip, IsArith, Interesting, PutAll;
    CountPutAll(b, lists, |b|, i, v);
    CountInteresting(b[i], |INTERESTING_8|, v);
  }

  /** Every intended change of one byte is executed exactly once, and no other: those that pass for a bit flip
      anywhere; and, where the effector map says so, the small sums and differences if arithmetic is on, and the
      interesting values that are neither. */
  lemma EveryMutantOnce(b: seq<byte>, eff: seq<bool>, noArith: bool, i: nat, v: byte)
    requires i < |b| && v != b[i]
    ensures multiset(Mutants(b, eff, noArith))[b[i := v]] ==
            if IsFlip(Xor(b[i], v)) then 1
            else if !Flagged(eff, i) then 0
            else if Adjusted(b[i], v, 256) then (if noArith then 0 else 1)
            else if v in INTERESTING_8 then 1 else 0
  {
    CountFlips(b, i, v);
    assert multiset(PutAll(b, ArithLists(b, eff), |b|))[b[i := v]] ==
              if Flagged(eff, i) && Adjusted(b[i], v, 256) && !IsFlip(Xor(b[i], v)) then 1 else 0 by {
      var lists := ArithLists(b, eff);
      forall p | 0 <= p < |b|
        ensures b[p] !in lists[p]
      {
        NeverSame(b[p]);
      }
      assert AdjustedUpTo(b[i], v, ARITH_MAX) == Adjusted(b[i], v, 256);
      hide AdjustedUpTo, Adjusted, IsFlip, Sums, PutAll;
      CountPutAll(b, lists, |b|, i, v);
      CountSums(b[i], ARITH_MAX, v);
    }
    CountInterest(b, eff, i, v);
    hide Flips, PutAll, IsFlip, Adjusted, Flagged, ArithLists, InterestLists, Xor;
  }
}
