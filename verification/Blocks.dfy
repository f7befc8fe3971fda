/** What the minimiser and the trimmer share: removing and blanking blocks of a test case, and the
    power-of-two block lengths. */
module Blocks {
  import opened Bytes

  const ZERO: byte := 48

  const WORD := 0x1_0000_0000

  predicate IsPow2(p: nat)
  {
    p == 1 || (p > 1 && p % 2 == 0 && IsPow2(p / 2))
  }

  function NextP2From(v: nat, p: nat): (r: nat)
    requires p > 0
    decreases v - p
  {
    if v <= p then p else NextP2From(v, 2 * p)
  }

  function NextP2(v: nat): nat { NextP2From(v, 1) }

  lemma {:induction false} PowersAreDoublings(p: nat, q: nat)
    requires IsPow2(p) && IsPow2(q) && p < q
    ensures 2 * p <= q
    decreases q
  {
    if p > 1 {
      PowersAreDoublings(p / 2, q / 2);
    }
  }

  lemma {:induction false} NextP2FromIsLeast(v: nat, p: nat)
    requires IsPow2(p) && (p == 1 || p / 2 < v)
    ensures var r := NextP2From(v, p);
            IsPow2(r) && v <= r && (r == 1 || r < 2 * v) && forall q :: IsPow2(q) && v <= q && p <= q ==> r <= q
    decreases v - p
  {
    if p < v {
      assert 2 * p / 2 == p && 2 * p % 2 == 0;
      NextP2FromIsLeast(v, 2 * p);
      forall q | IsPow2(q) && v <= q && p <= q
        ensures NextP2From(v, p) <= q
      {
        PowersAreDoublings(p, q);
      }
    }
  }

  /** The least power of two that is no smaller than the argument. */
  lemma NextP2IsLeast(v: nat)
    ensures IsPow2(NextP2(v)) && v <= NextP2(v) && (NextP2(v) == 1 || NextP2(v) < 2 * v)
    ensures forall q :: IsPow2(q) && v <= q ==> NextP2(v) <= q
  {
    NextP2FromIsLeast(v, 1);
    assert forall q :: IsPow2(q) ==> 1 <= q;
  }

  /** The doubling loop on 32-bit words; it ends for every value up to the largest 32-bit power of two. */
  method RoundUp(val: nat) returns (ret: nat)
    requires val <= WORD / 2
    ensures ret == NextP2(val) && ret < WORD
    ensures IsPow2(ret) && val <= ret && forall q :: IsPow2(q) && val <= q ==> ret <= q
  {
    ret := 1;
    NextP2IsLeast(val);
    while val > ret
      invariant 0 < ret < WORD && NextP2From(val, ret) == NextP2(val)
      decreases val - ret
    {
      ret := ret * 2 % WORD;
    }
  }

  function Without(s: seq<byte>, p: nat, n: nat): (r: seq<byte>)
    requires p <= |s|
  {
    s[..p] + s[Min(p + n, |s|)..]
  }

  function Zeros(n: nat): (r: seq<byte>)
    ensures |r| == n && forall i :: 0 <= i < n ==> r[i] == ZERO
  {
    seq(n, _ => ZERO)
  }

  function Blanked(s: seq<byte>, p: nat, n: nat): (r: seq<byte>)
    requires p + n <= |s|
    ensures |r| == |s|
  {
    s[..p] + Zeros(n) + s[p + n..]
  }

  function Renamed(s: seq<byte>, b: byte): (r: seq<byte>)
    ensures |r| == |s|
  {
    seq(|s|, i requires 0 <= i < |s| => if s[i] == b then ZERO else s[i])
  }

  /** The test case r is what is left of s after dropping bytes and, if blank is set, turning others into
      the filler. */
  predicate Fits(r: seq<byte>, s: seq<byte>, blank: bool)
    decreases |s|
  {
    r == [] ||
    (s != [] &&
     (((r[0] == s[0] || (blank && r[0] == ZERO)) && Fits(r[1..], s[1..], blank)) || Fits(r, s[1..], blank)))
  }

  predicate Embeds(r: seq<byte>, s: seq<byte>) { Fits(r, s, true) }

  predicate Subsequence(r: seq<byte>, s: seq<byte>) { Fits(r, s, false) }

  lemma {:induction false} FitsSelf(s: seq<byte>, blank: bool)
    ensures Fits(s, s, blank)
    decreases |s|
  {
    if s != [] {
      FitsSelf(s[1..], blank);
    }
  }

  lemma EmbedsSelf(s: seq<byte>)
    ensures Embeds(s, s)
  {
    FitsSelf(s, true);
  }

  lemma {:induction false} SubsequenceEmbeds(r: seq<byte>, s: seq<byte>)
    requires Subsequence(r, s)
    ensures Embeds(r, s)
    decreases |s|
  {
    if r == [] {
    } else if Fits(r, s[1..], false) {
      SubsequenceEmbeds(r, s[1..]);
    } else {
      SubsequenceEmbeds(r[1..], s[1..]);
    }
  }

  lemma {:induction false} FitsTransitive(a: seq<byte>, b: seq<byte>, c: seq<byte>, blank: bool)
    requires Fits(a, b, blank) && Fits(b, c, blank)
    ensures Fits(a, c, blank)
    decreases |b| + |c|
  {
    if a == [] || b == [] {
    } else if Fits(b, c[1..], blank) {
      FitsTransitive(a, b, c[1..], blank);
    } else if Fits(a, b[1..], blank) {
      FitsTransitive(a, b[1..], c[1..], blank);
    } else {
      FitsTransitive(a[1..], b[1..], c[1..], blank);
    }
  }

  lemma EmbedsTransitive(a: seq<byte>, b: seq<byte>, c: seq<byte>)
    requires Embeds(a, b) && Embeds(b, c)
    ensures Embeds(a, c)
  {
    FitsTransitive(a, b, c, true);
  }

  /** Tails that fit still fit behind heads of equal length that agree, up to the filler if that is allowed. */
  lemma {:induction false} FitsBehind(a: seq<byte>, b: seq<byte>, r: seq<byte>, s: seq<byte>, blank: bool)
    requires |a| == |b| && forall i :: 0 <= i < |a| ==> a[i] == b[i] || (blank && a[i] == ZERO)
    requires Fits(r, s, blank)
    ensures Fits(a + r, b + s, blank)
    decreases |a|
  {
    if a == [] {
      assert a + r == r && b + s == s;
    } else {
      FitsBehind(a[1..], b[1..], r, s, blank);
      assert (a + r)[1..] == a[1..] + r && (b + s)[1..] == b[1..] + s;
    }
  }

  lemma {:induction false} TailIsSubsequence(s: seq<byte>, n: nat)
    requires n <= |s|
    ensures Subsequence(s[n..], s)
    decreases n
  {
    if n == 0 {
      FitsSelf(s, false);
      assert s[0..] == s;
    } else {
      TailIsSubsequence(s[1..], n - 1);
      assert s[1..][n - 1..] == s[n..];
    }
  }

  lemma WithoutIsSubsequence(s: seq<byte>, p: nat, n: nat)
    requires p <= |s|
    ensures Subsequence(Without(s, p, n), s)
  {
    var t := s[p..];
    var m := Min(n, |t|);
    TailIsSubsequence(t, m);
    assert Without(s, p, n) == s[..p] + t[m..] && s == s[..p] + t;
    hide Fits, Without;
    FitsBehind(s[..p], s[..p], t[m..], t, false);
  }

  lemma PointwiseEmbeds(r: seq<byte>, s: seq<byte>)
    requires |r| == |s| && forall i :: 0 <= i < |r| ==> r[i] == s[i] || r[i] == ZERO
    ensures Embeds(r, s)
  {
    FitsBehind(r, s, [], [], true);
    assert r + [] == r && s + [] == s;
  }

  function NonZeros(s: seq<byte>): nat
  {
    if s == [] then 0 else (if s[0] != ZERO then 1 else 0) + NonZeros(s[1..])
  }

  /** Length plus the number of bytes that are not the filler: what every change takes from. */
  function Weight(s: seq<byte>): nat { |s| + NonZeros(s) }

  lemma {:induction false} EmbeddingIsLighter(r: seq<byte>, s: seq<byte>)
    requires Embeds(r, s)
    ensures |r| <= |s| && Weight(r) <= Weight(s) && (Weight(r) == Weight(s) ==> r == s)
    decreases |s|
  {
    if r == [] {
    } else if Fits(r, s[1..], true) {
      EmbeddingIsLighter(r, s[1..]);
    } else {
      EmbeddingIsLighter(r[1..], s[1..]);
      assert r == [r[0]] + r[1..] && s == [s[0]] + s[1..];
    }
  }

  /** The rule that skips a block equal to the rejected block before it: both deletions leave the same bytes. */
  lemma EqualNeighbours(s: seq<byte>, p: nat, n: nat)
    requires p + 2 * n <= |s| && forall i :: 0 <= i < n ==> s[p..][i] == s[p + n..][i]
    ensures Without(s, p, n) == Without(s, p + n, n)
  {
    var a, b := Without(s, p, n), Without(s, p + n, n);
    forall i | 0 <= i < |a|
      ensures a[i] == b[i]
    {
      if p <= i < p + n {
        assert s[p..][i - p] == s[p + n..][i - p];
      }
    }
  }

  type Oracle = seq<byte> -> bool

  /** Delete the blocks from position p on, one after the other. */
  function Sweep(keep: Oracle, s: seq<byte>, n: nat, p: nat): seq<byte>
    requires n > 0
    decreases |s| - p
  {
    if p >= |s| then s
    else if keep(Without(s, p, n)) then Sweep(keep, Without(s, p, n), n, p)
    else Sweep(keep, s, n, p + n)
  }

  lemma {:induction false} SweepIsSubsequence(keep: Oracle, s: seq<byte>, n: nat, p: nat)
    requires n > 0
    ensures var r := Sweep(keep, s, n, p); Subsequence(r, s) && (keep(s) ==> keep(r))
    decreases |s| - p
  {
    if p >= |s| {
      FitsSelf(s, false);
    } else if keep(Without(s, p, n)) {
      var t := Without(s, p, n);
      SweepIsSubsequence(keep, t, n, p);
      WithoutIsSubsequence(s, p, n);
      FitsTransitive(Sweep(keep, t, n, p), t, s, false);
    } else {
      SweepIsSubsequence(keep, s, n, p + n);
    }
  }

  lemma SweepEmbeds(keep: Oracle, s: seq<byte>, n: nat, p: nat)
    requires n > 0
    ensures var r := Sweep(keep, s, n, p); Embeds(r, s) && (keep(s) ==> keep(r))
  {
    SweepIsSubsequence(keep, s, n, p);
    SubsequenceEmbeds(Sweep(keep, s, n, p), s);
  }
}
