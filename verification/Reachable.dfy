/** The tests by which the deterministic stages avoid repeating themselves: whether a change could be a bit flip,
    or the result of arithmetic. */
module Reachable {
  import opened Bytes
  import opened Ir
  import opened Halves

  const ARITH_MAX := 35

  // ----- bit flips -------------------------------------------------------------------------------

  /** The bits that differ are 1, 2 or 4 neighbours anywhere, or 8, 16 or 32 neighbours at a byte boundary. */
  predicate FlipAt(x: nat, sh: nat)
  {
    || x == Pow2(sh) || x == 3 * Pow2(sh) || x == 15 * Pow2(sh)
    || (sh % 8 == 0 && (x == 0xFF * Pow2(sh) || x == 0xFFFF * Pow2(sh) || x == 0xFFFF_FFFF * Pow2(sh)))
  }

  ghost predicate IsFlip(x: nat) { x == 0 || exists sh: nat :: FlipAt(x, sh) }

  lemma {:induction false} OddParts(a: nat, s: nat, b: nat, t: nat)
    requires a % 2 == 1 && b % 2 == 1 && a * Pow2(s) == b * Pow2(t)
    ensures a == b && s == t
    decreases s + t
  {
    hide Pow2;
    if s > 0 && t > 0 {
      Doubled(a, s);
      Doubled(b, t);
      OddParts(a, s - 1, b, t - 1);
    } else if s > 0 {
      Doubled(a, s);
      Undoubled(b);
    } else {
      Undoubled(a);
      if t > 0 {
        Doubled(b, t);
      } else {
        Undoubled(b);
      }
    }
  }

  lemma Doubled(a: nat, s: nat)
    requires s > 0
    ensures a * Pow2(s) == 2 * (a * Pow2(s - 1)) && (a * Pow2(s)) % 2 == 0
  {
    assert a * (2 * Pow2(s - 1)) == 2 * (a * Pow2(s - 1));
  }

  lemma Undoubled(a: nat)
    ensures a * Pow2(0) == a
  {
  }

  method CouldBeBitflip(xorVal: nat) returns (r: bool)
    ensures r <==> IsFlip(xorVal)
  {
    if xorVal == 0 {
      return true;
    }
    var x, sh: nat := xorVal, 0;
    hide Pow2, IsFlip;
    Undoubled(xorVal);
    while x % 2 == 0
      invariant x > 0 && xorVal == x * Pow2(sh)
      decreases x
    {
      Doubled(x / 2, sh + 1);
      sh, x := sh + 1, x / 2;
    }
    FlipIs(xorVal, x, sh);
    if x == 1 || x == 3 || x == 15 {
      return true;
    }
    if sh % 8 != 0 {
      return false;
    }
    r := x == 0xFF || x == 0xFFFF || x == 0xFFFF_FFFF;
  }

  /** A number is a flip exactly when its odd part is one of the patterns. */
  lemma FlipIs(v: nat, x: nat, sh: nat)
    requires v == x * Pow2(sh) && x % 2 == 1
    ensures IsFlip(v) <==>
            x == 1 || x == 3 || x == 15 || (sh % 8 == 0 && (x == 0xFF || x == 0xFFFF || x == 0xFFFF_FFFF))
  {
    hide Pow2;
    Positive(x, Pow2(sh));
    if t: nat :| FlipAt(v, t) {
      var b := FlipBase(v, t);
      OddParts(x, sh, b, t);
    }
    if x == 1 || x == 3 || x == 15 || (sh % 8 == 0 && (x == 0xFF || x == 0xFFFF || x == 0xFFFF_FFFF)) {
      assert FlipAt(v, sh);
    }
  }

  lemma Positive(x: nat, p: nat)
    requires x > 0 && p > 0
    ensures x * p > 0
  {
  }

  lemma FlipBase(v: nat, t: nat) returns (b: nat)
    requires FlipAt(v, t)
    ensures v == b * Pow2(t) && (b == 1 || b == 3 || b == 15
                                 || (t % 8 == 0 && (b == 0xFF || b == 0xFFFF || b == 0xFFFF_FFFF)))
  {
    hide Pow2;
    b := if v == Pow2(t) then 1 else if v == 3 * Pow2(t) then 3 else if v == 15 * Pow2(t) then 15
         else if v == 0xFF * Pow2(t) then 0xFF else if v == 0xFFFF * Pow2(t) then 0xFFFF else 0xFFFF_FFFF;
  }

  // ----- arithmetic ------------------------------------------------------------------------------

  /** Truncation to an unsigned type with m values, for numbers that wrap around at most once. */
  function Wrap(x: int, m: int): int
    requires -m <= x < 2 * m
  {
    if x < 0 then x + m else if x >= m then x - m else x
  }

  predicate Modulus(m: int) { m == 0x100 || m == 0x1_0000 || m == 0x1_0000_0000 }

  /** Some small number was added or subtracted. */
  ghost predicate Adjusted(a: int, b: int, m: int)
    requires Modulus(m) && 0 <= a < m
  {
    exists j :: 1 <= j <= ARITH_MAX && AdjustedBy(a, b, j, m)
  }

  predicate AdjustedBy(a: int, b: int, j: int, m: int)
    requires Modulus(m) && 0 <= a < m && 1 <= j <= ARITH_MAX
  {
    b == Wrap(a + j, m) || b == Wrap(a - j, m)
  }

  /** The test of the code: the difference, either way round, is small. */
  predicate Near(a: int, b: int, m: int)
    requires Modulus(m) && 0 <= a < m && 0 <= b < m
  {
    Wrap(a - b, m) <= ARITH_MAX || Wrap(b - a, m) <= ARITH_MAX
  }

  lemma NearIsAdjusted(a: int, b: int, m: int)
    requires Modulus(m) && 0 <= a < m && 0 <= b < m && a != b
    ensures Near(a, b, m) <==> Adjusted(a, b, m)
  {
    if Wrap(b - a, m) <= ARITH_MAX {
      assert AdjustedBy(a, b, Wrap(b - a, m), m);
    }
    if Wrap(a - b, m) <= ARITH_MAX {
      assert AdjustedBy(a, b, Wrap(a - b, m), m);
    }
  }

  lemma AdjustedDiffers(a: int, b: int, m: int)
    requires Modulus(m) && 0 <= a < m && Adjusted(a, b, m)
    ensures a != b && 0 <= b < m
  {
  }

  /** Values are given by their bytes, least significant first. */
  function Word(lo: byte, hi: byte): (w: int)
    ensures 0 <= w < 0x1_0000
  {
    lo + 0x100 * hi
  }

  function Dword(b0: byte, b1: byte, b2: byte, b3: byte): (w: int)
    ensures 0 <= w < 0x1_0000_0000
  {
    Word(b0, b1) + 0x1_0000 * Word(b2, b3)
  }

  ghost predicate ByteStep(old_: seq<byte>, new_: seq<byte>, k: nat)
    requires |old_| == |new_| && k < |old_|
  {
    Adjusted(old_[k], new_[k], 0x100) && forall i :: 0 <= i < |old_| && i != k ==> old_[i] == new_[i]
  }

  /** The aligned word number k was adjusted, read with either byte first. */
  ghost predicate WordStep(old_: seq<byte>, new_: seq<byte>, k: nat)
    requires |old_| == |new_| && 2 * k + 2 <= |old_|
  {
    && (|| Adjusted(Word(old_[2 * k], old_[2 * k + 1]), Word(new_[2 * k], new_[2 * k + 1]), 0x1_0000)
        || Adjusted(Word(old_[2 * k + 1], old_[2 * k]), Word(new_[2 * k + 1], new_[2 * k]), 0x1_0000))
    && forall i :: 0 <= i < |old_| && i != 2 * k && i != 2 * k + 1 ==> old_[i] == new_[i]
  }

  ghost predicate DwordStep(o: seq<byte>, n: seq<byte>)
    requires |o| == |n| == 4
  {
    || Adjusted(Dword(o[0], o[1], o[2], o[3]), Dword(n[0], n[1], n[2], n[3]), 0x1_0000_0000)
    || Adjusted(Dword(o[3], o[2], o[1], o[0]), Dword(n[3], n[2], n[1], n[0]), 0x1_0000_0000)
  }

  /** Equal, or one byte, one aligned word or the whole dword was adjusted. */
  ghost predicate IsArith(old_: seq<byte>, new_: seq<byte>)
    requires |old_| == |new_|
  {
    || old_ == new_
    || (exists k: nat :: k < |old_| && ByteStep(old_, new_, k))
    || (exists k: nat :: k < |old_| / 2 && WordStep(old_, new_, k))
    || (|old_| == 4 && DwordStep(old_, new_))
  }

  /** What counting differences has found: none, exactly one at a known place, or at least two. */
  ghost predicate Counted<T>(a: seq<T>, b: seq<T>, n: nat, diffs: nat, at: nat)
    requires |a| == |b| && n <= |a|
  {
    if diffs == 0 then a[..n] == b[..n]
    else at < n && a[at] != b[at] && (if diffs == 1 then OnlyAt(a, b, n, at) else !OnlyAt(a, b, n, at))
  }

  ghost predicate OnlyAt<T>(a: seq<T>, b: seq<T>, n: nat, at: nat)
    requires |a| == |b| && n <= |a|
  {
    forall i :: 0 <= i < n && i != at ==> a[i] == b[i]
  }

  lemma CountNext<T>(a: seq<T>, b: seq<T>, n: nat, diffs: nat, at: nat)
    requires |a| == |b| && n < |a| && Counted(a, b, n, diffs, at)
    ensures if a[n] == b[n] then Counted(a, b, n + 1, diffs, at) else Counted(a, b, n + 1, diffs + 1, n)
  {
    assert a[..n + 1] == a[..n] + [a[n]] && b[..n + 1] == b[..n] + [b[n]];
    if diffs == 0 && a[n] != b[n] {
      assert forall i :: 0 <= i < n ==> a[i] == a[..n][i] && b[i] == b[..n][i];
    }
    if diffs > 0 && a[n] != b[n] {
      assert a[at] != b[at] && at != n;
    }
    if diffs > 1 && a[n] == b[n] {
      var i :| 0 <= i < n && i != at && a[i] != b[i];
    }
  }

  /** Counts the differences and remembers the last one. */
  method Differences(a: seq<int>, b: seq<int>) returns (diffs: nat, ov: int, nv: int, ghost at: nat)
    requires |a| == |b|
    ensures Counted(a, b, |a|, diffs, at) && (diffs > 0 ==> ov == a[at] && nv == b[at])
  {
    diffs, ov, nv, at := 0, 0, 0, 0;
    for i := 0 to |a|
      invariant Counted(a, b, i, diffs, at) && (diffs > 0 ==> ov == a[at] && nv == b[at])
    {
      CountNext(a, b, i, diffs, at);
      if a[i] != b[i] {
        diffs, ov, nv, at := diffs + 1, a[i], b[i], i;
      }
    }
  }

  function Words(s: seq<byte>): (w: seq<int>)
    ensures |w| == |s| / 2 && forall i :: 0 <= i < |w| ==> 0 <= w[i] < 0x1_0000
  {
    seq(|s| / 2, i requires 0 <= i < |s| / 2 => Word(s[2 * i], s[2 * i + 1]))
  }

  function Swap16(w: int): (r: int)
    requires 0 <= w < 0x1_0000
    ensures 0 <= r < 0x1_0000
  {
    0x100 * (w % 0x100) + w / 0x100
  }

  function Number(s: seq<byte>): (w: int)
    requires |s| == 4
    ensures 0 <= w < 0x1_0000_0000
  {
    Dword(s[0], s[1], s[2], s[3])
  }

  function Swap32(w: int): (r: int)
    requires 0 <= w < 0x1_0000_0000
    ensures 0 <= r < 0x1_0000_0000
  {
    0x1_0000 * Swap16(w % 0x1_0000) + Swap16(w / 0x1_0000)
  }

  lemma Swapped16(lo: byte, hi: byte)
    ensures Swap16(Word(lo, hi)) == Word(hi, lo)
  {
    Parts(lo, hi);
  }

  lemma Parts(lo: int, hi: int)
    requires 0 <= lo < 0x100
    ensures (lo + 0x100 * hi) % 0x100 == lo && (lo + 0x100 * hi) / 0x100 == hi
  {
  }

  lemma SwapHalves(lo: int, hi: int)
    requires 0 <= lo < 0x1_0000 && 0 <= hi < 0x1_0000
    ensures Swap32(lo + 0x1_0000 * hi) == Swap16(hi) + 0x1_0000 * Swap16(lo)
  {
    hide Swap16;
    assert (lo + 0x1_0000 * hi) % 0x1_0000 == lo && (lo + 0x1_0000 * hi) / 0x1_0000 == hi;
  }

  lemma ByteCase(o: seq<byte>, n: seq<byte>, diffs: nat, at: nat)
    requires |o| == |n| && Counted<int>(o, n, |o|, diffs, at)
    ensures (exists k: nat :: k < |o| && ByteStep(o, n, k)) <==> diffs == 1 && Near(o[at], n[at], 0x100)
  {
    if k: nat :| k < |o| && ByteStep(o, n, k) {
      AdjustedDiffers(o[k], n[k], 0x100);
      assert o[..|o|] == o && n[..|n|] == n;
      assert diffs > 0 && at == k && OnlyAt<int>(o, n, |o|, at);
      NearIsAdjusted(o[k], n[k], 0x100);
    }
    if diffs == 1 && Near(o[at], n[at], 0x100) {
      NearIsAdjusted(o[at], n[at], 0x100);
      assert ByteStep(o, n, at);
    }
  }

  lemma WordsDiffer(o: seq<byte>, n: seq<byte>, k: nat)
    requires |o| == |n| && |o| % 2 == 0 && k < |o| / 2
    ensures (forall i :: 0 <= i < |o| && i != 2 * k && i != 2 * k + 1 ==> o[i] == n[i]) <==>
            OnlyAt(Words(o), Words(n), |o| / 2, k)
  {
    if OnlyAt(Words(o), Words(n), |o| / 2, k) {
      forall i | 0 <= i < |o| && i != 2 * k && i != 2 * k + 1
        ensures o[i] == n[i]
      {
        assert Words(o)[i / 2] == Words(n)[i / 2];
      }
    }
  }

  lemma WordCase(o: seq<byte>, n: seq<byte>, diffs: nat, at: nat)
    requires |o| == |n| && |o| % 2 == 0 && Counted(Words(o), Words(n), |o| / 2, diffs, at)
    ensures (exists k: nat :: k < |o| / 2 && WordStep(o, n, k)) <==>
            diffs == 1 && (Near(Words(o)[at], Words(n)[at], 0x1_0000)
                           || Near(Swap16(Words(o)[at]), Swap16(Words(n)[at]), 0x1_0000))
  {
    hide WordStep, Near, Swap16, Words;
    if k: nat :| k < |o| / 2 && WordStep(o, n, k) {
      WordStepIs(o, n, k);
      assert Words(o)[..|o| / 2] == Words(o) && Words(n)[..|n| / 2] == Words(n);
      assert diffs > 0 && at == k;
    }
    if diffs == 1 {
      WordStepIs(o, n, at);
    }
  }

  lemma WordStepIs(o: seq<byte>, n: seq<byte>, k: nat)
    requires |o| == |n| && |o| % 2 == 0 && k < |o| / 2
    ensures var (a, b) := (Words(o)[k], Words(n)[k]);
            WordStep(o, n, k) <==> a != b && OnlyAt(Words(o), Words(n), |o| / 2, k)
                                   && (Near(a, b, 0x1_0000) || Near(Swap16(a), Swap16(b), 0x1_0000))
  {
    hide Near, Adjusted, Swap16, Word;
    WordsDiffer(o, n, k);
    WordNear(o, n, k);
  }

  /** A word that differs is adjusted, in either byte order, exactly when the test says so. */
  lemma WordNear(o: seq<byte>, n: seq<byte>, k: nat)
    requires |o| == |n| && 2 * k + 2 <= |o|
    ensures var (a, b, c, d) := (Word(o[2 * k], o[2 * k + 1]), Word(n[2 * k], n[2 * k + 1]),
                                 Word(o[2 * k + 1], o[2 * k]), Word(n[2 * k + 1], n[2 * k]));
            && Swap16(a) == c && Swap16(b) == d && (a == b <==> c == d)
            && (a != b ==> && (Near(a, b, 0x1_0000) <==> Adjusted(a, b, 0x1_0000))
                           && (Near(c, d, 0x1_0000) <==> Adjusted(c, d, 0x1_0000)))
            && (a == b ==> !Adjusted(a, b, 0x1_0000) && !Adjusted(c, d, 0x1_0000))
  {
    var a, b := Word(o[2 * k], o[2 * k + 1]), Word(n[2 * k], n[2 * k + 1]);
    var c, d := Word(o[2 * k + 1], o[2 * k]), Word(n[2 * k + 1], n[2 * k]);
    Swapped16(o[2 * k], o[2 * k + 1]);
    Swapped16(n[2 * k], n[2 * k + 1]);
    assert a == b <==> c == d;
    hide Near, Adjusted, Swap16, Word;
    if a != b {
      NearIsAdjusted(a, b, 0x1_0000);
      NearIsAdjusted(c, d, 0x1_0000);
    } else {
      NotAdjusted(a, 0x1_0000);
      NotAdjusted(c, 0x1_0000);
    }
  }

  lemma NotAdjusted(a: int, m: int)
    requires Modulus(m) && 0 <= a < m
    ensures !Adjusted(a, a, m)
  {
    if Adjusted(a, a, m) {
      AdjustedDiffers(a, a, m);
    }
  }

  lemma DwordCase(o: seq<byte>, n: seq<byte>)
    requires |o| == |n| == 4 && o != n
    ensures DwordStep(o, n) <==>
            Near(Number(o), Number(n), 0x1_0000_0000) || Near(Swap32(Number(o)), Swap32(Number(n)), 0x1_0000_0000)
  {
    hide Word, Swap16, Swap32, Near, Adjusted;
    var a, b, c, d := Number(o), Number(n), Dword(o[3], o[2], o[1], o[0]), Dword(n[3], n[2], n[1], n[0]);
    Swapped16(o[0], o[1]);
    Swapped16(o[2], o[3]);
    SwapHalves(Word(o[0], o[1]), Word(o[2], o[3]));
    Swapped16(n[0], n[1]);
    Swapped16(n[2], n[3]);
    SwapHalves(Word(n[0], n[1]), Word(n[2], n[3]));
    assert Swap32(a) == c && Swap32(b) == d;
    SameNumbers(o, n);
    hide Dword;
    NearIsAdjusted(a, b, 0x1_0000_0000);
    NearIsAdjusted(c, d, 0x1_0000_0000);
  }

  lemma SameNumbers(o: seq<byte>, n: seq<byte>)
    requires |o| == |n| == 4 && o != n
    ensures Number(o) != Number(n) && Dword(o[3], o[2], o[1], o[0]) != Dword(n[3], n[2], n[1], n[0])
  {
    assert o == [o[0], o[1], o[2], o[3]] && n == [n[0], n[1], n[2], n[3]];
    SameWord(o[0], o[1], n[0], n[1]);
    SameWord(o[2], o[3], n[2], n[3]);
    SameWord(o[1], o[0], n[1], n[0]);
    SameWord(o[3], o[2], n[3], n[2]);
    hide Word;
  }

  lemma SameWord(a: byte, b: byte, c: byte, d: byte)
    ensures Word(a, b) == Word(c, d) <==> a == c && b == d
  {
  }

  /** The values are given as their blen bytes, least significant first. */
  method CouldBeArith(oldVal: seq<byte>, newVal: seq<byte>) returns (r: bool)
    requires |oldVal| == |newVal| && (|oldVal| == 1 || |oldVal| == 2 || |oldVal| == 4)
    ensures r <==> IsArith(oldVal, newVal)
  {
    hide Near, ByteStep, WordStep, DwordStep, Swap16, Swap32, Words, Number, Counted;
    if oldVal == newVal {
      return true;
    }
    ghost var at;
    var diffs, ov, nv;
    diffs, ov, nv, at := Differences(oldVal, newVal);
    ByteCase(oldVal, newVal, diffs, at);
    if diffs == 1 && Near(ov, nv, 0x100) {
      return true;
    }
    if |oldVal| == 1 {
      return false;
    }
    diffs, ov, nv, at := Differences(Words(oldVal), Words(newVal));
    WordCase(oldVal, newVal, diffs, at);
    if diffs == 1 {
      if Near(ov, nv, 0x1_0000) {
        return true;
      }
      ov, nv := Swap16(ov), Swap16(nv);
      if Near(ov, nv, 0x1_0000) {
        return true;
      }
    }
    if |oldVal| == 4 {
      DwordCase(oldVal, newVal);
      var o, n := Number(oldVal), Number(newVal);
      if Near(o, n, 0x1_0000_0000) {
        return true;
      }
      n, o := Swap32(n), Swap32(o);
      if Near(o, n, 0x1_0000_0000) {
        return true;
      }
    }
    r := false;
  }
}
