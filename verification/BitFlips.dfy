/** Runs of flipped bits, numbered from the most significant bit of each byte. */
module BitFlips {
  import opened Bytes
  import opened Ir
  import opened Halves
  import opened Bitwise
  import opened Reachable

  // ----- flipping bits ---------------------------------------------------------------------------

  lemma Pow2Eight()
    ensures Pow2(8) == 256 && Pow2(0) == 1
  {
    assert Pow2(4) == 16;
  }

  function Flip(x: byte, m: byte): byte
  {
    Pow2Eight();
    XorBelow(x, m, 8);
    Xor(x, m)
  }

  /** The bit at position j of a byte, counted from the most significant one. */
  function High(j: nat): byte
    requires j < 8
  {
    Pow2Eight();
    Pow2Grows(7 - j, 8);
    Pow2(7 - j)
  }

  lemma {:induction false} Pow2Grows(a: nat, b: nat)
    requires a < b
    ensures 2 * Pow2(a) <= Pow2(b)
    decreases b
  {
    if a + 1 < b {
      Pow2Grows(a, b - 1);
    }
  }

  function FlipBit(b: seq<byte>, k: nat): (r: seq<byte>)
    requires k < 8 * |b|
    ensures |r| == |b|
  {
    b[k / 8 := Flip(b[k / 8], High(k % 8))]
  }

  /** Flipping n bits from position k on. */
  function FlipRun(b: seq<byte>, k: nat, n: nat): (r: seq<byte>)
    requires k + n <= 8 * |b|
    ensures |r| == |b|
  {
    if n == 0 then b else FlipBit(FlipRun(b, k, n - 1), k + n - 1)
  }

  /** n neighbouring bits, the first one at position j of a byte. */
  function Mask(j: nat, n: nat): byte
    requires j + n <= 8
  {
    MaskIs(j, n);
    Pow2(8 - j) - Pow2(8 - j - n)
  }

  lemma MaskIs(j: nat, n: nat)
    requires j + n <= 8
    ensures (Pow2(n) - 1) * Pow2(8 - j - n) == Pow2(8 - j) - Pow2(8 - j - n)
    ensures 0 <= Pow2(8 - j) - Pow2(8 - j - n) < 256
  {
    Pow2Eight();
    Pow2Add(n, 8 - j - n);
    if j > 0 {
      Pow2Grows(8 - j, 8);
    }
    if n > 0 {
      Pow2Grows(8 - j - n, 8 - j);
    }
    Distribute(Pow2(n), Pow2(8 - j - n));
  }

  lemma Distribute(a: int, b: int)
    ensures (a - 1) * b == a * b - b
  {
  }

  /** The lowest k bits are zero. */
  predicate NoLow(x: nat, k: nat) { k == 0 || (x % 2 == 0 && NoLow(x / 2, k - 1)) }

  lemma {:induction false} MultipleHasNoLow(y: nat, k: nat)
    ensures NoLow(y * Pow2(k), k)
  {
    if k > 0 {
      var p := Pow2(k - 1);
      assert y * (2 * p) == 2 * (y * p);
      MultipleHasNoLow(y, k - 1);
    }
  }

  /** A power of two is mixed into a multiple of the next power by adding it. */
  lemma {:induction false} XorAdds(x: nat, k: nat)
    requires NoLow(x, k + 1)
    ensures Xor(x, Pow2(k)) == x + Pow2(k)
    decreases k
  {
    XorBit(x, Pow2(k));
    if k == 0 {
      XorZero(x / 2);
    } else {
      XorAdds(x / 2, k - 1);
    }
  }

  lemma MaskGrows(x: byte, j: nat, n: nat)
    requires j + n < 8
    ensures Flip(Flip(x, Mask(j, n)), High(j + n)) == Flip(x, Mask(j, n + 1))
  {
    XorAssociates(x, Mask(j, n), High(j + n));
    MaskNext(j, n);
    hide Xor, Mask, High;
  }

  lemma MaskNext(j: nat, n: nat)
    requires j + n < 8
    ensures Xor(Mask(j, n), High(j + n)) == Mask(j, n + 1)
  {
    MaskHasNoLow(j, n);
    hide Xor, NoLow;
    XorAdds(Mask(j, n), 7 - j - n);
  }

  lemma MaskHasNoLow(j: nat, n: nat)
    requires j + n <= 8
    ensures NoLow(Mask(j, n), 8 - j - n)
  {
    MaskIs(j, n);
    hide NoLow, Pow2;
    MultipleHasNoLow(Pow2(n) - 1, 8 - j - n);
  }

  lemma {:induction false} RunInside(b: seq<byte>, k: nat, n: nat)
    requires k + n <= 8 * |b| && k % 8 + n <= 8 && k / 8 < |b|
    ensures FlipRun(b, k, n) == b[k / 8 := Flip(b[k / 8], Mask(k % 8, n))]
    decreases n
  {
    if n == 0 {
      NoFlip(b[k / 8], k % 8);
    } else {
      RunInside(b, k, n - 1);
      MaskGrows(b[k / 8], k % 8, n - 1);
      assert (k + n - 1) / 8 == k / 8 && (k + n - 1) % 8 == k % 8 + n - 1;
    }
  }

  lemma NoFlip(x: byte, j: nat)
    requires j < 8
    ensures Flip(x, Mask(j, 0)) == x
  {
    MaskIs(j, 0);
    XorZero(x);
  }

  lemma {:induction false} RunJoin(b: seq<byte>, k: nat, n: nat, m: nat)
    requires k + n + m <= 8 * |b|
    ensures FlipRun(b, k, n + m) == FlipRun(FlipRun(b, k, n), k + n, m)
    decreases m
  {
    if m > 0 {
      RunJoin(b, k, n, m - 1);
    }
  }

  lemma FlipChanges(x: byte, m: byte)
    requires m != 0
    ensures Flip(x, m) != x
  {
    XorZero(x);
    XorInjective(m, 0, x);
  }

  lemma FlipTwice(x: byte, m: byte)
    ensures Flip(Flip(x, m), m) == x
  {
    XorAssociates(x, m, m);
    XorSelf(m);
    XorZero(x);
  }

  lemma MaskNonZero(j: nat, n: nat)
    requires j + n <= 8 && n > 0
    ensures Mask(j, n) != 0
  {
    MaskIs(j, n);
    Pow2Grows(8 - j - n, 8 - j);
  }

  /** Where a run crosses into the next byte, it changes both bytes. */
  lemma RunAcross(b: seq<byte>, k: nat, n: nat)
    requires k + n <= 8 * |b| && 8 < k % 8 + n <= 16
    ensures var (i, c) := (k / 8, 8 - k % 8);
            && i + 1 < |b| && c < n && n - c <= 8
            && FlipRun(b, k, n) == b[i := Flip(b[i], Mask(k % 8, c))][i + 1 := Flip(b[i + 1], Mask(0, n - c))]
  {
    hide *;
    var i, c := k / 8, 8 - k % 8;
    NextByte(k, c);
    RunJoin(b, k, c, n - c);
    RunInside(b, k, c);
    RunInside(FlipRun(b, k, c), k + c, n - c);
  }

  lemma NextByte(k: nat, c: nat)
    requires c == 8 - k % 8
    ensures (k + c) / 8 == k / 8 + 1 && (k + c) % 8 == 0 && k + c == 8 * (k / 8) + 8
  {
  }
}
