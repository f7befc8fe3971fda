/** Arithmetic of high and low halves and of sign bits. */
module Halves {
  import opened Ir

  lemma {:induction false} Pow2Add(a: nat, b: nat)
    ensures Pow2(a + b) == Pow2(a) * Pow2(b)
    decreases a
  {
    if a > 0 {
      Pow2Add(a - 1, b);
      assert Pow2(a + b) == 2 * Pow2(a - 1 + b);
    }
  }

  lemma MulMono(a: nat, b: nat, p: nat)
    requires a < b
    ensures a * p + p <= b * p
  {
    var d := b - a - 1;
    assert b * p == a * p + d * p + p by {
      assert b == a + d + 1;
    }
    assert d * p >= 0;
  }

  lemma DivUnique(x: nat, d: nat, q: nat, r: nat)
    requires d > 0 && x == q * d + r && r < d
    ensures Div(x, d) == q && x % d == r
  {
    var q', r' := x / d, x % d;
    assert x == q' * d + r';
    if q' < q {
      MulMono(q', q, d);
    } else if q < q' {
      MulMono(q, q', d);
    }
  }

  lemma Regroup(q: nat, d: nat, e: nat, s: nat)
    ensures q * (d * e) + s * e == (q * d + s) * e
  {
  }

  /** (x mod d*e) mod e == x mod e */
  lemma ModMod(x: nat, d: nat, e: nat, m: nat)
    requires d > 0 && e > 0 && m == d * e > 0
    ensures (x % m) % e == x % e
  {
    var q, r := Div(x, m), x % m;
    assert x == q * m + r;
    var s, t := Div(r, e), r % e;
    assert r == s * e + t;
    Regroup(q, d, e, s);
    DivUnique(x, e, q * d + s, t);
  }

  /** Numbers written with a digit below p compare lexicographically. */
  lemma Lexicographic(hx: nat, lx: nat, hy: nat, ly: nat, p: nat, x: nat, y: nat)
    requires lx < p && ly < p && x == hx * p + lx && y == hy * p + ly
    ensures x == y <==> hx == hy && lx == ly
    ensures x > y <==> hx > hy || (hx == hy && lx > ly)
    ensures x < y <==> hx < hy || (hx == hy && lx < ly)
  {
    if hx > hy {
      MulMono(hy, hx, p);
    } else if hy > hx {
      MulMono(hx, hy, p);
    }
  }

  lemma LowIdempotent(w: nat, x: nat)
    ensures Low(w, Low(w, x)) == Low(w, x)
  {
    DivUnique(Low(w, x), Pow2(w), 0, Low(w, x));
  }

  lemma LowSmall(w: nat, x: nat)
    requires x < Pow2(w)
    ensures Low(w, x) == x
  {
    DivUnique(x, Pow2(w), 0, x);
  }

  lemma LowLow(h: nat, w: nat, x: nat)
    requires h <= w
    ensures Low(h, Low(w, x)) == Low(h, x)
  {
    Pow2Add(w - h, h);
    ModMod(x, Pow2(w - h), Pow2(h), Pow2(w));
  }

  /** A value is its upper part above bit k followed by its lower k bits. */
  lemma SplitAt(w: nat, k: nat, x: nat)
    requires k <= w
    ensures Shifted(w, x, k) < Pow2(w - k)
    ensures Low(w, x) == Shifted(w, x, k) * Pow2(k) + Low(k, x)
    ensures Low(w - k, Shifted(w, x, k)) == Shifted(w, x, k)
  {
    LowLow(k, w, x);
    Pow2Add(w - k, k);
    Quotient(Low(w, x), Pow2(w - k), Pow2(k), Pow2(w));
    LowSmall(w - k, Shifted(w, x, k));
  }

  lemma Quotient(x: nat, d: nat, p: nat, m: nat)
    requires p > 0 && m == d * p && x < m
    ensures Div(x, p) < d && x == Div(x, p) * p + x % p
  {
    if Div(x, p) >= d {
      if Div(x, p) > d {
        MulMono(d, Div(x, p), p);
      }
    }
  }

  /** Comparing two values is comparing their upper parts first and then their lower parts. */
  lemma CompareParts(w: nat, k: nat, x: nat, y: nat)
    requires k <= w
    ensures var (hx, hy, lx, ly) := (Shifted(w, x, k), Shifted(w, y, k), Low(k, x), Low(k, y));
      && (Low(w, x) == Low(w, y) <==> hx == hy && lx == ly)
      && (Low(w, x) > Low(w, y) <==> hx > hy || (hx == hy && lx > ly))
      && (Low(w, x) < Low(w, y) <==> hx < hy || (hx == hy && lx < ly))
  {
    SplitAt(w, k, x);
    SplitAt(w, k, y);
    Lexicographic(Shifted(w, x, k), Low(k, x), Shifted(w, y, k), Low(k, y), Pow2(k), Low(w, x), Low(w, y));
  }

  lemma SignBitShape(w: Width, x: nat)
    ensures SignBit(w, x) == Shifted(w, x, w - 1) < 2
    ensures SignBit(w, x) == 1 <==> Low(w, x) >= Pow2(w - 1)
    ensures Signed(w, x) == Low(w, x) - SignBit(w, x) * Pow2(w)
  {
    SplitAt(w, w - 1, x);
    assert Pow2(1) == 2 * Pow2(0);
    assert w - (w - 1) == 1;
    LowSmall(1, Shifted(w, x, w - 1));
  }

  /** The signed order is the unsigned order when the sign bits agree, and their reverse order
      otherwise. */
  lemma SignedOrder(w: Width, x: nat, y: nat)
    ensures Signed(w, x) > Signed(w, y) <==>
            if SignBit(w, x) == SignBit(w, y) then Low(w, x) > Low(w, y) else SignBit(w, x) < SignBit(w, y)
    ensures Signed(w, x) < Signed(w, y) <==>
            if SignBit(w, x) == SignBit(w, y) then Low(w, x) < Low(w, y) else SignBit(w, x) > SignBit(w, y)
  {
    SignBitShape(w, x);
    SignBitShape(w, y);
    assert SignBit(w, x) == 0 || SignBit(w, x) == 1;
    assert SignBit(w, y) == 0 || SignBit(w, y) == 1;
  }

  /** Only the low w bits of the operands matter to the costs. */
  lemma {:induction false} EqCostLow(w: nat, x: nat, y: nat)
    ensures EqCost(w, Low(w, x), Low(w, y)) == EqCost(w, x, y)
    decreases w
  {
    if ByteMultiple(w) && w != 8 {
      LowIdempotent(w, x);
      LowIdempotent(w, y);
      EqCostLow(w / 2, x, y);
      EqCostLow(w / 2, Low(w, x), Low(w, y));
      LowLow(w / 2, w, x);
      LowLow(w / 2, w, y);
    }
  }

  lemma {:induction false} RelCostLow(gt: bool, w: nat, x: nat, y: nat)
    ensures RelCost(gt, w, Low(w, x), Low(w, y)) == RelCost(gt, w, x, y)
    decreases w
  {
    if ByteMultiple(w) && w != 8 {
      LowIdempotent(w, x);
      LowIdempotent(w, y);
      RelCostLow(gt, w / 2, x, y);
      RelCostLow(gt, w / 2, Low(w, x), Low(w, y));
      LowLow(w / 2, w, x);
      LowLow(w / 2, w, y);
    }
  }
}
