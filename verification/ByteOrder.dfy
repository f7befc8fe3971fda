/** What fully expanded comparisons compute and execute: the lexicographic comparison of the bytes,
    most significant byte first. */
module ByteOrder {
  import opened Ir
  import opened Halves

  /** The bytes of a w-bit value, most significant first. */
  function BytesOf(w: nat, x: nat): seq<nat> {
    if !ByteMultiple(w) then []
    else if w == 8 then [Low(8, x)]
    else BytesOf(w / 2, HighHalf(w, x)) + BytesOf(w / 2, x)
  }

  /** Number of leading positions at which two sequences agree. */
  function CommonPrefix(a: seq<nat>, b: seq<nat>): nat {
    if a == [] || b == [] || a[0] != b[0] then 0 else 1 + CommonPrefix(a[1..], b[1..])
  }

  predicate LexGreater(a: seq<nat>, b: seq<nat>) {
    a != [] && b != [] && (a[0] > b[0] || (a[0] == b[0] && LexGreater(a[1..], b[1..])))
  }

  /** The number a big-endian byte sequence denotes. */
  function BigEndian(bs: seq<nat>): nat {
    if bs == [] then 0 else BigEndian(bs[..|bs| - 1]) * 256 + bs[|bs| - 1]
  }

  lemma {:induction false} BytesLength(w: nat, x: nat)
    requires ByteMultiple(w)
    ensures |BytesOf(w, x)| == w / 8
    decreases w
  {
    if w != 8 {
      BytesLength(w / 2, HighHalf(w, x));
      BytesLength(w / 2, x);
    }
  }

  lemma {:induction false} PrefixAppend(a: seq<nat>, a': seq<nat>, b: seq<nat>, b': seq<nat>)
    requires |a| == |b|
    ensures CommonPrefix(a, b) <= |a|
    ensures CommonPrefix(a, b) == |a| <==> a == b
    ensures CommonPrefix(a + a', b + b') == if a == b then |a| + CommonPrefix(a', b') else CommonPrefix(a, b)
    ensures LexGreater(a + a', b + b') <==> LexGreater(a, b) || (a == b && LexGreater(a', b'))
    decreases |a|
  {
    if a == [] {
      assert a + a' == a' && b + b' == b';
    } else {
      assert (a + a')[1..] == a[1..] + a' && (b + b')[1..] == b[1..] + b';
      PrefixAppend(a[1..], a', b[1..], b');
      assert a == [a[0]] + a[1..] && b == [b[0]] + b[1..];
    }
  }

  lemma {:induction false} BigEndianAppend(a: seq<nat>, b: seq<nat>)
    ensures BigEndian(a + b) == BigEndian(a) * Pow2(8 * |b|) + BigEndian(b)
    decreases |b|
  {
    if b == [] {
      assert a + b == a;
    } else {
      var n := |b| - 1;
      assert (a + b)[..|a + b| - 1] == a + b[..n];
      BigEndianAppend(a, b[..n]);
      Pow2Add(8 * n, 8);
      Factor(BigEndian(a), Pow2(8 * n), BigEndian(b[..n]), b[n]);
    }
  }

  lemma Factor(x: nat, p: nat, y: nat, z: nat)
    ensures (x * p + y) * 256 + z == x * (p * 256) + (y * 256 + z)
    ensures Pow2(8) == 256
  {
  }

  /** The bytes are the big-endian digits of the value. */
  lemma {:induction false} BytesDenote(w: nat, x: nat)
    requires ByteMultiple(w)
    ensures BigEndian(BytesOf(w, x)) == Low(w, x)
    decreases w
  {
    if w == 8 {
      assert BytesOf(8, x)[..0] == [];
    } else {
      var h := w / 2;
      BytesDenote(h, HighHalf(w, x));
      BytesDenote(h, x);
      BytesLength(h, x);
      BigEndianAppend(BytesOf(h, HighHalf(w, x)), BytesOf(h, x));
      SplitAt(w, h, x);
    }
  }

  lemma SingleOrder(a: nat, b: nat)
    ensures LexGreater([a], [b]) <==> a > b
    ensures [a] == [b] <==> a == b
  {
    if [a] == [b] {
      assert [a][0] == [b][0];
    }
  }

  /** Equality and order of values are equality and lexicographic order of their bytes. */
  lemma {:induction false} OrderIsLexicographic(w: nat, x: nat, y: nat)
    requires ByteMultiple(w)
    ensures Cmp(EQ, w, x, y) <==> BytesOf(w, x) == BytesOf(w, y)
    ensures Cmp(UGT, w, x, y) <==> LexGreater(BytesOf(w, x), BytesOf(w, y))
    decreases w
  {
    if w == 8 {
      hide Low, HighHalf;
      SingleOrder(Low(8, x), Low(8, y));
    } else {
      var h := w / 2;
      var hx, hy := HighHalf(w, x), HighHalf(w, y);
      EqualityUnfolds(w, x, y);
      PartsDecide(w, x, y);
      hide Low, Shifted, HighHalf, Cmp, BytesOf, LexGreater, CommonPrefix, ByteMultiple;
      OrderIsLexicographic(h, hx, hy);
      OrderIsLexicographic(h, x, y);
      BytesLength(h, hx);
      BytesLength(h, hy);
      PrefixAppend(BytesOf(h, hx), BytesOf(h, x), BytesOf(h, hy), BytesOf(h, y));
      SplitEqual(BytesOf(h, hx), BytesOf(h, x), BytesOf(h, hy), BytesOf(h, y));
    }
  }

  lemma SplitEqual(a: seq<nat>, a': seq<nat>, b: seq<nat>, b': seq<nat>)
    requires |a| == |b|
    ensures a + a' == b + b' <==> a == b && a' == b'
  {
    assert (a + a')[..|a|] == a && (a + a')[|a|..] == a';
    assert (b + b')[..|b|] == b && (b + b')[|b|..] == b';
  }

  lemma PartsDecide(w: nat, x: nat, y: nat)
    requires ByteMultiple(w) && w != 8
    ensures var (h, hx, hy) := (w / 2, HighHalf(w, x), HighHalf(w, y));
      && (Cmp(EQ, w, x, y) <==> Cmp(EQ, h, hx, hy) && Cmp(EQ, h, x, y))
      && (Cmp(UGT, w, x, y) <==> Cmp(UGT, h, hx, hy) || (Cmp(EQ, h, hx, hy) && Cmp(UGT, h, x, y)))
  {
    CompareParts(w, w / 2, x, y);
    SplitAt(w, w / 2, x);
    SplitAt(w, w / 2, y);
    hide Low, Shifted;
  }

  function Min(a: nat, b: nat): nat { if a < b then a else b }

  lemma CmpIsLow(w: Width, x: nat, y: nat)
    ensures Cmp(EQ, w, x, y) <==> Low(w, x) == Low(w, y)
  {
  }

  lemma EqualityUnfolds(w: nat, x: nat, y: nat)
    requires ByteMultiple(w) && w != 8
    ensures var (h, hx, hy) := (w / 2, HighHalf(w, x), HighHalf(w, y));
      && ByteMultiple(h) && w / 8 == h / 8 + h / 8 && h / 8 > 0
      && BytesOf(w, x) == BytesOf(h, hx) + BytesOf(h, x) && BytesOf(w, y) == BytesOf(h, hy) + BytesOf(h, y)
      && EqCost(w, x, y) == EqCost(h, hx, hy) + if Low(h, hx) == Low(h, hy) then EqCost(h, x, y) else 0
  {
    hide Low, Shifted;
  }

  lemma PrefixBound(w: nat, x: nat, y: nat)
    requires ByteMultiple(w)
    ensures var p := CommonPrefix(BytesOf(w, x), BytesOf(w, y));
      p <= w / 8 && (p == w / 8 <==> Low(w, x) == Low(w, y))
  {
    BytesLength(w, x);
    BytesLength(w, y);
    PrefixLength(BytesOf(w, x), BytesOf(w, y));
    OrderIsLexicographic(w, x, y);
    CmpIsLow(w, x, y);
    hide BytesOf, CommonPrefix, Low;
  }

  lemma PrefixSplits(w: nat, x: nat, y: nat)
    requires ByteMultiple(w) && w != 8
    ensures var (h, hx, hy) := (w / 2, HighHalf(w, x), HighHalf(w, y));
      var (p, q) := (CommonPrefix(BytesOf(h, hx), BytesOf(h, hy)), CommonPrefix(BytesOf(h, x), BytesOf(h, y)));
      && p <= h / 8 && q <= h / 8 && (p == h / 8 <==> Low(h, hx) == Low(h, hy))
      && CommonPrefix(BytesOf(w, x), BytesOf(w, y)) == if p == h / 8 then p + q else p
  {
    hide *;
    var (h, hx, hy) := (w / 2, HighHalf(w, x), HighHalf(w, y));
    EqualityUnfolds(w, x, y);
    PrefixBound(h, hx, hy);
    PrefixBound(h, x, y);
    BytesLength(h, hx);
    BytesLength(h, hy);
    PrefixAppend(BytesOf(h, hx), BytesOf(h, x), BytesOf(h, hy), BytesOf(h, y));
  }

  lemma {:induction false} EqCostIsPrefix(w: nat, x: nat, y: nat)
    requires ByteMultiple(w)
    ensures EqCost(w, x, y) == Min(w / 8, 1 + CommonPrefix(BytesOf(w, x), BytesOf(w, y)))
    decreases w
  {
    hide BytesOf, CommonPrefix, Low, HighHalf, Min;
    if w == 8 {
      OneByteEqual(x, y);
    } else {
      var (h, hx, hy) := (w / 2, HighHalf(w, x), HighHalf(w, y));
      EqualityUnfolds(w, x, y);
      PrefixSplits(w, x, y);
      hide EqCost;
      EqCostIsPrefix(h, hx, hy);
      EqCostIsPrefix(h, x, y);
      Minima(h / 8, CommonPrefix(BytesOf(h, hx), BytesOf(h, hy)), CommonPrefix(BytesOf(h, x), BytesOf(h, y)));
    }
  }

  lemma OneByteEqual(x: nat, y: nat)
    ensures EqCost(8, x, y) == 1 == Min(1, 1 + CommonPrefix(BytesOf(8, x), BytesOf(8, y)))
  {
    hide Low;
    SinglePrefix(Low(8, x), Low(8, y));
  }

  lemma SinglePrefix(a: nat, b: nat)
    ensures Min(1, 1 + CommonPrefix([a], [b])) == 1
  {
  }

  lemma PrefixLength(a: seq<nat>, b: seq<nat>)
    requires |a| == |b|
    ensures if a == b then CommonPrefix(a, b) == |a| else CommonPrefix(a, b) < |a|
  {
    PrefixAppend(a, [], b, []);
  }

  lemma Minima(n: nat, p: nat, q: nat)
    ensures p < n ==> Min(n, 1 + p) == Min(n + n, 1 + p)
    ensures Min(n, 1 + n) + Min(n, 1 + q) == Min(n + n, 1 + (n + q))
  {
  }

  /** An expanded equality stops at the first different byte: it executes one comparison more than
      there are leading equal bytes, and w/8 when all are equal. */
  lemma EqualityExecutes(w: Width, x: nat, y: nat)
    requires ByteMultiple(w)
    ensures CmpCost(EQ, w, x, y) == CmpCost(NE, w, x, y) == Min(w / 8, 1 + CommonPrefix(BytesOf(w, x), BytesOf(w, y)))
  {
    EqCostIsPrefix(w, x, y);
  }

  /** The binary digits of a number, read to the base 3. */
  function Ternary(p: nat): nat { if p == 0 then 0 else 3 * Ternary(p / 2) + p % 2 }

  /** What an order comparison of n bytes executes in addition when it fails because of the byte behind p equal
      ones: wherever that byte is in a high part, the inverse comparison of the part has to be decided too. */
  function LosingExtra(n: nat, p: nat): nat
    requires n in {1, 2, 4, 8} && p < n
  {
    if n == 1 then 0
    else if p >= n / 2 then LosingExtra(n / 2, p - n / 2)
    else LosingExtra(n / 2, p) + 1 + 2 * Ternary(p)
  }

  /** The number of byte comparisons, from the length of the common prefix and the outcome. */
  function OrderCost(n: nat, p: nat, loses: bool): nat
    requires n in {1, 2, 4, 8}
  {
    1 + 2 * Ternary(Min(p, n - 1)) + if loses then LosingExtra(n, Min(p, n - 1)) else 0
  }

  lemma SmallTernary()
    ensures Ternary(0) == 0 && Ternary(1) == 1 && Ternary(2) == 3 && Ternary(3) == 4
    ensures Ternary(4) == 9 && Ternary(5) == 10 && Ternary(6) == 12 && Ternary(7) == 13
  {
    assert Ternary(2) == 3 * Ternary(1) && Ternary(3) == 3 * Ternary(1) + 1;
    assert Ternary(4) == 3 * Ternary(2) && Ternary(6) == 3 * Ternary(3);
  }

  /** How the costs of the halves make up the cost of the whole. */
  lemma CostOfHalves(n: nat, p: nat, q: nat, loses: bool)
    requires n in {2, 4, 8} && p <= n / 2 && q <= n / 2
    requires loses ==> p < n / 2 || q < n / 2
    ensures p < n / 2 && !loses ==> OrderCost(n, p, false) == OrderCost(n / 2, p, false)
    ensures p < n / 2 && loses ==> OrderCost(n, p, true) == OrderCost(n / 2, p, true) + OrderCost(n / 2, p, false)
    ensures p == n / 2 && (loses ==> q < n / 2) ==>
            OrderCost(n, p + q, loses) == 2 * OrderCost(n / 2, p, false) + OrderCost(n / 2, q, loses)
  {
    SmallTernary();
    hide Ternary;
  }

  lemma BeatsParts(gt: bool, w: nat, x: nat, y: nat)
    requires ByteMultiple(w) && w != 8
    ensures var (h, hx, hy) := (w / 2, HighHalf(w, x), HighHalf(w, y));
      && (Beats(gt, w, x, y) <==> if Low(h, hx) == Low(h, hy) then Beats(gt, h, x, y) else Beats(gt, h, hx, hy))
      && (Low(h, hx) == Low(h, hy) ==> !Beats(gt, h, hx, hy))
      && (Low(h, hx) != Low(h, hy) ==> Beats(gt, h, hx, hy) != Beats(!gt, h, hx, hy))
  {
    var h := w / 2;
    CompareParts(w, h, x, y);
    SplitAt(w, h, x);
    SplitAt(w, h, y);
    hide Low, Shifted;
  }

  /** The cost of an order comparison by that rule. */
  ghost function Expected(gt: bool, w: nat, x: nat, y: nat): nat
    requires ByteMultiple(w)
  {
    OrderCost(w / 8, CommonPrefix(BytesOf(w, x), BytesOf(w, y)), Beats(!gt, w, x, y))
  }

  lemma ExpectedUnfolds(gt: bool, w: nat, x: nat, y: nat)
    requires ByteMultiple(w) && w != 8
    ensures var (h, hx, hy) := (w / 2, HighHalf(w, x), HighHalf(w, y));
      && ByteMultiple(h)
      && Expected(gt, w, x, y) == Expected(gt, h, hx, hy) + if Beats(gt, h, hx, hy) then 0
           else Expected(!gt, h, hx, hy) + if Beats(!gt, h, hx, hy) then 0 else Expected(gt, h, x, y)
  {
    hide BytesOf, CommonPrefix, Beats, Low, HighHalf, OrderCost;
    var (h, hx, hy) := (w / 2, HighHalf(w, x), HighHalf(w, y));
    BeatsParts(gt, w, x, y);
    BeatsParts(!gt, w, x, y);
    PrefixSplits(w, x, y);
    PrefixBound(h, x, y);
    BeatsDiffer(!gt, h, x, y);
    CostParts(w / 8, CommonPrefix(BytesOf(h, hx), BytesOf(h, hy)), CommonPrefix(BytesOf(h, x), BytesOf(h, y)),
              Beats(gt, h, hx, hy), Beats(!gt, h, hx, hy), Beats(!gt, h, x, y));
  }

  lemma CostParts(n: nat, p: nat, q: nat, wins: bool, loses: bool, losesLow: bool)
    requires n in {2, 4, 8} && p <= n / 2 && q <= n / 2 && (losesLow ==> q < n / 2)
    requires if p == n / 2 then !wins && !loses else wins != loses
    ensures OrderCost(n, if p == n / 2 then p + q else p, if p == n / 2 then losesLow else loses) ==
            OrderCost(n / 2, p, loses) + if wins then 0
            else OrderCost(n / 2, p, wins) + if loses then 0 else OrderCost(n / 2, q, losesLow)
  {
    hide OrderCost;
    CostOfHalves(n, p, q, if p == n / 2 then losesLow else loses);
  }

  lemma BeatsDiffer(gt: bool, w: nat, x: nat, y: nat)
    ensures Beats(gt, w, x, y) ==> Low(w, x) != Low(w, y)
  {
  }

  lemma OrderUnfolds(gt: bool, w: nat, x: nat, y: nat)
    requires ByteMultiple(w) && w != 8
    ensures var (h, hx, hy) := (w / 2, HighHalf(w, x), HighHalf(w, y));
      && RelCost(gt, w, x, y) == RelCost(gt, h, hx, hy) + if Beats(gt, h, hx, hy) then 0
           else RelCost(!gt, h, hx, hy) + if Beats(!gt, h, hx, hy) then 0 else RelCost(gt, h, x, y)
  {
    hide Low, Shifted, Beats;
  }

  /** Number of byte comparisons an expanded order comparison executes: determined by the number of leading equal
      bytes and by whether the comparison fails with different values. */
  lemma {:induction false} OrderExecutes(gt: bool, w: nat, x: nat, y: nat)
    requires ByteMultiple(w)
    ensures RelCost(gt, w, x, y) == Expected(gt, w, x, y)
    decreases w
  {
    hide BytesOf, CommonPrefix, Low, HighHalf, Beats, Expected;
    if w == 8 {
      OneByte(gt, x, y);
    } else {
      var (h, hx, hy) := (w / 2, HighHalf(w, x), HighHalf(w, y));
      OrderUnfolds(gt, w, x, y);
      ExpectedUnfolds(gt, w, x, y);
      hide RelCost;
      OrderExecutes(gt, h, hx, hy);
      OrderExecutes(!gt, h, hx, hy);
      OrderExecutes(gt, h, x, y);
    }
  }

  lemma OneByte(gt: bool, x: nat, y: nat)
    ensures RelCost(gt, 8, x, y) == 1 == Expected(gt, 8, x, y)
  {
    hide BytesOf, CommonPrefix, Low, Beats;
  }

  /** At least one comparison is executed; all 3^log2(w/8) of the expansion are if and only if the values agree in
      all bytes but perhaps the last. */
  lemma OrderExecutesAtMost(gt: bool, w: nat, x: nat, y: nat)
    requires ByteMultiple(w)
    ensures var most := if w == 8 then 1 else if w == 16 then 3 else if w == 32 then 9 else 27;
      && 1 <= RelCost(gt, w, x, y) <= most
      && (RelCost(gt, w, x, y) == most <==> CommonPrefix(BytesOf(w, x), BytesOf(w, y)) >= w / 8 - 1)
  {
    OrderExecutes(gt, w, x, y);
    PrefixBound(w, x, y);
    BeatsDiffer(!gt, w, x, y);
    hide RelCost, BytesOf, CommonPrefix, Beats, Low, OrderCost;
    SmallTernary();
    CostBound(w / 8, CommonPrefix(BytesOf(w, x), BytesOf(w, y)), Beats(!gt, w, x, y));
  }

  lemma CostBound(n: nat, p: nat, loses: bool)
    requires n in {1, 2, 4, 8} && p <= n && (loses ==> p < n)
    ensures 1 <= OrderCost(n, p, loses) <= 1 + 2 * Ternary(n - 1)
    ensures OrderCost(n, p, loses) == 1 + 2 * Ternary(n - 1) <==> p >= n - 1
  {
    SmallTernary();
    if n > 1 {
      SmallExtra(n / 2, if p >= n / 2 then p - n / 2 else p, loses);
    }
  }

  lemma SmallExtra(n: nat, p: nat, loses: bool)
    requires n in {1, 2, 4} && p <= n && (loses ==> p < n)
    ensures loses && n == 1 ==> LosingExtra(1, p) == 0
    ensures loses && n == 2 ==> LosingExtra(2, p) == if p == 0 then 1 else 0
    ensures loses && n == 4 ==> LosingExtra(4, p) == if p == 0 then 2 else if p == 1 then 3 else if p == 2 then 1 else 0
  {
    SmallTernary();
    if loses && n == 4 {
      SmallExtra(2, if p >= 2 then p - 2 else p, true);
    }
  }
}
