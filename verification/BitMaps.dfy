/** Bitmaps packed eight to a byte, least significant bit first. */
module BitMaps {
  function Mask(n: nat): bv8
    requires n < 8
  {
    if n == 0 then 1 else if n == 1 then 2 else if n == 2 then 4 else if n == 3 then 8
    else if n == 4 then 16 else if n == 5 then 32 else if n == 6 then 64 else 128
  }

  predicate Has(x: bv8, n: nat)
    requires n < 8
  {
    x & Mask(n) != 0
  }

  predicate Bit(map_: seq<bv8>, i: nat) { i / 8 < |map_| && Has(map_[i / 8], i % 8) }

  /** The positions of the bits that are set. */
  ghost function Bits(map_: seq<bv8>): set<nat>
  {
    set i: nat | i < 8 * |map_| && Bit(map_, i)
  }

  lemma OrMask(x: bv8, n: nat, m: nat)
    requires n < 8 && m < 8
    ensures Has(x | Mask(n), m) <==> m == n || Has(x, m)
  {
  }

  lemma AndNot(x: bv8, y: bv8, m: nat)
    requires m < 8
    ensures Has(x & !y, m) <==> Has(x, m) && !Has(y, m)
  {
  }

  lemma Or(x: bv8, y: bv8, m: nat)
    requires m < 8
    ensures Has(x | y, m) <==> Has(x, m) || Has(y, m)
  {
  }

  lemma BitsAt(map_: seq<bv8>, i: nat)
    requires i < 8 * |map_|
    ensures i in Bits(map_) <==> Bit(map_, i)
  {
  }

  lemma SetBit(map_: seq<bv8>, i: nat)
    requires i < 8 * |map_|
    ensures Bits(map_[i / 8 := map_[i / 8] | Mask(i % 8)]) == Bits(map_) + {i}
  {
    hide Has, Mask;
    var r := map_[i / 8 := map_[i / 8] | Mask(i % 8)];
    forall j: nat | j < 8 * |map_|
      ensures j in Bits(r) <==> j in Bits(map_) + {i}
    {
      OrMask(map_[i / 8], i % 8, j % 8);
      assert j / 8 == i / 8 && j % 8 == i % 8 ==> j == i;
    }
  }

  /** Clearing, byte by byte, the bits of another map. */
  lemma ClearBits(a: seq<bv8>, b: seq<bv8>, c: seq<bv8>)
    requires |a| == |b| == |c| && forall j :: 0 <= j < |a| ==> c[j] == a[j] & !b[j]
    ensures Bits(c) == Bits(a) - Bits(b)
  {
    hide Has;
    forall i: nat | i < 8 * |a|
      ensures i in Bits(c) <==> i in Bits(a) - Bits(b)
    {
      AndNot(a[i / 8], b[i / 8], i % 8);
    }
  }

  /** Adding, byte by byte, the bits of another map. */
  lemma AddBits(a: seq<bv8>, b: seq<bv8>, c: seq<bv8>)
    requires |a| == |b| == |c| && forall j :: 0 <= j < |a| ==> c[j] == a[j] | b[j]
    ensures Bits(c) == Bits(a) + Bits(b)
  {
    hide Has;
    forall i: nat | i < 8 * |a|
      ensures i in Bits(c) <==> i in Bits(a) + Bits(b)
    {
      Or(a[i / 8], b[i / 8], i % 8);
    }
  }
}
