/** Exclusive or and right shift of natural numbers. */
module Bitwise {
  import opened Ir
  import opened Halves

  function Xor(x: nat, y: nat): (r: nat)
    decreases x + y
  {
    if x == 0 && y == 0 then 0 else 2 * Xor(x / 2, y / 2) + (x % 2 + y % 2) % 2
  }

  function Shr(x: nat, s: nat): nat { Div(x, Pow2(s)) }

  lemma {:induction false} XorZero(x: nat)
    ensures Xor(x, 0) == x && Xor(0, x) == x
    decreases x
  {
    if x > 0 {
      XorZero(x / 2);
    }
  }

  lemma {:induction false} XorInjective(x: nat, y: nat, z: nat)
    ensures Xor(x, z) == Xor(y, z) ==> x == y
    ensures Xor(z, x) == Xor(z, y) ==> x == y
    decreases x + y + z
  {
    if x + y + z > 0 {
      XorInjective(x / 2, y / 2, z / 2);
    }
  }

  lemma {:induction false} XorBelow(x: nat, y: nat, w: nat)
    requires x < Pow2(w) && y < Pow2(w)
    ensures Xor(x, y) < Pow2(w)
    decreases w
  {
    if w > 0 {
      XorBelow(x / 2, y / 2, w - 1);
    }
  }

  lemma {:induction false} ShrXor(x: nat, y: nat, s: nat)
    ensures Shr(Xor(x, y), s) == Xor(Shr(x, s), Shr(y, s))
    decreases s
  {
    if s == 0 {
      assert Pow2(0) == 1;
    } else {
      XorHalf(x, y);
      hide *;
      ShrXor(x / 2, y / 2, s - 1);
      ShrStep(x, s);
      ShrStep(y, s);
      ShrStep(Xor(x, y), s);
    }
  }

  lemma XorHalf(x: nat, y: nat)
    ensures Xor(x, y) / 2 == Xor(x / 2, y / 2)
  {
  }

  lemma ShrStep(x: nat, s: nat)
    requires s > 0
    ensures Shr(x, s) == Shr(x / 2, s - 1)
  {
    var q, p := x / 2, Pow2(s - 1);
    var a, b := q / p, q % p;
    assert x == 2 * q + x % 2 && q == a * p + b;
    assert x == a * (2 * p) + (2 * b + x % 2);
    DivUnique(x, 2 * p, a, 2 * b + x % 2);
  }

  lemma ShrSmaller(x: nat, s: nat)
    requires s > 0
    ensures Shr(x, s) <= x && (x > 0 ==> Shr(x, s) < x)
  {
    var q, p := Shr(x, s), Pow2(s);
    assert p >= 2 && q * p <= x;
    assert q * p == q + q + q * (p - 2);
    assert q * (p - 2) >= 0;
  }

  lemma {:induction false} XorAssociates(x: nat, y: nat, z: nat)
    ensures Xor(Xor(x, y), z) == Xor(x, Xor(y, z))
    decreases x + y + z
  {
    hide Xor;
    if x + y + z == 0 {
      XorZero(0);
    } else {
      XorAssociates(x / 2, y / 2, z / 2);
      XorBit(x, y);
      XorBit(y, z);
      XorBit(Xor(x, y), z);
      XorBit(x, Xor(y, z));
      BitSum(x % 2, y % 2, z % 2);
      SameHalves(Xor(Xor(x, y), z), Xor(x, Xor(y, z)));
    }
  }

  lemma SameHalves(a: nat, b: nat)
    requires a / 2 == b / 2 && a % 2 == b % 2
    ensures a == b
  {
  }

  lemma XorBit(x: nat, y: nat)
    ensures Xor(x, y) / 2 == Xor(x / 2, y / 2) && Xor(x, y) % 2 == (x % 2 + y % 2) % 2
  {
  }

  lemma BitSum(a: nat, b: nat, c: nat)
    ensures ((a + b) % 2 + c) % 2 == (a + (b + c) % 2) % 2
  {
  }

  lemma {:induction false} XorSelf(x: nat)
    ensures Xor(x, x) == 0
    decreases x
  {
    if x > 0 {
      XorSelf(x / 2);
    }
  }

  /** Exclusive or undoes itself. */
  lemma XorTwice(x: nat, y: nat)
    ensures Xor(x, Xor(x, y)) == y
  {
    XorAssociates(x, x, y);
    XorSelf(x);
    XorZero(y);
  }
}
