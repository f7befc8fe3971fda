/** The trace checksum. Both variants of the source have the same shape, so they are one computation with two
    sets of constants; words are natural numbers below a power of two. */
module Hash32 {
  import opened Ir
  import opened Halves
  import opened Bitwise

  /** Width of a word, the two multipliers and the rotation of a key, the rotation, factor and summand of a
      round, the two multipliers and three shifts of the end. */
  datatype Variant = Variant(bits: nat, k1: nat, k2: nat, kr: nat, hr: nat, times: nat, plus: nat, f1: nat, f2: nat,
                             s1: nat, s2: nat, s3: nat)

  const WIDE := Variant(64, 0x87c37b91114253d5, 0x4cf5ad432745937f, 31, 27, 5, 0x52dce729,
                        0xff51afd7ed558ccd, 0xc4ceb9fe1a85ec53, 33, 33, 33)

  const NARROW := Variant(32, 0xcc9e2d51, 0x1b873593, 15, 13, 5, 0xe6546b64, 0x85ebca6b, 0xc2b2ae35, 16, 13, 16)

  // ----- words -----------------------------------------------------------------------------------

  function Mul(w: nat, x: nat, c: nat): nat { (x * c) % Pow2(w) }

  function Add(w: nat, x: nat, c: nat): nat { (x + c) % Pow2(w) }

  /** Rotation: what is shifted out at the top comes in at the bottom, where the shift has left zeros. */
  function Rol(w: nat, x: nat, r: nat): nat
    requires r <= w
  {
    (x * Pow2(r)) % Pow2(w) + Shr(x, w - r)
  }

  predicate Ok(v: Variant) { 0 < v.kr < v.bits && 0 < v.hr < v.bits && v.s1 > 0 && v.s2 > 0 && v.s3 > 0 }

  function Key(v: Variant, k: nat): nat
    requires Ok(v)
  {
    Mul(v.bits, Rol(v.bits, Mul(v.bits, k, v.k1), v.kr), v.k2)
  }

  function Round(v: Variant, h: nat): nat
    requires Ok(v)
  {
    Add(v.bits, Mul(v.bits, Rol(v.bits, h, v.hr), v.times), v.plus)
  }

  function Mix(x: nat, s: nat): nat { Xor(x, Shr(x, s)) }

  function Final(v: Variant, h: nat): nat
  {
    Mix(Mul(v.bits, Mix(Mul(v.bits, Mix(h, v.s1), v.f1), v.s2), v.f2), v.s3)
  }

  /** The state after the words of a buffer. */
  function Fold(v: Variant, h: nat, data: seq<nat>): nat
    requires Ok(v)
    decreases |data|
  {
    if data == [] then h else Fold(v, Round(v, Xor(h, Key(v, data[0]))), data[1..])
  }

  /** The checksum of a buffer of len bytes before it is cut to 32 bits. */
  function State(v: Variant, data: seq<nat>, len: nat, seed: nat): nat
    requires Ok(v)
  {
    Final(v, Fold(v, Xor(seed, len), data))
  }

  lemma {:induction false} FoldAppend(v: Variant, h: nat, data: seq<nat>, k: nat)
    requires Ok(v)
    ensures Fold(v, h, data + [k]) == Round(v, Xor(Fold(v, h, data), Key(v, k)))
    decreases |data|
  {
    hide Round, Key, Xor;
    if data == [] {
      assert [k][1..] == [];
      assert data + [k] == [k];
    } else {
      assert (data + [k])[1..] == data[1..] + [k];
      FoldAppend(v, Round(v, Xor(h, Key(v, data[0]))), data[1..], k);
    }
  }

  method Checksum(v: Variant, key: array<nat>, len: nat, seed: nat) returns (r: nat)
    requires v == WIDE || v == NARROW
    requires key.Length == len / (v.bits / 8)
    ensures r == State(v, key[..], len, seed) % Pow2(32)
  {
    hide Xor, Mul, Rol, Add, Shr, Pow2;
    var h1 := Xor(seed, len);
    for i := 0 to key.Length
      invariant h1 == Fold(v, Xor(seed, len), key[..i])
    {
      assert key[..i + 1] == key[..i] + [key[i]];
      FoldAppend(v, Xor(seed, len), key[..i], key[i]);
      var k1 := key[i];
      k1 := Mul(v.bits, k1, v.k1);
      k1 := Rol(v.bits, k1, v.kr);
      k1 := Mul(v.bits, k1, v.k2);
      h1 := Xor(h1, k1);
      h1 := Rol(v.bits, h1, v.hr);
      h1 := Add(v.bits, Mul(v.bits, h1, v.times), v.plus);
    }
    assert key[..key.Length] == key[..];
    h1 := Xor(h1, Shr(h1, v.s1));
    h1 := Mul(v.bits, h1, v.f1);
    h1 := Xor(h1, Shr(h1, v.s2));
    h1 := Mul(v.bits, h1, v.f2);
    h1 := Xor(h1, Shr(h1, v.s3));
    r := h1 % Pow2(32);
  }

  // ----- no step loses anything --------------------------------------------------------------------

  /** A shift mixed in with exclusive or can be undone: shifting the mixture gives the mixture of the shifted. */
  lemma {:induction false} MixInjective(x: nat, y: nat, s: nat)
    requires s > 0 && Mix(x, s) == Mix(y, s)
    ensures x == y
    decreases x + y
  {
    hide Xor, Shr;
    if x + y > 0 {
      ShrXor(x, Shr(x, s), s);
      ShrXor(y, Shr(y, s), s);
      ShrSmaller(x, s);
      ShrSmaller(y, s);
      MixInjective(Shr(x, s), Shr(y, s), s);
      XorInjective(x, y, Shr(x, s));
    }
  }

  /** A multiplier with an inverse. */
  ghost predicate Invertible(w: nat, c: nat) { exists d: nat, e: nat :: Undoes(w, c, d, e) }

  predicate Undoes(w: nat, c: nat, d: nat, e: nat) { c * d == 1 + e * Pow2(w) }

  lemma MulInjective(w: nat, x: nat, y: nat, c: nat)
    requires Invertible(w, c) && x < Pow2(w) && y < Pow2(w) && Mul(w, x, c) == Mul(w, y, c)
    ensures x == y
  {
    hide Pow2;
    var d, e :| Undoes(w, c, d, e);
    var n := SameRemainder(x * c, y * c, Pow2(w));
    Cancel(x, y, c, d, e, n, Pow2(w));
  }

  lemma Cancel(x: nat, y: nat, c: nat, d: nat, e: nat, n: int, m: nat)
    requires x < m && y < m && x * c - y * c == n * m && c * d == 1 + e * m
    ensures x == y
  {
    var z := x - y;
    Factor(x, y, c);
    Undo(z, c, d, e, n, m);
    OnlyMultiple(z, n * d - z * e, m);
  }

  lemma Factor(x: int, y: int, c: int)
    ensures (x - y) * c == x * c - y * c
  {
  }

  lemma SameRemainder(a: nat, b: nat, m: nat) returns (n: int)
    requires m > 0 && a % m == b % m
    ensures a - b == n * m
  {
    n := a / m - b / m;
    assert a == (a / m) * m + a % m && b == (b / m) * m + b % m;
    assert (a / m - b / m) * m == (a / m) * m - (b / m) * m;
  }

  lemma Undo(z: int, c: nat, d: nat, e: nat, n: int, m: nat)
    requires z * c == n * m && c * d == 1 + e * m
    ensures z == (n * d - z * e) * m
  {
    assert z * c * d == z * (c * d);
    assert z * (1 + e * m) == z + z * e * m;
    assert n * m * d == n * d * m;
    assert (n * d - z * e) * m == n * d * m - z * e * m;
  }

  lemma OnlyMultiple(z: int, k: int, m: int)
    requires z == k * m && 0 < m && -m < z < m
    ensures z == 0
  {
  }

  lemma RolArithmetic(x: nat, p: nat, q: nat, hi: nat, lo: nat)
    requires x == hi * p + lo && lo < p && hi < q
    ensures p * q > 0 && (x * q) % (p * q) == lo * q && lo * q + hi < p * q
  {
    assert x * q == hi * (p * q) + lo * q by {
      assert (hi * p + lo) * q == hi * p * q + lo * q;
      assert hi * p * q == hi * (p * q);
    }
    MulMono(lo, p, q);
    DivUnique(x * q, p * q, hi, lo * q);
  }

  lemma RolParts(w: nat, x: nat, r: nat)
    requires r <= w && x < Pow2(w)
    ensures var (hi, lo) := (Shr(x, w - r), x % Pow2(w - r));
            && x == hi * Pow2(w - r) + lo && hi < Pow2(r) && lo < Pow2(w - r)
            && Rol(w, x, r) == lo * Pow2(r) + hi && Rol(w, x, r) < Pow2(w)
  {
    hide Pow2;
    var p, q := Pow2(w - r), Pow2(r);
    Pow2Add(w - r, r);
    Quotient(x, q, p, Pow2(w));
    RolArithmetic(x, p, q, Shr(x, w - r), x % p);
  }

  lemma RolInjective(w: nat, x: nat, y: nat, r: nat)
    requires r <= w && x < Pow2(w) && y < Pow2(w) && Rol(w, x, r) == Rol(w, y, r)
    ensures x == y
  {
    hide Rol, Shr;
    RolParts(w, x, r);
    RolParts(w, y, r);
    Lexicographic(x % Pow2(w - r), Shr(x, w - r), y % Pow2(w - r), Shr(y, w - r), Pow2(r), Rol(w, x, r), Rol(w, y, r));
  }

  lemma AddInjective(w: nat, x: nat, y: nat, c: nat)
    requires x < Pow2(w) && y < Pow2(w) && Add(w, x, c) == Add(w, y, c)
    ensures x == y
  {
    var m := Pow2(w);
    var n := SameRemainder(x + c, y + c, m);
    OnlyMultiple(x - y, n, m);
  }

  ghost predicate Valid(v: Variant)
  {
    && Ok(v) && Invertible(v.bits, v.k1) && Invertible(v.bits, v.k2) && Invertible(v.bits, v.times)
    && Invertible(v.bits, v.f1) && Invertible(v.bits, v.f2)
  }

  predicate Word(v: Variant, x: nat) { x < Pow2(v.bits) }

  lemma KeyInjective(v: Variant, x: nat, y: nat)
    requires Valid(v) && Word(v, x) && Word(v, y)
    ensures Word(v, Key(v, x)) && (Key(v, x) == Key(v, y) ==> x == y)
  {
    hide Rol, Invertible;
    var a, b := Mul(v.bits, x, v.k1), Mul(v.bits, y, v.k1);
    RolParts(v.bits, a, v.kr);
    RolParts(v.bits, b, v.kr);
    if Key(v, x) == Key(v, y) {
      MulInjective(v.bits, Rol(v.bits, a, v.kr), Rol(v.bits, b, v.kr), v.k2);
      RolInjective(v.bits, a, b, v.kr);
      MulInjective(v.bits, x, y, v.k1);
    }
  }

  lemma RoundInjective(v: Variant, x: nat, y: nat)
    requires Valid(v) && Word(v, x) && Word(v, y)
    ensures Word(v, Round(v, x)) && (Round(v, x) == Round(v, y) ==> x == y)
  {
    hide Rol, Invertible;
    var a, b := Rol(v.bits, x, v.hr), Rol(v.bits, y, v.hr);
    RolParts(v.bits, x, v.hr);
    RolParts(v.bits, y, v.hr);
    if Round(v, x) == Round(v, y) {
      AddInjective(v.bits, Mul(v.bits, a, v.times), Mul(v.bits, b, v.times), v.plus);
      MulInjective(v.bits, a, b, v.times);
      RolInjective(v.bits, x, y, v.hr);
    }
  }

  lemma MixWord(v: Variant, x: nat, s: nat)
    requires Word(v, x) && s > 0
    ensures Word(v, Mix(x, s))
  {
    ShrSmaller(x, s);
    XorBelow(x, Shr(x, s), v.bits);
  }

  lemma FinalInjective(v: Variant, x: nat, y: nat)
    requires Valid(v) && Word(v, x) && Word(v, y) && Final(v, x) == Final(v, y)
    ensures x == y
  {
    hide Mix, Invertible;
    var a, b := Mix(x, v.s1), Mix(y, v.s1);
    var c, d := Mul(v.bits, a, v.f1), Mul(v.bits, b, v.f1);
    var e, g := Mix(c, v.s2), Mix(d, v.s2);
    MixWord(v, x, v.s1);
    MixWord(v, y, v.s1);
    MixWord(v, c, v.s2);
    MixWord(v, d, v.s2);
    MixInjective(Mul(v.bits, e, v.f2), Mul(v.bits, g, v.f2), v.s3);
    MulInjective(v.bits, e, g, v.f2);
    MixInjective(c, d, v.s2);
    MulInjective(v.bits, a, b, v.f1);
    MixInjective(x, y, v.s1);
  }

  predicate Words(v: Variant, data: seq<nat>) { forall i :: 0 <= i < |data| ==> Word(v, data[i]) }

  lemma NextWord(v: Variant, h: nat, k: nat)
    requires Valid(v) && Word(v, h) && Word(v, k)
    ensures Word(v, Xor(h, Key(v, k))) && Word(v, Round(v, Xor(h, Key(v, k))))
  {
    hide Key, Round;
    KeyInjective(v, k, k);
    XorBelow(h, Key(v, k), v.bits);
    RoundInjective(v, Xor(h, Key(v, k)), Xor(h, Key(v, k)));
  }

  lemma {:induction false} FoldWord(v: Variant, h: nat, data: seq<nat>)
    requires Valid(v) && Word(v, h) && Words(v, data)
    ensures Word(v, Fold(v, h, data))
    decreases |data|
  {
    hide Key, Round, Xor, Word;
    if data != [] {
      NextWord(v, h, data[0]);
      FoldWord(v, Round(v, Xor(h, Key(v, data[0]))), data[1..]);
    }
  }

  /** Different states before a buffer are different states after it. */
  lemma {:induction false} FoldInjective(v: Variant, h: nat, h': nat, data: seq<nat>)
    requires Valid(v) && Word(v, h) && Word(v, h') && Words(v, data) && Fold(v, h, data) == Fold(v, h', data)
    ensures h == h'
    decreases |data|
  {
    hide Key, Round, Xor, Word, Invertible;
    if data != [] {
      var k := Key(v, data[0]);
      NextWord(v, h, data[0]);
      NextWord(v, h', data[0]);
      FoldInjective(v, Round(v, Xor(h, k)), Round(v, Xor(h', k)), data[1..]);
      RoundInjective(v, Xor(h, k), Xor(h', k));
      XorInjective(h, h', k);
    }
  }

  predicate DifferAt(a: seq<nat>, b: seq<nat>, i: nat)
  {
    |a| == |b| && i < |a| && a[i] != b[i] && forall j :: 0 <= j < |a| && j != i ==> a[j] == b[j]
  }

  lemma {:induction false} OneWordMatters(v: Variant, h: nat, a: seq<nat>, b: seq<nat>, i: nat)
    requires Valid(v) && Word(v, h) && Words(v, a) && Words(v, b) && DifferAt(a, b, i)
    ensures Fold(v, h, a) != Fold(v, h, b)
    decreases |a|
  {
    hide Key, Round, Xor, Word, Invertible;
    var k, k' := Key(v, a[0]), Key(v, b[0]);
    NextWord(v, h, a[0]);
    NextWord(v, h, b[0]);
    if i > 0 {
      assert DifferAt(a[1..], b[1..], i - 1);
      OneWordMatters(v, Round(v, Xor(h, k)), a[1..], b[1..], i - 1);
    } else if Fold(v, h, a) == Fold(v, h, b) {
      assert a[1..] == b[1..];
      FoldInjective(v, Round(v, Xor(h, k)), Round(v, Xor(h, k')), a[1..]);
      RoundInjective(v, Xor(h, k), Xor(h, k'));
      XorInjective(k, k', h);
      KeyInjective(v, a[0], b[0]);
    }
  }

  /** Buffers of equal length that differ in exactly one word never lead to the same state. */
  lemma StatesDiffer(v: Variant, a: seq<nat>, b: seq<nat>, i: nat, len: nat, seed: nat)
    requires Valid(v) && Word(v, seed) && Word(v, len) && Words(v, a) && Words(v, b) && DifferAt(a, b, i)
    ensures State(v, a, len, seed) != State(v, b, len, seed)
  {
    hide Fold, Final, Invertible;
    var h := Xor(seed, len);
    XorBelow(seed, len, v.bits);
    OneWordMatters(v, h, a, b, i);
    FoldWord(v, h, a);
    FoldWord(v, h, b);
    if Final(v, Fold(v, h, a)) == Final(v, Fold(v, h, b)) {
      FinalInjective(v, Fold(v, h, a), Fold(v, h, b));
    }
  }

  // ----- the two variants --------------------------------------------------------------------------

  lemma Powers()
    ensures Pow2(13) == 0x2000 && Pow2(15) == 0x8000 && Pow2(16) == 0x1_0000 && Pow2(17) == 0x2_0000
    ensures Pow2(19) == 0x8_0000
    ensures Pow2(27) == 0x800_0000 && Pow2(30) == 0x4000_0000 && Pow2(31) == 0x8000_0000
    ensures Pow2(32) == 0x1_0000_0000 && Pow2(33) == 0x2_0000_0000 && Pow2(37) == 0x20_0000_0000
    ensures Pow2(64) == 0x1_0000_0000_0000_0000
  {
    assert Pow2(2) == 4 && Pow2(3) == 8 && Pow2(4) == 16;
    hide Pow2;
    Pow2Add(4, 4);
    Pow2Add(8, 2);
    Pow2Add(10, 3);
    Pow2Add(13, 2);
    Pow2Add(13, 3);
    Pow2Add(13, 4);
    Pow2Add(16, 3);
    Pow2Add(19, 8);
    Pow2Add(27, 3);
    Pow2Add(27, 4);
    Pow2Add(16, 16);
    Pow2Add(30, 3);
    Pow2Add(33, 4);
    Pow2Add(32, 32);
  }

  lemma VariantsAreValid()
    ensures Valid(WIDE) && Valid(NARROW)
  {
    Powers();
    hide Pow2;
    assert Undoes(64, 0x87c37b91114253d5, 0xa98409e882ce4d7d, 0x59e6129fa91071c3);
    assert Undoes(64, 0x4cf5ad432745937f, 0xa81e14edd9de2c7f, 0x328a44c9121df37a);
    assert Undoes(64, 0x5, 0xcccccccccccccccd, 0x4);
    assert Undoes(64, 0xff51afd7ed558ccd, 0x4f74430c22a54005, 0x4f3e2925cb7c5b4e);
    assert Undoes(64, 0xc4ceb9fe1a85ec53, 0x9cb4b2f8129337db, 0x7878e44812b2d581);
    assert Undoes(32, 0xcc9e2d51, 0xdee13bb1, 0xb2253208);
    assert Undoes(32, 0x1b873593, 0x56ed309b, 0x958ed66);
    assert Undoes(32, 0x5, 0xcccccccd, 0x4);
    assert Undoes(32, 0x85ebca6b, 0xa5cb9243, 0x56bb77f4);
    assert Undoes(32, 0xc2b2ae35, 0x7ed1b41d, 0x60736e9a);
  }

  /** In the 32-bit variant the checksum is that state, so such maps never collide. In the 64-bit variant only the
      states before truncation never do. */
  lemma NeverCollide(a: seq<nat>, b: seq<nat>, i: nat, len: nat, seed: nat)
    requires DifferAt(a, b, i) && len < Pow2(32) && seed < Pow2(32)
    ensures Words(NARROW, a) && Words(NARROW, b) ==>
              State(NARROW, a, len, seed) % Pow2(32) != State(NARROW, b, len, seed) % Pow2(32)
    ensures Words(WIDE, a) && Words(WIDE, b) ==> State(WIDE, a, len, seed) != State(WIDE, b, len, seed)
  {
    VariantsAreValid();
    Powers();
    hide State, Invertible, Pow2;
    if Words(NARROW, a) && Words(NARROW, b) {
      StatesDiffer(NARROW, a, b, i, len, seed);
      StateWord(NARROW, a, len, seed);
      StateWord(NARROW, b, len, seed);
    }
    if Words(WIDE, a) && Words(WIDE, b) {
      StatesDiffer(WIDE, a, b, i, len, seed);
    }
  }

  lemma StateWord(v: Variant, data: seq<nat>, len: nat, seed: nat)
    requires Valid(v) && Word(v, seed) && Word(v, len) && Words(v, data)
    ensures Word(v, State(v, data, len, seed))
  {
    hide Fold, Invertible;
    XorBelow(seed, len, v.bits);
    FoldWord(v, Xor(seed, len), data);
    var h := Fold(v, Xor(seed, len), data);
    MixWord(v, Mul(v.bits, Mix(Mul(v.bits, Mix(h, v.s1), v.f1), v.s2), v.f2), v.s3);
  }

  // ----- known answers ---------------------------------------------------------------------------

  /** Bits that do not overlap are put together. */
  lemma {:induction false} XorApart(hi: nat, lo: nat, n: nat, x: nat)
    requires lo < Pow2(n) && x == hi * Pow2(n)
    ensures Xor(x, lo) == x + lo
    decreases n
  {
    if n == 0 {
      XorZero(x);
    } else {
      Twice(hi, Pow2(n - 1), x);
      XorApart(hi, lo / 2, n - 1, x / 2);
      XorBit(x, lo);
      hide Xor;
    }
  }

  lemma Twice(hi: nat, p: nat, x: nat)
    requires x == hi * (2 * p)
    ensures x / 2 == hi * p && x % 2 == 0
  {
    DivUnique(x, 2, hi * p, 0);
  }

  lemma XorBack(x: nat, y: nat)
    ensures Xor(Xor(x, y), y) == x
  {
    XorAssociates(x, y, y);
    XorSelf(y);
    XorZero(x);
  }

  lemma WideRounds()
    ensures Key(WIDE, 0x3bc6097081dbe434) == 0x8747056fffffffff
    ensures Round(WIDE, 0x8747056fffffffff) == 0x8000000040000000
  {
    Powers();
    hide Pow2;
    assert Rol(64, 0x4c43a702a059bb44, 31) == 0x502cdda22621d381;
    assert Rol(64, 0x8747056fffffffff, 27) == 0x7ffffffffc3a382b;
  }

  lemma NarrowRounds()
    ensures Key(NARROW, 0x43d51af) == 0x87675c46 && Round(NARROW, 0x87675c46) == 0x80008000
  {
    Powers();
    hide Pow2;
    assert Rol(32, 0xfcc49b5f, 15) == 0x4daffe62;
    assert Rol(32, 0x87675c46, 13) == 0xeb88d0ec;
  }

  lemma WideEnd()
    ensures Final(WIDE, 0x8000000040000000) == 0x6a17b14c350bd8a
  {
    Powers();
    hide Pow2, Xor;
    XorApart(0x100000000, 0x40000000, 31, 0x8000000000000000);
    XorBack(0x8000000000000000, 0x40000000);
    XorApart(0x1a85ec53, 0x350bd8a, 30, 0x6a17b14c0000000);
  }

  lemma NarrowEnd()
    ensures Final(NARROW, 0x80008000) == 0x38d438d4
  {
    Powers();
    hide Pow2, Xor;
    XorApart(0x8000, 0x8000, 16, 0x80000000);
    XorBack(0x80000000, 0x8000);
    XorApart(0x1000, 0x40000, 19, 0x80000000);
    XorApart(0x38d4, 0x38d4, 16, 0x38d40000);
  }

  lemma OneWord(v: Variant, h: nat, k: nat)
    requires Ok(v)
    ensures Fold(v, h, [k]) == Round(v, Xor(h, Key(v, k)))
  {
    hide Round, Xor, Key;
    assert [k][1..] == [];
  }

  /** The checksum of one word in either variant. Such answers tell the constants apart, which no law about
      collisions does. */
  lemma KnownAnswers()
    ensures State(WIDE, [0x3bc6097081dbe434], 8, 8) == 0x6a17b14c350bd8a
    ensures State(NARROW, [0x43d51af], 4, 4) == 0x38d438d4
  {
    hide Xor, Key, Round, Final, Fold;
    XorSelf(8);
    XorSelf(4);
    OneWord(WIDE, 0, 0x3bc6097081dbe434);
    OneWord(NARROW, 0, 0x43d51af);
    XorZero(Key(WIDE, 0x3bc6097081dbe434));
    XorZero(Key(NARROW, 0x43d51af));
    WideRounds();
    NarrowRounds();
    WideEnd();
    NarrowEnd();
  }
}
