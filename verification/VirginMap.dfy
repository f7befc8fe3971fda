/** The maps of untouched bits in afl-fuzz: telling what a trace brings that is new, and the two ways of
    condensing a trace. All three go over the map a word of eight bytes at a time. */
module VirginMap {
  import opened BitMaps

  // ----- words -----------------------------------------------------------------------------------

  /** Word number i of a map, as the eight bytes that hold it; bitwise operators act on each byte. */
  function Word(a: seq<bv8>, i: nat): (w: seq<bv8>)
    requires 8 * i + 8 <= |a|
    ensures |w| == 8 && forall k :: 0 <= k < 8 ==> w[k] == a[8 * i + k]
  {
    a[8 * i..8 * i + 8]
  }

  predicate Zero(w: seq<bv8>) { forall k :: 0 <= k < |w| ==> w[k] == 0 }

  function And(v: seq<bv8>, w: seq<bv8>): (r: seq<bv8>)
    requires |v| == |w|
    ensures |r| == |v|
  {
    seq(|v|, k requires 0 <= k < |v| => v[k] & w[k])
  }

  function Not(v: seq<bv8>): (r: seq<bv8>)
    ensures |r| == |v|
  {
    seq(|v|, k requires 0 <= k < |v| => !v[k])
  }

  method Store(a: array<bv8>, i: nat, w: seq<bv8>)
    requires |w| == 8 && 8 * i + 8 <= a.Length
    modifies a
    ensures a[..] == old(a[..8 * i]) + w + old(a[8 * i + 8..])
  {
    for k := 0 to 8
      invariant a[..] == old(a[..8 * i]) + w[..k] + old(a[8 * i + k..])
    {
      a[8 * i + k] := w[k];
    }
  }

  // ----- new bits --------------------------------------------------------------------------------

  /** The trace hits a byte that was never hit before. */
  predicate HitsPristine(trace: seq<bv8>, virgin: seq<bv8>, n: nat)
    requires |trace| == |virgin| && n <= |trace|
  {
    exists j :: 0 <= j < n && trace[j] != 0 && virgin[j] == 255
  }

  /** The trace has a bit that is still set in the map. */
  predicate HasNew(trace: seq<bv8>, virgin: seq<bv8>, n: nat)
    requires |trace| == |virgin| && n <= |trace|
  {
    exists j :: 0 <= j < n && trace[j] & virgin[j] != 0
  }

  /** Byte by byte: 2 if a byte is hit for the first time, 1 if only some bit is new, else 0. */
  function Novelty(trace: seq<bv8>, virgin: seq<bv8>, n: nat): nat
    requires |trace| == |virgin| && n <= |trace|
  {
    if HitsPristine(trace, virgin, n) then 2 else if HasNew(trace, virgin, n) then 1 else 0
  }

  function Cleared(trace: seq<bv8>, virgin: seq<bv8>): (r: seq<bv8>)
    requires |trace| == |virgin|
    ensures |r| == |virgin|
  {
    seq(|virgin|, j requires 0 <= j < |virgin| => virgin[j] & !trace[j])
  }

  predicate Pristine(current: seq<bv8>, virgin: seq<bv8>)
    requires |current| == |virgin|
  {
    exists k :: 0 <= k < |current| && current[k] != 0 && virgin[k] == 255
  }

  /** One more word. */
  lemma NoveltyOfWord(t: seq<bv8>, v: seq<bv8>, i: nat)
    requires |t| == |v| && 8 * i + 8 <= |t|
    ensures var (x, y) := (Word(t, i), Word(v, i));
      && (HasNew(t, v, 8 * i + 8) <==> HasNew(t, v, 8 * i) || !Zero(And(x, y)))
      && (HitsPristine(t, v, 8 * i + 8) <==> HitsPristine(t, v, 8 * i) || Pristine(x, y))
      && (Zero(x) ==> Zero(And(x, y))) && (Pristine(x, y) ==> !Zero(And(x, y)))
  {
    var x, y := Word(t, i), Word(v, i);
    forall k | 0 <= k < 8
      ensures x[k] == t[8 * i + k] && y[k] == v[8 * i + k] && And(x, y)[k] == t[8 * i + k] & v[8 * i + k]
      ensures x[k] != 0 && y[k] == 255 ==> And(x, y)[k] != 0
    {
      if x[k] != 0 && y[k] == 255 {
        assert x[k] & y[k] != 0;
      }
    }
    forall j | 8 * i <= j < 8 * i + 8
      ensures t[j] == x[j - 8 * i] && v[j] == y[j - 8 * i] && t[j] & v[j] == And(x, y)[j - 8 * i]
    {
    }
  }

  /** A byte of the word after clearing, or left alone because nothing in the word is new. */
  lemma ClearedByte(x: seq<bv8>, y: seq<bv8>, k: nat)
    requires |x| == |y| && k < |x|
    ensures (if Zero(And(x, y)) then y else And(y, Not(x)))[k] == y[k] & !x[k]
  {
    if Zero(And(x, y)) {
      assert And(x, y)[k] == 0;
      hide *;
    } else {
      AndNotAt(y, x, k);
      hide *;
    }
  }

  lemma AndNotAt(y: seq<bv8>, x: seq<bv8>, k: nat)
    requires |x| == |y| && k < |x|
    ensures And(y, Not(x))[k] == y[k] & !x[k]
  {
  }

  lemma ClearedWord(t: seq<bv8>, v: seq<bv8>, i: nat, r: seq<bv8>)
    requires |t| == |v| && 8 * i + 8 <= |t|
    requires var (x, y) := (Word(t, i), Word(v, i)); r == if Zero(And(x, y)) then y else And(y, Not(x))
    ensures |r| == 8 && forall j :: 8 * i <= j < 8 * i + 8 ==> r[j - 8 * i] == v[j] & !t[j]
  {
    hide Zero, And, Not;
    var x, y := Word(t, i), Word(v, i);
    forall j | 8 * i <= j < 8 * i + 8
      ensures r[j - 8 * i] == v[j] & !t[j]
    {
      ClearedByte(x, y, j - 8 * i);
      assert x[j - 8 * i] == t[j] && y[j - 8 * i] == v[j];
    }
  }

  method HasNewBits(traceBits: array<bv8>, virginMap: array<bv8>) returns (ret: nat)
    requires traceBits != virginMap && traceBits.Length == virginMap.Length && traceBits.Length % 8 == 0
    modifies virginMap
    ensures ret == Novelty(traceBits[..], old(virginMap[..]), traceBits.Length)
    ensures virginMap[..] == Cleared(traceBits[..], old(virginMap[..]))
  {
    ghost var t, v := traceBits[..], virginMap[..];
    ret := 0;
    for i := 0 to traceBits.Length / 8
      invariant ret == Novelty(t, v, 8 * i) && ClearedUpTo(t, v, virginMap[..], 8 * i)
    {
      ret := ScanWord(traceBits, virginMap, i, ret, v);
    }
    assert virginMap[..] == Cleared(t, v);
  }

  /** The bits of the trace are cleared in the first n bytes. */
  ghost predicate ClearedUpTo(t: seq<bv8>, v: seq<bv8>, now: seq<bv8>, n: nat)
  {
    |t| == |v| == |now| && forall j :: 0 <= j < |v| ==> now[j] == if j < n then v[j] & !t[j] else v[j]
  }

  method ScanWord(traceBits: array<bv8>, virginMap: array<bv8>, i: nat, ret: nat, ghost v: seq<bv8>) returns (ret': nat)
    requires traceBits != virginMap && traceBits.Length == virginMap.Length && 8 * i + 8 <= traceBits.Length
    requires ClearedUpTo(traceBits[..], v, virginMap[..], 8 * i) && ret == Novelty(traceBits[..], v, 8 * i)
    modifies virginMap
    ensures ClearedUpTo(traceBits[..], v, virginMap[..], 8 * (i + 1)) && ret' == Novelty(traceBits[..], v, 8 * (i + 1))
  {
    hide Zero, And, Not, HasNew, HitsPristine, Pristine, Word;
    ghost var t := traceBits[..];
    var current, virgin := Word(traceBits[..], i), Word(virginMap[..], i);
    SameWord(virginMap[..], v, i);
    NoveltyOfWord(t, v, i);
    ret' := ret;
    var word := virgin;
    if !Zero(current) && !Zero(And(current, virgin)) {
      if ret < 2 {
        ret' := if Pristine(current, virgin) then 2 else 1;
      }
      word := And(virgin, Not(current));
      Store(virginMap, i, word);
    }
    ClearedWord(t, v, i, word);
  }

  lemma SameWord(a: seq<bv8>, b: seq<bv8>, i: nat)
    requires |a| == |b| && 8 * i + 8 <= |a| && forall j :: 8 * i <= j < |a| ==> a[j] == b[j]
    ensures Word(a, i) == Word(b, i)
  {
  }

  // ----- condensing a trace ----------------------------------------------------------------------

  /** The class of a hit count. */
  function Class8(n: nat): bv8
  {
    if n <= 2 then n as bv8 else if n == 3 then 4 else if n <= 7 then 8 else if n <= 15 then 16
    else if n <= 31 then 32 else if n <= 127 then 64 else 128
  }

  function Class(b: bv8): bv8 { Class8(b as int) }

  function Classified(a: seq<bv8>): (r: seq<bv8>)
    ensures |r| == |a|
  {
    seq(|a|, i requires 0 <= i < |a| => Class(a[i]))
  }

  function Pair(hi: bv8, lo: bv8): bv16 { ((hi as bv16) << 8) | (lo as bv16) }

  function Low(v: bv16): bv8 { (v & 0xFF) as bv8 }

  function High(v: bv16): bv8 { (v >> 8) as bv8 }

  lemma PairParts(hi: bv8, lo: bv8)
    ensures High(Pair(hi, lo)) == hi && Low(Pair(hi, lo)) == lo
  {
  }

  predicate TableAt(table: seq<bv16>, hi: nat, lo: nat)
    requires |table| == 65536 && hi < 256 && lo < 256
  {
    table[256 * hi + lo] == Pair(Class8(hi), Class8(lo))
  }

  /** The table for two counts at once. */
  predicate TableOk(table: seq<bv16>, n: nat)
    requires n <= 256
  {
    |table| == 65536 && forall hi, lo :: 0 <= hi < n && 0 <= lo < 256 ==> TableAt(table, hi, lo)
  }

  /** The table is filled up to entry (b1, b2). */
  predicate Filled(table: seq<bv16>, b1: nat, b2: nat)
  {
    |table| == 65536 && forall hi, lo ::
      0 <= hi <= b1 && 0 <= lo < 256 && hi < 256 && (hi < b1 || lo < b2) ==> TableAt(table, hi, lo)
  }

  lemma FillNext(table: seq<bv16>, b1: nat, b2: nat)
    requires Filled(table, b1, b2) && b1 < 256 && b2 < 256
    ensures Filled(table[256 * b1 + b2 := Pair(Class8(b1), Class8(b2))], b1, b2 + 1)
  {
    hide Pair, Class8;
    var r := table[256 * b1 + b2 := Pair(Class8(b1), Class8(b2))];
    forall hi, lo | 0 <= hi <= b1 && 0 <= lo < 256 && (hi < b1 || lo < b2 + 1)
      ensures TableAt(r, hi, lo)
    {
      if hi != b1 || lo != b2 {
        assert TableAt(table, hi, lo);
      }
    }
  }

  method InitCountClass16() returns (table: array<bv16>)
    ensures fresh(table) && TableOk(table[..], 256)
  {
    hide Pair, Class8, Filled, TableOk;
    table := new bv16[65536];
    FillStart(table[..]);
    for b1 := 0 to 256
      invariant Filled(table[..], b1, 0)
    {
      for b2 := 0 to 256
        invariant Filled(table[..], b1, b2)
      {
        FillNext(table[..], b1, b2);
        table[256 * b1 + b2] := Pair(Class8(b1), Class8(b2));
      }
      FillRow(table[..], b1);
    }
    FillEnd(table[..]);
  }

  lemma FillStart(table: seq<bv16>)
    requires |table| == 65536
    ensures Filled(table, 0, 0)
  {
  }

  lemma FillRow(table: seq<bv16>, b1: nat)
    requires Filled(table, b1, 256)
    ensures Filled(table, b1 + 1, 0)
  {
  }

  lemma FillEnd(table: seq<bv16>)
    requires Filled(table, 256, 0)
    ensures TableOk(table, 256)
  {
  }

  lemma Looked(table: seq<bv16>, lo: bv8, hi: bv8)
    requires TableOk(table, 256)
    ensures var v := table[256 * (hi as int) + (lo as int)]; Low(v) == Class(lo) && High(v) == Class(hi)
  {
    hide Pair, Low, High, Class8;
    PairParts(Class8(hi as int), Class8(lo as int));
    EntryIs(table, hi as int, lo as int);
  }

  lemma EntryIs(table: seq<bv16>, hi: nat, lo: nat)
    requires TableOk(table, 256) && hi < 256 && lo < 256
    ensures table[256 * hi + lo] == Pair(Class8(hi), Class8(lo))
  {
    hide Pair, Class8;
    assert TableAt(table, hi, lo);
  }

  /** Two bytes read as one 16-bit index, least significant byte first, and replaced by the table entry. */
  method ClassifyPair(mem: array<bv8>, p: nat, table: array<bv16>)
    requires p + 2 <= mem.Length && TableOk(table[..], 256)
    modifies mem
    ensures mem[..] == old(mem[..])[p := Class(old(mem[p]))][p + 1 := Class(old(mem[p + 1]))]
  {
    hide Pair, Low, High, Class;
    Looked(table[..], mem[p], mem[p + 1]);
    hide TableOk;
    var v := table[256 * (mem[p + 1] as int) + (mem[p] as int)];
    mem[p], mem[p + 1] := Low(v), High(v);
  }

  method ClassifyCounts(mem: array<bv8>, table: array<bv16>)
    requires mem.Length % 8 == 0 && TableOk(table[..], 256)
    modifies mem
    ensures mem[..] == Classified(old(mem[..]))
  {
    hide TableOk, Class;
    ghost var was := mem[..];
    for i := 0 to mem.Length / 8
      invariant TableOk(table[..], 256)
      invariant forall j :: 0 <= j < mem.Length ==> mem[j] == if j < 8 * i then Class(was[j]) else was[j]
    {
      if !Zero(Word(mem[..], i)) {
        for k := 0 to 4
          invariant TableOk(table[..], 256)
          invariant forall j :: 0 <= j < mem.Length ==> mem[j] == if j < 8 * i + 2 * k then Class(was[j]) else was[j]
        {
          ClassifyPair(mem, 8 * i + 2 * k, table);
        }
      } else {
        ZeroStaysZero(was, mem[..], i);
      }
    }
  }

  lemma ZeroStaysZero(was: seq<bv8>, a: seq<bv8>, i: nat)
    requires |a| == |was| && 8 * i + 8 <= |a| && Zero(Word(a, i)) && forall j :: 8 * i <= j < |a| ==> a[j] == was[j]
    ensures forall j :: 8 * i <= j < 8 * i + 8 ==> a[j] == Class(was[j])
  {
    forall j | 8 * i <= j < 8 * i + 8
      ensures a[j] == Class(was[j])
    {
      assert Word(a, i)[j - 8 * i] == a[j];
    }
  }

  /** The buckets of hit counts: first count, last count, and the bit that stands for it. */
  const BUCKETS: seq<(nat, nat, bv8)> := [(0, 0, 0), (1, 1, 1), (2, 2, 2), (3, 3, 4), (4, 7, 8), (8, 15, 16),
                                          (16, 31, 32), (32, 127, 64), (128, 255, 128)]

  predicate InBucket(b: bv8, k: nat)
    requires k < |BUCKETS|
  {
    BUCKETS[k].0 <= b as int <= BUCKETS[k].1
  }

  /** Every count is in a bucket, and its class is the bit of that bucket and of no other one. */
  lemma ClassOfBucket(b: bv8)
    ensures exists k :: 0 <= k < |BUCKETS| && InBucket(b, k)
    ensures forall k :: 0 <= k < |BUCKETS| ==> (InBucket(b, k) <==> Class(b) == BUCKETS[k].2)
  {
    var n := b as int;
    var k := if n <= 3 then n else if n <= 7 then 4 else if n <= 15 then 5 else if n <= 31 then 6
             else if n <= 127 then 7 else 8;
    assert InBucket(b, k);
  }

  /** Two traces look the same once classified exactly if every byte stays in its bucket. */
  lemma ClassifiedAlikeIff(s: seq<bv8>, t: seq<bv8>)
    requires |s| == |t|
    ensures Classified(s) == Classified(t) <==>
            forall i, k :: 0 <= i < |s| && 0 <= k < |BUCKETS| ==> (InBucket(s[i], k) <==> InBucket(t[i], k))
  {
    forall i | 0 <= i < |s|
      ensures Classified(s)[i] == Classified(t)[i] <==>
              forall k :: 0 <= k < |BUCKETS| ==> (InBucket(s[i], k) <==> InBucket(t[i], k))
    {
      ClassOfBucket(s[i]);
      ClassOfBucket(t[i]);
      hide InBucket, Class;
      var k :| 0 <= k < |BUCKETS| && InBucket(s[i], k);
    }
    hide InBucket, Class;
    if forall i, k :: 0 <= i < |s| && 0 <= k < |BUCKETS| ==> (InBucket(s[i], k) <==> InBucket(t[i], k)) {
      forall i | 0 <= i < |s| ensures Classified(s)[i] == Classified(t)[i] {
        assert forall k :: 0 <= k < |BUCKETS| ==> (InBucket(s[i], k) <==> InBucket(t[i], k));
      }
    }
  }

  function Simplify(b: bv8): bv8 { if b == 0 then 1 else 128 }

  function Simplified(a: seq<bv8>): (r: seq<bv8>)
    ensures |r| == |a|
  {
    seq(|a|, i requires 0 <= i < |a| => Simplify(a[i]))
  }

  /** A simplified trace tells just which bytes were hit: one for those that were not, the top bit for the others. */
  lemma SimplifiedTells(s: seq<bv8>, t: seq<bv8>)
    requires |s| == |t|
    ensures Simplified(s) == Simplified(t) <==> forall i :: 0 <= i < |s| ==> (s[i] == 0 <==> t[i] == 0)
    ensures forall i :: 0 <= i < |s| ==>
              (Simplified(s)[i] == 1 <==> s[i] == 0) && (Simplified(s)[i] == 128 <==> s[i] != 0)
  {
    forall i | 0 <= i < |s| ensures Simplified(s)[i] == Simplified(t)[i] <==> (s[i] == 0 <==> t[i] == 0) {
    }
    if forall i :: 0 <= i < |s| ==> (s[i] == 0 <==> t[i] == 0) {
      assert forall i :: 0 <= i < |s| ==> Simplified(s)[i] == Simplified(t)[i];
    }
  }

  method SimplifyTrace(mem: array<bv8>)
    requires mem.Length % 8 == 0
    modifies mem
    ensures mem[..] == Simplified(old(mem[..]))
  {
    ghost var was := mem[..];
    for i := 0 to mem.Length / 8
      invariant forall j :: 0 <= j < mem.Length ==> mem[j] == if j < 8 * i then Simplify(was[j]) else was[j]
    {
      if !Zero(Word(mem[..], i)) {
        for k := 0 to 8
          invariant forall j :: 0 <= j < mem.Length ==> mem[j] == if j < 8 * i + k then Simplify(was[j]) else was[j]
        {
          mem[8 * i + k] := Simplify(mem[8 * i + k]);
        }
      } else {
        forall j | 8 * i <= j < 8 * i + 8
          ensures was[j] == 0
        {
          assert Word(mem[..], i)[j - 8 * i] == mem[j];
        }
        Store(mem, i, [1, 1, 1, 1, 1, 1, 1, 1]);
      }
    }
  }

  // ----- over any run ----------------------------------------------------------------------------

  predicate SameSize(traces: seq<seq<bv8>>, n: nat) { forall i :: 0 <= i < |traces| ==> |traces[i]| == n }

  /** The map after a run of traces. */
  function After(traces: seq<seq<bv8>>, virgin: seq<bv8>): (r: seq<bv8>)
    requires SameSize(traces, |virgin|)
    ensures |r| == |virgin|
    decreases |traces|
  {
    if traces == [] then virgin else After(traces[1..], Cleared(traces[0], virgin))
  }

  /** The number of traces in the run whose novelty is at least the given one. */
  function Novel(traces: seq<seq<bv8>>, virgin: seq<bv8>, least: nat): nat
    requires SameSize(traces, |virgin|)
    decreases |traces|
  {
    if traces == [] then 0
    else (if Novelty(traces[0], virgin, |virgin|) >= least then 1 else 0) +
         Novel(traces[1..], Cleared(traces[0], virgin), least)
  }

  ghost function Seen(traces: seq<seq<bv8>>): set<nat>
  {
    if traces == [] then {} else Bits(traces[0]) + Seen(traces[1..])
  }

  lemma ClearedBits(trace: seq<bv8>, virgin: seq<bv8>)
    requires |trace| == |virgin|
    ensures Bits(Cleared(trace, virgin)) == Bits(virgin) - Bits(trace)
  {
    ClearBits(virgin, trace, Cleared(trace, virgin));
  }

  /** The map is the complement, within what it started from, of all traces seen. */
  lemma {:induction false} MapIsComplement(traces: seq<seq<bv8>>, virgin: seq<bv8>)
    requires SameSize(traces, |virgin|)
    ensures Bits(After(traces, virgin)) == Bits(virgin) - Seen(traces)
    decreases |traces|
  {
    hide Bits;
    if traces != [] {
      ClearedBits(traces[0], virgin);
      MapIsComplement(traces[1..], Cleared(traces[0], virgin));
    }
  }

  lemma NonZeroHasBit(x: bv8)
    ensures x != 0 <==> exists n :: 0 <= n < 8 && Has(x, n)
  {
    if x != 0 {
      assert Has(x, 0) || Has(x, 1) || Has(x, 2) || Has(x, 3) || Has(x, 4) || Has(x, 5) || Has(x, 6) || Has(x, 7);
    }
  }

  lemma AndHas(x: bv8, y: bv8, n: nat)
    requires n < 8
    ensures Has(x & y, n) <==> Has(x, n) && Has(y, n)
  {
  }

  /** A trace brings something new exactly when it has a bit that the map still has. */
  lemma NoveltyIsAboutBits(trace: seq<bv8>, virgin: seq<bv8>)
    requires |trace| == |virgin|
    ensures Novelty(trace, virgin, |virgin|) > 0 <==> Bits(trace) * Bits(virgin) != {}
  {
    hide Has;
    if j :| 0 <= j < |virgin| && trace[j] & virgin[j] != 0 {
      NonZeroHasBit(trace[j] & virgin[j]);
      var n :| 0 <= n < 8 && Has(trace[j] & virgin[j], n);
      AndHas(trace[j], virgin[j], n);
      assert (8 * j + n) / 8 == j && (8 * j + n) % 8 == n;
      assert 8 * j + n in Bits(trace) * Bits(virgin);
    }
    if HitsPristine(trace, virgin, |virgin|) {
      var j :| 0 <= j < |virgin| && trace[j] != 0 && virgin[j] == 255;
      assert trace[j] & virgin[j] != 0;
    }
    if i :| i in Bits(trace) * Bits(virgin) {
      AndHas(trace[i / 8], virgin[i / 8], i % 8);
      NonZeroHasBit(trace[i / 8] & virgin[i / 8]);
    }
  }

  /** Each trace that brings something new takes one of the bits that are left. */
  lemma {:induction false} NovelAtMost(traces: seq<seq<bv8>>, virgin: seq<bv8>, within: set<nat>)
    requires SameSize(traces, |virgin|) && Seen(traces) <= within
    ensures Novel(traces, virgin, 1) <= |Bits(virgin) * within|
    decreases |traces|
  {
    hide Bits, Novelty, Cleared;
    if traces != [] {
      var t, v := traces[0], Cleared(traces[0], virgin);
      NoveltyIsAboutBits(t, virgin);
      ClearedBits(t, virgin);
      NovelAtMost(traces[1..], v, within);
      var a, b := Bits(virgin) * within, Bits(v) * within;
      assert b <= a;
      SubsetSize(b, a);
      if Novelty(t, virgin, |virgin|) >= 1 {
        var i :| i in Bits(t) * Bits(virgin);
        assert i in a && i !in b;
        SubsetSize(b + {i}, a);
      }
    }
  }

  lemma {:induction false} SubsetSize(a: set<nat>, b: set<nat>)
    requires a <= b
    ensures |a| <= |b|
    decreases a
  {
    if a != {} {
      var x :| x in a;
      SubsetSize(a - {x}, b - {x});
    }
  }

  function Below(n: nat): set<nat> { if n == 0 then {} else Below(n - 1) + {n - 1} }

  lemma {:induction false} BelowSize(n: nat)
    ensures |Below(n)| == n && forall i: nat :: i in Below(n) <==> i < n
  {
    if n > 0 {
      BelowSize(n - 1);
    }
  }

  /** The first and the last bit of each of n bytes. */
  function Ends(n: nat): set<nat> { if n == 0 then {} else Ends(n - 1) + {8 * (n - 1), 8 * (n - 1) + 7} }

  lemma {:induction false} InEnds(n: nat, j: nat)
    ensures 8 * j in Ends(n) <==> j < n
    ensures 8 * j + 7 in Ends(n) <==> j < n
  {
    if n > 0 {
      InEnds(n - 1, j);
    }
  }

  lemma AddTwo(e: set<nat>, a: nat, b: nat)
    requires a !in e && b !in e && a != b
    ensures |e + {a, b}| == |e| + 2
  {
    assert e + {a, b} == (e + {a}) + {b};
  }

  lemma {:induction false} EndsSize(n: nat)
    ensures |Ends(n)| == 2 * n
  {
    if n > 0 {
      EndsSize(n - 1);
      InEnds(n - 1, n - 1);
      AddTwo(Ends(n - 1), 8 * (n - 1), 8 * (n - 1) + 7);
    }
  }

  lemma {:induction false} SeenWithin(traces: seq<seq<bv8>>, within: set<nat>)
    requires forall i :: 0 <= i < |traces| ==> Bits(traces[i]) <= within
    ensures Seen(traces) <= within
    decreases |traces|
  {
    if traces != [] {
      SeenWithin(traces[1..], within);
    }
  }

  /** At most eight inputs per byte of the map are ever reported as bringing new bits. */
  lemma NewBitsAreBounded(traces: seq<seq<bv8>>, virgin: seq<bv8>)
    requires SameSize(traces, |virgin|)
    ensures Novel(traces, virgin, 1) <= 8 * |virgin|
  {
    BelowSize(8 * |virgin|);
    SeenWithin(traces, Below(8 * |virgin|));
    NovelAtMost(traces, virgin, Below(8 * |virgin|));
    SubsetSize(Bits(virgin) * Below(8 * |virgin|), Below(8 * |virgin|));
  }

  /** Of simplified traces, those of crashes and timeouts, at most two per byte are. */
  lemma NewSimplifiedAreBounded(raw: seq<seq<bv8>>, traces: seq<seq<bv8>>, virgin: seq<bv8>)
    requires SameSize(raw, |virgin|) && |traces| == |raw|
    requires forall i :: 0 <= i < |raw| ==> traces[i] == Simplified(raw[i])
    ensures SameSize(traces, |virgin|) && Novel(traces, virgin, 1) <= 2 * |virgin|
  {
    EndsSize(|virgin|);
    forall i | 0 <= i < |traces|
      ensures Bits(traces[i]) <= Ends(|virgin|)
    {
      assert Bits(Simplified(raw[i])) <= Ends(|raw[i]|) by {
        forall i': nat | i' in Bits(Simplified(raw[i]))
          ensures i' in Ends(|raw[i]|)
        {
          InEnds(|raw[i]|, i' / 8);
        }
      }
    }
    SeenWithin(traces, Ends(|virgin|));
    NovelAtMost(traces, virgin, Ends(|virgin|));
    SubsetSize(Bits(virgin) * Ends(|virgin|), Ends(|virgin|));
  }

  function PristineBytes(virgin: seq<bv8>): set<nat> { set j: nat | j < |virgin| && virgin[j] == 255 }

  /** At most one input per byte is reported as hitting something for the first time. */
  lemma {:induction false} NewTuplesAreBounded(traces: seq<seq<bv8>>, virgin: seq<bv8>)
    requires SameSize(traces, |virgin|)
    ensures Novel(traces, virgin, 2) <= |PristineBytes(virgin)| <= |virgin|
    decreases |traces|
  {
    BelowSize(|virgin|);
    SubsetSize(PristineBytes(virgin), Below(|virgin|));
    if traces != [] {
      var t, v := traces[0], Cleared(traces[0], virgin);
      NewTuplesAreBounded(traces[1..], v);
      var a, b := PristineBytes(virgin), PristineBytes(v);
      forall j: nat | j < |virgin|
        ensures j in b <==> j in a && t[j] == 0
      {
      }
      SubsetSize(b, a);
      if HitsPristine(t, virgin, |virgin|) {
        var j :| 0 <= j < |virgin| && t[j] != 0 && virgin[j] == 255;
        SubsetSize(b + {j}, a);
      }
    }
  }
}
