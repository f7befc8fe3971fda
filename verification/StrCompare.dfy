/** strcompare-to-unit: a call that compares memory with a constant becomes a chain of blocks, one
    per byte, that loads the next byte only after the previous ones matched. */
module StrCompare {
  import opened Ir
  import opened Agreement
  import opened Splice
  import opened Expansions
  import opened Census
  import opened Editor

  predicate CallAt(f: Fn, bb: nat, k: nat) {
    bb < |f.blocks| && k < |f.blocks[bb].body| && f.blocks[bb].body[k].CmpCall? && f.blocks[bb].body[k].word != []
  }

  /** Block number j of the chain: load, subtract, extend, and unless it is the last, test. */
  function ChainBody(f: Fn, i: Instr, j: nat): seq<Instr>
    requires i.CmpCall? && j < |i.word|
  {
    [Load8(New(f, 4 * j), i.base, j),
     Sub8(New(f, 4 * j + 1), Const(i.word[j]), Use(New(f, 4 * j))),
     SExt8(New(f, 4 * j + 2), Use(New(f, 4 * j + 1)))] +
    if j + 1 < |i.word| then [Icmp(New(f, 4 * j + 3), EQ, 8, Use(New(f, 4 * j + 1)), Const(0), NoMeta)] else []
  }

  function ChainBlock(f: Fn, i: Instr, j: nat): Block
    requires i.CmpCall? && j < |i.word|
  {
    var end := |f.blocks|;
    Block([], ChainBody(f, i, j),
          if j + 1 < |i.word| then CondBr(Use(New(f, 4 * j + 3)), end + 2 + j, end) else Br(end))
  }

  function Chain(f: Fn, i: Instr, n: nat): (r: seq<Block>)
    requires i.CmpCall? && n <= |i.word|
    ensures |r| == n && forall j :: 0 <= j < n ==> r[j] == ChainBlock(f, i, j)
  {
    if n == 0 then [] else Chain(f, i, n - 1) + [ChainBlock(f, i, n - 1)]
  }

  function ChainIncs(f: Fn, n: nat): (r: seq<Inc>)
    ensures |r| == n && forall j :: 0 <= j < n ==> r[j] == Inc(|f.blocks| + 1 + j, Use(New(f, 4 * j + 2)))
  {
    if n == 0 then [] else ChainIncs(f, n - 1) + [Inc(|f.blocks| + n, Use(New(f, 4 * (n - 1) + 2)))]
  }

  function ChainCut(f: Fn, bb: nat, k: nat): Cut
    requires CallAt(f, bb, k)
  {
    var i := f.blocks[bb].body[k];
    var n := |i.word|;
    Cut(bb, k, [], Br(|f.blocks| + 1), [], Chain(f, i, n), ChainIncs(f, n), f.next + 4 * n - 1)
  }

  // ----- running the chain -------------------------------------------------------------------

  lemma {:induction false} PickIn(inc: seq<Inc>, base: nat, j: nat)
    requires j < |inc| && forall a :: 0 <= a < |inc| ==> inc[a].from == base + a
    ensures Pick(inc, Some(base + j)) == inc[j].v
    decreases |inc|
  {
    if j > 0 {
      assert inc[0].from == base;
      forall a | 0 <= a < |inc[1..]| ensures inc[1..][a].from == (base + 1) + a {
        assert inc[1..][a] == inc[a + 1];
      }
      PickIn(inc[1..], base + 1, j - 1);
    }
  }

  /** State after the arithmetic of block j, when the byte is mapped. */
  function AfterByte(f: Fn, i: Instr, j: nat, s: St, p: nat): St
    requires i.CmpCall? && j < |i.word| && p + j in s.mem
  {
    var b := s.mem[p + j] % 256;
    var d := Diff8(i.word[j], b);
    Set(Set(Set(s, New(f, 4 * j), b), New(f, 4 * j + 1), d), New(f, 4 * j + 2), Extended(d))
  }

  lemma ByteRuns(sem: Sem, f: Fn, i: Instr, j: nat, s: St, p: nat)
    requires i.CmpCall? && j < |i.word| && Eval(i.base, s.env) == p
    ensures p + j !in s.mem ==> ExecBody(sem, ChainBody(f, i, j)[..3], s) == Fault(s)
    ensures p + j in s.mem ==> ExecBody(sem, ChainBody(f, i, j)[..3], s) == Ok(AfterByte(f, i, j, s, p))
  {
    hide Diff8, Extended;
    var body := ChainBody(f, i, j)[..3];
    assert body == [body[0], body[1], body[2]];
    if p + j in s.mem {
      var b := s.mem[p + j] % 256;
      var d := Diff8(i.word[j], b);
      var s1 := Set(s, New(f, 4 * j), b);
      var s2 := Set(s1, New(f, 4 * j + 1), d);
      ExecFirst(sem, body, s, s1);
      assert body[1..] == [body[1], body[2]];
      ExecTwo(sem, body[1], body[2], s1, s2);
      ExecOne(sem, body[2], s2, Set(s2, New(f, 4 * j + 2), Extended(d)));
    }
  }

  /** The test of a difference with zero, which costs nothing. */
  lemma TestRuns(sem: Sem, r: Reg, d: Reg, s: St)
    requires Get(s.env, d) < 256
    ensures ExecInstr(sem, Icmp(r, EQ, 8, Use(d), Const(0), NoMeta), s) == Ok(Set(s, r, Bit(Get(s.env, d) == 0)))
  {
    assert Pow2(8) == 256;
    assert StandardMagic(Use(d), Const(0), EQ, 8);
  }

  lemma DiffZero(x: nat, y: nat)
    ensures Diff8(x, y) < 256
    ensures Diff8(x, y) == 0 <==> x % 256 == y % 256
    ensures Extended(Diff8(x, y)) == 0 <==> Diff8(x, y) == 0
    ensures Diff8(x, y % 256) == Diff8(x, y)
  {
  }

  /** What the rest of the chain has to reach. */
  ghost predicate Settled(f: Fn, c: Cut, s: St, d: Config, x: Option<nat>) {
    match x
    case None => d.Halt? && d.out.Crashed? && See(d.out) == See(Crashed(s))
    case Some(v) =>
      && d.Run? && d.cur == |f.blocks| && d.st.mem == s.mem && d.st.ctr == s.ctr && d.st.work == s.work
      && Agree(d.st.env, s.env, f.next) && Eval(Pick(c.inc, d.prev), d.st.env) == v
  }

  lemma SettledLands(sem: Sem, f: Fn, bb: nat, k: nat, s: St, d: Config)
    requires CallAt(f, bb, k) && f.blocks[bb].body[k].dst.id < f.next
    requires var i := f.blocks[bb].body[k];
      Settled(f, ChainCut(f, bb, k), s, d, FirstDiff(s.mem, Eval(i.base, s.env), i.word))
    ensures Lands(f, ChainCut(f, bb, k), d, ExecInstr(sem, f.blocks[bb].body[k], s))
  {
    var c, i := ChainCut(f, bb, k), f.blocks[bb].body[k];
    if d.Run? {
      SetAgree(d.st.env, s.env, i.dst, Eval(Pick(c.inc, d.prev), d.st.env), f.next);
    }
  }

  /** Same memory, counters and work, and the same values of all names of the original program. */
  ghost predicate Close(t: St, s: St, n: nat) {
    Agree(t.env, s.env, n) && t.mem == s.mem && t.ctr == s.ctr && t.work == s.work
  }

  lemma AfterByteFacts(f: Fn, i: Instr, j: nat, t: St, s: St, p: nat)
    requires i.CmpCall? && j < |i.word| && p + j in t.mem && Close(t, s, f.next)
    ensures var (u, d) := (AfterByte(f, i, j, t, p), Diff8(i.word[j], t.mem[p + j]));
      && Close(u, s, f.next) && Get(u.env, New(f, 4 * j + 1)) == d < 256 && Get(u.env, New(f, 4 * j + 2)) == Extended(d)
  {
    DiffZero(i.word[j], t.mem[p + j]);
    hide Diff8, Extended;
  }

  lemma FreshClose(t: St, s: St, n: nat, r: Reg, v: nat)
    requires Close(t, s, n) && r.id >= n
    ensures Close(Set(t, r, v), s, n) && Get(Set(t, r, v).env, r) == v
    ensures forall q: Reg :: q != r ==> Get(Set(t, r, v).env, q) == Get(t.env, q)
  {
  }

  /** The body of one block: crash, or leave the extended difference (and the test of it). */
  lemma ChainBodyRuns(sem: Sem, f: Fn, i: Instr, j: nat, t: St, s: St) returns (v: St)
    requires i.CmpCall? && j < |i.word| && InstrBelow(i, f.next) && Close(t, s, f.next)
    ensures var p := Eval(i.base, s.env);
      if p + j !in s.mem then ExecBody(sem, ChainBody(f, i, j), t) == Fault(t)
      else
        var d := Diff8(i.word[j], s.mem[p + j]);
        && ExecBody(sem, ChainBody(f, i, j), t) == Ok(v) && Close(v, s, f.next)
        && Get(v.env, New(f, 4 * j + 2)) == Extended(d)
        && (j + 1 < |i.word| ==> Get(v.env, New(f, 4 * j + 3)) == Bit(d == 0))
  {
    var p, b := Eval(i.base, s.env), ChainBody(f, i, j);
    v := t;
    assert Eval(i.base, t.env) == p;
    ByteRuns(sem, f, i, j, t, p);
    BodyAppend(sem, b[..3], b[3..], t);
    assert b == b[..3] + b[3..];
    if p + j in s.mem {
      AfterByteFacts(f, i, j, t, s, p);
      var u := AfterByte(f, i, j, t, p);
      hide Diff8, Extended, ExecBody, AfterByte, Get, Agree;
      var d := Diff8(i.word[j], s.mem[p + j]);
      if j + 1 < |i.word| {
        assert b[3..] == [b[3]];
        v := Set(u, New(f, 4 * j + 3), Bit(d == 0));
        TestRuns(sem, New(f, 4 * j + 3), New(f, 4 * j + 1), u);
        ExecOne(sem, b[3], u, v);
        FreshClose(u, s, f.next, New(f, 4 * j + 3), Bit(d == 0));
      } else {
        assert b[3..] == [];
        v := u;
        NoBody(sem, u);
      }
    }
  }

  /** Control is at block number j of the chain. */
  ghost predicate AtLink(f: Fn, s: St, y: Config, j: nat) {
    y.Run? && y.cur == |f.blocks| + 1 + j && Close(y.st, s, f.next)
  }

  /** The call that a chain stands for. */
  ghost predicate CallIs(f: Fn, bb: nat, k: nat, i: Instr) {
    CallAt(f, bb, k) && i == f.blocks[bb].body[k] && i.CmpCall? && InstrBelow(i, f.next)
  }

  lemma ChainBlockIs(f: Fn, bb: nat, k: nat, i: Instr, j: nat)
    requires CallIs(f, bb, k, i) && j < |i.word|
    ensures var (c, n) := (ChainCut(f, bb, k), |f.blocks|);
      && n + 1 + j < |Apply(f, c).blocks| && Apply(f, c).blocks[n + 1 + j] == ChainBlock(f, i, j)
      && Pick(c.inc, Some(n + 1 + j)) == Use(New(f, 4 * j + 2))
  {
    RightBlock(f, ChainCut(f, bb, k), j);
    PickIn(ChainIncs(f, (|i.word|)), |f.blocks| + 1, j);
  }

  /** The difference at byte j; None if the byte is not mapped. */
  function Here(mem: Mem, p: nat, word: seq<nat>, j: nat): Option<nat>
    requires j < |word|
  {
    if p + j in mem then Some(Diff8(word[j], mem[p + j])) else None
  }

  /** The chain ends at block j. */
  predicate Stops(mem: Mem, p: nat, word: seq<nat>, j: nat)
    requires j < |word|
  {
    Here(mem, p, word, j) != Some(0) || j + 1 == |word|
  }

  function ExtendedHere(x: Option<nat>): Option<nat> {
    match x
    case None => None
    case Some(d) => Some(Extended(d))
  }

  /** ... or computes the difference, ... */
  lemma LinkRuns(sem: Sem, f: Fn, bb: nat, k: nat, i: Instr, s: St, y: Config, j: nat, l: nat) returns (v: St)
    requires CallIs(f, bb, k, i) && j < |i.word| && AtLink(f, s, y, j) && Eval(i.base, s.env) + j in s.mem
    ensures var d := Diff8(i.word[j], s.mem[Eval(i.base, s.env) + j]);
      && (Leads(ChainBlock(f, i, j).term, v.env, l) ==> GoesTo(Step(sem, Apply(f, ChainCut(f, bb, k)), y), y.cur, l, v))
      && Close(v, s, f.next) && Get(v.env, New(f, 4 * j + 2)) == Extended(d)
      && (j + 1 < |i.word| ==> Get(v.env, New(f, 4 * j + 3)) == Bit(d == 0))
  {
    var b := ChainBlock(f, i, j);
    ChainBlockIs(f, bb, k, i, j);
    v := ChainBodyRuns(sem, f, i, j, y.st, s);
    assert b.phis == [] && b.body == ChainBody(f, i, j);
    hide Apply, ChainCut, ChainBlock, ChainBody, Diff8, Extended, ExecBody, Get, Step, Close, InstrBelow, CallAt,
         ExecTerm;
    BlockStep(sem, Apply(f, ChainCut(f, bb, k)), y.cur, b, y.prev, y.st, v, y.taken);
    if Leads(b.term, v.env, l) {
      LeadsThere(sem, b.term, y.cur, v, y.taken, l);
    }
  }

  lemma LeavesWith(sem: Sem, f: Fn, bb: nat, k: nat, i: Instr, s: St, y: Config, j: nat, d: nat) returns (v: St)
    requires CallIs(f, bb, k, i) && j < |i.word| && AtLink(f, s, y, j) && (d != 0 || j + 1 == |i.word|)
    requires var a := Eval(i.base, s.env) + j; a in s.mem && d == Diff8(i.word[j], s.mem[a])
    ensures Close(v, s, f.next) && GoesTo(Step(sem, Apply(f, ChainCut(f, bb, k)), y), y.cur, |f.blocks|, v)
    ensures Get(v.env, New(f, 4 * j + 2)) == Extended(d)
  {
    v := LinkRuns(sem, f, bb, k, i, s, y, j, |f.blocks|);
    hide Apply, ChainCut, ChainBlock, Diff8, Extended, Get, Step, Close, InstrBelow, CallAt;
  }

  /** ... and leaves for the tail with it, ... */
  lemma BlockLeaves(sem: Sem, f: Fn, bb: nat, k: nat, i: Instr, s: St, y: Config, j: nat, d: nat)
    requires CallIs(f, bb, k, i) && j < |i.word| && AtLink(f, s, y, j) && (d != 0 || j + 1 == |i.word|)
    requires var a := Eval(i.base, s.env) + j; a in s.mem && d == Diff8(i.word[j], s.mem[a])
    ensures Settled(f, ChainCut(f, bb, k), s, Step(sem, Apply(f, ChainCut(f, bb, k)), y), Some(Extended(d)))
  {
    var g, c := Apply(f, ChainCut(f, bb, k)), ChainCut(f, bb, k);
    assert y.cur == |f.blocks| + 1 + j;
    hide *;
    ChainBlockIs(f, bb, k, i, j);
    var v := LeavesWith(sem, f, bb, k, i, s, y, j, d);
  }

  lemma SettledCrash(f: Fn, c: Cut, s: St, t: St, tk: multiset<Edge>)
    requires Close(t, s, f.next)
    ensures Settled(f, c, s, Halt(Crashed(t), tk), None)
  {
  }

  lemma NoBody(sem: Sem, s: St)
    ensures ExecBody(sem, [], s) == Ok(s)
  {
  }

  /** m steps lead from y to the tail with value x, or to the crash. */
  ghost predicate Arrives(sem: Sem, f: Fn, c: Cut, s: St, y: Config, x: Option<nat>, m: nat)
    requires At(f, c.bb, c.k)
  {
    Settled(f, c, s, Steps(sem, Apply(f, c), y, m), x)
  }

  /** The first difference among the bytes of the word from j on. */
  function DiffFrom(i: Instr, s: St, j: nat): Option<nat>
    requires i.CmpCall? && j <= |i.word|
  {
    FirstDiff(s.mem, Eval(i.base, s.env) + j, i.word[j..])
  }

  lemma DiffFromStep(i: Instr, s: St, j: nat)
    requires i.CmpCall? && j < |i.word|
    ensures DiffFrom(i, s, j) ==
      if Stops(s.mem, Eval(i.base, s.env), i.word, j) then ExtendedHere(Here(s.mem, Eval(i.base, s.env), i.word, j))
      else DiffFrom(i, s, j + 1)
  {
    assert i.word[j..][0] == i.word[j] && i.word[j..][1..] == i.word[j + 1..];
    assert FirstDiff(s.mem, Eval(i.base, s.env) + j + 1, []) == Some(0);
    assert Extended(0) == 0;
  }

  lemma ChainStops(sem: Sem, f: Fn, bb: nat, k: nat, i: Instr, s: St, y: Config, j: nat)
    requires CallIs(f, bb, k, i) && j < |i.word| && AtLink(f, s, y, j) && Stops(s.mem, Eval(i.base, s.env), i.word, j)
    ensures Arrives(sem, f, ChainCut(f, bb, k), s, y, DiffFrom(i, s, j), 1)
  {
    var c, a := ChainCut(f, bb, k), Eval(i.base, s.env) + j;
    DiffFromStep(i, s, j);
    hide Apply, Diff8, Extended, ChainCut, InstrBelow, Step, AtLink, Settled, DiffFrom;
    if a in s.mem {
      BlockLeaves(sem, f, bb, k, i, s, y, j, Diff8(i.word[j], s.mem[a]));
    } else {
      assert Settled(f, ChainCut(f, bb, k), s, Step(sem, Apply(f, ChainCut(f, bb, k)), y), None) by {
        var c := ChainCut(f, bb, k);
        ChainBlockIs(f, bb, k, i, j);
        var v := ChainBodyRuns(sem, f, i, j, y.st, s);
        hide Apply, ExecBody, ChainCut, ChainBody, Close, Step, Settled;
        assert Enter(ChainBlock(f, i, j), y.prev, y.st) == y.st;
        SettledCrash(f, c, s, y.st, y.taken);
      }
    }
    assert Steps(sem, Apply(f, c), y, 0 + 1) == Steps(sem, Apply(f, c), Step(sem, Apply(f, c), y), 0);
    assert 0 == 0 ==> Steps(sem, Apply(f, c), y, 1) == Step(sem, Apply(f, c), y);
  }

  /** Some number of steps lead to the first difference among the bytes from j on. */
  ghost predicate Finds(sem: Sem, f: Fn, bb: nat, k: nat, i: Instr, s: St, y: Config, j: nat)
    requires CallIs(f, bb, k, i) && j <= |i.word|
  {
    exists m: nat :: Arrives(sem, f, ChainCut(f, bb, k), s, y, DiffFrom(i, s, j), m)
  }

  lemma ChainLink(sem: Sem, f: Fn, bb: nat, k: nat, i: Instr, s: St, y: Config, j: nat) returns (last: bool, z: Config)
    requires CallIs(f, bb, k, i) && j < |i.word| && AtLink(f, s, y, j)
    ensures last ==> Finds(sem, f, bb, k, i, s, y, j)
    ensures !last ==> j + 1 < |i.word| && AtLink(f, s, z, j + 1)
                      && (Finds(sem, f, bb, k, i, s, z, j + 1) ==> Finds(sem, f, bb, k, i, s, y, j))
  {
    last, z := Stops(s.mem, Eval(i.base, s.env), i.word, j), Step(sem, Apply(f, ChainCut(f, bb, k)), y);
    hide Apply, ChainCut, Step, AtLink, Arrives, DiffFrom, Diff8, Extended, InstrBelow;
    if last {
      ChainStops(sem, f, bb, k, i, s, y, j);
    } else {
      assert AtLink(f, s, Step(sem, Apply(f, ChainCut(f, bb, k)), y), j + 1) by {
        var v := LinkRuns(sem, f, bb, k, i, s, y, j, y.cur + 1);
        hide Apply, ChainCut, ChainBlock, Diff8, Extended, Get, Step, Close, InstrBelow, CallAt;
      }
      var x := DiffFrom(i, s, j + 1);
      if m: nat :| Arrives(sem, f, ChainCut(f, bb, k), s, z, x, m) {
        assert Arrives(sem, f, ChainCut(f, bb, k), s, y, DiffFrom(i, s, j), m + 1) by {
          var c := ChainCut(f, bb, k);
          hide *;
          DiffFromStep(i, s, j);
          assert Steps(sem, Apply(f, c), y, m + 1) == Steps(sem, Apply(f, c), Step(sem, Apply(f, c), y), m);
          assert m == 0 ==> Steps(sem, Apply(f, c), y, 1) == Step(sem, Apply(f, c), y);
        }
      }
    }
  }

  /** From block j on, the chain finds the first difference among the remaining bytes. */
  lemma {:induction false} ChainRuns(sem: Sem, f: Fn, bb: nat, k: nat, i: Instr, s: St, y: Config, j: nat)
    requires CallIs(f, bb, k, i) && j < |i.word| && AtLink(f, s, y, j)
    ensures Finds(sem, f, bb, k, i, s, y, j)
    decreases |i.word| - j
  {
    hide *;
    var last, z := ChainLink(sem, f, bb, k, i, s, y, j);
    if !last {
      ChainRuns(sem, f, bb, k, i, s, z, j + 1);
    }
  }

  lemma ChainStarts(sem: Sem, f: Fn, bb: nat, k: nat, i: Instr, s: St, tk: multiset<Edge>)
    requires CallIs(f, bb, k, i)
    ensures AtLink(f, s, Start(sem, ChainCut(f, bb, k), s, tk), 0)
    ensures DiffFrom(i, s, 0) == FirstDiff(s.mem, Eval(i.base, s.env), i.word)
  {
    assert i.word[0..] == i.word;
  }

  lemma ChainFaithfulFrom(sem: Sem, f: Fn, bb: nat, k: nat, i: Instr, s: St, tk: multiset<Edge>)
    requires CallIs(f, bb, k, i)
    ensures FaithfulFrom(sem, f, ChainCut(f, bb, k), s, tk)
  {
    var c := ChainCut(f, bb, k);
    var d := Start(sem, c, s, tk);
    ChainStarts(sem, f, bb, k, i, s, tk);
    hide Apply, Settled, Lands, Start, Close, Steps, ExecInstr, AtLink, DiffFrom, FirstDiff, ChainCut;
    ChainRuns(sem, f, bb, k, i, s, d, 0);
    var m: nat :| Arrives(sem, f, c, s, d, DiffFrom(i, s, 0), m);
    SettledLands(sem, f, bb, k, s, Steps(sem, Apply(f, c), d, m));
    assert LandsIn(sem, f, c, d, ExecInstr(sem, i, s), m);
  }

  lemma ChainFaithful(sem: Sem, f: Fn, bb: nat, k: nat)
    requires CallAt(f, bb, k) && InstrBelow(f.blocks[bb].body[k], f.next)
    ensures Faithful(sem, f, ChainCut(f, bb, k))
  {
    forall s: St, tk: multiset<Edge> ensures FaithfulFrom(sem, f, ChainCut(f, bb, k), s, tk) {
      ChainFaithfulFrom(sem, f, bb, k, f.blocks[bb].body[k], s, tk);
    }
  }

  // ----- shape -------------------------------------------------------------------------------

  lemma {:induction false} EntriesNumbered(inc: seq<Inc>, base: nat, l: nat)
    requires forall a :: 0 <= a < |inc| ==> inc[a].from == base + a
    ensures Entries(inc, l) == if base <= l < base + |inc| then 1 else 0
    decreases |inc|
  {
    if inc != [] {
      forall a | 0 <= a < |inc[1..]| ensures inc[1..][a].from == (base + 1) + a {
        assert inc[1..][a] == inc[a + 1];
      }
      assert inc[0].from == base;
      EntriesNumbered(inc[1..], base + 1, l);
    }
  }

  lemma ChainBlockShape(f: Fn, bb: nat, k: nat, j: nat)
    requires CallAt(f, bb, k) && InstrBelow(f.blocks[bb].body[k], f.next) && j < |f.blocks[bb].body[k].word|
    ensures var (c, i) := (ChainCut(f, bb, k), f.blocks[bb].body[k]);
      var (b, lo, hi) := (ChainBlock(f, i, j), |f.blocks|, |f.blocks| + 1 + |i.word|);
      && BlockBelow(b, c.next) && Inside(Succs(b.term), lo, hi) && Occurrences(Succs(b.term), lo) == 1
  {
    var i, n := f.blocks[bb].body[k], |f.blocks|;
    OccurrencesTwo(n + 2 + j, n, n);
    OccurrencesTwo(n, n, n);
  }

  lemma ChainShape(f: Fn, bb: nat, k: nat)
    requires CallAt(f, bb, k) && InstrBelow(f.blocks[bb].body[k], f.next)
    ensures WellShaped(f, ChainCut(f, bb, k))
  {
    var c, i, n := ChainCut(f, bb, k), f.blocks[bb].body[k], |f.blocks|;
    forall j | 0 <= j < |c.right|
      ensures c.right[j].phis == [] && BlockBelow(c.right[j], c.next)
              && Inside(Succs(c.right[j].term), n, n + 1 + |i.word|)
    {
      ChainBlockShape(f, bb, k, j);
    }
    forall l: nat ensures Entries(c.inc, l) == Occurrences(NewSuccs(f, c, l), n) {
      ChainEntries(f, bb, k, l);
    }
    assert [n + 1] == Succs(c.term);
    hide Entries, Occurrences, NewSuccs, BlockBelow, Chain, ChainIncs, InstrBelow;
  }

  lemma ChainEntries(f: Fn, bb: nat, k: nat, l: nat)
    requires CallAt(f, bb, k) && InstrBelow(f.blocks[bb].body[k], f.next)
    ensures var c := ChainCut(f, bb, k); Entries(c.inc, l) == Occurrences(NewSuccs(f, c, l), |f.blocks|)
  {
    var c, i, n := ChainCut(f, bb, k), f.blocks[bb].body[k], |f.blocks|;
    EntriesNumbered(c.inc, n + 1, l);
    OccurrencesTwo(n + 1, n, n);
    OccurrencesTwo(n, n, n);
    assert Occurrences([n + 1], n) == 0 by { assert [n + 1][1..] == []; }
    if n < l <= n + |i.word| {
      ChainBlockShape(f, bb, k, l - n - 1);
    }
  }

  lemma {:induction false} ChainNumbered(f: Fn, i: Instr, n: nat)
    requires i.CmpCall? && n <= |i.word|
    ensures NoMulti(Chain(f, i, n)) && Numbered(Bodies(Chain(f, i, n)), f.next)
    ensures |Bodies(Chain(f, i, n))| == if n == |i.word| && n > 0 then 4 * n - 1 else 4 * n
    decreases n
  {
    if n > 0 {
      ChainNumbered(f, i, n - 1);
      BodiesAppend(Chain(f, i, n - 1), ChainBlock(f, i, n - 1));
      LinkNumbered(f, i, n - 1);
      hide Bodies, ChainBody;
      NumberedJoin(Bodies(Chain(f, i, n - 1)), ChainBody(f, i, n - 1), f.next);
    }
  }

  lemma LinkNumbered(f: Fn, i: Instr, j: nat)
    requires i.CmpCall? && j < |i.word|
    ensures Numbered(ChainBody(f, i, j), f.next + 4 * j) && |ChainBody(f, i, j)| == if j + 1 < |i.word| then 4 else 3
  {
  }

  lemma NumberedJoin(a: seq<Instr>, b: seq<Instr>, n: nat)
    requires Numbered(a, n) && Numbered(b, n + |a|)
    ensures Numbered(a + b, n)
  {
    forall j | |a| <= j < |a + b|
      ensures (a + b)[j] == b[j - |a|]
    {
    }
  }

  lemma {:induction false} BodiesAppend(bs: seq<Block>, b: Block)
    ensures Bodies(bs + [b]) == Bodies(bs) + b.body
    decreases |bs|
  {
    if bs == [] {
      assert [b][1..] == [];
      assert Bodies([b]) == b.body + Bodies([]);
    } else {
      assert (bs + [b])[1..] == bs[1..] + [b];
      BodiesAppend(bs[1..], b);
    }
  }

  /** Main result: the chain computes exactly the first difference, crashes exactly when a byte that
      has to be read is not mapped, and keeps phis, names and static single assignment in order. */
  lemma ChainPreserves(f: Fn, bb: nat, k: nat)
    requires CallAt(f, bb, k) && Good(f)
    ensures Equivalent(f, Apply(f, ChainCut(f, bb, k))) && Good(Apply(f, ChainCut(f, bb, k)))
  {
    var c, i := ChainCut(f, bb, k), f.blocks[bb].body[k];
    assert InstrBelow(i, f.next) by { assert BlockBelow(f.blocks[bb], f.next); }
    forall sem: Sem ensures Faithful(sem, f, c) {
      ChainFaithful(sem, f, bb, k);
    }
    ChainShape(f, bb, k);
    ChainNumbered(f, i, |i.word|);
    assert Inserted(c) == Bodies(c.right) by { assert Bodies([]) == []; }
    hide Apply, Equivalent, Faithful, WellShaped, Inserted, Numbered;
    CutPreserves(f, c);
    CutKeepsShape(f, c);
    CutKeepsSsa(f, c);
  }

  // ----- building the chain in place -----------------------------------------------------------

  /** Function f while the chain is being built: r are the blocks of the chain so far. */
  function Building(f: Fn, bb: nat, k: nat, r: seq<Block>): seq<Block>
    requires bb < |f.blocks| && k < |f.blocks[bb].body|
  {
    Expanding(f, bb, k, [], Br(|f.blocks| + 1), r)
  }

  lemma BuildingLast(f: Fn, bb: nat, k: nat, r: seq<Block>, b: Block, b': Block)
    requires bb < |f.blocks| && k < |f.blocks[bb].body|
    ensures var (bs, l) := (Building(f, bb, k, r + [b]), |f.blocks| + 1 + |r|);
      && |bs| == l + 1 && bs[l] == b && bs[l := b'] == Building(f, bb, k, r + [b'])
  {
    hide Redirect;
    var bs, l := Building(f, bb, k, r + [b]), |f.blocks| + 1 + |r|;
    assert (r + [b])[|r| := b'] == r + [b'];
    assert bs[l := b'] == Building(f, bb, k, r + [b']);
  }

  /** The first three instructions of a block of the chain. */
  method AppendDifference(m: Function, l: nat, base: Operand, c: nat, j: nat,
                          ghost f: Fn, ghost bb: nat, ghost k: nat, ghost r: seq<Block>, ghost t: Term)
    returns (isub: Reg, sext: Reg)
    requires bb < |f.blocks| && k < |f.blocks[bb].body| && l == |f.blocks| + 1 + |r|
    requires m.blocks == Building(f, bb, k, r + [Block([], [], t)]) && m.next == f.next + 4 * j
    modifies m
    ensures isub == New(f, 4 * j + 1) && sext == New(f, 4 * j + 2) && m.next == f.next + 4 * j + 3
    ensures m.blocks ==
            Building(f, bb, k, r + [Block([], [Load8(New(f, 4 * j), base, j), Sub8(isub, Const(c), Use(New(f, 4 * j))),
                                                           SExt8(sext, Use(isub))], t)])
  {
    hide Building;
    var load := m.NewName();
    isub := m.NewName();
    sext := m.NewName();
    var i0, i1, i2 := Load8(load, base, j), Sub8(isub, Const(c), Use(load)), SExt8(sext, Use(isub));
    BuildingLast(f, bb, k, r, Block([], [], t), Block([], [i0], t));
    m.Append(l, i0);
    assert [] + [i0] == [i0] && [i0] + [i1] == [i0, i1] && [i0, i1] + [i2] == [i0, i1, i2];
    BuildingLast(f, bb, k, r, Block([], [i0], t), Block([], [i0, i1], t));
    m.Append(l, i1);
    BuildingLast(f, bb, k, r, Block([], [i0, i1], t), Block([], [i0, i1, i2], t));
    m.Append(l, i2);
  }

  /** The chain after j links, with the empty block for the next one if there is one to come. */
  function Links(f: Fn, i: Instr, j: nat): seq<Block>
    requires i.CmpCall? && j <= |i.word|
  {
    Chain(f, i, j) + if j < |i.word| then [Block([], [], Br(|f.blocks|))] else []
  }

  lemma BuildingMore(f: Fn, bb: nat, k: nat, r: seq<Block>, b: Block)
    requires bb < |f.blocks| && k < |f.blocks[bb].body|
    ensures Building(f, bb, k, r) + [b] == Building(f, bb, k, r + [b])
            && |Building(f, bb, k, r)| == |f.blocks| + 1 + |r|
  {
    hide Redirect;
  }

  /** One round of the loop: block j gets its instructions and, unless it is the last, a test that leads to the
      next block or to the end. */
  method ExtendChain(m: Function, i: Instr, j: nat, nextBb: nat, end: nat, ghost f: Fn, ghost bb: nat, ghost k: nat)
    returns (next': nat, inc: Inc)
    requires bb < |f.blocks| && k < |f.blocks[bb].body| && i.CmpCall? && j < |i.word| && nextBb == |f.blocks| + 1 + j
    requires end == |f.blocks|
    requires m.blocks == Building(f, bb, k, Links(f, i, j)) && m.next == f.next + 4 * j
    modifies m
    ensures m.blocks == Building(f, bb, k, Links(f, i, j + 1))
    ensures m.next == f.next + 4 * (j + 1) - (if j + 1 == |i.word| then 1 else 0)
    ensures next' == nextBb + (if j + 1 < |i.word| then 1 else 0) && inc == ChainIncs(f, j + 1)[j]
  {
    hide Building;
    ghost var r := Chain(f, i, j);
    assert Links(f, i, j) == r + [Block([], [], Br(end))];
    var isub, sext := AppendDifference(m, nextBb, i.base, i.word[j], j, f, bb, k, r, Br(end));
    ghost var body := [Load8(New(f, 4 * j), i.base, j), Sub8(isub, Const(i.word[j]), Use(New(f, 4 * j))),
                       SExt8(sext, Use(isub))];
    inc := Inc(nextBb, Use(sext));
    next' := nextBb;
    if j + 1 < |i.word| {
      var test := m.NewName();
      ghost var c := Icmp(test, EQ, 8, Use(isub), Const(0), NoMeta);
      BuildingLast(f, bb, k, r, Block([], body, Br(end)), Block([], body + [c], Br(end)));
      m.Append(nextBb, Icmp(test, EQ, 8, Use(isub), Const(0), NoMeta));
      BuildingLast(f, bb, k, r, Block([], body + [c], Br(end)),
                   Block([], body + [c], CondBr(Use(test), nextBb + 1, end)));
      m.SetTerminator(nextBb, CondBr(Use(test), nextBb + 1, end));
      assert body + [c] == ChainBody(f, i, j);
      assert m.blocks == Building(f, bb, k, r + [ChainBlock(f, i, j)]);
      assert Links(f, i, j + 1) == r + [ChainBlock(f, i, j)] + [Block([], [], Br(end))];
      next' := m.CreateBlock();
      m.SetTerminator(next', Br(end));
      BuildingMore(f, bb, k, r + [ChainBlock(f, i, j)], Block([], [], Br(end)));
    } else {
      assert body + [] == ChainBody(f, i, j);
      assert body + [] == body;
      assert Links(f, i, j + 1) == r + [ChainBlock(f, i, j)];
    }
  }

  /** The call gives way to the chain: split before it, build the blocks one after the other, and put a phi in its
      place. */
  method SplitCall(m: Function, bb: nat, k: nat)
    requires CallAt(m.Model(), bb, k)
    modifies m
    ensures m.Model() == Apply(old(m.Model()), ChainCut(old(m.Model()), bb, k))
  {
    var i := m.blocks[bb].body[k];
    ghost var f := m.Model();
    hide Apply, Expanding;
    var end := m.BeginExpansion(bb, k);
    var nextBb := m.CreateBlock();
    m.SetTerminator(nextBb, Br(end));
    ExpandingTerm(f, bb, k, [], Br(end), Br(nextBb), [] + [Block([], [], Br(end))]);
    m.SetTerminator(bb, Br(nextBb));
    var inc := [];
    for j := 0 to |i.word|
      invariant m.blocks == Building(f, bb, k, Links(f, i, j))
      invariant m.next == f.next + 4 * j - (if j == |i.word| then 1 else 0)
      invariant nextBb == end + 1 + (if j < |i.word| then j else j - 1)
      invariant inc == ChainIncs(f, j)
    {
      var more;
      nextBb, more := ExtendChain(m, i, j, nextBb, end, f, bb, k);
      inc := inc + [more];
    }
    m.EndExpansion(bb, Br(end + 1), inc, f, k, [], Br(end + 1), Chain(f, i, |i.word|), end);
  }

  // ----- what the first difference means -------------------------------------------------------

  predicate Mapped(mem: Mem, p: nat, n: nat) {
    forall a :: p <= a < p + n ==> a in mem
  }

  /** memcmp(p, word, |word|) == 0 */
  predicate MemEqual(mem: Mem, p: nat, word: seq<nat>)
    requires Mapped(mem, p, |word|)
  {
    forall a :: p <= a < p + |word| ==> mem[a] % 256 == word[a - p] % 256
  }

  /** The chain yields zero exactly when memcmp does. */
  lemma {:induction false} ZeroIffMemcmp(mem: Mem, p: nat, word: seq<nat>)
    requires Mapped(mem, p, |word|)
    ensures FirstDiff(mem, p, word).Some?
    ensures FirstDiff(mem, p, word).value == 0 <==> MemEqual(mem, p, word)
    decreases |word|
  {
    if word != [] {
      DiffZero(word[0], mem[p]);
      ZeroIffMemcmp(mem, p + 1, word[1..]);
      assert MemEqual(mem, p, word) <==> mem[p] % 256 == word[0] % 256 && MemEqual(mem, p + 1, word[1..]) by {
        if MemEqual(mem, p, word) {
          forall a | p + 1 <= a < p + |word| ensures mem[a] % 256 == word[1..][a - p - 1] % 256 {
            assert word[1..][a - p - 1] == word[a - p];
          }
        }
        if mem[p] % 256 == word[0] % 256 && MemEqual(mem, p + 1, word[1..]) {
          forall a | p <= a < p + |word| ensures mem[a] % 256 == word[a - p] % 256 {
            if a > p {
              assert word[1..][a - p - 1] == word[a - p];
            }
          }
        }
      }
    }
  }

  /** strncmp(p, word, |word|) == 0: byte by byte until a difference or a NUL; None if an unmapped
      byte would be read. */
  function CStringEqual(mem: Mem, p: nat, word: seq<nat>): Option<bool>
    decreases |word|
  {
    if word == [] then Some(true)
    else if p !in mem then None
    else if mem[p] % 256 != word[0] % 256 then Some(false)
    else if mem[p] % 256 == 0 then Some(true)
    else CStringEqual(mem, p + 1, word[1..])
  }

  /** The only NUL of the literal, if any, is its last byte. */
  predicate NoInnerNul(word: seq<nat>) {
    forall j :: 0 <= j < |word| - 1 ==> word[j] % 256 != 0
  }

  /** For literals without an inner NUL the chain reads no byte that strcmp or strncmp would not
      read, and yields zero exactly when they do. */
  lemma {:induction false} ZeroIffStrcmp(mem: Mem, p: nat, word: seq<nat>)
    requires NoInnerNul(word)
    ensures FirstDiff(mem, p, word).None? <==> CStringEqual(mem, p, word).None?
    ensures FirstDiff(mem, p, word).Some? ==>
      (FirstDiff(mem, p, word).value == 0 <==> CStringEqual(mem, p, word).value)
    decreases |word|
  {
    if word != [] && p in mem {
      DiffZero(word[0], mem[p]);
      forall j | 0 <= j < |word[1..]| - 1 ensures word[1..][j] % 256 != 0 {
        assert word[1..][j] == word[j + 1];
      }
      ZeroIffStrcmp(mem, p + 1, word[1..]);
      if |word| == 1 {
        assert FirstDiff(mem, p + 1, []) == Some(0);
      }
    }
  }

  /** In particular, if the compared memory holds a C string, the chain never reads beyond its NUL:
      unmapping everything behind it makes no difference. */
  lemma NeverPastNul(mem: Mem, p: nat, word: seq<nat>, z: nat)
    requires NoInnerNul(word) && Mapped(mem, p, z + 1) && mem[p + z] % 256 == 0
    ensures var short := map a | a in mem && a <= p + z :: mem[a];
      FirstDiff(mem, p, word).Some? && FirstDiff(short, p, word) == FirstDiff(mem, p, word)
  {
    var short := map a | a in mem && a <= p + z :: mem[a];
    StopsAtNul(mem, short, p, word, z);
  }

  lemma {:induction false} StopsAtNul(mem: Mem, short: Mem, p: nat, word: seq<nat>, z: nat)
    requires NoInnerNul(word) && Mapped(mem, p, z + 1) && mem[p + z] % 256 == 0
    requires Mapped(short, p, z + 1) && forall a :: p <= a < p + z + 1 ==> short[a] == mem[a]
    ensures FirstDiff(mem, p, word).Some? && FirstDiff(short, p, word) == FirstDiff(mem, p, word)
    decreases |word|
  {
    if word != [] {
      DiffZero(word[0], mem[p]);
      forall j | 0 <= j < |word[1..]| - 1 ensures word[1..][j] % 256 != 0 {
        assert word[1..][j] == word[j + 1];
      }
      if z > 0 {
        StopsAtNul(mem, short, p + 1, word[1..], z - 1);
      } else if |word| == 1 {
        assert FirstDiff(mem, p + 1, []) == Some(0) == FirstDiff(short, p + 1, []);
      }
    }
  }

  // ----- the sign ------------------------------------------------------------------------------

  /** A 32-bit word read as a signed number. */
  function Signed32(x: nat): int { if x < 0x8000_0000 then x else x - 0x1_0000_0000 }

  /** The bytes before number j are equal, and the bytes there are not. */
  predicate DiffersAt(mem: Mem, p: nat, word: seq<nat>, j: nat) {
    && j < |word| && Mapped(mem, p, j + 1) && mem[p + j] % 256 != word[j] % 256
    && forall a :: 0 <= a < j ==> mem[p + a] % 256 == word[a] % 256
  }

  lemma {:induction false} FirstDiffAt(mem: Mem, p: nat, word: seq<nat>, j: nat)
    requires DiffersAt(mem, p, word, j)
    ensures FirstDiff(mem, p, word) == Some(Extended(Diff8(word[j], mem[p + j])))
    decreases j
  {
    DiffZero(word[0], mem[p]);
    hide Diff8, Extended;
    if j > 0 {
      assert mem[p + 0] % 256 == word[0] % 256;
      forall a | 0 <= a < j - 1
        ensures mem[p + 1 + a] % 256 == word[1..][a] % 256
      {
        assert mem[p + (a + 1)] % 256 == word[a + 1] % 256;
      }
      FirstDiffAt(mem, p + 1, word[1..], j - 1);
    }
  }

  /** The difference of two bytes, as a number. */
  function Gap(c: int, v: int): int { c % 256 - v % 256 }

  lemma SignOfDiff(c: nat, v: nat)
    requires c % 256 != v % 256
    ensures var (x, d) := (Signed32(Extended(Diff8(c, v))), Gap(c, v));
      && x != 0 && (x == d <==> -128 <= d <= 127) && ((x < 0 <==> d < 0) <==> -128 <= d <= 127)
  {
  }

  /** Only zero-ness is kept. At the first different byte, the value of the chain has the sign of literal minus
      memory if and only if that difference fits a signed byte, and is then the difference itself; else it has the
      opposite sign. The same goes for memory minus literal and the older chain, which subtracts that way round
      when the literal is the second argument. */
  lemma SignIsKeptIff(mem: Mem, p: nat, word: seq<nat>, j: nat)
    requires DiffersAt(mem, p, word, j)
    ensures var d := Gap(word[j], mem[p + j]);
      && FirstDiff(mem, p, word).Some?
      && var x := Signed32(FirstDiff(mem, p, word).value);
         x != 0 && ((x < 0 <==> d < 0) <==> -128 <= d <= 127) && (x == d <==> -128 <= d <= 127)
    ensures var d := Gap(mem[p + j], word[j]);
      && FirstDiffReversed(mem, p, word).Some?
      && var x := Signed32(FirstDiffReversed(mem, p, word).value);
         x != 0 && ((x < 0 <==> d < 0) <==> -128 <= d <= 127) && (x == d <==> -128 <= d <= 127)
  {
    FirstDiffAt(mem, p, word, j);
    FirstDiffReversedAt(mem, p, word, j);
    SignOfDiff(word[j], mem[p + j]);
    SignOfDiff(mem[p + j], word[j]);
    hide *;
  }

  /** The first difference with the operands of the subtraction the other way round. */
  function FirstDiffReversed(mem: Mem, p: nat, word: seq<nat>): Option<nat>
    decreases |word|
  {
    if word == [] then Some(0)
    else if p !in mem then None
    else
      var d := Diff8(mem[p], word[0]);
      if d == 0 then FirstDiffReversed(mem, p + 1, word[1..]) else Some(Extended(d))
  }

  lemma {:induction false} FirstDiffReversedAt(mem: Mem, p: nat, word: seq<nat>, j: nat)
    requires DiffersAt(mem, p, word, j)
    ensures FirstDiffReversed(mem, p, word) == Some(Extended(Diff8(mem[p + j], word[j])))
    decreases j
  {
    DiffZero(mem[p], word[0]);
    hide Diff8, Extended;
    if j > 0 {
      assert mem[p + 0] % 256 == word[0] % 256;
      forall a | 0 <= a < j - 1
        ensures mem[p + 1 + a] % 256 == word[1..][a] % 256
      {
        assert mem[p + (a + 1)] % 256 == word[a + 1] % 256;
      }
      FirstDiffReversedAt(mem, p + 1, word[1..], j - 1);
    }
  }

  /** Both chains read the same bytes and agree on zero. */
  lemma {:induction false} ReversedAgrees(mem: Mem, p: nat, word: seq<nat>)
    ensures FirstDiffReversed(mem, p, word).Some? <==> FirstDiff(mem, p, word).Some?
    ensures FirstDiff(mem, p, word).Some? ==>
      (FirstDiffReversed(mem, p, word).value == 0 <==> FirstDiff(mem, p, word).value == 0)
    decreases |word|
  {
    if word != [] && p in mem {
      DiffZero(word[0], mem[p]);
      DiffZero(mem[p], word[0]);
      hide Diff8, Extended;
      ReversedAgrees(mem, p + 1, word[1..]);
    }
  }

  /** For example, the literal byte 200 is greater than the memory byte 10, yet the value of the chain is negative. */
  lemma SignIsNotKept(mem: Mem)
    requires 0 in mem && mem[0] == 10
    ensures FirstDiff(mem, 0, [200]).Some? && Signed32(FirstDiff(mem, 0, [200]).value) < 0
  {
    SignIsKeptIff(mem, 0, [200], 0);
  }
}
