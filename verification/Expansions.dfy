/** The pieces of control flow that compare-to-unit puts in place of one comparison, and that
    select-to-branch puts in place of a select: each does the work of what it replaces. */
module Expansions {
  import opened Ir
  import opened Agreement
  import opened Splice
  import opened Halves

  function New(f: Fn, i: nat): Reg { Reg(f.next + i, false) }

  function Strict(p: Pred): Pred {
    match p
    case UGE => UGT
    case SGE => SGT
    case ULE => ULT
    case SLE => SLT
    case _ => p
  }

  predicate IsInclusive(p: Pred) { p == UGE || p == SGE || p == ULE || p == SLE }
  predicate IsSigned(p: Pred) { p == SGT || p == SLT }
  predicate IsUnsigned(p: Pred) { p == UGT || p == ULT }

  predicate IcmpAt(f: Fn, bb: nat, k: nat) {
    bb < |f.blocks| && k < |f.blocks[bb].body| && f.blocks[bb].body[k].Icmp?
  }

  /** x >= y  as  x > y || x == y */
  function InclusiveCut(f: Fn, bb: nat, k: nat): Cut
    requires IcmpAt(f, bb, k)
  {
    var i := f.blocks[bb].body[k];
    var (end, middle) := (|f.blocks|, |f.blocks| + 1);
    Cut(bb, k,
        [Icmp(New(f, 0), Strict(i.pred), i.w, i.a, i.b, NoMeta)],
        CondBr(Use(New(f, 0)), end, middle),
        [],
        [Block([], [Icmp(New(f, 1), EQ, i.w, i.a, i.b, NoMeta)], Br(end))],
        [Inc(middle, Use(New(f, 1))), Inc(bb, Const(1))],
        f.next + 2)
  }

  /** The top `t` bits of both operands: shift right by k, keep t bits. */
  function TopParts(f: Fn, i: Instr, k: nat, t: Width): seq<Instr>
    requires i.Icmp?
  {
    [LShr(New(f, 0), i.w, i.a, k), Trunc(New(f, 1), t, Use(New(f, 0))),
     LShr(New(f, 2), i.w, i.b, k), Trunc(New(f, 3), t, Use(New(f, 2)))]
  }

  /** Signed comparison: compare the sign bits, then either the signs or the unsigned values. */
  function SignedCut(f: Fn, bb: nat, k: nat): Cut
    requires IcmpAt(f, bb, k)
  {
    var i := f.blocks[bb].body[k];
    var (end, sign, middle) := (|f.blocks|, |f.blocks| + 1, |f.blocks| + 2);
    var (t0, t1) := (Use(New(f, 1)), Use(New(f, 3)));
    Cut(bb, k,
        TopParts(f, i, i.w - 1, 1) + [Icmp(New(f, 4), EQ, 1, t0, t1, NoMeta)],
        CondBr(Use(New(f, 4)), middle, sign),
        [],
        [Block([], [Icmp(New(f, 5), if i.pred == SGT then ULT else UGT, 1, t0, t1, NoMeta)], Br(end)),
         Block([], [Icmp(New(f, 6), if i.pred == SGT then UGT else ULT, i.w, i.a, i.b, NoMeta)], Br(end))],
        [Inc(middle, Use(New(f, 6))), Inc(sign, Use(New(f, 5)))],
        f.next + 7)
  }

  /** Equality by halves; the dictionary word moves to the comparison of the high halves. */
  function EqualityCut(f: Fn, bb: nat, k: nat): Cut
    requires IcmpAt(f, bb, k) && f.blocks[bb].body[k].w > 1
  {
    var i := f.blocks[bb].body[k];
    var (end, low, h) := (|f.blocks|, |f.blocks| + 1, i.w / 2);
    Cut(bb, k,
        TopParts(f, i, h, h) + [Icmp(New(f, 4), i.pred, h, Use(New(f, 1)), Use(New(f, 3)), Meta(true, i.meta.dict))],
        if i.pred == EQ then CondBr(Use(New(f, 4)), low, end) else CondBr(Use(New(f, 4)), end, low),
        [],
        [Block([], [Trunc(New(f, 5), h, i.a), Trunc(New(f, 6), h, i.b),
                    Icmp(New(f, 7), i.pred, h, Use(New(f, 5)), Use(New(f, 6)), Meta(true, []))], Br(end))],
        [Inc(low, Use(New(f, 7))), Inc(bb, Const(if i.pred == EQ then 0 else 1))],
        f.next + 8)
  }

  /** Unsigned order by halves: high parts, inverse of the high parts, low parts. */
  function OrderCut(f: Fn, bb: nat, k: nat): Cut
    requires IcmpAt(f, bb, k) && f.blocks[bb].body[k].w > 1
  {
    var i := f.blocks[bb].body[k];
    var (end, inv, low, h) := (|f.blocks|, |f.blocks| + 1, |f.blocks| + 2, i.w / 2);
    var (hi0, hi1) := (Use(New(f, 1)), Use(New(f, 3)));
    Cut(bb, k,
        TopParts(f, i, h, h) + [Icmp(New(f, 4), i.pred, h, hi0, hi1, NoMeta)],
        CondBr(Use(New(f, 4)), end, inv),
        [],
        [Block([], [Icmp(New(f, 5), if i.pred == UGT then ULT else UGT, h, hi0, hi1, NoMeta)],
               CondBr(Use(New(f, 5)), end, low)),
         Block([], [Trunc(New(f, 6), h, i.a), Trunc(New(f, 7), h, i.b),
                    Icmp(New(f, 8), i.pred, h, Use(New(f, 6)), Use(New(f, 7)), NoMeta)], Br(end))],
        [Inc(low, Use(New(f, 8))), Inc(bb, Const(1)), Inc(inv, Const(0))],
        f.next + 9)
  }

  /** select c a b  as a diamond with two empty arms. */
  function SelectCut(f: Fn, bb: nat, k: nat): Cut
    requires bb < |f.blocks| && k < |f.blocks[bb].body| && f.blocks[bb].body[k].Select?
  {
    var i := f.blocks[bb].body[k];
    var (yes, no, end) := (|f.blocks|, |f.blocks| + 1, |f.blocks| + 2);
    Cut(bb, k, [], CondBr(i.c, yes, no), [Block([], [], Br(end)), Block([], [], Br(end))], [],
        [Inc(yes, i.a), Inc(no, i.b)], f.next)
  }

  // ----- running straight-line pieces --------------------------------------------------------

  lemma ExecFirst(sem: Sem, body: seq<Instr>, s: St, t: St)
    requires body != [] && ExecInstr(sem, body[0], s) == Ok(t)
    ensures ExecBody(sem, body, s) == ExecBody(sem, body[1..], t)
  {
  }

  lemma ExecOne(sem: Sem, i: Instr, s: St, t: St)
    requires ExecInstr(sem, i, s) == Ok(t)
    ensures ExecBody(sem, [i], s) == Ok(t)
  {
    assert [i][1..] == [];
  }

  lemma ExecTwo(sem: Sem, i: Instr, j: Instr, s: St, t: St)
    requires ExecInstr(sem, i, s) == Ok(t)
    ensures ExecBody(sem, [i, j], s) == ExecBody(sem, [j], t)
  {
    assert [i, j][1..] == [j];
  }

  /** One step through a block without phis. */
  lemma BlockStep(sem: Sem, g: Fn, l: nat, b: Block, prev: Option<nat>, s: St, t: St, tk: multiset<Edge>)
    requires l < |g.blocks| && g.blocks[l] == b && b.phis == [] && ExecBody(sem, b.body, s) == Ok(t)
    ensures Step(sem, g, Run(prev, l, s, tk)) == ExecTerm(sem, b.term, l, t, tk)
  {
    assert Enter(b, prev, s) == s;
  }

  lemma OneStep(sem: Sem, g: Fn, d: Config)
    ensures Steps(sem, g, d, 1) == Step(sem, g, d)
    ensures Steps(sem, g, d, 0) == d
  {
    assert Steps(sem, g, d, 1) == Steps(sem, g, Step(sem, g, d), 0);
  }

  lemma PickTwo(a: Inc, b: Inc, prev: nat)
    ensures Pick([a, b], Some(prev)) == if a.from == prev then a.v else if b.from == prev then b.v else Const(0)
  {
    assert [a, b][1..] == [b];
    assert [b][1..] == [];
    assert Pick([b], Some(prev)) == if b.from == prev then b.v else Const(0);
  }

  lemma PickThree(a: Inc, b: Inc, c: Inc, prev: nat)
    ensures Pick([a, b, c], Some(prev)) ==
      if a.from == prev then a.v else if b.from == prev then b.v else if c.from == prev then c.v else Const(0)
  {
    assert [a, b, c][1..] == [b, c];
    PickTwo(b, c, prev);
  }

  /** What is left to check when control has reached the tail. */
  lemma Landed(sem: Sem, f: Fn, c: Cut, d: Config, s: St, m: nat, v: nat)
    requires At(f, c.bb, c.k) && f.blocks[c.bb].body[c.k].dst.id < f.next
    requires ExecInstr(sem, f.blocks[c.bb].body[c.k], s).Ok?
    requires var t := ExecInstr(sem, f.blocks[c.bb].body[c.k], s).st;
      t.env == s.env[f.blocks[c.bb].body[c.k].dst := v] && t.mem == s.mem && t.ctr == s.ctr &&
      var e := Steps(sem, Apply(f, c), d, m);
      && e.Run? && e.cur == Tail(f, c) && e.st.mem == s.mem && e.st.ctr == s.ctr && e.st.work == t.work
      && Agree(e.st.env, s.env, f.next) && Eval(Pick(c.inc, e.prev), e.st.env) == v
    ensures LandsIn(sem, f, c, d, ExecInstr(sem, f.blocks[c.bb].body[c.k], s), m)
  {
    hide Apply;
    var e := Steps(sem, Apply(f, c), d, m);
    SetAgree(e.st.env, s.env, f.blocks[c.bb].body[c.k].dst, v, f.next);
  }

  // ----- select ------------------------------------------------------------------------------

  lemma SelectFaithful(sem: Sem, f: Fn, bb: nat, k: nat)
    requires bb < |f.blocks| && k < |f.blocks[bb].body| && f.blocks[bb].body[k].Select?
    requires f.blocks[bb].body[k].dst.id < f.next
    ensures Faithful(sem, f, SelectCut(f, bb, k))
  {
    forall s: St, tk: multiset<Edge>
      ensures FaithfulFrom(sem, f, SelectCut(f, bb, k), s, tk)
    {
      assert var c := SelectCut(f, bb, k);
          LandsIn(sem, f, c, Start(sem, c, s, tk), ExecInstr(sem, f.blocks[bb].body[k], s), 1) by {
        var c, i, n := SelectCut(f, bb, k), f.blocks[bb].body[k], |f.blocks|;
        var g := Apply(f, c);
        ApplyBlocks(f, c);
        assert g.blocks[n] == c.left[0] && g.blocks[n + 1] == c.left[1];
        hide Apply;
        var d := Start(sem, c, s, tk);
        var l := if Eval(i.c, s.env) != 0 then n else n + 1;
        BlockStep(sem, g, l, Block([], [], Br(n + 2)), Some(bb), s, s, d.taken);
        OneStep(sem, g, d);
        PickTwo(c.inc[0], c.inc[1], l);
        Landed(sem, f, c, d, s, 1, if Eval(i.c, s.env) != 0 then Eval(i.a, s.env) else Eval(i.b, s.env));
      }
    }
  }

  // ----- x >= y ------------------------------------------------------------------------------

  lemma InclusiveMeaning(p: Pred, w: Width, x: nat, y: nat)
    requires IsInclusive(p)
    ensures Cmp(p, w, x, y) <==> Cmp(Strict(p), w, x, y) || Cmp(EQ, w, x, y)
    ensures CmpCost(p, w, x, y) == CmpCost(Strict(p), w, x, y)
            + if Cmp(Strict(p), w, x, y) then 0 else CmpCost(EQ, w, x, y)
  {
  }

  lemma MagicStrict(a: Operand, b: Operand, p: Pred, w: Width)
    requires IsInclusive(p) && !StandardMagic(a, b, p, w)
    ensures !StandardMagic(a, b, Strict(p), w) && !StandardMagic(a, b, EQ, w)
  {
  }

  predicate InclusiveSite(f: Fn, bb: nat, k: nat) {
    IcmpAt(f, bb, k) &&
    var i := f.blocks[bb].body[k];
    InstrBelow(i, f.next) && IsInclusive(i.pred) && !StandardMagic(i.a, i.b, i.pred, i.w)
  }

  /** Executing a comparison that is not standard-magic. */
  function Compared(s: St, i: Instr): St
    requires i.Icmp?
  {
    var (x, y) := (Eval(i.a, s.env), Eval(i.b, s.env));
    Set(s, i.dst, Bit(Cmp(i.pred, i.w, x, y))).(work := s.work + CmpCost(i.pred, i.w, x, y))
  }

  lemma ExecCompared(sem: Sem, i: Instr, s: St)
    requires i.Icmp? && ((i.a.Use? && i.b.Use?) || !StandardMagic(i.a, i.b, i.pred, i.w))
    ensures ExecInstr(sem, i, s) == Ok(Compared(s, i))
  {
  }

  predicate NotMagic(i: Instr)
    requires i.Icmp?
  {
    (i.a.Use? && i.b.Use?) || !StandardMagic(i.a, i.b, i.pred, i.w)
  }

  function Value(i: Instr, e: Env): nat
    requires i.Icmp?
  {
    Bit(Cmp(i.pred, i.w, Eval(i.a, e), Eval(i.b, e)))
  }

  function Cost(i: Instr, e: Env): nat
    requires i.Icmp?
  {
    CmpCost(i.pred, i.w, Eval(i.a, e), Eval(i.b, e))
  }

  /** A comparison with a fresh name changes nothing a program over older names can see. */
  lemma ComparedFacts(s: St, j: Instr, s0: St, n: nat)
    requires j.Icmp? && Agree(s.env, s0.env, n) && n <= j.dst.id
    ensures var t := Compared(s, j);
      && Agree(t.env, s0.env, n) && t.mem == s.mem && t.ctr == s.ctr && t.work == s.work + Cost(j, s.env)
      && Get(t.env, j.dst) == Value(j, s.env)
      && forall r: Reg :: r != j.dst ==> Get(t.env, r) == Get(s.env, r)
  {
    hide Cmp, CmpCost;
  }

  lemma ComparedIs(s: St, j: Instr)
    requires j.Icmp?
    ensures var t := Compared(s, j);
      t.mem == s.mem && t.ctr == s.ctr && t.work == s.work + Cost(j, s.env) && Get(t.env, j.dst) == Value(j, s.env)
  {
    hide Cmp, CmpCost;
  }

  lemma Reflexive(e: Env, n: nat)
    ensures Agree(e, e, n)
  {
  }

  /** The inserted piece ends in state e having done the work of the comparison at the cut. */
  ghost predicate Settles(f: Fn, c: Cut, s: St, e: St)
    requires IcmpAt(f, c.bb, c.k)
  {
    var i := f.blocks[c.bb].body[c.k];
    e.mem == s.mem && e.ctr == s.ctr && e.work == s.work + Cost(i, s.env) && Agree(e.env, s.env, f.next)
  }

  predicate PlainSite(f: Fn, c: Cut) {
    IcmpAt(f, c.bb, c.k) && f.blocks[c.bb].body[c.k].dst.id < f.next && NotMagic(f.blocks[c.bb].body[c.k])
  }

  lemma LandedComparison(sem: Sem, f: Fn, c: Cut, d: Config, s: St, e: St, m: nat)
    requires PlainSite(f, c) && Settles(f, c, s, e)
    requires var t := Steps(sem, Apply(f, c), d, m);
      t.Run? && t.cur == Tail(f, c) && t.st == e
        && Eval(Pick(c.inc, t.prev), e.env) == Value(f.blocks[c.bb].body[c.k], s.env)
    ensures LandsIn(sem, f, c, d, ExecInstr(sem, f.blocks[c.bb].body[c.k], s), m)
  {
    hide Apply, ExecInstr, Cmp, CmpCost, StandardMagic, Pick;
    var i := f.blocks[c.bb].body[c.k];
    ExecCompared(sem, i, s);
    Landed(sem, f, c, d, s, m, Value(i, s.env));
  }

  /** Control moves on to block l with state s. */
  ghost predicate GoesTo(d: Config, prev: nat, l: nat, s: St) {
    d.Run? && d.prev == Some(prev) && d.cur == l && d.st == s
  }

  /** The branch that terminator t takes in environment e leads to block l. */
  predicate Leads(t: Term, e: Env, l: nat) {
    match t
    case Br(x) => x == l
    case CondBr(c, y, n) => l == if Eval(c, e) != 0 then y else n
    case _ => false
  }

  lemma LeadsThere(sem: Sem, t: Term, cur: nat, s: St, tk: multiset<Edge>, l: nat)
    requires Leads(t, s.env, l)
    ensures GoesTo(ExecTerm(sem, t, cur, s, tk), cur, l, s)
  {
  }

  /** A piece that leaves the head straight for the tail. */
  lemma StraightToTail(sem: Sem, f: Fn, c: Cut, s: St, s1: St, tk: multiset<Edge>)
    requires PlainSite(f, c) && Settles(f, c, s, s1) && ExecBody(sem, c.pre, s) == Ok(s1)
    requires Leads(c.term, s1.env, Tail(f, c))
    requires Eval(Pick(c.inc, Some(c.bb)), s1.env) == Value(f.blocks[c.bb].body[c.k], s.env)
    ensures FaithfulFrom(sem, f, c, s, tk)
  {
    hide Apply, ExecBody, ExecTerm, Pick, Settles;
    var d := Start(sem, c, s, tk);
    LeadsThere(sem, c.term, c.bb, s1, tk, Tail(f, c));
    OneStep(sem, Apply(f, c), d);
    LandedComparison(sem, f, c, d, s, s1, 0);
  }

  /** The instructions left in the head lead from one state to the other. */
  ghost predicate HeadRuns(sem: Sem, c: Cut, s: St, s1: St) { ExecBody(sem, c.pre, s) == Ok(s1) }

  /** The inserted block number q runs from s1 to s2 and goes on to block l. */
  ghost predicate Arm(sem: Sem, f: Fn, c: Cut, q: nat, s1: St, s2: St, l: nat) {
    && q < |c.right| && c.right[q].phis == [] && ExecBody(sem, c.right[q].body, s1) == Ok(s2)
    && Leads(c.right[q].term, s2.env, l)
  }

  lemma ArmStep(sem: Sem, f: Fn, c: Cut, q: nat, prev: Option<nat>, s1: St, s2: St, l: nat, tk: multiset<Edge>)
    requires At(f, c.bb, c.k) && Arm(sem, f, c, q, s1, s2, l)
    ensures GoesTo(Step(sem, Apply(f, c), Run(prev, Tail(f, c) + 1 + q, s1, tk)), Tail(f, c) + 1 + q, l, s2)
  {
    RightBlock(f, c, q);
    hide Apply, ExecBody, ExecTerm, Step;
    BlockStep(sem, Apply(f, c), Tail(f, c) + 1 + q, c.right[q], prev, s1, s2, tk);
    LeadsThere(sem, c.right[q].term, Tail(f, c) + 1 + q, s2, tk, l);
  }

  /** A piece that goes through one inserted block. */
  lemma ThroughOneBlock(sem: Sem, f: Fn, c: Cut, s: St, s1: St, q: nat, s2: St, tk: multiset<Edge>)
    requires PlainSite(f, c) && Settles(f, c, s, s2) && HeadRuns(sem, c, s, s1)
    requires Leads(c.term, s1.env, Tail(f, c) + 1 + q)
    requires Arm(sem, f, c, q, s1, s2, Tail(f, c))
    requires Eval(Pick(c.inc, Some(Tail(f, c) + 1 + q)), s2.env) == Value(f.blocks[c.bb].body[c.k], s.env)
    ensures FaithfulFrom(sem, f, c, s, tk)
  {
    hide Apply, ExecBody, ExecTerm, Step, Pick, Settles, Arm;
    var d := Start(sem, c, s, tk);
    LeadsThere(sem, c.term, c.bb, s1, tk, Tail(f, c) + 1 + q);
    ArmStep(sem, f, c, q, d.prev, s1, s2, Tail(f, c), d.taken);
    OneStep(sem, Apply(f, c), d);
    LandedComparison(sem, f, c, d, s, s2, 1);
  }

  /** A piece that goes through two inserted blocks. */
  lemma ThroughTwoBlocks(sem: Sem, f: Fn, c: Cut, s: St, s1: St, q: nat, s2: St, q': nat, s3: St, tk: multiset<Edge>)
    requires PlainSite(f, c) && Settles(f, c, s, s3) && HeadRuns(sem, c, s, s1)
    requires Leads(c.term, s1.env, Tail(f, c) + 1 + q)
    requires Arm(sem, f, c, q, s1, s2, Tail(f, c) + 1 + q') && Arm(sem, f, c, q', s2, s3, Tail(f, c))
    requires Eval(Pick(c.inc, Some(Tail(f, c) + 1 + q')), s3.env) == Value(f.blocks[c.bb].body[c.k], s.env)
    ensures FaithfulFrom(sem, f, c, s, tk)
  {
    hide Apply, ExecBody, ExecTerm, Step, Pick, Settles, Arm;
    var d := Start(sem, c, s, tk);
    LeadsThere(sem, c.term, c.bb, s1, tk, Tail(f, c) + 1 + q);
    ArmStep(sem, f, c, q, d.prev, s1, s2, Tail(f, c) + 1 + q', d.taken);
    var e := Step(sem, Apply(f, c), d);
    ArmStep(sem, f, c, q', e.prev, s2, s3, Tail(f, c), e.taken);
    OneStep(sem, Apply(f, c), Step(sem, Apply(f, c), d));
    assert Steps(sem, Apply(f, c), d, 2) == Steps(sem, Apply(f, c), Step(sem, Apply(f, c), d), 1);
    LandedComparison(sem, f, c, d, s, s3, 2);
  }

  /** The comparison i is decided by a comparison j in the inserted block number q. */
  lemma ThroughComparison(sem: Sem, f: Fn, c: Cut, s: St, s1: St, q: nat, j: Instr, tk: multiset<Edge>)
    requires IcmpAt(f, c.bb, c.k)
    requires var i := f.blocks[c.bb].body[c.k];
      && i.dst.id < f.next && NotMagic(i)
      && j.Icmp? && f.next <= j.dst.id && NotMagic(j)
      && Value(j, s1.env) == Value(i, s.env) && s1.work + Cost(j, s1.env) == s.work + Cost(i, s.env)
    requires ExecBody(sem, c.pre, s) == Ok(s1) && Agree(s1.env, s.env, f.next) && s1.mem == s.mem && s1.ctr == s.ctr
    requires q < |c.right| && c.right[q] == Block([], [j], Br(Tail(f, c)))
    requires Leads(c.term, s1.env, Tail(f, c) + 1 + q)
    requires Pick(c.inc, Some(Tail(f, c) + 1 + q)) == Use(j.dst)
    ensures FaithfulFrom(sem, f, c, s, tk)
  {
    var i := f.blocks[c.bb].body[c.k];
    hide Apply, Cmp, CmpCost, StandardMagic, ExecInstr, ExecBody, Pick, Agree, Get, Compared, Set;
    ExecCompared(sem, j, s1);
    var s2 := Compared(s1, j);
    ExecOne(sem, j, s1, s2);
    ComparedFacts(s1, j, s, f.next);
    ThroughOneBlock(sem, f, c, s, s1, q, s2, tk);
  }

  lemma InclusiveSecond(sem: Sem, f: Fn, bb: nat, k: nat, s: St, s1: St, tk: multiset<Edge>)
    requires InclusiveSite(f, bb, k) && ExecBody(sem, InclusiveCut(f, bb, k).pre, s) == Ok(s1)
    requires Agree(s1.env, s.env, f.next) && s1.mem == s.mem && s1.ctr == s.ctr && Get(s1.env, New(f, 0)) == 0
    requires var i := f.blocks[bb].body[k];
      var (x, y) := (Eval(i.a, s.env), Eval(i.b, s.env));
      && !StandardMagic(i.a, i.b, EQ, i.w) && !Cmp(Strict(i.pred), i.w, x, y)
      && s1.work == s.work + CmpCost(Strict(i.pred), i.w, x, y)
    ensures FaithfulFrom(sem, f, InclusiveCut(f, bb, k), s, tk)
  {
    var c, i, n := InclusiveCut(f, bb, k), f.blocks[bb].body[k], |f.blocks|;
    assert Eval(i.a, s1.env) == Eval(i.a, s.env) && Eval(i.b, s1.env) == Eval(i.b, s.env);
    hide Apply, Cmp, CmpCost, StandardMagic, ExecInstr, ExecBody, Pick, Agree, Get, Strict;
    InclusiveMeaning(i.pred, i.w, Eval(i.a, s.env), Eval(i.b, s.env));
    PickTwo(c.inc[0], c.inc[1], n + 1);
    ThroughComparison(sem, f, c, s, s1, 0, c.right[0].body[0], tk);
  }

  lemma InclusiveFaithful(sem: Sem, f: Fn, bb: nat, k: nat)
    requires InclusiveSite(f, bb, k)
    ensures Faithful(sem, f, InclusiveCut(f, bb, k))
  {
    forall s: St, tk: multiset<Edge>
      ensures FaithfulFrom(sem, f, InclusiveCut(f, bb, k), s, tk)
    {
      assert FaithfulFrom(sem, f, InclusiveCut(f, bb, k), s, tk) by {
        var c, i, n := InclusiveCut(f, bb, k), f.blocks[bb].body[k], |f.blocks|;
        MagicStrict(i.a, i.b, i.pred, i.w);
        hide Apply, Cmp, CmpCost, StandardMagic, ExecInstr, ExecBody, Pick, Agree, Get, Compared, Set;
        var x, y := Eval(i.a, s.env), Eval(i.b, s.env);
        InclusiveMeaning(i.pred, i.w, x, y);
        var strict, eq := c.pre[0], c.right[0].body[0];
        ExecCompared(sem, i, s);
        ExecCompared(sem, strict, s);
        var s1 := Compared(s, strict);
        ExecOne(sem, strict, s, s1);
        assert Agree(s.env, s.env, f.next) by { Reflexive(s.env, f.next); }
        ComparedFacts(s, strict, s, f.next);
        if Cmp(Strict(i.pred), i.w, x, y) {
          PickTwo(c.inc[0], c.inc[1], bb);
          StraightToTail(sem, f, c, s, s1, tk);
        } else {
          InclusiveSecond(sem, f, bb, k, s, s1, tk);
        }
      }
    }
  }

  // ----- the top parts of the operands -------------------------------------------------------

  /** The state after the top parts have been computed. */
  function AfterTop(f: Fn, i: Instr, k: nat, t: Width, s: St): St
    requires i.Icmp?
  {
    var (hx, hy) := (Shifted(i.w, Eval(i.a, s.env), k), Shifted(i.w, Eval(i.b, s.env), k));
    Set(Set(Set(Set(s, New(f, 0), hx), New(f, 1), Low(t, hx)), New(f, 2), hy), New(f, 3), Low(t, hy))
  }

  lemma TopRuns(sem: Sem, f: Fn, i: Instr, k: nat, t: Width, s: St)
    requires i.Icmp? && InstrBelow(i, f.next)
    ensures ExecBody(sem, TopParts(f, i, k, t), s) == Ok(AfterTop(f, i, k, t, s))
  {
    hide Low, Shifted;
    var (hx, hy) := (Shifted(i.w, Eval(i.a, s.env), k), Shifted(i.w, Eval(i.b, s.env), k));
    var s1 := Set(s, New(f, 0), hx);
    var s2 := Set(s1, New(f, 1), Low(t, hx));
    var s3 := Set(s2, New(f, 2), hy);
    var s4 := Set(s3, New(f, 3), Low(t, hy));
    var p := TopParts(f, i, k, t);
    ExecFirst(sem, p, s, s1);
    assert p[1..] == [p[1], p[2], p[3]];
    ExecFirst(sem, p[1..], s1, s2);
    assert p[1..][1..] == [p[2], p[3]];
    assert Eval(i.b, s2.env) == Eval(i.b, s.env);
    ExecTwo(sem, p[2], p[3], s2, s3);
    ExecOne(sem, p[3], s3, s4);
  }

  /** The top parts followed by one comparison of them. */
  lemma TopThenCompare(sem: Sem, f: Fn, i: Instr, k: nat, t: Width, j: Instr, s: St)
    requires i.Icmp? && InstrBelow(i, f.next)
    requires j.Icmp? && j.dst == New(f, 4) && j.a == Use(New(f, 1)) && j.b == Use(New(f, 3))
    ensures var r := AfterTop(f, i, k, t, s);
      && ExecBody(sem, TopParts(f, i, k, t) + [j], s) == Ok(Compared(r, j))
      && Agree(Compared(r, j).env, s.env, f.next)
      && r.mem == s.mem && r.ctr == s.ctr && r.work == s.work
      && Eval(j.a, r.env) == Eval(j.a, Compared(r, j).env) == Low(t, Shifted(i.w, Eval(i.a, s.env), k))
      && Eval(j.b, r.env) == Eval(j.b, Compared(r, j).env) == Low(t, Shifted(i.w, Eval(i.b, s.env), k))
  {
    hide ExecBody, Low, Shifted, Cmp, CmpCost, TopParts;
    TopRuns(sem, f, i, k, t, s);
    var r := AfterTop(f, i, k, t, s);
    ExecCompared(sem, j, r);
    ExecOne(sem, j, r, Compared(r, j));
    BodyAppend(sem, TopParts(f, i, k, t), [j], s);
    hide Compared;
    ComparedFacts(r, j, s, f.next);
  }

  // ----- signed comparisons ------------------------------------------------------------------

  predicate SignedSite(f: Fn, bb: nat, k: nat) {
    IcmpAt(f, bb, k) &&
    var i := f.blocks[bb].body[k];
    InstrBelow(i, f.next) && IsSigned(i.pred) && !StandardMagic(i.a, i.b, i.pred, i.w)
  }

  /** Comparisons of single bits cost nothing, and read the bits themselves. */
  lemma BitCompare(p: Pred, x: nat, y: nat)
    requires p == EQ || p == ULT || p == UGT
    ensures Low(1, x) < 2
    ensures Cmp(p, 1, Low(1, x), Low(1, y)) <==>
      match p case EQ => Low(1, x) == Low(1, y) case ULT => Low(1, x) < Low(1, y) case UGT => Low(1, x) > Low(1, y)
    ensures CmpCost(p, 1, x, y) == 0
  {
    LowIdempotent(1, x);
    LowIdempotent(1, y);
    assert Pow2(1) == 2 * Pow2(0);
  }

  /** A signed comparison in terms of sign bits and the unsigned comparison. */
  lemma SignedMeaning(p: Pred, w: Width, x: nat, y: nat)
    requires IsSigned(p)
    ensures var u := if p == SGT then UGT else ULT;
      && (SignBit(w, x) == SignBit(w, y) ==>
            Cmp(p, w, x, y) == Cmp(u, w, x, y) && CmpCost(p, w, x, y) == CmpCost(u, w, x, y))
      && (SignBit(w, x) != SignBit(w, y) ==>
            Cmp(p, w, x, y) == (if p == SGT then SignBit(w, x) < SignBit(w, y) else SignBit(w, x) > SignBit(w, y)) &&
            CmpCost(p, w, x, y) == 0)
  {
    hide SignBit, Signed, RelCost;
    assert && (Signed(w, x) > Signed(w, y) <==>
              if SignBit(w, x) == SignBit(w, y) then Low(w, x) > Low(w, y) else SignBit(w, x) < SignBit(w, y))
           && (Signed(w, x) < Signed(w, y) <==>
              if SignBit(w, x) == SignBit(w, y) then Low(w, x) < Low(w, y) else SignBit(w, x) > SignBit(w, y)) by {
      SignBitShape(w, x);
      SignBitShape(w, y);
      assert SignBit(w, x) == 0 || SignBit(w, x) == 1;
      assert SignBit(w, y) == 0 || SignBit(w, y) == 1;
    }
  }

  lemma SignedRuns(sem: Sem, f: Fn, bb: nat, k: nat, s: St, tk: multiset<Edge>)
    requires SignedSite(f, bb, k)
    ensures FaithfulFrom(sem, f, SignedCut(f, bb, k), s, tk)
  {
    var c, i, n := SignedCut(f, bb, k), f.blocks[bb].body[k], |f.blocks|;
    hide Apply, Cmp, CmpCost, StandardMagic, ExecInstr, ExecBody, Pick, TopParts, AfterTop, Shifted, Low;
    var j := Icmp(New(f, 4), EQ, 1, Use(New(f, 1)), Use(New(f, 3)), NoMeta);
    TopThenCompare(sem, f, i, i.w - 1, 1, j, s);
    var s1 := Compared(AfterTop(f, i, i.w - 1, 1, s), j);
    var x, y := Eval(i.a, s.env), Eval(i.b, s.env);
    BitCompare(EQ, Shifted(i.w, x, i.w - 1), Shifted(i.w, y, i.w - 1));
    BitCost(EQ, SignBit(i.w, x), SignBit(i.w, y));
    if SignBit(i.w, x) == SignBit(i.w, y) {
      SignsAgree(sem, f, bb, k, s, s1, tk);
    } else {
      SignsDiffer(sem, f, bb, k, s, s1, tk);
    }
  }

  lemma BitCost(p: Pred, x: nat, y: nat)
    requires p == EQ || p == ULT || p == UGT
    ensures CmpCost(p, 1, x, y) == 0
  {
  }

  lemma SignsAgree(sem: Sem, f: Fn, bb: nat, k: nat, s: St, s1: St, tk: multiset<Edge>)
    requires SignedSite(f, bb, k) && ExecBody(sem, SignedCut(f, bb, k).pre, s) == Ok(s1)
    requires Agree(s1.env, s.env, f.next) && s1.mem == s.mem && s1.ctr == s.ctr && s1.work == s.work
    requires Get(s1.env, New(f, 4)) == 1
    requires var i := f.blocks[bb].body[k];
      SignBit(i.w, Eval(i.a, s.env)) == SignBit(i.w, Eval(i.b, s.env))
    ensures FaithfulFrom(sem, f, SignedCut(f, bb, k), s, tk)
  {
    var c, i, n := SignedCut(f, bb, k), f.blocks[bb].body[k], |f.blocks|;
    MagicUnsigned(i.a, i.b, i.pred, i.w);
    assert Eval(i.a, s1.env) == Eval(i.a, s.env) && Eval(i.b, s1.env) == Eval(i.b, s.env);
    hide Apply, Cmp, CmpCost, StandardMagic, ExecInstr, ExecBody, Pick, TopParts, SignBit, Low, Shifted;
    hide RelCost, Signed, Strict, Agree, Get;
    var x, y, j := Eval(i.a, s.env), Eval(i.b, s.env), c.right[1].body[0];
    SignedMeaning(i.pred, i.w, x, y);
    PickTwo(c.inc[0], c.inc[1], n + 2);
    ThroughComparison(sem, f, c, s, s1, 1, j, tk);
  }

  lemma MagicUnsigned(a: Operand, b: Operand, p: Pred, w: Width)
    requires IsSigned(p) && !StandardMagic(a, b, p, w)
    ensures !StandardMagic(a, b, if p == SGT then UGT else ULT, w)
  {
  }

  lemma SignsDiffer(sem: Sem, f: Fn, bb: nat, k: nat, s: St, s1: St, tk: multiset<Edge>)
    requires SignedSite(f, bb, k) && ExecBody(sem, SignedCut(f, bb, k).pre, s) == Ok(s1)
    requires Agree(s1.env, s.env, f.next) && s1.mem == s.mem && s1.ctr == s.ctr && s1.work == s.work
    requires Get(s1.env, New(f, 4)) == 0
    requires var i := f.blocks[bb].body[k];
      var (x, y) := (Eval(i.a, s.env), Eval(i.b, s.env));
      && Get(s1.env, New(f, 1)) == SignBit(i.w, x) && Get(s1.env, New(f, 3)) == SignBit(i.w, y)
      && SignBit(i.w, x) != SignBit(i.w, y)
    ensures FaithfulFrom(sem, f, SignedCut(f, bb, k), s, tk)
  {
    var c, i, n := SignedCut(f, bb, k), f.blocks[bb].body[k], |f.blocks|;
    var x, y, j := Eval(i.a, s.env), Eval(i.b, s.env), c.right[0].body[0];
    BitCompare(j.pred, Shifted(i.w, x, i.w - 1), Shifted(i.w, y, i.w - 1));
    BitCost(j.pred, SignBit(i.w, x), SignBit(i.w, y));
    hide Apply, Cmp, CmpCost, StandardMagic, ExecInstr, ExecBody, Pick, TopParts, Low, Shifted, Agree, Get;
    SignedMeaning(i.pred, i.w, x, y);
    PickTwo(c.inc[0], c.inc[1], n + 1);
    ThroughComparison(sem, f, c, s, s1, 0, j, tk);
  }

  lemma SignedFaithful(sem: Sem, f: Fn, bb: nat, k: nat)
    requires SignedSite(f, bb, k)
    ensures Faithful(sem, f, SignedCut(f, bb, k))
  {
    forall s: St, tk: multiset<Edge>
      ensures FaithfulFrom(sem, f, SignedCut(f, bb, k), s, tk)
    {
      SignedRuns(sem, f, bb, k, s, tk);
    }
  }

  // ----- comparisons by halves ---------------------------------------------------------------

  /** A comparison in terms of its halves: value and cost of equality. */
  lemma EqualityHalves(p: Pred, w: Width, x: nat, y: nat)
    requires IsEquality(p) && ByteMultiple(w) && w > 8
    ensures var h := w / 2;
      var (hx, hy, lx, ly) := (Low(h, Shifted(w, x, h)), Low(h, Shifted(w, y, h)), Low(h, x), Low(h, y));
      && (Cmp(EQ, h, hx, hy) <==> !Cmp(NE, h, hx, hy))
      && Cmp(p, w, x, y) == (if Cmp(EQ, h, hx, hy) then Cmp(p, h, lx, ly) else p == NE)
      && CmpCost(p, w, x, y) == CmpCost(p, h, hx, hy) + if Cmp(EQ, h, hx, hy) then CmpCost(p, h, lx, ly) else 0
  {
    var h := w / 2;
    CompareParts(w, h, x, y);
    SplitAt(w, h, x);
    SplitAt(w, h, y);
    LowIdempotent(h, x);
    LowIdempotent(h, y);
    EqCostLow(h, x, y);
    hide Low, Shifted;
  }

  lemma OrderValue(p: Pred, w: Width, x: nat, y: nat)
    requires IsUnsigned(p) && w % 2 == 0
    ensures var (h, q) := (w / 2, if p == UGT then ULT else UGT);
      var (hx, hy, lx, ly) := (Low(h, Shifted(w, x, h)), Low(h, Shifted(w, y, h)), Low(h, x), Low(h, y));
      Cmp(p, w, x, y) == (Cmp(p, h, hx, hy) || (!Cmp(q, h, hx, hy) && Cmp(p, h, lx, ly)))
  {
    var h := w / 2;
    CompareParts(w, h, x, y);
    SplitAt(w, h, x);
    SplitAt(w, h, y);
    LowIdempotent(h, x);
    LowIdempotent(h, y);
    hide Low, Shifted;
  }

  lemma OrderCost(gt: bool, w: Width, x: nat, y: nat)
    requires ByteMultiple(w) && w > 8
    ensures var h := w / 2;
      var (hx, hy, lx, ly) := (Low(h, Shifted(w, x, h)), Low(h, Shifted(w, y, h)), Low(h, x), Low(h, y));
      && RelCost(gt, w, x, y) == RelCost(gt, h, hx, hy) +
           if Beats(gt, h, hx, hy) then 0
           else RelCost(!gt, h, hx, hy) + if Beats(!gt, h, hx, hy) then 0 else RelCost(gt, h, lx, ly)
  {
    var h := w / 2;
    SplitAt(w, h, x);
    SplitAt(w, h, y);
    RelCostLow(gt, h, x, y);
  }

  /** The same for < and >. */
  lemma OrderHalves(p: Pred, w: Width, x: nat, y: nat)
    requires IsUnsigned(p) && ByteMultiple(w) && w > 8
    ensures var (h, q) := (w / 2, if p == UGT then ULT else UGT);
      var (hx, hy, lx, ly) := (Low(h, Shifted(w, x, h)), Low(h, Shifted(w, y, h)), Low(h, x), Low(h, y));
      && Cmp(p, w, x, y) == (Cmp(p, h, hx, hy) || (!Cmp(q, h, hx, hy) && Cmp(p, h, lx, ly)))
      && CmpCost(p, w, x, y) == CmpCost(p, h, hx, hy) +
           if Cmp(p, h, hx, hy) then 0
           else CmpCost(q, h, hx, hy) + if Cmp(q, h, hx, hy) then 0 else CmpCost(p, h, lx, ly)
  {
    hide RelCost, Low, Shifted;
    OrderValue(p, w, x, y);
    OrderCost(p == UGT, w, x, y);
  }

  /** The low halves of both operands, named from New(q) on. */
  function LowParts(f: Fn, i: Instr, q: nat, h: Width): seq<Instr>
    requires i.Icmp?
  {
    [Trunc(New(f, q), h, i.a), Trunc(New(f, q + 1), h, i.b)]
  }

  function AfterLow(f: Fn, i: Instr, q: nat, h: Width, s: St): St
    requires i.Icmp?
  {
    Set(Set(s, New(f, q), Low(h, Eval(i.a, s.env))), New(f, q + 1), Low(h, Eval(i.b, s.env)))
  }

  lemma LowThenCompare(sem: Sem, f: Fn, i: Instr, q: nat, h: Width, j: Instr, s: St, s0: St)
    requires i.Icmp? && InstrBelow(i, f.next) && Agree(s.env, s0.env, f.next)
    requires j.Icmp? && f.next <= j.dst.id && j.a == Use(New(f, q)) && j.b == Use(New(f, q + 1))
    ensures var r := AfterLow(f, i, q, h, s);
      && ExecBody(sem, LowParts(f, i, q, h) + [j], s) == Ok(Compared(r, j))
      && Agree(Compared(r, j).env, s0.env, f.next)
      && r.mem == s.mem && r.ctr == s.ctr && r.work == s.work
      && Eval(j.a, r.env) == Low(h, Eval(i.a, s0.env)) && Eval(j.b, r.env) == Low(h, Eval(i.b, s0.env))
  {
    hide Low, Cmp, CmpCost;
    var r := AfterLow(f, i, q, h, s);
    var p := LowParts(f, i, q, h);
    var s1 := Set(s, New(f, q), Low(h, Eval(i.a, s.env)));
    assert Eval(i.b, s1.env) == Eval(i.b, s.env);
    ExecTwo(sem, p[0], p[1], s, s1);
    ExecOne(sem, p[1], s1, r);
    ExecCompared(sem, j, r);
    ExecOne(sem, j, r, Compared(r, j));
    BodyAppend(sem, p, [j], s);
    hide Compared;
    ComparedFacts(r, j, s0, f.next);
  }

  predicate HalvingSite(f: Fn, bb: nat, k: nat) {
    IcmpAt(f, bb, k) &&
    var i := f.blocks[bb].body[k];
    InstrBelow(i, f.next) && ByteMultiple(i.w) && i.w > 8 && !StandardMagic(i.a, i.b, i.pred, i.w)
  }

  lemma EqualityRuns(sem: Sem, f: Fn, bb: nat, k: nat, s: St, tk: multiset<Edge>)
    requires HalvingSite(f, bb, k) && IsEquality(f.blocks[bb].body[k].pred)
    ensures FaithfulFrom(sem, f, EqualityCut(f, bb, k), s, tk)
  {
    var c, i := EqualityCut(f, bb, k), f.blocks[bb].body[k];
    var h, x, y := i.w / 2, Eval(i.a, s.env), Eval(i.b, s.env);
    EqualityHalves(i.pred, i.w, x, y);
    hide Apply, Cmp, CmpCost, StandardMagic, ExecInstr, ExecBody, Pick, TopParts, AfterTop, Shifted, Low,
         ByteMultiple, Agree, Get, Compared;
    var j := Icmp(New(f, 4), i.pred, h, Use(New(f, 1)), Use(New(f, 3)), Meta(true, i.meta.dict));
    TopThenCompare(sem, f, i, h, h, j, s);
    var s1 := Compared(AfterTop(f, i, h, h, s), j);
    ComparedIs(AfterTop(f, i, h, h, s), j);
    ExecCompared(sem, i, s);
    if Cmp(EQ, h, Low(h, Shifted(i.w, x, h)), Low(h, Shifted(i.w, y, h))) {
      EqualitySecond(sem, f, bb, k, s, s1, tk);
    } else {
      PickTwo(c.inc[0], c.inc[1], bb);
      StraightToTail(sem, f, c, s, s1, tk);
    }
  }

  lemma EqualitySecond(sem: Sem, f: Fn, bb: nat, k: nat, s: St, s1: St, tk: multiset<Edge>)
    requires HalvingSite(f, bb, k) && IsEquality(f.blocks[bb].body[k].pred)
    requires ExecBody(sem, EqualityCut(f, bb, k).pre, s) == Ok(s1)
    requires Agree(s1.env, s.env, f.next) && s1.mem == s.mem && s1.ctr == s.ctr
    requires var i := f.blocks[bb].body[k];
      var (h, x, y) := (i.w / 2, Eval(i.a, s.env), Eval(i.b, s.env));
      && Get(s1.env, New(f, 4)) == Bit(i.pred == EQ)
      && Value(i, s.env) == Bit(Cmp(i.pred, h, Low(h, x), Low(h, y)))
      && s1.work + CmpCost(i.pred, h, Low(h, x), Low(h, y)) == s.work + Cost(i, s.env)
    ensures FaithfulFrom(sem, f, EqualityCut(f, bb, k), s, tk)
  {
    var c, i, n := EqualityCut(f, bb, k), f.blocks[bb].body[k], |f.blocks|;
    hide Apply, Cmp, CmpCost, StandardMagic, ExecInstr, ExecBody, Pick, TopParts, AfterLow, Low, ByteMultiple, Agree,
         Get, Compared;
    var h := i.w / 2;
    var j := Icmp(New(f, 7), i.pred, h, Use(New(f, 5)), Use(New(f, 6)), Meta(true, []));
    assert c.right[0].body == LowParts(f, i, 5, h) + [j];
    LowThenCompare(sem, f, i, 5, h, j, s1, s);
    var s2 := Compared(AfterLow(f, i, 5, h, s1), j);
    ComparedIs(AfterLow(f, i, 5, h, s1), j);
    ExecCompared(sem, i, s);
    PickTwo(c.inc[0], c.inc[1], n + 1);
    hide LowParts, Bit;
    ThroughOneBlock(sem, f, c, s, s1, 0, s2, tk);
  }

  /** The parts of an order expansion. */
  lemma OrderPieces(f: Fn, bb: nat, k: nat)
    requires IcmpAt(f, bb, k) && f.blocks[bb].body[k].w > 1
    ensures var (c, i, n) := (OrderCut(f, bb, k), f.blocks[bb].body[k], |f.blocks|);
      var h := i.w / 2;
      && c.bb == bb && c.k == k && Tail(f, c) == n && |c.right| == 2
      && c.pre == TopParts(f, i, h, h) + [Icmp(New(f, 4), i.pred, h, Use(New(f, 1)), Use(New(f, 3)), NoMeta)]
      && c.term == CondBr(Use(New(f, 4)), n, n + 1)
      && c.right[0] == Block([], [Icmp(New(f, 5), if i.pred == UGT then ULT else UGT, h,
                                       Use(New(f, 1)), Use(New(f, 3)), NoMeta)],
                             CondBr(Use(New(f, 5)), n, n + 2))
      && c.right[1] == Block([], LowParts(f, i, 6, h)
                             + [Icmp(New(f, 8), i.pred, h, Use(New(f, 6)), Use(New(f, 7)), NoMeta)], Br(n))
    ensures var (c, n) := (OrderCut(f, bb, k), |f.blocks|);
      && Pick(c.inc, Some(bb)) == Const(1) && Pick(c.inc, Some(n + 1)) == Const(0)
         && Pick(c.inc, Some(n + 2)) == Use(New(f, 8))
  {
    var c, i, n := OrderCut(f, bb, k), f.blocks[bb].body[k], |f.blocks|;
    hide Pick;
    PickThree(c.inc[0], c.inc[1], c.inc[2], bb);
    PickThree(c.inc[0], c.inc[1], c.inc[2], n + 1);
    PickThree(c.inc[0], c.inc[1], c.inc[2], n + 2);
    assert c.right[1].body == LowParts(f, i, 6, i.w / 2) + [c.right[1].body[2]];
  }

  lemma OrderRuns(sem: Sem, f: Fn, bb: nat, k: nat, s: St, tk: multiset<Edge>)
    requires HalvingSite(f, bb, k) && IsUnsigned(f.blocks[bb].body[k].pred)
    ensures FaithfulFrom(sem, f, OrderCut(f, bb, k), s, tk)
  {
    var c, i := OrderCut(f, bb, k), f.blocks[bb].body[k];
    var h, x, y := i.w / 2, Eval(i.a, s.env), Eval(i.b, s.env);
    OrderHalves(i.pred, i.w, x, y);
    OrderPieces(f, bb, k);
    hide OrderCut, Apply, Cmp, CmpCost, StandardMagic, ExecInstr, ExecBody, Pick, TopParts, AfterTop, Shifted, Low,
         ByteMultiple, Agree, Get, Compared;
    var j := Icmp(New(f, 4), i.pred, h, Use(New(f, 1)), Use(New(f, 3)), NoMeta);
    TopThenCompare(sem, f, i, h, h, j, s);
    var s1 := Compared(AfterTop(f, i, h, h, s), j);
    ComparedIs(AfterTop(f, i, h, h, s), j);
    ExecCompared(sem, i, s);
    if Cmp(i.pred, h, Low(h, Shifted(i.w, x, h)), Low(h, Shifted(i.w, y, h))) {
      StraightToTail(sem, f, c, s, s1, tk);
    } else {
      OrderSecond(sem, f, bb, k, s, s1, tk);
    }
  }

  lemma OrderSecond(sem: Sem, f: Fn, bb: nat, k: nat, s: St, s1: St, tk: multiset<Edge>)
    requires HalvingSite(f, bb, k) && IsUnsigned(f.blocks[bb].body[k].pred)
    requires HeadRuns(sem, OrderCut(f, bb, k), s, s1)
    requires Agree(s1.env, s.env, f.next) && s1.mem == s.mem && s1.ctr == s.ctr
    requires var i := f.blocks[bb].body[k];
      var (h, x, y) := (i.w / 2, Eval(i.a, s.env), Eval(i.b, s.env));
      var (hx, hy, q) := (Low(h, Shifted(i.w, x, h)), Low(h, Shifted(i.w, y, h)), if i.pred == UGT then ULT else UGT);
      && Get(s1.env, New(f, 4)) == 0 && Get(s1.env, New(f, 1)) == hx && Get(s1.env, New(f, 3)) == hy
      && Value(i, s.env) == Bit(!Cmp(q, h, hx, hy) && Cmp(i.pred, h, Low(h, x), Low(h, y)))
      && s1.work + CmpCost(q, h, hx, hy) + (if Cmp(q, h, hx, hy) then 0 else CmpCost(i.pred, h, Low(h, x), Low(h, y)))
         == s.work + Cost(i, s.env)
    ensures FaithfulFrom(sem, f, OrderCut(f, bb, k), s, tk)
  {
    var i := f.blocks[bb].body[k];
    var s2, beaten := OrderSecondArm(sem, f, bb, k, s, s1);
    hide *;
    if beaten {
      assert FaithfulFrom(sem, f, OrderCut(f, bb, k), s, tk) by {
        var c := OrderCut(f, bb, k);
        hide *;
        OrderTarget(f, bb, k, s1.env);
        OrderStopped(f, bb, k, s, s2);
        ThroughOneBlock(sem, f, c, s, s1, 0, s2, tk);
      }
    } else {
      OrderThird(sem, f, bb, k, s, s1, s2, tk);
    }
  }

  /** The block with the inverse comparison of the high halves. */
  lemma OrderSecondArm(sem: Sem, f: Fn, bb: nat, k: nat, s: St, s1: St) returns (s2: St, beaten: bool)
    requires HalvingSite(f, bb, k) && IsUnsigned(f.blocks[bb].body[k].pred)
    requires Agree(s1.env, s.env, f.next) && s1.mem == s.mem && s1.ctr == s.ctr
    requires var i := f.blocks[bb].body[k];
      var (h, x, y) := (i.w / 2, Eval(i.a, s.env), Eval(i.b, s.env));
      var (hx, hy, q) := (Low(h, Shifted(i.w, x, h)), Low(h, Shifted(i.w, y, h)), if i.pred == UGT then ULT else UGT);
      && Get(s1.env, New(f, 1)) == hx && Get(s1.env, New(f, 3)) == hy
      && Value(i, s.env) == Bit(!Cmp(q, h, hx, hy) && Cmp(i.pred, h, Low(h, x), Low(h, y)))
      && s1.work + CmpCost(q, h, hx, hy) + (if Cmp(q, h, hx, hy) then 0 else CmpCost(i.pred, h, Low(h, x), Low(h, y)))
         == s.work + Cost(i, s.env)
    ensures Agree(s2.env, s.env, f.next) && s2.mem == s.mem && s2.ctr == s.ctr
    ensures var c := OrderCut(f, bb, k); Arm(sem, f, c, 0, s1, s2, if beaten then Tail(f, c) else Tail(f, c) + 1 + 1)
    ensures var i := f.blocks[bb].body[k];
      var (h, x, y) := (i.w / 2, Eval(i.a, s.env), Eval(i.b, s.env));
      if beaten then Value(i, s.env) == 0 && s2.work == s.work + Cost(i, s.env)
      else Value(i, s.env) == Bit(Cmp(i.pred, h, Low(h, x), Low(h, y)))
           && s2.work + CmpCost(i.pred, h, Low(h, x), Low(h, y)) == s.work + Cost(i, s.env)
  {
    var c, i := OrderCut(f, bb, k), f.blocks[bb].body[k];
    OrderPieces(f, bb, k);
    hide OrderCut, Apply, Cmp, CmpCost, StandardMagic, ExecInstr, ExecBody, Pick, TopParts, Shifted, Low,
         ByteMultiple, Agree, Get, Compared;
    var j := c.right[0].body[0];
    ExecCompared(sem, i, s);
    ExecCompared(sem, j, s1);
    s2 := Compared(s1, j);
    ExecOne(sem, j, s1, s2);
    ComparedFacts(s1, j, s, f.next);
    beaten := Get(s2.env, New(f, 5)) != 0;
  }

  lemma OrderStopped(f: Fn, bb: nat, k: nat, s: St, s2: St)
    requires HalvingSite(f, bb, k) && IsUnsigned(f.blocks[bb].body[k].pred)
    requires Agree(s2.env, s.env, f.next) && s2.mem == s.mem && s2.ctr == s.ctr
    requires var i := f.blocks[bb].body[k]; Value(i, s.env) == 0 && s2.work == s.work + Cost(i, s.env)
    ensures var c := OrderCut(f, bb, k);
      && PlainSite(f, c) && Settles(f, c, s, s2)
      && Eval(Pick(c.inc, Some(Tail(f, c) + 1 + 0)), s2.env) == Value(f.blocks[c.bb].body[c.k], s.env)
  {
    OrderPieces(f, bb, k);
    hide Cmp, CmpCost, StandardMagic, Pick, Low, Agree, Get, OrderCut, Arm, Value, Cost;
  }

  /** The block that compares the low halves, from any state that still has the operands. */
  lemma OrderLowArm(sem: Sem, f: Fn, bb: nat, k: nat, s: St, s2: St) returns (s3: St)
    requires HalvingSite(f, bb, k) && IsUnsigned(f.blocks[bb].body[k].pred)
    requires Agree(s2.env, s.env, f.next)
    ensures Arm(sem, f, OrderCut(f, bb, k), 1, s2, s3, |f.blocks|)
    ensures Agree(s3.env, s.env, f.next) && s3.mem == s2.mem && s3.ctr == s2.ctr
    ensures var i := f.blocks[bb].body[k];
      var (h, x, y) := (i.w / 2, Eval(i.a, s.env), Eval(i.b, s.env));
      && Get(s3.env, New(f, 8)) == Bit(Cmp(i.pred, h, Low(h, x), Low(h, y)))
      && s3.work == s2.work + CmpCost(i.pred, h, Low(h, x), Low(h, y))
  {
    var i := f.blocks[bb].body[k];
    OrderPieces(f, bb, k);
    hide Apply, Cmp, CmpCost, StandardMagic, ExecInstr, ExecBody, Pick, TopParts, AfterLow, Low, Shifted, Agree, Get,
         Compared, OrderCut, LowParts;
    var h := i.w / 2;
    var j := Icmp(New(f, 8), i.pred, h, Use(New(f, 6)), Use(New(f, 7)), NoMeta);
    LowThenCompare(sem, f, i, 6, h, j, s2, s);
    s3 := Compared(AfterLow(f, i, 6, h, s2), j);
    ComparedIs(AfterLow(f, i, 6, h, s2), j);
  }

  lemma OrderThird(sem: Sem, f: Fn, bb: nat, k: nat, s: St, s1: St, s2: St, tk: multiset<Edge>)
    requires HalvingSite(f, bb, k) && IsUnsigned(f.blocks[bb].body[k].pred)
    requires var c := OrderCut(f, bb, k);
      HeadRuns(sem, c, s, s1) && Arm(sem, f, c, 0, s1, s2, Tail(f, c) + 1 + 1)
    requires Agree(s2.env, s.env, f.next) && s2.mem == s.mem && s2.ctr == s.ctr
    requires Get(s1.env, New(f, 4)) == 0
    requires var i := f.blocks[bb].body[k];
      var (h, x, y) := (i.w / 2, Eval(i.a, s.env), Eval(i.b, s.env));
      && Value(i, s.env) == Bit(Cmp(i.pred, h, Low(h, x), Low(h, y)))
      && s2.work + CmpCost(i.pred, h, Low(h, x), Low(h, y)) == s.work + Cost(i, s.env)
    ensures FaithfulFrom(sem, f, OrderCut(f, bb, k), s, tk)
  {
    var c := OrderCut(f, bb, k);
    hide *;
    var s3 := OrderThirdState(sem, f, bb, k, s, s2);
    OrderTarget(f, bb, k, s1.env);
    ThroughTwoBlocks(sem, f, c, s, s1, 0, s2, 1, s3, tk);
  }

  /** When the high halves are equal, control goes through both inserted blocks. */
  lemma OrderTarget(f: Fn, bb: nat, k: nat, e: Env)
    requires HalvingSite(f, bb, k) && Get(e, New(f, 4)) == 0
    ensures var c := OrderCut(f, bb, k); Leads(c.term, e, Tail(f, c) + 1 + 0) && Tail(f, c) == |f.blocks|
  {
    OrderPieces(f, bb, k);
    hide OrderCut, Get, Pick;
  }

  lemma OrderThirdState(sem: Sem, f: Fn, bb: nat, k: nat, s: St, s2: St) returns (s3: St)
    requires HalvingSite(f, bb, k) && IsUnsigned(f.blocks[bb].body[k].pred)
    requires Agree(s2.env, s.env, f.next) && s2.mem == s.mem && s2.ctr == s.ctr
    requires var i := f.blocks[bb].body[k];
      var (h, x, y) := (i.w / 2, Eval(i.a, s.env), Eval(i.b, s.env));
      && Value(i, s.env) == Bit(Cmp(i.pred, h, Low(h, x), Low(h, y)))
      && s2.work + CmpCost(i.pred, h, Low(h, x), Low(h, y)) == s.work + Cost(i, s.env)
    ensures var c := OrderCut(f, bb, k);
      && PlainSite(f, c) && Settles(f, c, s, s3) && Arm(sem, f, c, 1, s2, s3, Tail(f, c))
      && Eval(Pick(c.inc, Some(Tail(f, c) + 1 + 1)), s3.env) == Value(f.blocks[c.bb].body[c.k], s.env)
  {
    s3 := OrderLowArm(sem, f, bb, k, s, s2);
    OrderPieces(f, bb, k);
    hide Cmp, CmpCost, StandardMagic, Pick, Low, Agree, Get, OrderCut, Arm, Value, Cost;
  }

  lemma EqualityFaithful(sem: Sem, f: Fn, bb: nat, k: nat)
    requires HalvingSite(f, bb, k) && IsEquality(f.blocks[bb].body[k].pred)
    ensures Faithful(sem, f, EqualityCut(f, bb, k))
  {
    forall s: St, tk: multiset<Edge>
      ensures FaithfulFrom(sem, f, EqualityCut(f, bb, k), s, tk)
    {
      EqualityRuns(sem, f, bb, k, s, tk);
    }
  }

  lemma OrderFaithful(sem: Sem, f: Fn, bb: nat, k: nat)
    requires HalvingSite(f, bb, k) && IsUnsigned(f.blocks[bb].body[k].pred)
    ensures Faithful(sem, f, OrderCut(f, bb, k))
  {
    forall s: St, tk: multiset<Edge>
      ensures FaithfulFrom(sem, f, OrderCut(f, bb, k), s, tk)
    {
      OrderRuns(sem, f, bb, k, s, tk);
    }
  }

  // ----- shape -------------------------------------------------------------------------------

  lemma EntriesTwo(a: Inc, b: Inc, l: nat)
    ensures Entries([a, b], l) == (if a.from == l then 1 else 0) + (if b.from == l then 1 else 0)
  {
    assert [a, b][1..] == [b];
    assert [b][1..] == [];
    assert Entries([b], l) == if b.from == l then 1 else 0;
  }

  lemma OccurrencesTwo(a: nat, b: nat, l: nat)
    ensures Occurrences([a, b], l) == (if a == l then 1 else 0) + (if b == l then 1 else 0)
    ensures Occurrences([a], l) == if a == l then 1 else 0
    ensures Occurrences([], l) == 0
  {
    assert [a, b][1..] == [b];
    assert [b][1..] == [] && [a][1..] == [];
    assert Occurrences([b], l) == if b == l then 1 else 0;
  }

  lemma InclusiveShape(f: Fn, bb: nat, k: nat)
    requires InclusiveSite(f, bb, k)
    ensures WellShaped(f, InclusiveCut(f, bb, k))
  {
    var c, n := InclusiveCut(f, bb, k), |f.blocks|;
    forall l: nat ensures Entries(c.inc, l) == Occurrences(NewSuccs(f, c, l), Tail(f, c)) {
      EntriesTwo(c.inc[0], c.inc[1], l);
      OccurrencesTwo(n, n + 1, n);
    }
  }

  lemma SignedShape(f: Fn, bb: nat, k: nat)
    requires SignedSite(f, bb, k)
    ensures WellShaped(f, SignedCut(f, bb, k))
  {
    var c, n := SignedCut(f, bb, k), |f.blocks|;
    forall l: nat ensures Entries(c.inc, l) == Occurrences(NewSuccs(f, c, l), Tail(f, c)) {
      EntriesTwo(c.inc[0], c.inc[1], l);
      OccurrencesTwo(n + 2, n + 1, n);
      OccurrencesTwo(n, n, n);
    }
  }

  lemma EqualityShape(f: Fn, bb: nat, k: nat)
    requires HalvingSite(f, bb, k) && IsEquality(f.blocks[bb].body[k].pred)
    ensures WellShaped(f, EqualityCut(f, bb, k))
  {
    var c, n := EqualityCut(f, bb, k), |f.blocks|;
    forall l: nat ensures Entries(c.inc, l) == Occurrences(NewSuccs(f, c, l), Tail(f, c)) {
      EntriesTwo(c.inc[0], c.inc[1], l);
      OccurrencesTwo(n + 1, n, n);
      OccurrencesTwo(n, n + 1, n);
    }
  }

  lemma OrderShape(f: Fn, bb: nat, k: nat)
    requires HalvingSite(f, bb, k) && IsUnsigned(f.blocks[bb].body[k].pred)
    ensures WellShaped(f, OrderCut(f, bb, k))
  {
    var c, n := OrderCut(f, bb, k), |f.blocks|;
    forall l: nat ensures Entries(c.inc, l) == Occurrences(NewSuccs(f, c, l), Tail(f, c)) {
      assert [c.inc[0], c.inc[1], c.inc[2]][1..] == [c.inc[1], c.inc[2]];
      EntriesTwo(c.inc[1], c.inc[2], l);
      OccurrencesTwo(n, n + 1, n);
      OccurrencesTwo(n, n + 2, n);
    }
  }
}
