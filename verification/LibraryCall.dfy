/** The comparison call as the library function it was: where its result is only compared with zero, the chain of
    strcompare-to-unit may take its place whatever other values the function returns. */
module LibraryCall {
  import opened Ir
  import opened Agreement
  import opened Census
  import opened Splice
  import opened StrCompare

  /** A function of the library, as an instruction the passes do not look into. */
  function LibraryInstr(i: Instr, code: nat): Instr
    requires i.CmpCall?
  {
    Op(i.dst, code, [i.base])
  }

  /** Under the given table the function crashes just where the chain does, leaves memory alone, and is zero just
      where the chain is. */
  ghost predicate IsComparison(sem: Sem, code: nat, word: seq<nat>) {
    forall p: nat, mem: Mem :: Compares(Perform(sem, OpCall(code, [p], mem)), mem, FirstDiff(mem, p, word))
  }

  predicate Compares(r: OpResult, mem: Mem, d: Option<nat>) {
    if d.None? then r == OpFault(mem)
    else r.OpOk? && r.mem == mem && r.v < 0x1_0000_0000 && (r.v == 0 <==> d.value == 0)
  }

  /** strcmp or strncmp with a literal: zero exactly for equal strings, with any other values. */
  ghost predicate IsStrcmp(sem: Sem, code: nat, word: seq<nat>) {
    forall p: nat, mem: Mem :: AgreesOn(Perform(sem, OpCall(code, [p], mem)), mem, CStringEqual(mem, p, word))
  }

  predicate AgreesOn(r: OpResult, mem: Mem, equal: Option<bool>) {
    if equal.None? then r == OpFault(mem)
    else r.OpOk? && r.mem == mem && r.v < 0x1_0000_0000 && (r.v == 0 <==> equal.value)
  }

  lemma StrcmpCompares(sem: Sem, code: nat, word: seq<nat>)
    requires NoInnerNul(word) && IsStrcmp(sem, code, word)
    ensures IsComparison(sem, code, word)
  {
    forall p: nat, mem: Mem
      ensures Compares(Perform(sem, OpCall(code, [p], mem)), mem, FirstDiff(mem, p, word))
    {
      assert AgreesOn(Perform(sem, OpCall(code, [p], mem)), mem, CStringEqual(mem, p, word));
      ZeroIffStrcmp(mem, p, word);
    }
  }

  // ----- names that are only compared with zero -----------------------------------------------------

  predicate Free(o: Operand, r: Reg) { o != Use(r) }

  predicate AllFree(os: seq<Operand>, r: Reg) { forall j :: 0 <= j < |os| ==> Free(os[j], r) }

  predicate IsZeroTest(i: Instr, r: Reg) {
    i.Icmp? && IsEquality(i.pred) && i.w == 32 && i.a == Use(r) && i.b == Const(0)
  }

  predicate InstrFree(i: Instr, r: Reg) {
    match i
    case Icmp(_, _, _, a, b, _) => Free(a, r) && Free(b, r)
    case LShr(_, _, a, _) => Free(a, r)
    case Trunc(_, _, a) => Free(a, r)
    case Select(_, c, a, b) => Free(c, r) && Free(a, r) && Free(b, r)
    case Load8(_, a, _) => Free(a, r)
    case Sub8(_, a, b) => Free(a, r) && Free(b, r)
    case SExt8(_, a) => Free(a, r)
    case CmpCall(_, a, _) => Free(a, r)
    case Op(_, _, args) => AllFree(args, r)
    case Bump(_) => true
  }

  predicate TermFree(t: Term, r: Reg) {
    match t
    case Br(_) => true
    case CondBr(c, _, _) => Free(c, r)
    case Multi(_, _, args, _) => AllFree(args, r)
    case Ret(v) => Free(v, r)
    case Unreachable => true
  }

  predicate IncsFree(inc: seq<Inc>, r: Reg) { forall j :: 0 <= j < |inc| ==> Free(inc[j].v, r) }

  /** Nothing is done with the value but comparing it with zero. */
  predicate BlockTestsOnly(b: Block, r: Reg) {
    && (forall j :: 0 <= j < |b.phis| ==> IncsFree(b.phis[j].inc, r))
    && (forall j :: 0 <= j < |b.body| ==> InstrFree(b.body[j], r) || IsZeroTest(b.body[j], r))
    && TermFree(b.term, r)
  }

  predicate OnlyZeroTested(f: Fn, r: Reg) { forall b :: 0 <= b < |f.blocks| ==> BlockTestsOnly(f.blocks[b], r) }

  // ----- states that differ in such a value ------------------------------------------------------

  predicate Near(x: nat, y: nat) { x == y || (x < 0x1_0000_0000 && y < 0x1_0000_0000 && (x == 0 <==> y == 0)) }

  ghost predicate EnvKin(e: Env, e': Env, r: Reg) {
    Near(Get(e, r), Get(e', r)) && forall q: Reg :: q != r ==> Get(e, q) == Get(e', q)
  }

  ghost predicate Kin(s: St, t: St, r: Reg) {
    s.mem == t.mem && s.ctr == t.ctr && s.work == t.work && EnvKin(s.env, t.env, r)
  }

  ghost predicate KinExec(x: Exec, y: Exec, r: Reg) { x.Ok? == y.Ok? && Kin(x.st, y.st, r) }

  lemma SetKin(s: St, t: St, r: Reg, q: Reg, v: nat, v': nat)
    requires Kin(s, t, r) && (v == v' || (q == r && Near(v, v')))
    ensures Kin(Set(s, q, v), Set(t, q, v'), r)
  {
    var e, e' := s.env[q := v], t.env[q := v'];
    forall x: Reg
      ensures Get(e, x) == (if x == q then v else Get(s.env, x)) && Get(e', x) == if x == q then v' else Get(t.env, x)
    {
    }
  }

  lemma EvalsKin(os: seq<Operand>, e: Env, e': Env, r: Reg)
    requires EnvKin(e, e', r) && AllFree(os, r)
    ensures Evals(os, e) == Evals(os, e')
  {
    forall j | 0 <= j < |os|
      ensures Eval(os[j], e) == Eval(os[j], e')
    {
      assert Free(os[j], r);
    }
  }

  lemma Power32()
    ensures Pow2(32) == 0x1_0000_0000
  {
    assert Pow2(8) == 256;
    assert Pow2(16) == 256 * Pow2(8);
    assert Pow2(24) == 256 * Pow2(16);
    assert Pow2(32) == 256 * Pow2(24);
  }

  lemma FreeKin(sem: Sem, i: Instr, s: St, t: St, r: Reg)
    requires Kin(s, t, r) && InstrFree(i, r)
    ensures KinExec(ExecInstr(sem, i, s), ExecInstr(sem, i, t), r)
  {
    hide CmpCost, Cmp, StandardMagic, Low, Shifted, Diff8, Extended, FirstDiff, Perform;
    match i
    case Icmp(dst, p, w, a, b, _) =>
      var v := Bit(Cmp(p, w, Eval(a, s.env), Eval(b, s.env)));
      SetKin(s, t, r, dst, v, v);
    case LShr(dst, w, a, k) => SetKin(s, t, r, dst, Shifted(w, Eval(a, s.env), k), Shifted(w, Eval(a, s.env), k));
    case Trunc(dst, w, a) => SetKin(s, t, r, dst, Low(w, Eval(a, s.env)), Low(w, Eval(a, s.env)));
    case Select(dst, c, a, b) =>
      var v := if Eval(c, s.env) != 0 then Eval(a, s.env) else Eval(b, s.env);
      SetKin(s, t, r, dst, v, v);
    case Load8(dst, base, off) =>
      var p := Eval(base, s.env) + off;
      if p in s.mem {
        SetKin(s, t, r, dst, s.mem[p] % 256, s.mem[p] % 256);
      }
    case Sub8(dst, a, b) =>
      var v := Diff8(Eval(a, s.env), Eval(b, s.env));
      SetKin(s, t, r, dst, v, v);
    case SExt8(dst, a) => SetKin(s, t, r, dst, Extended(Eval(a, s.env)), Extended(Eval(a, s.env)));
    case CmpCall(dst, base, word) =>
      var d := FirstDiff(s.mem, Eval(base, s.env), word);
      if d.Some? {
        SetKin(s, t, r, dst, d.value, d.value);
      }
    case Op(dst, code, args) =>
      EvalsKin(args, s.env, t.env, r);
      var d := Perform(sem, OpCall(code, Evals(args, s.env), s.mem));
      if d.OpOk? {
        SetKin(s, t, r, dst, d.v, d.v);
      }
    case Bump(_) =>
  }

  // ----- two functions in step -------------------------------------------------------------------

  /** The same instruction, or the library function here and the comparison call there. */
  predicate Paired(i: Instr, j: Instr, r: Reg, code: nat, word: seq<nat>) {
    || (i == j && (InstrFree(j, r) || IsZeroTest(j, r)))
    || (j.CmpCall? && j.dst == r && j.word == word && Free(j.base, r) && i == LibraryInstr(j, code))
  }

  lemma LibraryKin(sem: Sem, j: Instr, s: St, t: St, r: Reg, code: nat, word: seq<nat>)
    requires Kin(s, t, r) && IsComparison(sem, code, word)
    requires j.CmpCall? && j.dst == r && j.word == word && Free(j.base, r)
    ensures KinExec(ExecInstr(sem, LibraryInstr(j, code), s), ExecInstr(sem, j, t), r)
  {
    var p := Eval(j.base, s.env);
    var d, o := FirstDiff(s.mem, p, word), Perform(sem, OpCall(code, [p], s.mem));
    assert Evals([j.base], s.env) == [p];
    assert Compares(o, s.mem, d);
    FirstDiffSmall(s.mem, p, word);
    hide FirstDiff;
    if d.Some? {
      SetKin(s, t, r, r, o.v, d.value);
    }
  }

  lemma {:induction false} FirstDiffSmall(mem: Mem, p: nat, word: seq<nat>)
    ensures FirstDiff(mem, p, word).Some? ==> FirstDiff(mem, p, word).value < 0x1_0000_0000
    decreases |word|
  {
    if word != [] && p in mem {
      FirstDiffSmall(mem, p + 1, word[1..]);
    }
  }

  predicate PairedBody(a: seq<Instr>, b: seq<Instr>, r: Reg, code: nat, word: seq<nat>) {
    |a| == |b| && forall j :: 0 <= j < |a| ==> Paired(a[j], b[j], r, code, word)
  }

  lemma {:induction false} BodyKin(sem: Sem, a: seq<Instr>, b: seq<Instr>, s: St, t: St, r: Reg, code: nat,
                                   word: seq<nat>)
    requires Kin(s, t, r) && PairedBody(a, b, r, code, word) && IsComparison(sem, code, word)
    ensures KinExec(ExecBody(sem, a, s), ExecBody(sem, b, t), r)
    decreases |a|
  {
    if a != [] {
      hide IsComparison, Paired, ExecInstr;
      assert KinExec(ExecInstr(sem, a[0], s), ExecInstr(sem, b[0], t), r) by {
        if a[0] == b[0] {
          if InstrFree(b[0], r) {
            FreeKin(sem, b[0], s, t, r);
          } else {
            assert KinExec(ExecInstr(sem, b[0], s), ExecInstr(sem, b[0], t), r) by {
              var x, y := Get(s.env, r), Get(t.env, r);
              assert StandardMagic(b[0].a, b[0].b, b[0].pred, b[0].w);
              Power32();
              assert Cmp(b[0].pred, 32, x, 0) == Cmp(b[0].pred, 32, y, 0);
              SetKin(s, t, r, b[0].dst, Bit(Cmp(b[0].pred, 32, x, 0)), Bit(Cmp(b[0].pred, 32, y, 0)));
            }
          }
        } else {
          LibraryKin(sem, b[0], s, t, r, code, word);
        }
      }
      var x, y := ExecInstr(sem, a[0], s), ExecInstr(sem, b[0], t);
      if x.Ok? {
        BodyKin(sem, a[1..], b[1..], x.st, y.st, r, code, word);
      }
    }
  }

  lemma {:induction false} PhisKin(phis: seq<Phi>, prev: Option<nat>, o: Env, o': Env, e: Env, e': Env, r: Reg)
    requires EnvKin(o, o', r) && EnvKin(e, e', r) && forall j :: 0 <= j < |phis| ==> IncsFree(phis[j].inc, r)
    ensures EnvKin(EvalPhis(phis, prev, o, e), EvalPhis(phis, prev, o', e'), r)
    decreases |phis|
  {
    if phis != [] {
      PickFree(phis[0].inc, prev, r);
      var v := Eval(Pick(phis[0].inc, prev), o);
      SetKin(St(e, map[], map[], 0), St(e', map[], map[], 0), r, phis[0].dst, v, v);
      PhisKin(phis[1..], prev, o, o', e[phis[0].dst := v], e'[phis[0].dst := v], r);
    }
  }

  lemma {:induction false} PickFree(inc: seq<Inc>, prev: Option<nat>, r: Reg)
    requires IncsFree(inc, r)
    ensures Free(Pick(inc, prev), r)
    decreases |inc|
  {
    if inc != [] {
      PickFree(inc[1..], prev, r);
    }
  }

  ghost predicate KinConfig(c: Config, d: Config, r: Reg) {
    if c.Halt? then d.Halt? && See(c.out) == See(d.out)
    else d.Run? && c.prev == d.prev && c.cur == d.cur && Kin(c.st, d.st, r)
  }

  lemma TermKin(sem: Sem, t: Term, cur: nat, s: St, s': St, tk: multiset<Edge>, tk': multiset<Edge>, r: Reg)
    requires Kin(s, s', r) && TermFree(t, r)
    ensures KinConfig(ExecTerm(sem, t, cur, s, tk), ExecTerm(sem, t, cur, s', tk'), r)
  {
    if t.Multi? {
      EvalsKin(t.args, s.env, s'.env, r);
      var d := Perform(sem, OpCall(t.code, Evals(t.args, s.env), s.mem));
      if d.OpOk? {
        SetKin(s, s', r, t.dst, d.v, d.v);
      }
    }
  }

  /** The functions differ in their bodies only, and there in step. */
  ghost predicate InStep(f: Fn, g: Fn, r: Reg, code: nat, word: seq<nat>) {
    |f.blocks| == |g.blocks| && forall l :: 0 <= l < |f.blocks| ==> BlockInStep(f.blocks[l], g.blocks[l], r, code, word)
  }

  predicate BlockInStep(a: Block, b: Block, r: Reg, code: nat, word: seq<nat>) {
    && a.phis == b.phis && a.term == b.term && PairedBody(a.body, b.body, r, code, word)
    && TermFree(b.term, r) && forall j :: 0 <= j < |b.phis| ==> IncsFree(b.phis[j].inc, r)
  }

  lemma StepKin(sem: Sem, f: Fn, g: Fn, c: Config, d: Config, r: Reg, code: nat, word: seq<nat>)
    requires InStep(f, g, r, code, word) && IsComparison(sem, code, word) && KinConfig(c, d, r)
    ensures KinConfig(Step(sem, f, c), Step(sem, g, d), r)
  {
    hide IsComparison;
    if c.Run? && c.cur < |f.blocks| {
      var a, b := f.blocks[c.cur], g.blocks[c.cur];
      assert BlockInStep(a, b, r, code, word);
      PhisKin(b.phis, c.prev, c.st.env, d.st.env, c.st.env, d.st.env, r);
      var s, t := Enter(a, c.prev, c.st), Enter(b, d.prev, d.st);
      BodyKin(sem, a.body, b.body, s, t, r, code, word);
      var x, y := ExecBody(sem, a.body, s), ExecBody(sem, b.body, t);
      hide ExecBody, EvalPhis, ExecTerm;
      if x.Ok? {
        TermKin(sem, b.term, c.cur, x.st, y.st, c.taken, d.taken, r);
      }
    }
  }

  lemma {:induction false} StepsKin(sem: Sem, f: Fn, g: Fn, c: Config, d: Config, n: nat, r: Reg, code: nat,
                                    word: seq<nat>)
    requires InStep(f, g, r, code, word) && IsComparison(sem, code, word) && KinConfig(c, d, r)
    ensures KinConfig(Steps(sem, f, c, n), Steps(sem, g, d, n), r)
    decreases n
  {
    if n > 0 {
      hide InStep, IsComparison, KinConfig, Step;
      StepKin(sem, f, g, c, d, r, code, word);
      StepsKin(sem, f, g, Step(sem, f, c), Step(sem, g, d), n - 1, r, code, word);
    }
  }

  // ----- the call and the chain ------------------------------------------------------------------

  /** The program before the pass: the call of the library function. */
  function WithLibrary(f: Fn, bb: nat, k: nat, code: nat): Fn
    requires CallAt(f, bb, k)
  {
    var b := f.blocks[bb];
    f.(blocks := f.blocks[bb := b.(body := b.body[k := LibraryInstr(b.body[k], code)])])
  }

  /** Main result: if the result of a comparison with a literal is only compared with zero, the chain may take the
      place of the library function, whatever values that returns for different strings. */
  lemma ChainReplacesLibrary(sem: Sem, f: Fn, bb: nat, k: nat, code: nat, st: St, o: Seen)
    requires CallAt(f, bb, k) && Good(f) && OnlyZeroTested(f, f.blocks[bb].body[k].dst)
    requires IsComparison(sem, code, f.blocks[bb].body[k].word)
    ensures Yields(sem, WithLibrary(f, bb, k, code), Init(st), o) <==>
            Yields(sem, Apply(f, ChainCut(f, bb, k)), Init(st), o)
  {
    var i, g := f.blocks[bb].body[k], WithLibrary(f, bb, k, code);
    ChainPreserves(f, bb, k);
    assert Yields(sem, f, Init(st), o) <==> Yields(sem, Apply(f, ChainCut(f, bb, k)), Init(st), o);
    assert InStep(WithLibrary(f, bb, k, code), f, f.blocks[bb].body[k].dst, code, f.blocks[bb].body[k].word) by {
      var i, g := f.blocks[bb].body[k], WithLibrary(f, bb, k, code);
      forall l | 0 <= l < |f.blocks|
        ensures BlockInStep(g.blocks[l], f.blocks[l], i.dst, code, i.word)
      {
        assert BlockTestsOnly(f.blocks[l], i.dst);
      }
    }
    hide Apply, ChainCut, InStep, IsComparison, OnlyZeroTested, Steps, Good;
    SameEnds(sem, g, f, st, o, i.dst, code, i.word);
  }

  lemma SameEnds(sem: Sem, f: Fn, g: Fn, st: St, o: Seen, r: Reg, code: nat, word: seq<nat>)
    requires InStep(f, g, r, code, word) && IsComparison(sem, code, word)
    ensures Yields(sem, f, Init(st), o) <==> Yields(sem, g, Init(st), o)
  {
    hide InStep, IsComparison, Steps;
    forall n: nat
      ensures EndsIn(sem, f, Init(st), n, o) <==> EndsIn(sem, g, Init(st), n, o)
    {
      StepsKin(sem, f, g, Init(st), Init(st), n, r, code, word);
    }
  }
}
