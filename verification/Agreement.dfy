/** Execution does not depend on names a program does not mention: two states that agree on all
    names below `n` stay in step through every instruction that only uses such names. */
module Agreement {
  import opened Ir

  ghost predicate Agree(e: Env, e': Env, n: nat) {
    forall r: Reg :: r.id < n ==> Get(e, r) == Get(e', r)
  }

  ghost predicate Alike(s: St, s': St, n: nat) {
    s.mem == s'.mem && s.ctr == s'.ctr && s.work == s'.work && Agree(s.env, s'.env, n)
  }

  ghost predicate AlikeExec(x: Exec, y: Exec, n: nat) {
    x.Ok? == y.Ok? && Alike(x.st, y.st, n)
  }

  lemma EvalsAgree(os: seq<Operand>, e: Env, e': Env, n: nat)
    requires Agree(e, e', n) && OperandsBelow(os, n)
    ensures Evals(os, e) == Evals(os, e')
  {
    forall i | 0 <= i < |os| ensures Eval(os[i], e) == Eval(os[i], e') {
      assert OperandBelow(os[i], n);
    }
  }

  lemma SetAgree(e: Env, e': Env, r: Reg, v: nat, n: nat)
    requires Agree(e, e', n)
    ensures Agree(e[r := v], e'[r := v], n)
  {
  }

  lemma InstrAgree(sem: Sem, i: Instr, s: St, s': St, n: nat)
    requires Alike(s, s', n) && InstrBelow(i, n)
    ensures AlikeExec(ExecInstr(sem, i, s), ExecInstr(sem, i, s'), n)
  {
    hide Cmp, CmpCost, StandardMagic, Perform, FirstDiff, Shifted, Low, Diff8, Extended;
    if i.Op? {
      EvalsAgree(i.args, s.env, s'.env, n);
    } else if i.Icmp? {
      assert Eval(i.a, s.env) == Eval(i.a, s'.env) && Eval(i.b, s.env) == Eval(i.b, s'.env);
      assert IcmpWork(i, s.env) == IcmpWork(i, s'.env);
    }
    hide IcmpWork, Evals;
  }

  lemma {:induction false} BodyAgree(sem: Sem, body: seq<Instr>, s: St, s': St, n: nat)
    requires Alike(s, s', n) && BodyBelow(body, n)
    ensures AlikeExec(ExecBody(sem, body, s), ExecBody(sem, body, s'), n)
    decreases |body|
  {
    if body != [] {
      assert InstrBelow(body[0], n);
      InstrAgree(sem, body[0], s, s', n);
      var x, y := ExecInstr(sem, body[0], s), ExecInstr(sem, body[0], s');
      if x.Ok? {
        assert BodyBelow(body[1..], n);
        BodyAgree(sem, body[1..], x.st, y.st, n);
      }
    }
  }

  lemma {:induction false} BodyAppend(sem: Sem, a: seq<Instr>, b: seq<Instr>, s: St)
    ensures ExecBody(sem, a + b, s) ==
            match ExecBody(sem, a, s)
            case Fault(t) => Fault(t)
            case Ok(t) => ExecBody(sem, b, t)
    decreases |a|
  {
    if a == [] {
      assert a + b == b;
    } else {
      assert (a + b)[1..] == a[1..] + b;
      match ExecInstr(sem, a[0], s)
      case Fault(_) =>
      case Ok(t) => BodyAppend(sem, a[1..], b, t);
    }
  }

  lemma {:induction false} PickBelow(inc: seq<Inc>, prev: Option<nat>, n: nat)
    requires IncsBelow(inc, n)
    ensures OperandBelow(Pick(inc, prev), n)
    decreases |inc|
  {
    if inc != [] {
      PickBelow(inc[1..], prev, n);
    }
  }

  /** Phis that pick the same operands, read in agreeing states, leave agreeing states. */
  lemma {:induction false} PhisAgree(phis: seq<Phi>, phis': seq<Phi>, prev: Option<nat>, prev': Option<nat>,
                                     e: Env, e': Env, o: Env, o': Env, n: nat)
    requires Agree(e, e', n) && Agree(o, o', n) && PhisBelow(phis, n) && |phis| == |phis'|
    requires forall i :: 0 <= i < |phis| ==>
      phis[i].dst == phis'[i].dst && Pick(phis[i].inc, prev) == Pick(phis'[i].inc, prev')
    ensures Agree(EvalPhis(phis, prev, o, e), EvalPhis(phis', prev', o', e'), n)
    decreases |phis|
  {
    if phis != [] {
      var v, v' := Eval(Pick(phis[0].inc, prev), o), Eval(Pick(phis'[0].inc, prev'), o');
      PickBelow(phis[0].inc, prev, n);
      assert v == v';
      SetAgree(e, e', phis[0].dst, v, n);
      PhisAgree(phis[1..], phis'[1..], prev, prev', e[phis[0].dst := v], e'[phis'[0].dst := v'], o, o', n);
    }
  }

  /** Configurations that differ only in irrelevant names and in the recorded edges. */
  ghost predicate Twins(c: Config, d: Config, prev: Option<nat>, n: nat) {
    match c
    case Halt(o, _) => d.Halt? && See(d.out) == See(o)
    case Run(_, cur, st, _) => d.Run? && d.cur == cur && d.prev == prev && Alike(st, d.st, n)
  }

  lemma FinishAgree(sem: Sem, x: Exec, x': Exec, t: Term, cur: nat, cur': nat,
                    tk: multiset<Edge>, tk': multiset<Edge>, n: nat)
    requires AlikeExec(x, x', n) && TermBelow(t, n)
    ensures Twins(Finish(sem, x, t, cur, tk), Finish(sem, x', t, cur', tk'), Some(cur'), n)
    ensures var c := Finish(sem, x, t, cur, tk);
      c.Run? ==> c.prev == Some(cur) && c.cur in Succs(t)
  {
    if x.Ok? {
      if t.Multi? {
        EvalsAgree(t.args, x.st.env, x'.st.env, n);
      }
    }
  }

  lemma {:induction false} StepsAdd(sem: Sem, f: Fn, c: Config, m: nat, n: nat)
    ensures Steps(sem, f, c, m + n) == Steps(sem, f, Steps(sem, f, c, m), n)
    decreases m
  {
    if m > 0 {
      StepsAdd(sem, f, Step(sem, f, c), m - 1, n);
    }
  }

  lemma {:induction false} HaltedStays(sem: Sem, f: Fn, c: Config, n: nat)
    requires c.Halt?
    ensures Steps(sem, f, c, n) == c
    decreases n
  {
    if n > 0 {
      HaltedStays(sem, f, c, n - 1);
    }
  }

  lemma EquivalentTransitive(f: Fn, g: Fn, h: Fn)
    requires Equivalent(f, g) && Equivalent(g, h)
    ensures Equivalent(f, h)
  {
    forall sem: Sem, st: St, o: Seen
      ensures Yields(sem, f, Init(st), o) <==> Yields(sem, h, Init(st), o)
    {
      assert Yields(sem, f, Init(st), o) <==> Yields(sem, g, Init(st), o);
      assert Yields(sem, g, Init(st), o) <==> Yields(sem, h, Init(st), o);
    }
  }
}
