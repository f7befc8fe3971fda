/** Replacing one instruction by a piece of control flow.

    All block-splitting passes have the same shape: the block `bb` is cut at instruction `k`, new
    instructions and a new terminator end the head, fresh blocks compute the value, and a phi at
    the start of the tail takes the place of the cut instruction.  This module defines that
    surgery and proves once and for all that it preserves behaviour, phis and name ranges, from
    conditions on the inserted piece alone. */
module Splice {
  import opened Ir
  import opened Agreement

  /** `left` and `right` are the inserted blocks numbered before and after the tail. */
  datatype Cut = Cut(bb: nat, k: nat, pre: seq<Instr>, term: Term,
                     left: seq<Block>, right: seq<Block>, inc: seq<Inc>, next: nat)

  predicate At(f: Fn, bb: nat, k: nat) {
    bb < |f.blocks| && k < |f.blocks[bb].body| && !f.blocks[bb].body[k].Bump?
  }

  function Tail(f: Fn, c: Cut): nat { |f.blocks| + |c.left| }

  function RenameIncs(inc: seq<Inc>, from: nat, to: nat): (r: seq<Inc>)
    ensures |r| == |inc|
    ensures forall i :: 0 <= i < |inc| ==> r[i] == if inc[i].from == from then Inc(to, inc[i].v) else inc[i]
  {
    if inc == [] then []
    else [if inc[0].from == from then Inc(to, inc[0].v) else inc[0]] + RenameIncs(inc[1..], from, to)
  }

  function RenamePhis(phis: seq<Phi>, from: nat, to: nat): (r: seq<Phi>)
    ensures |r| == |phis|
    ensures forall i :: 0 <= i < |phis| ==> r[i] == Phi(phis[i].dst, RenameIncs(phis[i].inc, from, to))
  {
    if phis == [] then []
    else [Phi(phis[0].dst, RenameIncs(phis[0].inc, from, to))] + RenamePhis(phis[1..], from, to)
  }

  /** The edges out of `from` now leave from `to`: the phis of the targets follow. */
  function Redirect(blocks: seq<Block>, dests: seq<nat>, from: nat, to: nat): (r: seq<Block>)
    ensures |r| == |blocks|
    ensures forall s :: 0 <= s < |blocks| ==>
      r[s] == if s in dests then blocks[s].(phis := RenamePhis(blocks[s].phis, from, to)) else blocks[s]
  {
    seq(|blocks|, s requires 0 <= s < |blocks| =>
      if s in dests then blocks[s].(phis := RenamePhis(blocks[s].phis, from, to)) else blocks[s])
  }

  function Apply(f: Fn, c: Cut): (g: Fn)
    requires At(f, c.bb, c.k)
    ensures |g.blocks| == |f.blocks| + |c.left| + 1 + |c.right|
  {
    var b := f.blocks[c.bb];
    var moved := Redirect(f.blocks, Succs(b.term), c.bb, Tail(f, c));
    var head := Block(moved[c.bb].phis, b.body[..c.k] + c.pre, c.term);
    var tail := Block([Phi(b.body[c.k].dst, c.inc)], b.body[c.k + 1..], b.term);
    Fn(moved[c.bb := head] + c.left + [tail] + c.right, c.next)
  }

  lemma ApplyBlocks(f: Fn, c: Cut)
    requires At(f, c.bb, c.k)
    ensures var g, b, e := Apply(f, c), f.blocks[c.bb], Tail(f, c);
      && g.next == c.next
      && (forall s :: 0 <= s < |f.blocks| && s != c.bb ==>
            g.blocks[s] == if s in Succs(b.term)
                           then f.blocks[s].(phis := RenamePhis(f.blocks[s].phis, c.bb, e))
                           else f.blocks[s])
      && g.blocks[c.bb] == Block(if c.bb in Succs(b.term) then RenamePhis(b.phis, c.bb, e) else b.phis,
                                 b.body[..c.k] + c.pre, c.term)
      && (forall i :: 0 <= i < |c.left| ==> g.blocks[|f.blocks| + i] == c.left[i])
      && g.blocks[e] == Block([Phi(b.body[c.k].dst, c.inc)], b.body[c.k + 1..], b.term)
      && (forall i :: 0 <= i < |c.right| ==> g.blocks[e + 1 + i] == c.right[i])
  {
  }

  lemma OldBlock(f: Fn, c: Cut, s: nat)
    requires At(f, c.bb, c.k) && s < |f.blocks|
    ensures s < |Apply(f, c).blocks|
    ensures var b := f.blocks[c.bb];
      Apply(f, c).blocks[s] ==
      Block(if s in Succs(b.term) then RenamePhis(f.blocks[s].phis, c.bb, Tail(f, c)) else f.blocks[s].phis,
            if s == c.bb then b.body[..c.k] + c.pre else f.blocks[s].body,
            if s == c.bb then c.term else f.blocks[s].term)
  {
    ApplyBlocks(f, c);
    hide RenamePhis;
  }

  lemma RightBlock(f: Fn, c: Cut, i: nat)
    requires At(f, c.bb, c.k) && i < |c.right|
    ensures Tail(f, c) + 1 + i < |Apply(f, c).blocks| && Apply(f, c).blocks[Tail(f, c) + 1 + i] == c.right[i]
  {
    ApplyBlocks(f, c);
  }

  lemma TailBlock(f: Fn, c: Cut)
    requires At(f, c.bb, c.k)
    ensures Tail(f, c) < |Apply(f, c).blocks|
    ensures var b := f.blocks[c.bb];
      Apply(f, c).blocks[Tail(f, c)] == Block([Phi(b.body[c.k].dst, c.inc)], b.body[c.k + 1..], b.term)
  {
    ApplyBlocks(f, c);
  }

  lemma LeftBlock(f: Fn, c: Cut, i: nat)
    requires At(f, c.bb, c.k) && i < |c.left|
    ensures |f.blocks| + i < |Apply(f, c).blocks| && Apply(f, c).blocks[|f.blocks| + i] == c.left[i]
  {
    ApplyBlocks(f, c);
  }

  // ----- what the inserted piece has to do ---------------------------------------------------

  /** The state after the inserted piece and its phi is the one the cut instruction leaves. */
  ghost predicate Lands(f: Fn, c: Cut, d: Config, x: Exec)
    requires At(f, c.bb, c.k)
  {
    match x
    case Fault(t) => d.Halt? && See(d.out) == See(Crashed(t))
    case Ok(t) =>
      && d.Run? && d.cur == Tail(f, c)
      && Alike(Set(d.st, f.blocks[c.bb].body[c.k].dst, Eval(Pick(c.inc, d.prev), d.st.env)), t, f.next)
  }

  ghost predicate LandsIn(sem: Sem, f: Fn, c: Cut, d: Config, x: Exec, m: nat)
    requires At(f, c.bb, c.k)
  {
    Lands(f, c, Steps(sem, Apply(f, c), d, m), x)
  }

  function Start(sem: Sem, c: Cut, s: St, tk: multiset<Edge>): Config {
    Finish(sem, ExecBody(sem, c.pre, s), c.term, c.bb, tk)
  }

  ghost predicate FaithfulFrom(sem: Sem, f: Fn, c: Cut, s: St, tk: multiset<Edge>)
    requires At(f, c.bb, c.k)
  {
    exists m: nat :: LandsIn(sem, f, c, Start(sem, c, s, tk), ExecInstr(sem, f.blocks[c.bb].body[c.k], s), m)
  }

  /** From every state, the inserted piece does the work of the cut instruction. */
  ghost predicate Faithful(sem: Sem, f: Fn, c: Cut)
    requires At(f, c.bb, c.k)
  {
    forall s: St, tk: multiset<Edge> :: FaithfulFrom(sem, f, c, s, tk)
  }

  ghost predicate Ready(f: Fn, c: Cut) {
    At(f, c.bb, c.k) && Closed(f) && PhisOk(f)
  }

  // ----- phis after the edges out of bb have moved to the tail -----------------------------------

  lemma {:induction false} EntriesRename(inc: seq<Inc>, from: nat, to: nat, l: nat)
    requires from != to
    ensures Entries(RenameIncs(inc, from, to), l) ==
            if l == from then 0 else if l == to then Entries(inc, to) + Entries(inc, from) else Entries(inc, l)
    decreases |inc|
  {
    if inc != [] {
      EntriesRename(inc[1..], from, to, l);
      assert RenameIncs(inc, from, to)[1..] == RenameIncs(inc[1..], from, to);
    }
  }

  lemma {:induction false} PickRename(inc: seq<Inc>, from: nat, to: nat, prev: Option<nat>)
    requires from != to && Entries(inc, to) == 0 && prev != Some(to)
    ensures Pick(RenameIncs(inc, from, to), if prev == Some(from) then Some(to) else prev) == Pick(inc, prev)
    decreases |inc|
  {
    if inc != [] {
      PickRename(inc[1..], from, to, prev);
      assert RenameIncs(inc, from, to)[1..] == RenameIncs(inc[1..], from, to);
    }
  }

  lemma {:induction false} OccurrencesZero(ls: seq<nat>, l: nat)
    ensures Occurrences(ls, l) == 0 <==> l !in ls
    decreases |ls|
  {
    if ls != [] {
      OccurrencesZero(ls[1..], l);
    }
  }

  // ----- simulation --------------------------------------------------------------------------

  function Moved(f: Fn, c: Cut, prev: Option<nat>): Option<nat> {
    if prev == Some(c.bb) then Some(Tail(f, c)) else prev
  }

  ghost predicate FromEdge(f: Fn, prev: Option<nat>, cur: nat) {
    prev.Some? ==> prev.value < |f.blocks| && cur in Succs(f.blocks[prev.value].term)
  }

  ghost predicate Related(f: Fn, c: Cut, x: Config, y: Config) {
    match x
    case Halt(o, _) => y.Halt? && See(y.out) == See(o)
    case Run(prev, cur, st, _) =>
      && y.Run? && y.cur == cur < |f.blocks| && y.prev == Moved(f, c, prev)
      && Alike(st, y.st, f.next) && FromEdge(f, prev, cur)
  }

  lemma EnterRelated(f: Fn, c: Cut, x: Config, y: Config)
    requires Ready(f, c) && Related(f, c, x, y) && x.Run?
    ensures Alike(Enter(f.blocks[x.cur], x.prev, x.st), Enter(Apply(f, c).blocks[x.cur], y.prev, y.st), f.next)
  {
    ApplyBlocks(f, c);
    var phis, phis' := f.blocks[x.cur].phis, Apply(f, c).blocks[x.cur].phis;
    assert BlockBelow(f.blocks[x.cur], f.next);
    forall i | 0 <= i < |phis|
      ensures phis[i].dst == phis'[i].dst && Pick(phis[i].inc, x.prev) == Pick(phis'[i].inc, y.prev)
    {
      assert PhisMatch(f, x.cur);
      var e := Tail(f, c);
      assert Entries(phis[i].inc, e) == EdgeCount(f, e, x.cur) == 0;
      if x.cur in Succs(f.blocks[c.bb].term) {
        PickRename(phis[i].inc, c.bb, e, x.prev);
      }
    }
    PhisAgree(phis, phis', x.prev, y.prev, x.st.env, y.st.env, x.st.env, y.st.env, f.next);
  }

  lemma TwinsRelated(f: Fn, c: Cut, x: Config, y: Config, at: nat)
    requires Ready(f, c) && at < |f.blocks| && Twins(x, y, Moved(f, c, Some(at)), f.next)
    requires x.Run? ==> x.prev == Some(at) && x.cur in Succs(f.blocks[at].term)
    ensures Related(f, c, x, y)
  {
    assert Targets(Succs(f.blocks[at].term), |f.blocks|);
  }

  /** Once the phi of the tail is evaluated, the rest of the cut block runs as before. */
  lemma TailStep(sem: Sem, f: Fn, c: Cut, d: Config, t: St, t': St, tk: multiset<Edge>)
    requires Ready(f, c) && Lands(f, c, d, Ok(t')) && Alike(t, t', f.next)
    ensures var b := f.blocks[c.bb];
      Related(f, c, Finish(sem, ExecBody(sem, b.body[c.k + 1..], t), b.term, c.bb, tk), Step(sem, Apply(f, c), d))
  {
    ApplyBlocks(f, c);
    var b, g, e := f.blocks[c.bb], Apply(f, c), Tail(f, c);
    assert BlockBelow(b, f.next);
    var rest := b.body[c.k + 1..];
    var u := Enter(g.blocks[e], d.prev, d.st);
    assert EvalPhis([Phi(b.body[c.k].dst, c.inc)], d.prev, d.st.env, d.st.env) ==
           d.st.env[b.body[c.k].dst := Eval(Pick(c.inc, d.prev), d.st.env)] by {
      assert [Phi(b.body[c.k].dst, c.inc)][1..] == [];
    }
    assert u == Set(d.st, b.body[c.k].dst, Eval(Pick(c.inc, d.prev), d.st.env));
    BodyAgree(sem, rest, t, u, f.next);
    FinishAgree(sem, ExecBody(sem, rest, t), ExecBody(sem, rest, u), b.term, c.bb, e, tk, d.taken, f.next);
    TwinsRelated(f, c, Finish(sem, ExecBody(sem, rest, t), b.term, c.bb, tk), Step(sem, g, d), c.bb);
  }

  /** More instructions after an execution that may have crashed. */
  function Continue(sem: Sem, x: Exec, body: seq<Instr>): Exec {
    match x
    case Fault(t) => x
    case Ok(t) => ExecBody(sem, body, t)
  }

  /** The inserted piece after an execution that may have crashed. */
  function StartAfter(sem: Sem, c: Cut, x: Exec, tk: multiset<Edge>): Config {
    match x
    case Fault(t) => Halt(Crashed(t), tk)
    case Ok(t) => Start(sem, c, t, tk)
  }

  /** The head of the cut block, up to the cut instruction, in both programs. */
  lemma HeadStep(sem: Sem, f: Fn, c: Cut, x: Config, y: Config) returns (h: Exec, h': Exec)
    requires Ready(f, c) && Related(f, c, x, y) && x.Run? && x.cur == c.bb
    ensures AlikeExec(h, h', f.next)
    ensures var b := f.blocks[c.bb];
      Step(sem, f, x) == Finish(sem, Continue(sem, h, b.body[c.k..]), b.term, c.bb, x.taken)
    ensures Step(sem, Apply(f, c), y) == StartAfter(sem, c, h', y.taken)
  {
    ApplyBlocks(f, c);
    EnterRelated(f, c, x, y);
    var b, g := f.blocks[c.bb], Apply(f, c);
    var s, s' := Enter(b, x.prev, x.st), Enter(g.blocks[c.bb], y.prev, y.st);
    assert BlockBelow(b, f.next);
    var first, rest := b.body[..c.k], b.body[c.k..];
    assert b.body == first + rest;
    BodyAppend(sem, first, rest, s);
    BodyAppend(sem, first, c.pre, s');
    BodyAgree(sem, first, s, s', f.next);
    h, h' := ExecBody(sem, first, s), ExecBody(sem, first, s');
  }

  lemma CutStep(sem: Sem, f: Fn, c: Cut, x: Config, y: Config) returns (m: nat)
    requires Ready(f, c) && Related(f, c, x, y) && x.Run? && x.cur == c.bb && Faithful(sem, f, c)
    ensures m > 0 && Related(f, c, Step(sem, f, x), Steps(sem, Apply(f, c), y, m))
  {
    var b, g := f.blocks[c.bb], Apply(f, c);
    var h, h' := HeadStep(sem, f, c, x, y);
    if h.Fault? {
      m := 1;
      assert Steps(sem, g, y, 1) == Step(sem, g, y);
    } else {
      var i, rest := b.body[c.k], b.body[c.k..];
      assert rest[0] == i && rest[1..] == b.body[c.k + 1..];
      assert BlockBelow(b, f.next) && InstrBelow(i, f.next);
      InstrAgree(sem, i, h.st, h'.st, f.next);
      m := AfterHead(sem, f, c, x, y, ExecInstr(sem, i, h.st), h'.st);
    }
  }

  lemma AfterHead(sem: Sem, f: Fn, c: Cut, x: Config, y: Config, z: Exec, s: St) returns (m: nat)
    requires Ready(f, c) && x.Run? && y.Run? && Faithful(sem, f, c)
    requires AlikeExec(z, ExecInstr(sem, f.blocks[c.bb].body[c.k], s), f.next)
    requires Step(sem, Apply(f, c), y) == Start(sem, c, s, y.taken)
    ensures var b := f.blocks[c.bb];
      m > 0 &&
      Related(f, c, Finish(sem, Continue(sem, z, b.body[c.k + 1..]), b.term, c.bb, x.taken),
              Steps(sem, Apply(f, c), y, m))
  {
    hide Apply, Step, ExecBody, Finish, ExecInstr;
    var g, z' := Apply(f, c), ExecInstr(sem, f.blocks[c.bb].body[c.k], s);
    assert FaithfulFrom(sem, f, c, s, y.taken);
    var n: nat :| LandsIn(sem, f, c, Start(sem, c, s, y.taken), z', n);
    var d := Steps(sem, g, Step(sem, g, y), n);
    assert Lands(f, c, d, z');
    if z.Fault? {
      m := n + 1;
      FinishFault(sem, z, f.blocks[c.bb].term, c.bb, x.taken);
    } else {
      m := n + 2;
      TailStep(sem, f, c, d, z.st, z'.st, x.taken);
      StepsAdd(sem, g, Step(sem, g, y), n, 1);
      assert Steps(sem, g, d, 1) == Step(sem, g, d);
      assert Steps(sem, g, y, m) == Steps(sem, g, Step(sem, g, y), n + 1);
    }
  }

  lemma FinishFault(sem: Sem, z: Exec, t: Term, cur: nat, tk: multiset<Edge>)
    requires z.Fault?
    ensures Finish(sem, z, t, cur, tk) == Halt(Crashed(z.st), tk)
  {
  }

  lemma SimulatedStep(sem: Sem, f: Fn, c: Cut, x: Config, y: Config) returns (m: nat)
    requires Ready(f, c) && Related(f, c, x, y) && x.Run? && Faithful(sem, f, c)
    ensures m > 0 && Related(f, c, Step(sem, f, x), Steps(sem, Apply(f, c), y, m))
  {
    if x.cur == c.bb {
      m := CutStep(sem, f, c, x, y);
    } else {
      assert Related(f, c, Step(sem, f, x), Step(sem, Apply(f, c), y)) by {
        ApplyBlocks(f, c);
        EnterRelated(f, c, x, y);
        var b := f.blocks[x.cur];
        var s, s' := Enter(b, x.prev, x.st), Enter(Apply(f, c).blocks[x.cur], y.prev, y.st);
        assert BlockBelow(b, f.next);
        BodyAgree(sem, b.body, s, s', f.next);
        FinishAgree(sem, ExecBody(sem, b.body, s), ExecBody(sem, b.body, s'), b.term, x.cur, x.cur, x.taken, y.taken,
                    f.next);
        TwinsRelated(f, c, Step(sem, f, x), Step(sem, Apply(f, c), y), x.cur);
      }
      m := 1;
      assert Steps(sem, Apply(f, c), y, 1) == Step(sem, Apply(f, c), y);
    }
  }

  lemma {:induction false} Forward(sem: Sem, f: Fn, c: Cut, x: Config, y: Config, n: nat, o: Seen) returns (m: nat)
    requires Ready(f, c) && Related(f, c, x, y) && Faithful(sem, f, c) && EndsIn(sem, f, x, n, o)
    ensures EndsIn(sem, Apply(f, c), y, m, o)
    decreases n
  {
    hide Apply, Step;
    if x.Halt? {
      HaltedStays(sem, f, x, n);
      m := 0;
    } else {
      var k := SimulatedStep(sem, f, c, x, y);
      assert Steps(sem, f, x, n) == Steps(sem, f, Step(sem, f, x), n - 1);
      var r := Forward(sem, f, c, Step(sem, f, x), Steps(sem, Apply(f, c), y, k), n - 1, o);
      m := k + r;
      StepsAdd(sem, Apply(f, c), y, k, r);
    }
  }

  lemma {:induction false} Backward(sem: Sem, f: Fn, c: Cut, x: Config, y: Config, n: nat, o: Seen) returns (m: nat)
    requires Ready(f, c) && Related(f, c, x, y) && Faithful(sem, f, c) && EndsIn(sem, Apply(f, c), y, n, o)
    ensures EndsIn(sem, f, x, m, o)
    decreases n
  {
    hide Apply, Step;
    var g := Apply(f, c);
    if x.Halt? {
      HaltedStays(sem, g, y, n);
      m := 0;
    } else {
      var k := SimulatedStep(sem, f, c, x, y);
      var y' := Steps(sem, g, y, k);
      if k <= n {
        StepsAdd(sem, g, y, k, n - k);
        var r := Backward(sem, f, c, Step(sem, f, x), y', n - k, o);
        m := r + 1;
      } else {
        StepsAdd(sem, g, y, n, k - n);
        HaltedStays(sem, g, Steps(sem, g, y, n), k - n);
        m := 1;
        assert Steps(sem, f, x, 1) == Step(sem, f, x);
      }
    }
  }

  /** Behaviour is preserved whenever the inserted piece does the work of the cut instruction. */
  lemma CutPreserves(f: Fn, c: Cut)
    requires Ready(f, c) && forall sem: Sem :: Faithful(sem, f, c)
    ensures Equivalent(f, Apply(f, c))
  {
    var g := Apply(f, c);
    forall sem: Sem, st: St, o: Seen
      ensures Yields(sem, f, Init(st), o) <==> Yields(sem, g, Init(st), o)
    {
      assert Faithful(sem, f, c);
      assert Related(f, c, Init(st), Init(st));
      if Yields(sem, f, Init(st), o) {
        var n: nat :| EndsIn(sem, f, Init(st), n, o);
        var m := Forward(sem, f, c, Init(st), Init(st), n, o);
      }
      if Yields(sem, g, Init(st), o) {
        var n: nat :| EndsIn(sem, g, Init(st), n, o);
        var m := Backward(sem, f, c, Init(st), Init(st), n, o);
      }
    }
  }

  // ----- shape ------------------------------------------------------------------------------

  predicate Inside(ls: seq<nat>, lo: nat, hi: nat) {
    forall i :: 0 <= i < |ls| ==> lo <= ls[i] < hi
  }

  predicate FreshBlocks(bs: seq<Block>, lo: nat, hi: nat, next: nat) {
    forall i :: 0 <= i < |bs| ==> bs[i].phis == [] && BlockBelow(bs[i], next) && Inside(Succs(bs[i].term), lo, hi)
  }

  /** The new terminator of block l, for the blocks the cut adds or changes (other than the tail). */
  function NewSuccs(f: Fn, c: Cut, l: nat): seq<nat> {
    if l == c.bb then Succs(c.term)
    else if |f.blocks| <= l < |f.blocks| + |c.left| then Succs(c.left[l - |f.blocks|].term)
    else if Tail(f, c) < l <= Tail(f, c) + |c.right| then Succs(c.right[l - Tail(f, c) - 1].term)
    else []
  }

  /** Names and labels of the inserted piece are fresh, its edges stay inside, and the new phi has
      one entry per edge into the tail. */
  ghost predicate WellShaped(f: Fn, c: Cut) {
    var (lo, hi) := (|f.blocks|, |f.blocks| + |c.left| + 1 + |c.right|);
    && f.next <= c.next
    && BodyBelow(c.pre, c.next) && TermBelow(c.term, c.next) && IncsBelow(c.inc, c.next)
    && Inside(Succs(c.term), lo, hi)
    && FreshBlocks(c.left, lo, hi, c.next) && FreshBlocks(c.right, lo, hi, c.next)
    && forall l: nat :: Entries(c.inc, l) == Occurrences(NewSuccs(f, c, l), Tail(f, c))
  }

  lemma BelowMore(b: Block, n: nat, n': nat)
    requires BlockBelow(b, n) && n <= n'
    ensures BlockBelow(b, n')
  {
    forall i | 0 <= i < |b.phis| ensures IncsBelow(b.phis[i].inc, n') {
      assert IncsBelow(b.phis[i].inc, n);
    }
    forall i | 0 <= i < |b.body| ensures InstrBelow(b.body[i], n') {
      assert InstrBelow(b.body[i], n);
    }
  }

  lemma CutBlockBelow(f: Fn, c: Cut, s: nat)
    requires Ready(f, c) && WellShaped(f, c) && s < |Apply(f, c).blocks|
    ensures BlockBelow(Apply(f, c).blocks[s], c.next)
    ensures Targets(Succs(Apply(f, c).blocks[s].term), |Apply(f, c).blocks|)
  {
    ApplyBlocks(f, c);
    var n, e, b := |f.blocks|, Tail(f, c), f.blocks[c.bb];
    BelowMore(b, f.next, c.next);
    assert Targets(Succs(b.term), n);
    if s < n {
      BelowMore(f.blocks[s], f.next, c.next);
      assert PhisBelow(RenamePhis(f.blocks[s].phis, c.bb, e), c.next) by {
        forall i | 0 <= i < |f.blocks[s].phis| ensures IncsBelow(RenamePhis(f.blocks[s].phis, c.bb, e)[i].inc, c.next) {
          var inc := f.blocks[s].phis[i].inc;
          assert IncsBelow(inc, c.next);
          forall j | 0 <= j < |inc| ensures OperandBelow(RenameIncs(inc, c.bb, e)[j].v, c.next) {
            assert OperandBelow(inc[j].v, c.next);
          }
        }
      }
      assert Targets(Succs(f.blocks[s].term), n);
      if s == c.bb {
        assert BodyBelow(b.body[..c.k], c.next);
      }
    } else if s < e {
      assert Apply(f, c).blocks[s] == c.left[s - n];
    } else if s == e {
      assert InstrBelow(b.body[c.k], c.next);
      assert BodyBelow(b.body[c.k + 1..], c.next);
    } else {
      assert Apply(f, c).blocks[s] == c.right[s - e - 1];
    }
  }

  /** Where the edges of the new function come from. */
  lemma CutEdges(f: Fn, c: Cut, l: nat, s: nat)
    requires Ready(f, c) && WellShaped(f, c) && s < |Apply(f, c).blocks|
    ensures EdgeCount(Apply(f, c), l, s) ==
            if s >= |f.blocks| then Occurrences(NewSuccs(f, c, l), s)
            else if l == c.bb then 0
            else if l == Tail(f, c) then EdgeCount(f, c.bb, s)
            else EdgeCount(f, l, s)
  {
    hide Apply;
    var n, e := |f.blocks|, Tail(f, c);
    if l < |Apply(f, c).blocks| {
      assert Succs(Apply(f, c).blocks[l].term) ==
                if l == Tail(f, c) then Succs(f.blocks[c.bb].term)
                else if l < |f.blocks| && l != c.bb then Succs(f.blocks[l].term)
                else NewSuccs(f, c, l) by {
        hide Apply, WellShaped, Succs, Closed, PhisOk;
        var n, e := |f.blocks|, Tail(f, c);
        if l < n {
          ApplyBlocks(f, c);
        } else if l < e {
          LeftBlock(f, c, l - n);
        } else if l == e {
          TailBlock(f, c);
        } else {
          RightBlock(f, c, l - e - 1);
        }
      }
    }
    if s < n {
      assert Occurrences(NewSuccs(f, c, l), s) == 0 by {
        var (lo, hi) := (|f.blocks|, |f.blocks| + |c.left| + 1 + |c.right|);
        if l == c.bb {
          assert Inside(Succs(c.term), lo, hi);
        } else if |f.blocks| <= l < |f.blocks| + |c.left| {
          assert Inside(Succs(c.left[l - |f.blocks|].term), lo, hi);
        } else if Tail(f, c) < l <= Tail(f, c) + |c.right| {
          assert Inside(Succs(c.right[l - Tail(f, c) - 1].term), lo, hi);
        }
        OccurrencesZero(NewSuccs(f, c, l), s);
      }
    } else {
      if l < n {
        assert Targets(Succs(f.blocks[l].term), n);
        OccurrencesZero(Succs(f.blocks[l].term), s);
      }
      assert Targets(Succs(f.blocks[c.bb].term), n);
      OccurrencesZero(Succs(f.blocks[c.bb].term), s);
    }
  }

  lemma NewBlockPhis(f: Fn, c: Cut, s: nat)
    requires Ready(f, c) && WellShaped(f, c) && s < |Apply(f, c).blocks|
    ensures var phis := Apply(f, c).blocks[s].phis;
      if s < |f.blocks| then
        phis == if s in Succs(f.blocks[c.bb].term) then RenamePhis(f.blocks[s].phis, c.bb,
                                                                   Tail(f, c)) else f.blocks[s].phis
      else if s == Tail(f, c) then phis == [Phi(f.blocks[c.bb].body[c.k].dst, c.inc)]
      else phis == []
  {
    hide Apply, BlockBelow, RenamePhis;
    ApplyBlocks(f, c);
    var n, e := |f.blocks|, Tail(f, c);
    if n <= s < e {
      assert Apply(f, c).blocks[n + (s - n)] == c.left[s - n];
    } else if s > e {
      assert Apply(f, c).blocks[e + 1 + (s - e - 1)] == c.right[s - e - 1];
    }
  }

  /** The surgery keeps names in range, edges inside the function, and one phi entry per edge. */
  lemma CutKeepsShape(f: Fn, c: Cut)
    requires Ready(f, c) && WellShaped(f, c)
    ensures Closed(Apply(f, c)) && PhisOk(Apply(f, c))
  {
    var g := Apply(f, c);
    forall s | 0 <= s < |g.blocks|
      ensures BlockBelow(g.blocks[s], g.next) && Targets(Succs(g.blocks[s].term), |g.blocks|) && PhisMatch(g, s)
    {
      ApplyBlocks(f, c);
      CutBlockBelow(f, c, s);
      assert PhisMatch(Apply(f, c), s) by {
        hide EdgeCount, Entries, WellShaped;
        var n, e, g := |f.blocks|, Tail(f, c), Apply(f, c);
        forall i, l: nat | 0 <= i < |g.blocks[s].phis|
          ensures Entries(g.blocks[s].phis[i].inc, l) == EdgeCount(g, l, s)
        {
          NewBlockPhis(f, c, s);
          if s < n {
            assert var inc := f.blocks[s].phis[i].inc;
                Entries(if s in Succs(f.blocks[c.bb].term) then RenameIncs(inc, c.bb, Tail(f, c)) else inc, l)
                == EdgeCount(Apply(f, c), l, s) by {
              hide Apply;
              var inc, e := f.blocks[s].phis[i].inc, Tail(f, c);
              CutEdges(f, c, l, s);
              assert PhisMatch(f, s);
              assert Entries(inc, l) == EdgeCount(f, l, s);
              assert Entries(inc, e) == EdgeCount(f, e, s);
              assert Entries(inc, c.bb) == EdgeCount(f, c.bb, s);
              EntriesRename(inc, c.bb, e, l);
              OccurrencesZero(Succs(f.blocks[c.bb].term), s);
            }
          } else {
            CutEdges(f, c, l, s);
            assert s == e;
          }
        }
      }
    }
  }
}
