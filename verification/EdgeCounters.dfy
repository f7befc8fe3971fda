/** Collision-free edge instrumentation: every recorded edge gets its own counter, incremented in the
    target block when the edge is its only way in, and in a new block on the edge otherwise. */
module EdgeCounters {
  import opened Ir
  import opened Agreement
  import opened Splice

  predicate ValidEdge(f: Fn, e: Edge) {
    e.0 < |f.blocks| && e.1 < |Succs(f.blocks[e.0].term)|
  }

  function Dest(f: Fn, e: Edge): nat
    requires ValidEdge(f, e)
  {
    Succs(f.blocks[e.0].term)[e.1]
  }

  /** Number of predecessor edges of block s that leave blocks below n. */
  function PredsBelow(f: Fn, s: nat, n: nat): nat
    requires n <= |f.blocks|
  {
    if n == 0 then 0 else PredsBelow(f, s, n - 1) + Occurrences(Succs(f.blocks[n - 1].term), s)
  }

  function Preds(f: Fn, s: nat): nat { PredsBelow(f, s, |f.blocks|) }

  function SetSucc(t: Term, i: nat, n: nat): (r: Term)
    requires i < |Succs(t)|
    ensures Succs(r) == Succs(t)[i := n]
  {
    match t
    case Br(_) => Br(n)
    case CondBr(c, y, no) => if i == 0 then CondBr(c, n, no) else CondBr(c, y, n)
    case Multi(d, code, args, ls) => Multi(d, code, args, ls[i := n])
  }

  /** The first entry for `from` is now for `to`. */
  function SetFirst(inc: seq<Inc>, from: nat, to: nat): seq<Inc> {
    if inc == [] then []
    else if inc[0].from == from then [Inc(to, inc[0].v)] + inc[1..]
    else [inc[0]] + SetFirst(inc[1..], from, to)
  }

  function SetFirstAll(phis: seq<Phi>, from: nat, to: nat): (r: seq<Phi>)
    ensures |r| == |phis|
    ensures forall i :: 0 <= i < |phis| ==> r[i] == Phi(phis[i].dst, SetFirst(phis[i].inc, from, to))
  {
    if phis == [] then []
    else [Phi(phis[0].dst, SetFirst(phis[0].inc, from, to))] + SetFirstAll(phis[1..], from, to)
  }

  /** Bump in front of the target's body. */
  function InTarget(f: Fn, e: Edge, id: nat): (g: Fn)
    requires ValidEdge(f, e) && Dest(f, e) < |f.blocks|
    ensures |g.blocks| == |f.blocks|
  {
    var (s, b) := (Dest(f, e), f.blocks[Dest(f, e)]);
    f.(blocks := f.blocks[s := b.(body := [Bump(id)] + b.body)])
  }

  /** Block l of the function with a new block on edge e. */
  function Rewired(f: Fn, e: Edge, l: nat): Block
    requires ValidEdge(f, e) && l < |f.blocks|
  {
    var b := f.blocks[l];
    Block(if l == Dest(f, e) then SetFirstAll(b.phis, e.0, |f.blocks|) else b.phis,
          b.body,
          if l == e.0 then SetSucc(b.term, e.1, |f.blocks|) else b.term)
  }

  /** A new block on the edge. */
  function OnEdge(f: Fn, e: Edge, id: nat): (g: Fn)
    requires ValidEdge(f, e)
    ensures |g.blocks| == |f.blocks| + 1
    ensures forall l :: 0 <= l < |f.blocks| ==> g.blocks[l] == Rewired(f, e, l)
    ensures g.blocks[|f.blocks|] == Block([], [Bump(id)], Br(Dest(f, e)))
  {
    f.(blocks := seq(|f.blocks|, l requires 0 <= l < |f.blocks| => Rewired(f, e, l)) +
                 [Block([], [Bump(id)], Br(Dest(f, e)))])
  }

  function Instrument(f: Fn, e: Edge, id: nat): Fn
    requires ValidEdge(f, e) && Dest(f, e) < |f.blocks|
  {
    if Preds(f, Dest(f, e)) == 1 then InTarget(f, e, id) else OnEdge(f, e, id)
  }

  /** Entries of a phi for the same predecessor have the same value. */
  predicate Consistent(inc: seq<Inc>) {
    forall j, k :: 0 <= j < |inc| && 0 <= k < |inc| && inc[j].from == inc[k].from ==> inc[j].v == inc[k].v
  }

  predicate ConsistentPhis(f: Fn) {
    forall b, i :: 0 <= b < |f.blocks| && 0 <= i < |f.blocks[b].phis| ==> Consistent(f.blocks[b].phis[i].inc)
  }

  ghost predicate Sound(f: Fn) { Closed(f) && PhisOk(f) && ConsistentPhis(f) }

  // ----- counting predecessors ---------------------------------------------------------------

  lemma {:induction false} OccurrencesAt(ls: seq<nat>, i: nat, s: nat)
    requires i < |ls| && ls[i] == s
    ensures Occurrences(ls, s) >= 1
    ensures forall j :: 0 <= j < |ls| && j != i && ls[j] == s ==> Occurrences(ls, s) >= 2
    decreases |ls|
  {
    if i == 0 {
      if j :| 0 < j < |ls| && ls[j] == s {
        assert ls[1..][j - 1] == s;
        OccurrencesAt(ls[1..], j - 1, s);
      }
    } else {
      OccurrencesAt(ls[1..], i - 1, s);
      forall j | 0 <= j < |ls| && j != i && ls[j] == s ensures Occurrences(ls, s) >= 2 {
        if j > 0 {
          assert ls[1..][j - 1] == s;
        }
      }
    }
  }

  lemma {:induction false} PredsAtLeast(f: Fn, s: nat, n: nat, l: nat)
    requires l < n <= |f.blocks|
    ensures PredsBelow(f, s, n) >= Occurrences(Succs(f.blocks[l].term), s)
    ensures forall l' :: 0 <= l' < n && l' != l ==>
      PredsBelow(f, s, n) >= Occurrences(Succs(f.blocks[l].term), s) + Occurrences(Succs(f.blocks[l'].term), s)
    decreases n
  {
    if l == n - 1 {
      forall l' | 0 <= l' < n && l' != l
        ensures PredsBelow(f, s, n) >= Occurrences(Succs(f.blocks[l].term), s)
                + Occurrences(Succs(f.blocks[l'].term), s)
      {
        PredsAtLeast(f, s, n - 1, l');
      }
    } else {
      PredsAtLeast(f, s, n - 1, l);
    }
  }

  /** With a single predecessor edge, it is the only edge into the block. */
  lemma OnlyEdge(f: Fn, e: Edge, e': Edge)
    requires ValidEdge(f, e) && ValidEdge(f, e') && Dest(f, e) == Dest(f, e') && Preds(f, Dest(f, e)) == 1
    ensures e == e'
  {
    var s := Dest(f, e);
    OccurrencesAt(Succs(f.blocks[e.0].term), e.1, s);
    OccurrencesAt(Succs(f.blocks[e'.0].term), e'.1, s);
    PredsAtLeast(f, s, |f.blocks|, e.0);
  }

  // ----- states that differ in one counter ---------------------------------------------------

  ghost predicate Ahead(s: St, s': St, k: nat, m: nat) {
    s'.env == s.env && s'.mem == s.mem && s'.work == s.work && CountersAhead(s.ctr, s'.ctr, k, m)
  }

  ghost predicate CountersAhead(c: map<nat, nat>, c': map<nat, nat>, k: nat, m: nat) {
    && Count(c', k) % 256 == (Count(c, k) + m) % 256
    && forall j: nat :: j != k ==> Count(c', j) == Count(c, j)
  }

  ghost predicate AheadExec(x: Exec, y: Exec, k: nat, m: nat) {
    x.Ok? == y.Ok? && Ahead(x.st, y.st, k, m)
  }

  lemma ModPlus(a: nat, b: nat, m: nat)
    requires b % 256 == (a + m) % 256
    ensures ((b + 1) % 256) % 256 == ((a + 1) % 256 + m) % 256
    ensures ((b + 1) % 256) % 256 == (a + (m + 1)) % 256
  {
    SumMod(b, 1);
    SumMod(a + m, 1);
    SumMod(a + 1, m);
    assert a + m + 1 == a + 1 + m;
  }

  lemma SumMod(a: nat, b: nat)
    ensures (a + b) % 256 == (a % 256 + b) % 256
  {
    var q := a / 256;
    assert a == 256 * q + a % 256;
  }

  lemma InstrAhead(sem: Sem, i: Instr, s: St, s': St, k: nat, m: nat)
    requires Ahead(s, s', k, m)
    ensures AheadExec(ExecInstr(sem, i, s), ExecInstr(sem, i, s'), k, m)
  {
    if i.Bump? {
      CounterAhead(sem, i, s, s', k, m);
    } else {
      hide Cmp, IcmpWork, Eval, Evals, Perform, FirstDiff, Shifted, Low, Diff8, Extended, CountersAhead;
    }
  }

  lemma CounterAhead(sem: Sem, i: Instr, s: St, s': St, k: nat, m: nat)
    requires i.Bump? && Ahead(s, s', k, m)
    ensures AheadExec(ExecInstr(sem, i, s), ExecInstr(sem, i, s'), k, m)
  {
    ModPlus(Count(s.ctr, k), Count(s'.ctr, k), m);
    var x, y := ExecInstr(sem, i, s), ExecInstr(sem, i, s');
    forall j: nat | j != k ensures Count(y.st.ctr, j) == Count(x.st.ctr, j) {
      assert Count(s'.ctr, j) == Count(s.ctr, j);
      assert j == i.id || (Count(x.st.ctr, j) == Count(s.ctr, j) && Count(y.st.ctr, j) == Count(s'.ctr, j));
    }
  }

  lemma {:induction false} BodyAhead(sem: Sem, body: seq<Instr>, s: St, s': St, k: nat, m: nat)
    requires Ahead(s, s', k, m)
    ensures AheadExec(ExecBody(sem, body, s), ExecBody(sem, body, s'), k, m)
    decreases |body|
  {
    if body != [] {
      InstrAhead(sem, body[0], s, s', k, m);
      var x, y := ExecInstr(sem, body[0], s), ExecInstr(sem, body[0], s');
      if x.Ok? {
        BodyAhead(sem, body[1..], x.st, y.st, k, m);
      }
    }
  }

  lemma BumpAhead(sem: Sem, s: St, s': St, k: nat, m: nat)
    requires Ahead(s, s', k, m)
    ensures ExecInstr(sem, Bump(k), s').Ok? && Ahead(s, ExecInstr(sem, Bump(k), s').st, k, m + 1)
  {
    ModPlus(Count(s.ctr, k), Count(s'.ctr, k), m);
  }

  /** Same outcome, except that counter k is m ahead. */
  ghost predicate AheadOut(o: Outcome, o': Outcome, k: nat, m: nat) {
    match o
    case Returned(v, s) => o'.Returned? && o'.v == v && Ahead(s, o'.st, k, m)
    case Crashed(s) => o'.Crashed? && Ahead(s, o'.st, k, m)
    case Stuck(s) => o'.Stuck? && Ahead(s, o'.st, k, m)
  }

  /** What a block does at its end: the index of the successor, or the outcome. */
  datatype Exit = Leave(i: nat, st: St) | End(out: Outcome)

  function Exits(sem: Sem, x: Exec, t: Term): (r: Exit)
    ensures r.Leave? ==> r.i < |Succs(t)|
  {
    match x
    case Fault(s) => End(Crashed(s))
    case Ok(s) =>
      match t
      case Br(_) => Leave(0, s)
      case CondBr(c, _, _) => Leave(if Eval(c, s.env) != 0 then 0 else 1, s)
      case Multi(dst, code, args, ls) =>
        (match Perform(sem, OpCall(code, Evals(args, s.env), s.mem))
         case OpFault(m) => End(Crashed(s.(mem := m)))
         case OpOk(v, m, i) =>
           var s' := Set(s, dst, v).(mem := m);
           if i < |ls| then Leave(i, s') else End(Stuck(s')))
      case Ret(v) => End(Returned(Eval(v, s.env), s))
      case Unreachable => End(Stuck(s))
  }

  ghost predicate AheadExit(x: Exit, y: Exit, k: nat, m: nat) {
    match x
    case Leave(i, s) => y.Leave? && y.i == i && Ahead(s, y.st, k, m)
    case End(o) => y.End? && AheadOut(o, y.out, k, m)
  }

  lemma ExitsAhead(sem: Sem, x: Exec, y: Exec, t: Term, k: nat, m: nat)
    requires AheadExec(x, y, k, m)
    ensures AheadExit(Exits(sem, x, t), Exits(sem, y, t), k, m)
  {
  }

  // ----- simulation --------------------------------------------------------------------------

  /** The edges of the original function have been traversed equally often. */
  ghost predicate SameEdges(tk: multiset<Edge>, tk': multiset<Edge>, n: nat) {
    forall e: Edge :: e.0 < n ==> tk'[e] == tk[e]
  }

  /** A block with counter: the increments of k run behind the traversals of e while control is on
      its way into the target. */
  function Pending(f: Fn, e: Edge, cur: nat): nat
    requires ValidEdge(f, e)
  {
    if Preds(f, Dest(f, e)) == 1 && cur == Dest(f, e) then 1 else 0
  }

  ghost predicate Via(f: Fn, e: Edge, prev: Option<nat>, prev': Option<nat>, cur: nat)
    requires ValidEdge(f, e)
  {
    prev' == prev ||
    (Preds(f, Dest(f, e)) != 1 && prev == Some(e.0) && cur == Dest(f, e) && prev' == Some(|f.blocks|))
  }

  ghost predicate Tracks(f: Fn, e: Edge, k: nat, x: Config, y: Config)
    requires ValidEdge(f, e) && Dest(f, e) < |f.blocks|
  {
    && SameEdges(x.taken, y.taken, |f.blocks|)
    && match x
       case Halt(o, tk) => y.Halt? && AheadOut(o, y.out, k, tk[e])
       case Run(prev, cur, st, tk) =>
         && y.Run? && y.cur == cur < |f.blocks| && Via(f, e, prev, y.prev, cur)
         && FromEdge(f, prev, cur) && FromEdge(Instrument(f, e, k), y.prev, cur)
         && Pending(f, e, cur) <= tk[e] && Ahead(st, y.st, k, tk[e] - Pending(f, e, cur))
  }

  lemma {:induction false} SetFirstEntries(inc: seq<Inc>, from: nat, to: nat, l: nat)
    requires from != to
    ensures Entries(SetFirst(inc, from, to), l) ==
            if Entries(inc, from) == 0 then Entries(inc, l)
            else if l == from then Entries(inc, from) - 1
            else if l == to then Entries(inc, to) + 1
            else Entries(inc, l)
    decreases |inc|
  {
    if inc != [] {
      var r := SetFirst(inc, from, to);
      if inc[0].from == from {
        assert r[1..] == inc[1..];
      } else {
        SetFirstEntries(inc[1..], from, to, l);
        assert r[1..] == SetFirst(inc[1..], from, to);
      }
    }
  }

  lemma {:induction false} PickFirst(inc: seq<Inc>, from: nat, to: nat, prev: Option<nat>)
    requires from != to && Entries(inc, to) == 0 && Consistent(inc)
    ensures Entries(inc, from) > 0 ==> Pick(SetFirst(inc, from, to), Some(to)) == Pick(inc, Some(from))
    ensures prev != Some(from) && prev != Some(to) ==> Pick(SetFirst(inc, from, to), prev) == Pick(inc, prev)
    ensures Entries(SetFirst(inc, from, to), from) > 0 ==>
            Pick(SetFirst(inc, from, to), Some(from)) == Pick(inc, Some(from))
    decreases |inc|
  {
    if inc != [] {
      var r := SetFirst(inc, from, to);
      assert Consistent(inc[1..]) by {
        forall j, k | 0 <= j < |inc[1..]| && 0 <= k < |inc[1..]| && inc[1..][j].from == inc[1..][k].from
          ensures inc[1..][j].v == inc[1..][k].v
        {
          assert inc[1..][j] == inc[j + 1] && inc[1..][k] == inc[k + 1];
        }
      }
      if inc[0].from == from {
        assert r[1..] == inc[1..];
        if Entries(inc[1..], from) > 0 {
          assert Pick(inc[1..], Some(from)) == inc[0].v by {
            var j := PickWhere(inc[1..], from);
            assert inc[j + 1] == inc[1..][j];
          }
        }
      } else {
        PickFirst(inc[1..], from, to, prev);
        assert r[1..] == SetFirst(inc[1..], from, to);
      }
    }
  }

  lemma {:induction false} PickWhere(inc: seq<Inc>, from: nat) returns (j: nat)
    requires Entries(inc, from) > 0
    ensures j < |inc| && inc[j].from == from && Pick(inc, Some(from)) == inc[j].v
    decreases |inc|
  {
    if inc[0].from == from {
      j := 0;
    } else {
      var i := PickWhere(inc[1..], from);
      j := i + 1;
    }
  }

  // ----- one step ----------------------------------------------------------------------------

  ghost predicate Instrumentable(f: Fn, e: Edge) {
    Sound(f) && ValidEdge(f, e) && Dest(f, e) < |f.blocks|
  }

  lemma {:induction false} PhisSame(phis: seq<Phi>, phis': seq<Phi>, prev: Option<nat>, prev': Option<nat>, o: Env,
                                    e: Env)
    requires |phis| == |phis'| && forall i :: 0 <= i < |phis| ==>
      phis[i].dst == phis'[i].dst && Pick(phis[i].inc, prev) == Pick(phis'[i].inc, prev')
    ensures EvalPhis(phis, prev, o, e) == EvalPhis(phis', prev', o, e)
    decreases |phis|
  {
    if phis != [] {
      PhisSame(phis[1..], phis'[1..], prev, prev', o, e[phis[0].dst := Eval(Pick(phis[0].inc, prev), o)]);
    }
  }

  lemma EntriesOf(f: Fn, b: nat, i: nat, l: nat)
    requires PhisOk(f) && b < |f.blocks| && i < |f.blocks[b].phis|
    ensures Entries(f.blocks[b].phis[i].inc, l) == EdgeCount(f, l, b)
  {
    assert PhisMatch(f, b);
  }

  function ExitOf(sem: Sem, f: Fn, prev: Option<nat>, cur: nat, st: St): (r: Exit)
    requires cur < |f.blocks|
    ensures r.Leave? ==> r.i < |Succs(f.blocks[cur].term)|
  {
    var b := f.blocks[cur];
    Exits(sem, ExecBody(sem, b.body, Enter(b, prev, st)), b.term)
  }

  lemma StepIs(sem: Sem, f: Fn, prev: Option<nat>, cur: nat, st: St, tk: multiset<Edge>)
    requires cur < |f.blocks|
    ensures Step(sem, f, Run(prev, cur, st, tk)) ==
      match ExitOf(sem, f, prev, cur, st)
      case End(o) => Halt(o, tk)
      case Leave(i, s) => Run(Some(cur), Succs(f.blocks[cur].term)[i], s, tk + multiset{(cur, i)})
  {
    var b := f.blocks[cur];
  }

  /** Both programs leave the block the same way, with counter k in step again. */
  lemma ExitTracks(sem: Sem, f: Fn, e: Edge, k: nat, x: Config, y: Config)
    requires Instrumentable(f, e) && Tracks(f, e, k, x, y) && x.Run? && PhisOk(Instrument(f, e, k))
    ensures AheadExit(ExitOf(sem, f, x.prev, x.cur, x.st), ExitOf(sem, Instrument(f, e, k), y.prev, x.cur, y.st), k,
                      x.taken[e])
  {
    assert EvalPhis(f.blocks[x.cur].phis, x.prev, x.st.env, x.st.env) ==
              EvalPhis(Instrument(f, e, k).blocks[x.cur].phis, y.prev, x.st.env, x.st.env) by {
      var g, n, cur := Instrument(f, e, k), |f.blocks|, x.cur;
      if Preds(f, Dest(f, e)) != 1 && cur == Dest(f, e) {
        forall i | 0 <= i < |f.blocks[cur].phis|
          ensures f.blocks[cur].phis[i].dst == g.blocks[cur].phis[i].dst
          ensures Pick(f.blocks[cur].phis[i].inc, x.prev) == Pick(g.blocks[cur].phis[i].inc, y.prev)
        {
          var inc := f.blocks[cur].phis[i].inc;
          EntriesOf(f, cur, i, n);
          EntriesOf(f, cur, i, e.0);
          EntriesOf(g, cur, i, e.0);
          OccurrencesAt(Succs(f.blocks[e.0].term), e.1, cur);
          assert Consistent(inc);
          PickFirst(inc, e.0, n, x.prev);
          if y.prev == Some(e.0) {
            OccurrencesZero(Succs(g.blocks[e.0].term), cur);
          }
        }
        PhisSame(f.blocks[cur].phis, g.blocks[cur].phis, x.prev, y.prev, x.st.env, x.st.env);
      }
    }
    var g, cur := Instrument(f, e, k), x.cur;
    var b, b' := f.blocks[cur], g.blocks[cur];
    var s, s' := Enter(b, x.prev, x.st), Enter(b', y.prev, y.st);
    assert Ahead(s, s', k, x.taken[e] - Pending(f, e, cur));
    if Pending(f, e, cur) == 1 {
      assert b'.body == [Bump(k)] + b.body && b'.body[0] == Bump(k) && b'.body[1..] == b.body;
      BumpAhead(sem, s, s', k, x.taken[e] - 1);
      BodyAhead(sem, b.body, s, ExecInstr(sem, Bump(k), s').st, k, x.taken[e]);
    } else {
      assert b'.body == b.body;
      BodyAhead(sem, b.body, s, s', k, x.taken[e]);
    }
    var u, u' := ExecBody(sem, b.body, s), ExecBody(sem, b'.body, s');
    ExitsAhead(sem, u, u', b.term, k, x.taken[e]);
    if Preds(f, Dest(f, e)) != 1 && cur == e.0 {
      assert Exits(sem, u', SetSucc(b.term, e.1, (|f.blocks|))) == Exits(sem, u', b.term);
    }
  }

  lemma AfterLeaving(f: Fn, e: Edge, cur: nat, i: nat, tk: multiset<Edge>)
    requires ValidEdge(f, e) && cur < |f.blocks| && i < |Succs(f.blocks[cur].term)|
    ensures var (d, tk2) := (Succs(f.blocks[cur].term)[i], tk + multiset{(cur, i)});
      && tk2[e] == tk[e] + (if (cur, i) == e then 1 else 0)
      && (Preds(f, Dest(f, e)) == 1 ==> Pending(f, e, d) <= tk2[e] && tk2[e] - Pending(f, e, d) == tk[e])
      && (Preds(f, Dest(f, e)) != 1 ==> Pending(f, e, d) == 0)
  {
    var d := Succs(f.blocks[cur].term)[i];
    assert ValidEdge(f, (cur, i)) && Dest(f, (cur, i)) == d;
    if Preds(f, Dest(f, e)) == 1 && d == Dest(f, e) {
      OnlyEdge(f, e, (cur, i));
    }
  }

  lemma SameEdgesPlus(tk: multiset<Edge>, tk': multiset<Edge>, n: nat, e: Edge)
    requires SameEdges(tk, tk', n)
    ensures SameEdges(tk + multiset{e}, tk' + multiset{e}, n)
    ensures forall l: nat :: l >= n ==> SameEdges(tk, tk' + multiset{(l, 0)}, n)
  {
    forall l: nat | l >= n ensures SameEdges(tk, tk' + multiset{(l, 0)}, n) {
      forall d: Edge | d.0 < n ensures (tk' + multiset{(l, 0)})[d] == tk[d] {
      }
    }
  }

  /** A step along an edge that needs no new block. */
  lemma DirectStep(sem: Sem, f: Fn, e: Edge, k: nat, x: Config, y: Config)
    requires Instrumentable(f, e) && Tracks(f, e, k, x, y) && x.Run? && Sound(Instrument(f, e, k))
    requires var r := ExitOf(sem, f, x.prev, x.cur, x.st);
      r.End? || Preds(f, Dest(f, e)) == 1 || (x.cur, r.i) != e
    ensures Tracks(f, e, k, Step(sem, f, x), Step(sem, Instrument(f, e, k), y))
  {
    var g, cur := Instrument(f, e, k), x.cur;
    ExitTracks(sem, f, e, k, x, y);
    StepIs(sem, f, x.prev, cur, x.st, x.taken);
    StepIs(sem, g, y.prev, cur, y.st, y.taken);
    var r := ExitOf(sem, f, x.prev, cur, x.st);
    if r.Leave? {
      var d := Succs(f.blocks[cur].term)[r.i];
      AfterLeaving(f, e, cur, r.i, x.taken);
      SameEdgesPlus(x.taken, y.taken, |f.blocks|, (cur, r.i));
      assert Targets(Succs(f.blocks[cur].term), |f.blocks|);
      assert Succs(g.blocks[cur].term)[r.i] == d;
    }
  }

  /** A step along the instrumented edge when it has a new block. */
  lemma DetourStep(sem: Sem, f: Fn, e: Edge, k: nat, x: Config, y: Config)
    requires Instrumentable(f, e) && Tracks(f, e, k, x, y) && x.Run? && Sound(Instrument(f, e, k))
    requires var r := ExitOf(sem, f, x.prev, x.cur, x.st);
      r.Leave? && Preds(f, Dest(f, e)) != 1 && (x.cur, r.i) == e
    ensures var g := Instrument(f, e, k);
      Tracks(f, e, k, Step(sem, f, x), Step(sem, g, Step(sem, g, y)))
  {
    var g, cur, n := Instrument(f, e, k), x.cur, |f.blocks|;
    ExitTracks(sem, f, e, k, x, y);
    StepIs(sem, f, x.prev, cur, x.st, x.taken);
    StepIs(sem, g, y.prev, cur, y.st, y.taken);
    var r, r' := ExitOf(sem, f, x.prev, cur, x.st), ExitOf(sem, g, y.prev, cur, y.st);
    AfterLeaving(f, e, cur, r.i, x.taken);
    SameEdgesPlus(x.taken, y.taken, n, e);
    SameEdgesPlus(x.taken + multiset{e}, y.taken + multiset{e}, n, e);
    assert Targets(Succs(f.blocks[cur].term), n);
    BumpAhead(sem, r.st, r'.st, k, x.taken[e]);
    var s2 := ExecInstr(sem, Bump(k), r'.st).st;
    var b := g.blocks[n];
    assert b == Block([], [Bump(k)], Br(Dest(f, e))) && b.body[1..] == [];
    assert Step(sem, g, y) == Run(Some(cur), n, r'.st, y.taken + multiset{e});
    assert ExecBody(sem, b.body, Enter(b, Some(cur), r'.st)) == Ok(s2);
    assert Step(sem, g, Step(sem, g, y)) == Run(Some(n), Dest(f, e), s2, y.taken + multiset{e} + multiset{(n, 0)});
  }

  // ----- the function stays well-formed ------------------------------------------------------

  lemma {:induction false} OccurrencesUpdate(ls: seq<nat>, i: nat, x: nat, s: nat)
    requires i < |ls|
    ensures Occurrences(ls[i := x], s) + (if ls[i] == s then 1 else 0) == Occurrences(ls, s) + (if x == s then 1 else 0)
    decreases |ls|
  {
    if i == 0 {
      assert ls[0 := x][1..] == ls[1..];
    } else {
      assert ls[i := x][1..] == ls[1..][i - 1 := x];
      OccurrencesUpdate(ls[1..], i - 1, x, s);
    }
  }

  /** The edges after a new block has been put on edge e. */
  lemma OnEdgeCount(f: Fn, e: Edge, k: nat, l: nat, s: nat)
    requires Closed(f) && ValidEdge(f, e) && s <= |f.blocks|
    ensures var (n, d) := (|f.blocks|, Dest(f, e));
      EdgeCount(OnEdge(f, e, k), l, s) ==
        if l == n then (if s == d then 1 else 0)
        else if l == e.0 && s == d then EdgeCount(f, l, s) - 1
        else if l == e.0 && s == n then 1
        else EdgeCount(f, l, s)
  {
    var n, d := |f.blocks|, Dest(f, e);
    if l == n {
      assert OnEdge(f, e, k).blocks[n].term == Br(d) && Succs(Br(d)) == [d] && [d][1..] == [];
      assert Occurrences([], s) == 0;
    } else if l < n {
      assert OnEdge(f, e, k).blocks[l] == Rewired(f, e, l);
      assert Targets(Succs(f.blocks[e.0].term), n);
      if l == e.0 {
        OccurrencesUpdate(Succs(f.blocks[l].term), e.1, n, s);
        OccurrencesZero(Succs(f.blocks[l].term), n);
      }
    }
  }

  lemma SetFirstBelow(inc: seq<Inc>, from: nat, to: nat, n: nat)
    requires IncsBelow(inc, n)
    ensures IncsBelow(SetFirst(inc, from, to), n)
    decreases |inc|
  {
    if inc != [] && inc[0].from != from {
      assert IncsBelow(inc[1..], n);
      SetFirstBelow(inc[1..], from, to, n);
    }
  }

  lemma {:induction false} SetFirstShape(inc: seq<Inc>, from: nat, to: nat)
    ensures var r := SetFirst(inc, from, to);
      |r| == |inc| && forall j :: 0 <= j < |inc| ==>
        r[j].v == inc[j].v && (r[j].from == inc[j].from || (inc[j].from == from && r[j].from == to))
    decreases |inc|
  {
    if inc != [] {
      SetFirstShape(inc[1..], from, to);
    }
  }

  lemma {:induction false} NoEntryFor(inc: seq<Inc>, to: nat, j: nat)
    requires Entries(inc, to) == 0 && j < |inc|
    ensures inc[j].from != to
    decreases |inc|
  {
    if j > 0 {
      NoEntryFor(inc[1..], to, j - 1);
    }
  }

  lemma {:induction false} ChangedOnce(inc: seq<Inc>, from: nat, to: nat, j: nat, k: nat)
    requires j < |inc| && k < |inc| && j != k && Entries(inc, to) == 0 && |SetFirst(inc, from, to)| == |inc|
    ensures !(SetFirst(inc, from, to)[j].from == to && SetFirst(inc, from, to)[k].from == to)
    decreases |inc|
  {
    NoEntryFor(inc, to, j);
    NoEntryFor(inc, to, k);
    if inc[0].from != from && j > 0 && k > 0 {
      ChangedOnce(inc[1..], from, to, j - 1, k - 1);
    }
  }

  lemma OnEdgeBlock(f: Fn, e: Edge, k: nat, b: nat)
    requires Instrumentable(f, e) && b <= |f.blocks|
    ensures var g := OnEdge(f, e, k);
      && BlockBelow(g.blocks[b], g.next) && Targets(Succs(g.blocks[b].term), |g.blocks|)
      && forall i :: 0 <= i < |g.blocks[b].phis| ==> Consistent(g.blocks[b].phis[i].inc)
  {
    var g, d, n := OnEdge(f, e, k), Dest(f, e), |f.blocks|;
    assert Targets(Succs(f.blocks[e.0].term), n);
    if b < n {
      assert BlockBelow(f.blocks[b], f.next) && Targets(Succs(f.blocks[b].term), n);
      if b == d {
        forall i | 0 <= i < |g.blocks[b].phis|
          ensures IncsBelow(g.blocks[b].phis[i].inc, g.next) && Consistent(g.blocks[b].phis[i].inc)
        {
          var inc := f.blocks[b].phis[i].inc;
          assert IncsBelow(inc, f.next) && Consistent(inc);
          SetFirstBelow(inc, e.0, n, f.next);
          EntriesOf(f, b, i, n);
          assert Consistent(SetFirst(inc, e.0, n)) by {
            var r := SetFirst(inc, e.0, n);
            SetFirstShape(inc, e.0, n);
            forall j, k | 0 <= j < |r| && 0 <= k < |r| && r[j].from == r[k].from ensures r[j].v == r[k].v {
              if r[j].from == n {
                NoEntryFor(inc, n, j);
                NoEntryFor(inc, n, k);
                if j != k {
                  ChangedOnce(inc, e.0, n, j, k);
                }
              } else {
                assert r[j] == inc[j] && r[k] == inc[k];
              }
            }
          }
        }
      }
    }
  }

  lemma InstrumentSound(f: Fn, e: Edge, k: nat)
    requires Instrumentable(f, e)
    ensures Sound(Instrument(f, e, k))
  {
    if Preds(f, Dest(f, e)) == 1 {
      assert Sound(InTarget(f, e, k)) by {
        var g, d := InTarget(f, e, k), Dest(f, e);
        forall b | 0 <= b < |g.blocks|
          ensures BlockBelow(g.blocks[b], g.next) && Targets(Succs(g.blocks[b].term), |g.blocks|) && PhisMatch(g, b)
          ensures forall i :: 0 <= i < |g.blocks[b].phis| ==> Consistent(g.blocks[b].phis[i].inc)
        {
          assert BlockBelow(f.blocks[b], f.next) && Targets(Succs(f.blocks[b].term), |f.blocks|);
          assert g.blocks[b].phis == f.blocks[b].phis;
          forall j | 0 <= j < |g.blocks[b].body| ensures InstrBelow(g.blocks[b].body[j], g.next) {
            assert b != d ==> InstrBelow(f.blocks[b].body[j], f.next);
            assert b == d && j > 0 ==> g.blocks[b].body[j] == f.blocks[b].body[j - 1];
          }
          forall i, l: nat | 0 <= i < |g.blocks[b].phis| ensures Entries(g.blocks[b].phis[i].inc, l) ==
                 EdgeCount(g, l, b) {
            EntriesOf(f, b, i, l);
            assert l < |f.blocks| ==> g.blocks[l].term == f.blocks[l].term;
          }
        }
      }
    } else {
      assert Sound(OnEdge(f, e, k)) by {
        var g, d, n := OnEdge(f, e, k), Dest(f, e), |f.blocks|;
        forall b | 0 <= b < |g.blocks|
          ensures BlockBelow(g.blocks[b], g.next) && Targets(Succs(g.blocks[b].term), |g.blocks|)
          ensures PhisMatch(g, b)
          ensures forall i :: 0 <= i < |g.blocks[b].phis| ==> Consistent(g.blocks[b].phis[i].inc)
        {
          OnEdgeBlock(f, e, k, b);
          forall i, l: nat | 0 <= i < |g.blocks[b].phis| ensures Entries(g.blocks[b].phis[i].inc, l) ==
                 EdgeCount(g, l, b) {
            OnEdgeCount(f, e, k, l, b);
            var inc := f.blocks[b].phis[i].inc;
            EntriesOf(f, b, i, l);
            if b == d {
              EntriesOf(f, b, i, n);
              EntriesOf(f, b, i, e.0);
              SetFirstEntries(inc, e.0, n, l);
              OccurrencesAt(Succs(f.blocks[e.0].term), e.1, d);
            }
          }
        }
      }
    }
  }

  // ----- whole runs, one edge ----------------------------------------------------------------

  ghost predicate HaltsIn(sem: Sem, f: Fn, c: Config, n: nat, o: Outcome, tk: multiset<Edge>) {
    Steps(sem, f, c, n) == Halt(o, tk)
  }

  lemma TracksStep(sem: Sem, f: Fn, e: Edge, k: nat, x: Config, y: Config) returns (m: nat)
    requires Instrumentable(f, e) && Tracks(f, e, k, x, y) && x.Run?
    ensures m > 0 && Tracks(f, e, k, Step(sem, f, x), Steps(sem, Instrument(f, e, k), y, m))
  {
    InstrumentSound(f, e, k);
    var g := Instrument(f, e, k);
    var r := ExitOf(sem, f, x.prev, x.cur, x.st);
    hide Step, Instrument, Sound, Tracks, ExitOf;
    var y1 := Step(sem, g, y);
    assert Steps(sem, g, y, 1) == Steps(sem, g, y1, 0) == y1;
    assert Steps(sem, g, y, 2) == Steps(sem, g, y1, 1) == Steps(sem, g, Step(sem, g, y1), 0);
    if r.End? || Preds(f, Dest(f, e)) == 1 || (x.cur, r.i) != e {
      DirectStep(sem, f, e, k, x, y);
      m := 1;
    } else {
      DetourStep(sem, f, e, k, x, y);
      m := 2;
    }
  }

  lemma {:induction false} RunForward(sem: Sem, f: Fn, e: Edge, k: nat, x: Config, y: Config, n: nat,
                                      o: Outcome, tk: multiset<Edge>)
    returns (m: nat, o': Outcome, tk': multiset<Edge>)
    requires Instrumentable(f, e) && Tracks(f, e, k, x, y) && HaltsIn(sem, f, x, n, o, tk)
    ensures HaltsIn(sem, Instrument(f, e, k), y, m, o', tk') && AheadOut(o, o', k, tk[e])
            && SameEdges(tk, tk', |f.blocks|)
    decreases n
  {
    hide Step, Instrument, Sound;
    if x.Halt? {
      HaltedStays(sem, f, x, n);
      m, o', tk' := 0, y.out, y.taken;
    } else {
      var j := TracksStep(sem, f, e, k, x, y);
      var g := Instrument(f, e, k);
      var i;
      i, o', tk' := RunForward(sem, f, e, k, Step(sem, f, x), Steps(sem, g, y, j), n - 1, o, tk);
      m := j + i;
      StepsAdd(sem, g, y, j, i);
    }
  }

  lemma {:induction false} RunBackward(sem: Sem, f: Fn, e: Edge, k: nat, x: Config, y: Config, n: nat,
                                       o': Outcome, tk': multiset<Edge>)
    returns (m: nat, o: Outcome, tk: multiset<Edge>)
    requires Instrumentable(f, e) && Tracks(f, e, k, x, y) && HaltsIn(sem, Instrument(f, e, k), y, n, o', tk')
    ensures HaltsIn(sem, f, x, m, o, tk) && AheadOut(o, o', k, tk[e]) && SameEdges(tk, tk', |f.blocks|)
    decreases n
  {
    hide Step, Instrument, Sound;
    var g := Instrument(f, e, k);
    if x.Halt? {
      HaltedStays(sem, g, y, n);
      m, o, tk := 0, x.out, x.taken;
    } else {
      var j := TracksStep(sem, f, e, k, x, y);
      if j <= n {
        StepsAdd(sem, g, y, j, n - j);
        var i;
        i, o, tk := RunBackward(sem, f, e, k, Step(sem, f, x), Steps(sem, g, y, j), n - j, o', tk');
        m := i + 1;
      } else {
        StepsAdd(sem, g, y, n, j - n);
        HaltedStays(sem, g, Steps(sem, g, y, n), j - n);
        var z := Step(sem, f, x);
        m, o, tk := 1, z.out, z.taken;
        assert Steps(sem, f, x, 1) == Steps(sem, f, z, 0) == z;
      }
    }
  }

  lemma StartTracks(f: Fn, e: Edge, k: nat, st: St, st': St)
    requires Instrumentable(f, e) && st == st'
    ensures Tracks(f, e, k, Init(st), Init(st'))
  {
    assert Targets(Succs(f.blocks[e.0].term), |f.blocks|);
  }

  // ----- all edges -----------------------------------------------------------------------------

  ghost predicate AllValid(f: Fn, order: seq<Edge>) {
    forall i :: 0 <= i < |order| ==> ValidEdge(f, order[i])
  }

  lemma NextValid(f: Fn, order: seq<Edge>, id: nat)
    requires Sound(f) && AllValid(f, order) && order != []
    ensures Instrumentable(f, order[0])
    ensures var g := Instrument(f, order[0], id); Sound(g) && AllValid(g, order[1..])
  {
    var e := order[0];
    assert Targets(Succs(f.blocks[e.0].term), |f.blocks|);
    InstrumentSound(f, e, id);
    forall i | 0 <= i < |order[1..]| ensures ValidEdge(Instrument(f, e, id), order[1..][i]) {
      assert order[1..][i] == order[i + 1];
    }
  }

  /** Edge number i of the list gets counter id + i. */
  function InstrumentAll(f: Fn, order: seq<Edge>, id: nat): (g: Fn)
    requires Sound(f) && AllValid(f, order)
    ensures Sound(g)
    decreases |order|
  {
    if order == [] then f
    else
      NextValid(f, order, id);
      InstrumentAll(Instrument(f, order[0], id), order[1..], id + 1)
  }

  /** How often the edge with counter j was traversed. */
  function Traversed(order: seq<Edge>, id: nat, tk: multiset<Edge>, j: nat): nat {
    if id <= j < id + |order| then tk[order[j - id]] else 0
  }

  /** Same outcome, same variables, memory and edges; every counter is ahead by the traversals of
      its edge. */
  ghost predicate Tallied(order: seq<Edge>, id: nat, n: nat, o: Outcome, tk: multiset<Edge>, o': Outcome,
                          tk': multiset<Edge>) {
    && (match o
        case Returned(v, _) => o'.Returned? && o'.v == v
        case Crashed(_) => o'.Crashed?
        case Stuck(_) => o'.Stuck?)
    && o'.st.env == o.st.env && o'.st.mem == o.st.mem && o'.st.work == o.st.work
    && (forall j: nat :: Count(o'.st.ctr, j) % 256 == (Count(o.st.ctr, j) + Traversed(order, id, tk, j)) % 256)
    && (forall j: nat :: !(id <= j < id + |order|) ==> Count(o'.st.ctr, j) == Count(o.st.ctr, j))
    && SameEdges(tk, tk', n)
  }

  lemma TalliedChain(f: Fn, order: seq<Edge>, id: nat, n: nat, n1: nat, o: Outcome, tk: multiset<Edge>,
                     o1: Outcome, tk1: multiset<Edge>, o': Outcome, tk': multiset<Edge>)
    requires order != [] && n <= n1 && forall i :: 0 <= i < |order| ==> order[i].0 < n
    requires AheadOut(o, o1, id, tk[order[0]]) && SameEdges(tk, tk1, n)
    requires Tallied(order[1..], id + 1, n1, o1, tk1, o', tk')
    ensures Tallied(order, id, n, o, tk, o', tk')
  {
    forall j: nat
      ensures Count(o'.st.ctr, j) % 256 == (Count(o.st.ctr, j) + Traversed(order, id, tk, j)) % 256
    {
      assert Count(o'.st.ctr, j) % 256 == (Count(o1.st.ctr, j) + Traversed(order[1..], id + 1, tk1, j)) % 256;
      if id + 1 <= j < id + |order| {
        assert order[1..][j - id - 1] == order[j - id];
      }
    }
    forall e: Edge | e.0 < n ensures tk'[e] == tk[e] {
      assert tk1[e] == tk[e];
    }
  }

  lemma {:induction false} AllForward(sem: Sem, f: Fn, order: seq<Edge>, id: nat, st: St, n: nat, o: Outcome,
                                      tk: multiset<Edge>)
    returns (m: nat, o': Outcome, tk': multiset<Edge>)
    requires Sound(f) && AllValid(f, order) && HaltsIn(sem, f, Init(st), n, o, tk)
    ensures HaltsIn(sem, InstrumentAll(f, order, id), Init(st), m, o', tk')
    ensures Tallied(order, id, |f.blocks|, o, tk, o', tk')
    decreases |order|
  {
    hide Sound, Steps, Instrument;
    if order == [] {
      m, o', tk' := n, o, tk;
    } else {
      NextValid(f, order, id);
      var e, g := order[0], Instrument(f, order[0], id);
      StartTracks(f, e, id, st, st);
      var i, o1, tk1 := RunForward(sem, f, e, id, Init(st), Init(st), n, o, tk);
      m, o', tk' := AllForward(sem, g, order[1..], id + 1, st, i, o1, tk1);
      BlocksGrow(f, e, id);
      TalliedChain(f, order, id, |f.blocks|, |g.blocks|, o, tk, o1, tk1, o', tk');
    }
  }

  lemma BlocksGrow(f: Fn, e: Edge, id: nat)
    requires Instrumentable(f, e)
    ensures |Instrument(f, e, id).blocks| >= |f.blocks|
  {
  }

  lemma {:induction false} AllBackward(sem: Sem, f: Fn, order: seq<Edge>, id: nat, st: St, n: nat, o': Outcome,
                                       tk': multiset<Edge>)
    returns (m: nat, o: Outcome, tk: multiset<Edge>)
    requires Sound(f) && AllValid(f, order) && HaltsIn(sem, InstrumentAll(f, order, id), Init(st), n, o', tk')
    ensures HaltsIn(sem, f, Init(st), m, o, tk)
    ensures Tallied(order, id, |f.blocks|, o, tk, o', tk')
    decreases |order|
  {
    hide Sound, Steps, Instrument;
    if order == [] {
      m, o, tk := n, o', tk';
    } else {
      NextValid(f, order, id);
      var e, g := order[0], Instrument(f, order[0], id);
      var i, o1, tk1 := AllBackward(sem, g, order[1..], id + 1, st, n, o', tk');
      StartTracks(f, e, id, st, st);
      m, o, tk := RunBackward(sem, f, e, id, Init(st), Init(st), i, o1, tk1);
      BlocksGrow(f, e, id);
      TalliedChain(f, order, id, |f.blocks|, |g.blocks|, o, tk, o1, tk1, o', tk');
    }
  }

  // ----- exact counters ------------------------------------------------------------------------

  predicate NoBumpsIn(body: seq<Instr>) { forall i :: 0 <= i < |body| ==> !body[i].Bump? }

  /** The original program does not touch the counters. */
  predicate NoBumps(f: Fn) { forall b :: 0 <= b < |f.blocks| ==> NoBumpsIn(f.blocks[b].body) }

  lemma {:induction false} BodyKeepsCounters(sem: Sem, body: seq<Instr>, s: St)
    requires NoBumpsIn(body)
    ensures ExecBody(sem, body, s).st.ctr == s.ctr
    decreases |body|
  {
    if body != [] {
      var x := ExecInstr(sem, body[0], s);
      if x.Ok? {
        assert NoBumpsIn(body[1..]);
        BodyKeepsCounters(sem, body[1..], x.st);
      }
    }
  }

  lemma {:induction false} RunKeepsCounters(sem: Sem, f: Fn, c: Config, n: nat, o: Outcome, tk: multiset<Edge>)
    requires NoBumps(f) && HaltsIn(sem, f, c, n, o, tk)
    ensures o.st.ctr == if c.Run? then c.st.ctr else c.out.st.ctr
    decreases n
  {
    if c.Halt? {
      HaltedStays(sem, f, c, n);
    } else {
      if c.cur < |f.blocks| {
        var b := f.blocks[c.cur];
        BodyKeepsCounters(sem, b.body, Enter(b, c.prev, c.st));
      }
      assert Steps(sem, f, c, n) == Steps(sem, f, Step(sem, f, c), n - 1);
      RunKeepsCounters(sem, f, Step(sem, f, c), n - 1, o, tk);
    }
  }

  ghost predicate ByteCounters(ctr: map<nat, nat>) { forall j: nat :: Count(ctr, j) < 256 }

  lemma {:induction false} BodyKeepsBytes(sem: Sem, body: seq<Instr>, s: St)
    requires ByteCounters(s.ctr)
    ensures ByteCounters(ExecBody(sem, body, s).st.ctr)
    decreases |body|
  {
    if body != [] {
      var x := ExecInstr(sem, body[0], s);
      forall j: nat ensures Count(x.st.ctr, j) < 256 {
        assert Count(s.ctr, j) < 256;
      }
      if x.Ok? {
        BodyKeepsBytes(sem, body[1..], x.st);
      }
    }
  }

  lemma {:induction false} RunKeepsBytes(sem: Sem, f: Fn, c: Config, n: nat, o: Outcome, tk: multiset<Edge>)
    requires HaltsIn(sem, f, c, n, o, tk) && ByteCounters(if c.Run? then c.st.ctr else c.out.st.ctr)
    ensures ByteCounters(o.st.ctr)
    decreases n
  {
    if c.Halt? {
      HaltedStays(sem, f, c, n);
    } else {
      if c.cur < |f.blocks| {
        var b := f.blocks[c.cur];
        BodyKeepsBytes(sem, b.body, Enter(b, c.prev, c.st));
      }
      assert Steps(sem, f, c, n) == Steps(sem, f, Step(sem, f, c), n - 1);
      RunKeepsBytes(sem, f, Step(sem, f, c), n - 1, o, tk);
    }
  }

  /** The outcome of the instrumented program next to that of the original one: the same, and
      counter id + i holds its start value plus the traversals of edge i, modulo 256. */
  ghost predicate ExactCounters(order: seq<Edge>, id: nat, st: St, o: Outcome, tk: multiset<Edge>, o': Outcome) {
    && (match o
        case Returned(v, _) => o'.Returned? && o'.v == v
        case Crashed(_) => o'.Crashed?
        case Stuck(_) => o'.Stuck?)
    && o'.st.mem == o.st.mem
    && (forall i :: 0 <= i < |order| ==> Count(o'.st.ctr, id + i) == (Count(st.ctr, id + i) + tk[order[i]]) % 256)
    && (forall j: nat :: !(id <= j < id + |order|) ==> Count(o'.st.ctr, j) == Count(st.ctr, j))
  }

  lemma TalliedIsExact(order: seq<Edge>, id: nat, n: nat, st: St, o: Outcome, tk: multiset<Edge>, o': Outcome,
                       tk': multiset<Edge>)
    requires Tallied(order, id, n, o, tk, o', tk') && ByteCounters(o'.st.ctr) && o.st.ctr == st.ctr
    ensures ExactCounters(order, id, st, o, tk, o')
  {
    forall i | 0 <= i < |order|
      ensures Count(o'.st.ctr, id + i) == (Count(st.ctr, id + i) + tk[order[i]]) % 256
    {
      var j := id + i;
      assert Count(o'.st.ctr, j) % 256 == (Count(o.st.ctr, j) + Traversed(order, id, tk, j)) % 256;
    }
  }

  ghost predicate CountedRun(sem: Sem, g: Fn, order: seq<Edge>, st: St, o: Outcome, tk: multiset<Edge>) {
    exists m: nat, o': Outcome, tk': multiset<Edge> ::
      HaltsIn(sem, g, Init(st), m, o', tk') && ExactCounters(order, 1, st, o, tk, o')
  }

  ghost predicate OriginalRun(sem: Sem, f: Fn, order: seq<Edge>, st: St, o': Outcome) {
    exists m: nat, o: Outcome, tk: multiset<Edge> ::
      HaltsIn(sem, f, Init(st), m, o, tk) && ExactCounters(order, 1, st, o, tk, o')
  }

  /** Main result, for every iteration order of the set of edges: every run of the original program
      that ends has a counterpart in the instrumented program, and conversely, with the same result,
      memory and crash behaviour, and with exact counters. */
  lemma InstrumentationCounts(sem: Sem, f: Fn, order: seq<Edge>, st: St)
    requires Sound(f) && AllValid(f, order) && NoBumps(f) && ByteCounters(st.ctr)
    ensures forall n: nat, o: Outcome, tk: multiset<Edge> ::
      HaltsIn(sem, f, Init(st), n, o, tk) ==> CountedRun(sem, InstrumentAll(f, order, 1), order, st, o, tk)
    ensures forall n: nat, o': Outcome, tk': multiset<Edge> ::
      HaltsIn(sem, InstrumentAll(f, order, 1), Init(st), n, o', tk') ==> OriginalRun(sem, f, order, st, o')
  {
    hide Sound, NoBumps, InstrumentAll, HaltsIn, ExactCounters, Tallied, ByteCounters;
    var g := InstrumentAll(f, order, 1);
    forall n: nat, o: Outcome, tk: multiset<Edge> | HaltsIn(sem, f, Init(st), n, o, tk)
      ensures CountedRun(sem, g, order, st, o, tk)
    {
      var m, o', tk' := AllForward(sem, f, order, 1, st, n, o, tk);
      RunKeepsCounters(sem, f, Init(st), n, o, tk);
      RunKeepsBytes(sem, g, Init(st), m, o', tk');
      TalliedIsExact(order, 1, |f.blocks|, st, o, tk, o', tk');
    }
    forall n: nat, o': Outcome, tk': multiset<Edge> | HaltsIn(sem, g, Init(st), n, o', tk')
      ensures OriginalRun(sem, f, order, st, o')
    {
      var m, o, tk := AllBackward(sem, f, order, 1, st, n, o', tk');
      RunKeepsCounters(sem, f, Init(st), m, o, tk);
      RunKeepsBytes(sem, g, Init(st), n, o', tk');
      TalliedIsExact(order, 1, |f.blocks|, st, o, tk, o', tk');
    }
  }
}
