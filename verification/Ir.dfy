/** A small SSA intermediate representation with an interpreter.

    A function is a sequence of basic blocks; a block's label is its index, so appending
    blocks never renames existing ones.  Instructions that the passes do not touch (calls,
    stores, arithmetic, ...) are `Op`s whose meaning is an arbitrary table `Sem`: every result
    about the passes holds for every such table. */
module Ir {

  datatype Option<+T> = None | Some(value: T)

  /** An SSA name.  `isCall` records whether the defining instruction is a call. */
  datatype Reg = Reg(id: nat, isCall: bool)

  datatype Operand = Const(n: nat) | Use(r: Reg)

  datatype Pred = EQ | NE | UGT | UGE | ULT | ULE | SGT | SGE | SLT | SLE

  type Width = w: nat | 0 < w witness 1

  /** Metadata of a comparison: the "recorded" flag and the dictionary word ([] when absent). */
  datatype Meta = Meta(flagged: bool, dict: seq<nat>)

  const NoMeta := Meta(false, [])

  datatype Instr =
    | Icmp(dst: Reg, pred: Pred, w: Width, a: Operand, b: Operand, meta: Meta)
    | LShr(dst: Reg, w: Width, a: Operand, k: nat)
    | Trunc(dst: Reg, w: Width, a: Operand)
    | Select(dst: Reg, c: Operand, a: Operand, b: Operand)
    | Load8(dst: Reg, base: Operand, off: nat)
    | Sub8(dst: Reg, a: Operand, b: Operand)
    | SExt8(dst: Reg, a: Operand)
    | CmpCall(dst: Reg, base: Operand, word: seq<nat>)
    | Op(dst: Reg, code: nat, args: seq<Operand>)
    | Bump(id: nat)

  /** Multi chooses one of several exits by what it does, like an invoke. */
  datatype Term =
    | Br(to: nat)
    | CondBr(c: Operand, yes: nat, no: nat)
    | Multi(dst: Reg, code: nat, args: seq<Operand>, dests: seq<nat>)
    | Ret(v: Operand)
    | Unreachable

  datatype Inc = Inc(from: nat, v: Operand)
  datatype Phi = Phi(dst: Reg, inc: seq<Inc>)
  datatype Block = Block(phis: seq<Phi>, body: seq<Instr>, term: Term)

  /** Every name used or defined has an id below `next`. */
  datatype Fn = Fn(blocks: seq<Block>, next: nat)

  // ----- values ---------------------------------------------------------------------------

  function Pow2(w: nat): (p: nat)
    ensures p > 0
  {
    if w == 0 then 1 else 2 * Pow2(w - 1)
  }

  function Low(w: nat, x: nat): (r: nat)
    ensures r < Pow2(w)
  {
    x % Pow2(w)
  }

  function Signed(w: Width, x: nat): int {
    if Low(w, x) < Pow2(w - 1) then Low(w, x) else Low(w, x) - Pow2(w)
  }

  predicate Cmp(p: Pred, w: Width, x: nat, y: nat) {
    match p
    case EQ => Low(w, x) == Low(w, y)
    case NE => Low(w, x) != Low(w, y)
    case UGT => Low(w, x) > Low(w, y)
    case UGE => Low(w, x) >= Low(w, y)
    case ULT => Low(w, x) < Low(w, y)
    case ULE => Low(w, x) <= Low(w, y)
    case SGT => Signed(w, x) > Signed(w, y)
    case SGE => Signed(w, x) >= Signed(w, y)
    case SLT => Signed(w, x) < Signed(w, y)
    case SLE => Signed(w, x) <= Signed(w, y)
  }

  /** Division with the facts about it that the solver should not have to search for. */
  function Div(x: nat, d: nat): (q: nat)
    requires d > 0
    ensures q * d <= x < q * d + d
  {
    x / d
  }

  function Shifted(w: nat, x: nat, k: nat): nat {
    Div(Low(w, x), Pow2(k))
  }

  /** Sign extension of an 8-bit value to 32 bits. */
  function Extended(x: nat): nat {
    if x % 256 < 128 then x % 256 else x % 256 + (0x1_0000_0000 - 256)
  }

  /** 8-bit subtraction with wrap-around. */
  function Diff8(x: nat, y: nat): nat {
    (x % 256 + 256 - y % 256) % 256
  }

  // ----- which comparisons the passes leave alone ----------------------------------------------

  predicate IsEquality(p: Pred) { p == EQ || p == NE }

  /** The comparison of an operand with 0, 1 or -1 that the fuzzer finds on its own. */
  predicate StandardMagic(a: Operand, b: Operand, p: Pred, w: Width) {
    (a.Const? || b.Const?) &&
    var c := if a.Const? then a else b;
    var v := if a.Const? then b else a;
    var zero := Low(w, c.n) == 0;
    var one := Low(w, c.n) == 1;
    var minusOne := Low(w, c.n) == Pow2(w) - 1;
    || (IsEquality(p) && (zero || one))
    || (v.Use? && v.r.isCall && (zero || one || minusOne))
    || (!IsEquality(p) && (zero || one || minusOne))
  }

  // ----- cost of a comparison once it is fully expanded into byte comparisons ------------------

  predicate ByteMultiple(w: nat) { w == 8 || w == 16 || w == 32 || w == 64 }

  function HighHalf(w: nat, x: nat): nat { Shifted(w, x, w / 2) }

  function EqCost(w: nat, x: nat, y: nat): nat {
    if !ByteMultiple(w) then 0
    else if w == 8 then 1
    else
      EqCost(w / 2, HighHalf(w, x), HighHalf(w, y)) +
      if Low(w / 2, HighHalf(w, x)) == Low(w / 2, HighHalf(w, y)) then EqCost(w / 2, x, y) else 0
  }

  /** Unsigned > (gt) or < (!gt). */
  predicate Beats(gt: bool, w: nat, x: nat, y: nat) {
    if gt then Low(w, x) > Low(w, y) else Low(w, x) < Low(w, y)
  }

  function RelCost(gt: bool, w: nat, x: nat, y: nat): nat
    decreases w
  {
    if !ByteMultiple(w) then 0
    else if w == 8 then 1
    else
      RelCost(gt, w / 2, HighHalf(w, x), HighHalf(w, y)) +
      if Beats(gt, w / 2, HighHalf(w, x), HighHalf(w, y)) then 0
      else
        RelCost(!gt, w / 2, HighHalf(w, x), HighHalf(w, y)) +
        if Beats(!gt, w / 2, HighHalf(w, x), HighHalf(w, y)) then 0 else RelCost(gt, w / 2, x, y)
  }

  function SignBit(w: Width, x: nat): nat { Low(1, Shifted(w, x, w - 1)) }

  function CmpCost(p: Pred, w: Width, x: nat, y: nat): nat {
    match p
    case EQ => EqCost(w, x, y)
    case NE => EqCost(w, x, y)
    case UGT => RelCost(true, w, x, y)
    case ULT => RelCost(false, w, x, y)
    case SGT => if SignBit(w, x) == SignBit(w, y) then RelCost(true, w, x, y) else 0
    case SLT => if SignBit(w, x) == SignBit(w, y) then RelCost(false, w, x, y) else 0
    case UGE => RelCost(true, w, x, y) + if Cmp(UGT, w, x, y) then 0 else EqCost(w, x, y)
    case ULE => RelCost(false, w, x, y) + if Cmp(ULT, w, x, y) then 0 else EqCost(w, x, y)
    case SGE =>
      (if SignBit(w, x) == SignBit(w, y) then RelCost(true, w, x, y) else 0) +
      if Cmp(SGT, w, x, y) then 0 else EqCost(w, x, y)
    case SLE =>
      (if SignBit(w, x) == SignBit(w, y) then RelCost(false, w, x, y) else 0) +
      if Cmp(SLT, w, x, y) then 0 else EqCost(w, x, y)
  }

  // ----- machine state ---------------------------------------------------------------------

  type Env = map<Reg, nat>
  type Mem = map<nat, nat>

  datatype OpCall = OpCall(code: nat, args: seq<nat>, mem: Mem)
  datatype OpResult = OpOk(v: nat, mem: Mem, choice: nat) | OpFault(mem: Mem)

  /** The meaning of every instruction and terminator the passes do not look into. */
  type Sem = imap<OpCall, OpResult>

  /** `ctr` are the edge counters in shared memory; `work` adds up `CmpCost` over the executed
      comparisons that are not standard-magic ones. */
  datatype St = St(env: Env, mem: Mem, ctr: map<nat, nat>, work: nat)

  datatype Exec = Ok(st: St) | Fault(st: St)

  function Get(env: Env, r: Reg): nat { if r in env then env[r] else 0 }

  function Eval(o: Operand, env: Env): nat {
    match o
    case Const(n) => n
    case Use(r) => Get(env, r)
  }

  function Evals(os: seq<Operand>, env: Env): (vs: seq<nat>)
    ensures |vs| == |os|
    ensures forall i :: 0 <= i < |os| ==> vs[i] == Eval(os[i], env)
  {
    if os == [] then [] else [Eval(os[0], env)] + Evals(os[1..], env)
  }

  function Perform(sem: Sem, c: OpCall): OpResult {
    if c in sem then sem[c] else OpOk(0, c.mem, 0)
  }

  function Count(ctr: map<nat, nat>, k: nat): nat { if k in ctr then ctr[k] else 0 }

  /** First non-zero byte difference word[i] - mem[p+i], sign-extended; 0 if there is none;
      None if a byte that has to be read is not mapped. */
  function FirstDiff(mem: Mem, p: nat, word: seq<nat>): Option<nat>
    decreases |word|
  {
    if word == [] then Some(0)
    else if p !in mem then None
    else if Diff8(word[0], mem[p]) != 0 then Some(Extended(Diff8(word[0], mem[p])))
    else FirstDiff(mem, p + 1, word[1..])
  }

  function Set(st: St, r: Reg, v: nat): St { st.(env := st.env[r := v]) }

  function IcmpWork(i: Instr, env: Env): nat
    requires i.Icmp?
  {
    if StandardMagic(i.a, i.b, i.pred, i.w) then 0
    else CmpCost(i.pred, i.w, Eval(i.a, env), Eval(i.b, env))
  }

  function Bit(b: bool): nat { if b then 1 else 0 }

  function ExecInstr(sem: Sem, i: Instr, st: St): Exec {
    match i
    case Icmp(dst, p, w, a, b, _) =>
      Ok(Set(st, dst, Bit(Cmp(p, w, Eval(a, st.env), Eval(b, st.env)))).(work := st.work + IcmpWork(i, st.env)))
    case LShr(dst, w, a, k) => Ok(Set(st, dst, Shifted(w, Eval(a, st.env), k)))
    case Trunc(dst, w, a) => Ok(Set(st, dst, Low(w, Eval(a, st.env))))
    case Select(dst, c, a, b) =>
      Ok(Set(st, dst, if Eval(c, st.env) != 0 then Eval(a, st.env) else Eval(b, st.env)))
    case Load8(dst, base, off) =>
      var p := Eval(base, st.env) + off;
      if p in st.mem then Ok(Set(st, dst, st.mem[p] % 256)) else Fault(st)
    case Sub8(dst, a, b) => Ok(Set(st, dst, Diff8(Eval(a, st.env), Eval(b, st.env))))
    case SExt8(dst, a) => Ok(Set(st, dst, Extended(Eval(a, st.env))))
    case CmpCall(dst, base, word) =>
      (match FirstDiff(st.mem, Eval(base, st.env), word)
       case None => Fault(st)
       case Some(d) => Ok(Set(st, dst, d)))
    case Op(dst, code, args) =>
      (match Perform(sem, OpCall(code, Evals(args, st.env), st.mem))
       case OpFault(m) => Fault(st.(mem := m))
       case OpOk(v, m, _) => Ok(Set(st, dst, v).(mem := m)))
    case Bump(k) => Ok(st.(ctr := st.ctr[k := (Count(st.ctr, k) + 1) % 256]))
  }

  function ExecBody(sem: Sem, body: seq<Instr>, st: St): Exec {
    if body == [] then Ok(st)
    else
      match ExecInstr(sem, body[0], st)
      case Fault(s) => Fault(s)
      case Ok(s) => ExecBody(sem, body[1..], s)
  }

  /** The operand a phi takes when control comes from `prev`. */
  function Pick(inc: seq<Inc>, prev: Option<nat>): Operand {
    if inc == [] then Const(0)
    else if prev == Some(inc[0].from) then inc[0].v
    else Pick(inc[1..], prev)
  }

  /** All phis of a block read the state at the end of the predecessor. */
  function EvalPhis(phis: seq<Phi>, prev: Option<nat>, old_: Env, env: Env): Env {
    if phis == [] then env
    else EvalPhis(phis[1..], prev, old_, env[phis[0].dst := Eval(Pick(phis[0].inc, prev), old_)])
  }

  datatype Outcome =
    | Returned(v: nat, st: St)
    | Crashed(st: St)
    | Stuck(st: St)

  /** An edge is a block label and the index of the successor in its terminator. */
  type Edge = (nat, nat)

  /** At the entry of block `cur`, coming from `prev`; `taken` are the edges traversed so far. */
  datatype Config =
    | Run(prev: Option<nat>, cur: nat, st: St, taken: multiset<Edge>)
    | Halt(out: Outcome, taken: multiset<Edge>)

  function Succs(t: Term): seq<nat> {
    match t
    case Br(l) => [l]
    case CondBr(_, y, n) => [y, n]
    case Multi(_, _, _, ls) => ls
    case Ret(_) => []
    case Unreachable => []
  }

  function Jump(t: Term, cur: nat, i: nat, st: St, taken: multiset<Edge>): Config
    requires i < |Succs(t)|
  {
    Run(Some(cur), Succs(t)[i], st, taken + multiset{(cur, i)})
  }

  function ExecTerm(sem: Sem, t: Term, cur: nat, st: St, taken: multiset<Edge>): Config {
    match t
    case Br(_) => Jump(t, cur, 0, st, taken)
    case CondBr(c, _, _) => Jump(t, cur, if Eval(c, st.env) != 0 then 0 else 1, st, taken)
    case Multi(dst, code, args, ls) =>
      (match Perform(sem, OpCall(code, Evals(args, st.env), st.mem))
       case OpFault(m) => Halt(Crashed(st.(mem := m)), taken)
       case OpOk(v, m, i) =>
         var s := Set(st, dst, v).(mem := m);
         if i < |ls| then Jump(t, cur, i, s, taken) else Halt(Stuck(s), taken))
    case Ret(v) => Halt(Returned(Eval(v, st.env), st), taken)
    case Unreachable => Halt(Stuck(st), taken)
  }

  function Finish(sem: Sem, e: Exec, t: Term, cur: nat, taken: multiset<Edge>): Config {
    match e
    case Fault(s) => Halt(Crashed(s), taken)
    case Ok(s) => ExecTerm(sem, t, cur, s, taken)
  }

  function Enter(b: Block, prev: Option<nat>, st: St): St {
    st.(env := EvalPhis(b.phis, prev, st.env, st.env))
  }

  /** Executes one basic block. */
  function Step(sem: Sem, f: Fn, c: Config): Config {
    if c.Halt? then c
    else if c.cur >= |f.blocks| then Halt(Stuck(c.st), c.taken)
    else
      var b := f.blocks[c.cur];
      Finish(sem, ExecBody(sem, b.body, Enter(b, c.prev, c.st)), b.term, c.cur, c.taken)
  }

  function Steps(sem: Sem, f: Fn, c: Config, n: nat): Config
    decreases n
  {
    if n == 0 then c else Steps(sem, f, Step(sem, f, c), n - 1)
  }

  function Init(st: St): Config { Run(None, 0, st, multiset{}) }

  // ----- what an observer outside the function sees ------------------------------------------

  /** Names are local: what remains of an outcome is its kind, the returned value, memory,
      counters and the comparison work. */
  datatype Seen = Seen(kind: nat, v: nat, mem: Mem, ctr: map<nat, nat>, work: nat)

  function See(o: Outcome): Seen {
    match o
    case Returned(v, s) => Seen(0, v, s.mem, s.ctr, s.work)
    case Crashed(s) => Seen(1, 0, s.mem, s.ctr, s.work)
    case Stuck(s) => Seen(2, 0, s.mem, s.ctr, s.work)
  }

  ghost predicate EndsIn(sem: Sem, f: Fn, c: Config, n: nat, o: Seen) {
    var d := Steps(sem, f, c, n);
    d.Halt? && See(d.out) == o
  }

  ghost predicate Yields(sem: Sem, f: Fn, c: Config, o: Seen) {
    exists n: nat :: EndsIn(sem, f, c, n, o)
  }

  /** Same results, crashes and non-termination on every input and under every table. */
  ghost predicate Equivalent(f: Fn, g: Fn) {
    forall sem: Sem, st: St, o: Seen :: Yields(sem, f, Init(st), o) <==> Yields(sem, g, Init(st), o)
  }

  // ----- well-formed functions ----------------------------------------------------------------

  predicate OperandBelow(o: Operand, n: nat) { o.Use? ==> o.r.id < n }

  predicate OperandsBelow(os: seq<Operand>, n: nat) {
    forall i :: 0 <= i < |os| ==> OperandBelow(os[i], n)
  }

  predicate InstrBelow(i: Instr, n: nat) {
    match i
    case Icmp(d, _, _, a, b, _) => d.id < n && OperandBelow(a, n) && OperandBelow(b, n)
    case LShr(d, _, a, _) => d.id < n && OperandBelow(a, n)
    case Trunc(d, _, a) => d.id < n && OperandBelow(a, n)
    case Select(d, c, a, b) => d.id < n && OperandBelow(c, n) && OperandBelow(a, n) && OperandBelow(b, n)
    case Load8(d, a, _) => d.id < n && OperandBelow(a, n)
    case Sub8(d, a, b) => d.id < n && OperandBelow(a, n) && OperandBelow(b, n)
    case SExt8(d, a) => d.id < n && OperandBelow(a, n)
    case CmpCall(d, a, _) => d.id < n && OperandBelow(a, n)
    case Op(d, _, args) => d.id < n && OperandsBelow(args, n)
    case Bump(_) => true
  }

  predicate BodyBelow(body: seq<Instr>, n: nat) {
    forall i :: 0 <= i < |body| ==> InstrBelow(body[i], n)
  }

  predicate IncsBelow(inc: seq<Inc>, n: nat) {
    forall i :: 0 <= i < |inc| ==> OperandBelow(inc[i].v, n)
  }

  predicate PhisBelow(phis: seq<Phi>, n: nat) {
    forall i :: 0 <= i < |phis| ==> phis[i].dst.id < n && IncsBelow(phis[i].inc, n)
  }

  predicate TermBelow(t: Term, n: nat) {
    match t
    case Br(_) => true
    case CondBr(c, _, _) => OperandBelow(c, n)
    case Multi(d, _, args, _) => d.id < n && OperandsBelow(args, n)
    case Ret(v) => OperandBelow(v, n)
    case Unreachable => true
  }

  predicate BlockBelow(b: Block, n: nat) {
    PhisBelow(b.phis, n) && BodyBelow(b.body, n) && TermBelow(b.term, n)
  }

  predicate Targets(ls: seq<nat>, n: nat) {
    forall i :: 0 <= i < |ls| ==> 0 < ls[i] < n
  }

  /** Names are in range and edges lead to existing blocks other than the entry. */
  predicate Closed(f: Fn) {
    && |f.blocks| > 0
    && (forall b :: 0 <= b < |f.blocks| ==> BlockBelow(f.blocks[b], f.next))
    && (forall b :: 0 <= b < |f.blocks| ==> Targets(Succs(f.blocks[b].term), |f.blocks|))
  }

  function Occurrences(ls: seq<nat>, l: nat): nat {
    if ls == [] then 0 else (if ls[0] == l then 1 else 0) + Occurrences(ls[1..], l)
  }

  function Entries(inc: seq<Inc>, l: nat): nat {
    if inc == [] then 0 else (if inc[0].from == l then 1 else 0) + Entries(inc[1..], l)
  }

  /** Number of edges from block `l` to block `b`. */
  function EdgeCount(f: Fn, l: nat, b: nat): nat {
    if l < |f.blocks| then Occurrences(Succs(f.blocks[l].term), b) else 0
  }

  /** Every phi of block b has exactly one entry per predecessor edge. */
  ghost predicate PhisMatch(f: Fn, b: nat)
    requires b < |f.blocks|
  {
    forall i, l: nat :: 0 <= i < |f.blocks[b].phis| ==>
      Entries(f.blocks[b].phis[i].inc, l) == EdgeCount(f, l, b)
  }

  ghost predicate PhisOk(f: Fn) {
    forall b :: 0 <= b < |f.blocks| ==> PhisMatch(f, b)
  }
}
