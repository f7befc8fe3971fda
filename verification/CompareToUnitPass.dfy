/** compare-to-unit as it edits a function in place.  Each method is proved against the function that
    describes it. */
module CompareToUnitPass {
  import opened Ir
  import opened Splice
  import opened Expansions
  import opened Census
  import opened CompareToUnit
  import opened Editor

  // ----- simplifyCompares --------------------------------------------------------------------

  method SplitInclusive(m: Function, bb: nat, k: nat)
    requires Site(Inclusives, m.Model(), bb, k)
    modifies m
    ensures m.Model() == Apply(old(m.Model()), InclusiveCut(old(m.Model()), bb, k))
  {
    var i := m.blocks[bb].body[k];
    ghost var f, c := m.Model(), InclusiveCut(m.Model(), bb, k);
    hide Expanding, Apply;
    var end := m.BeginExpansion(bb, k);
    var np := m.NewName();
    m.AppendToHead(bb, Icmp(np, Strict(i.pred), i.w, i.a, i.b, NoMeta), f, k, [], Br(end), []);
    assert [] + [c.pre[0]] == c.pre;
    var eq := m.NewName();
    var middle := m.CreateArm(Icmp(eq, EQ, i.w, i.a, i.b, NoMeta), Br(end), f, bb, k, c.pre, Br(end), []);
    assert [] + [c.right[0]] == c.right;
    m.EndExpansion(bb, CondBr(Use(np), end, middle), [Inc(middle, Use(eq)), Inc(bb, Const(1))],
                 f, k, c.pre, Br(end), c.right, end);
  }

  // ----- simplifySignedness ------------------------------------------------------------------

  method SplitSigned(m: Function, bb: nat, k: nat)
    requires Site(Signs, m.Model(), bb, k)
    modifies m
    ensures m.Model() == Apply(old(m.Model()), SignedCut(old(m.Model()), bb, k))
  {
    var i := m.blocks[bb].body[k];
    ghost var f, c := m.Model(), SignedCut(m.Model(), bb, k);
    hide Expanding, Apply;
    var end := m.BeginExpansion(bb, k);
    var t0, t1 := m.AppendTopParts(bb, i, i.w - 1, 1, f, k, Br(end));
    var same := m.NewName();
    m.AppendToHead(bb, Icmp(same, EQ, 1, Use(t0), Use(t1), NoMeta), f, k, TopParts(f, i, i.w - 1, 1), Br(end), []);
    var inv := m.NewName();
    var sign := m.CreateArm(Icmp(inv, if i.pred == SGT then ULT else UGT, 1, Use(t0), Use(t1), NoMeta), Br(end),
                          f, bb, k, c.pre, Br(end), []);
    var us := m.NewName();
    var middle := m.CreateArm(Icmp(us, if i.pred == SGT then UGT else ULT, i.w, i.a, i.b, NoMeta), Br(end),
                            f, bb, k, c.pre, Br(end), [] + [c.right[0]]);
    assert [] + [c.right[0]] + [c.right[1]] == c.right;
    m.EndExpansion(bb, CondBr(Use(same), middle, sign), [Inc(middle, Use(us)), Inc(sign, Use(inv))],
                 f, k, c.pre, Br(end), c.right, end);
  }

  // ----- halfComparesAndRecord ---------------------------------------------------------------

  method HalveEquality(m: Function, bb: nat, k: nat)
    requires IcmpAt(m.Model(), bb, k) && m.blocks[bb].body[k].w > 1
    modifies m
    ensures m.Model() == Apply(old(m.Model()), EqualityCut(old(m.Model()), bb, k))
  {
    var i := m.blocks[bb].body[k];
    ghost var f, c := m.Model(), EqualityCut(m.Model(), bb, k);
    hide Expanding, Apply;
    var end := m.BeginExpansion(bb, k);
    var h := i.w / 2;
    var x, y := m.AppendTopParts(bb, i, h, h, f, k, Br(end));
    var high := m.NewName();
    m.AppendToHead(bb, Icmp(high, i.pred, h, Use(x), Use(y), Meta(true, i.meta.dict)), f, k, TopParts(f, i, h, h),
                   Br(end), []);
    var low, r := m.CreateLowArm(i, h, Meta(true, []), Br(end), 5, f, bb, k, c.pre, Br(end), []);
    assert LowParts(f, i, 5, h) + [c.right[0].body[2]] == c.right[0].body;
    assert [] + [c.right[0]] == c.right;
    m.EndExpansion(bb, if i.pred == EQ then CondBr(Use(high), low, end) else CondBr(Use(high), end, low),
                 [Inc(low, Use(r)), Inc(bb, Const(if i.pred == EQ then 0 else 1))],
                 f, k, c.pre, Br(end), c.right, end);
  }

  method HalveOrder(m: Function, bb: nat, k: nat)
    requires IcmpAt(m.Model(), bb, k) && m.blocks[bb].body[k].w > 1
    modifies m
    ensures m.Model() == Apply(old(m.Model()), OrderCut(old(m.Model()), bb, k))
  {
    var i := m.blocks[bb].body[k];
    ghost var f, c := m.Model(), OrderCut(m.Model(), bb, k);
    hide Expanding, Apply;
    var end := m.BeginExpansion(bb, k);
    var h := i.w / 2;
    var x, y := m.AppendTopParts(bb, i, h, h, f, k, Br(end));
    var high := m.NewName();
    m.AppendToHead(bb, Icmp(high, i.pred, h, Use(x), Use(y), NoMeta), f, k, TopParts(f, i, h, h), Br(end), []);
    var v := m.NewName();
    var inv := m.CreateArm(Icmp(v, if i.pred == UGT then ULT else UGT, h, Use(x), Use(y), NoMeta), Unreachable,
                         f, bb, k, c.pre, Br(end), []);
    ghost var a0 := c.right[0].(term := Unreachable);
    var low, r := m.CreateLowArm(i, h, NoMeta, Br(end), 6, f, bb, k, c.pre, Br(end), [] + [a0]);
    assert LowParts(f, i, 6, h) + [c.right[1].body[2]] == c.right[1].body;
    m.SetArmTerminator(inv, CondBr(Use(v), end, low), 0, f, bb, k, c.pre, Br(end), [] + [a0] + [c.right[1]]);
    assert ([] + [a0] + [c.right[1]])[0 := c.right[0]] == c.right;
    m.EndExpansion(bb, CondBr(Use(high), end, inv), [Inc(low, Use(r)), Inc(bb, Const(1)), Inc(inv, Const(0))],
                 f, k, c.pre, Br(end), c.right, end);
  }

  // ----- the stages --------------------------------------------------------------------------

  /** One round of a stage: the next comparison of the work list is where it is located, and rewriting it
      leaves the rest to do. */
  lemma NextOfAll(stage: Stage, f: Fn, todo: seq<Instr>, j: nat)
    requires StageOk(stage) && j < |todo| && WorkList(Todo(stage), f, todo[j..])
    ensures Tally(Exactly(todo[j]), f) > 0
    ensures var p := Locate(f, todo[j]);
      && Site(stage, f, p.0, p.1)
      && WorkList(Todo(stage), RewriteAt(stage, f, p.0, p.1), todo[j + 1..])
      && RewriteAll(stage, f, todo[j..]) == RewriteAll(stage, RewriteAt(stage, f, p.0, p.1), todo[j + 1..])
  {
    hide RewriteAt, Hits, Tally;
    assert todo[j..][0] == todo[j] && todo[j..][1..] == todo[j + 1..];
    var p := Locate(f, todo[j]);
    RewriteKeepsWorkList(stage, f, p.0, p.1, todo[j..]);
  }

  lemma StartOfAll(stage: Stage, f: Fn)
    requires StageOk(stage) && Good(f)
    ensures var todo := Collect(Todo(stage), f);
      WorkList(Todo(stage), f, todo[0..]) && RewriteAll(stage, f, todo[0..]) == Run1(stage, f)
  {
    hide RewriteAll, Tally;
    WorkIsWorkList(stage, f);
    assert Collect(Todo(stage), f)[0..] == Collect(Todo(stage), f);
  }

  lemma EndOfAll(stage: Stage, g: Fn, f: Fn, todo: seq<Instr>)
    requires StageOk(stage) && Good(f) && WorkList(Todo(stage), g, todo[|todo|..])
    requires RewriteAll(stage, g, todo[|todo|..]) == Run1(stage, f)
    ensures g == Run1(stage, f) && Good(g)
  {
    hide Run1, Good, WorkList, Tally;
  }

  method SimplifyCompares(m: Function)
    requires Good(m.Model())
    modifies m
    ensures m.Model() == Run1(Inclusives, old(m.Model())) && Good(m.Model())
  {
    ghost var f := m.Model();
    StartOfAll(Inclusives, f);
    var icomps := m.Gather(Inclusive);
    for j := 0 to |icomps|
      invariant WorkList(Inclusive, m.Model(), icomps[j..])
      invariant RewriteAll(Inclusives, m.Model(), icomps[j..]) == Run1(Inclusives, f)
    {
      hide Locate, Tally, WorkList, Run1, Good, Apply;
      NextOfAll(Inclusives, m.Model(), icomps, j);
      var p := Locate(m.Model(), icomps[j]);
      SplitInclusive(m, p.0, p.1);
    }
  }

  /** Fails, like the assertion in the pass, on a signed comparison of more than 64 bits. */
  method SimplifySignedness(m: Function) returns (ok: bool)
    requires Good(m.Model())
    modifies m
    ensures ok <==> Tally(WideStrict, old(m.Model())) == 0
    ensures ok ==> m.Model() == Run1(Signs, old(m.Model())) && Good(m.Model())
  {
    ghost var f := m.Model();
    StartOfAll(Signs, f);
    hide WorkList, Run1, Good, RewriteAll;
    var wide := m.Contains(WideStrict);
    if wide {
      return false;
    }
    var icomps := m.Gather(SignedOrder);
    for j := 0 to |icomps|
      invariant WorkList(SignedOrder, m.Model(), icomps[j..])
      invariant RewriteAll(Signs, m.Model(), icomps[j..]) == Run1(Signs, f)
    {
      hide Locate, Tally, WorkList, Run1, Good, Apply;
      NextOfAll(Signs, m.Model(), icomps, j);
      var p := Locate(m.Model(), icomps[j]);
      SplitSigned(m, p.0, p.1);
    }
    EndOfAll(Signs, m.Model(), f, icomps);
    ok := true;
  }

  /** Attaches the dictionary word of a compared constant to the comparison. */
  method RecordToDictionary(m: Function, bb: nat, k: nat)
    requires bb < |m.blocks| && k < |m.blocks[bb].body|
    modifies m`blocks
    ensures m.Model() == Mark(old(m.Model()), bb, k)
  {
    var b := m.blocks[bb];
    m.blocks := m.blocks[bb := b.(body := b.body[k := Recorded(b.body[k])])];
  }

  /** The body of the loop of halfComparesAndRecord. */
  method HalveOrRecord(m: Function, bitw: nat, mode: Mode, bb: nat, k: nat)
    requires ByteMultiple(bitw) && Site(Halves(bitw, mode), m.Model(), bb, k)
    modifies m
    ensures m.Model() == RewriteAt(Halves(bitw, mode), old(m.Model()), bb, k)
  {
    var i := m.blocks[bb].body[k];
    RecordToDictionary(m, bb, k);
    if Recordable(i) && mode != ALL {
      return;
    }
    if mode == NONE {
      return;
    }
    if bitw <= 8 {
      return;
    }
    if IsEquality(i.pred) {
      HalveEquality(m, bb, k);
    } else {
      HalveOrder(m, bb, k);
    }
  }

  method HalfComparesAndRecord(m: Function, bitw: nat, mode: Mode)
    requires ByteMultiple(bitw) && Good(m.Model())
    modifies m
    ensures m.Model() == Run1(Halves(bitw, mode), old(m.Model())) && Good(m.Model())
  {
    ghost var f, stage := m.Model(), Halves(bitw, mode);
    StartOfAll(stage, f);
    hide WorkList, Run1, Good, RewriteAll;
    var icomps := m.Gather(ComparisonOf(bitw));
    for j := 0 to |icomps|
      invariant WorkList(Todo(stage), m.Model(), icomps[j..])
      invariant RewriteAll(stage, m.Model(), icomps[j..]) == Run1(stage, f)
    {
      hide RewriteAt, Good, Run1, Tally, Hits, Locate, WorkList;
      NextOfAll(stage, m.Model(), icomps, j);
      var p := Locate(m.Model(), icomps[j]);
      HalveOrRecord(m, bitw, mode, p.0, p.1);
    }
    EndOfAll(stage, m.Model(), f, icomps);
  }

  /** The whole pass over one function. */
  method RunOnModule(m: Function, mode: Mode) returns (ok: bool)
    requires Good(m.Model())
    modifies m
    ensures ok <==> Convert(mode, old(m.Model())).Some?
    ensures ok ==> m.Model() == Convert(mode, old(m.Model())).value && Good(m.Model())
  {
    ok := true;
    if mode != NONE {
      SimplifyCompares(m);
      ok := SimplifySignedness(m);
      if !ok {
        return;
      }
    }
    HalfComparesAndRecord(m, 64, mode);
    HalfComparesAndRecord(m, 32, mode);
    HalfComparesAndRecord(m, 16, mode);
    HalfComparesAndRecord(m, 8, mode);
  }
}
