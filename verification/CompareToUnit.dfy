/** The compare-to-unit pass: inclusive comparisons become strict ones, signed ones unsigned ones,
    and wide ones are halved down to bytes, while constants are recorded as dictionary words. */
module CompareToUnit {
  import opened Ir
  import opened Agreement
  import opened Splice
  import opened Expansions
  import opened Census
  import Arithmetic = Halves

  /** AFL_CONVERT_COMPARISON_TYPE */
  datatype Mode = ALL | NONE | NOT_DICT

  datatype Stage = Inclusives | Signs | Halves(w: nat, mode: Mode)

  /** The comparisons a stage collects. */
  function Todo(stage: Stage): Query {
    match stage
    case Inclusives => Inclusive
    case Signs => SignedOrder
    case Halves(w, _) => ComparisonOf(w)
  }

  predicate StageOk(stage: Stage) { stage.Halves? ==> ByteMultiple(stage.w) }

  // ----- dictionary words --------------------------------------------------------------------

  function LittleEndian(n: nat, bytes: nat): (s: seq<nat>)
    ensures |s| == bytes
  {
    if bytes == 0 then [] else [n % 256] + LittleEndian(n / 256, bytes - 1)
  }

  /** A constant compared for equality by an instruction of the original program. */
  predicate Recordable(i: Instr) {
    i.Icmp? && !i.meta.flagged && IsEquality(i.pred) && (i.a.Const? || i.b.Const?)
  }

  function WordOf(i: Instr): seq<nat>
    requires i.Icmp? && (i.a.Const? || i.b.Const?)
  {
    LittleEndian(if i.a.Const? then i.a.n else i.b.n, i.w / 8)
  }

  function Recorded(i: Instr): Instr {
    if Recordable(i) then i.(meta := Meta(false, WordOf(i))) else i
  }

  function Mark(f: Fn, bb: nat, k: nat): Fn
    requires bb < |f.blocks| && k < |f.blocks[bb].body|
  {
    var b := f.blocks[bb];
    f.(blocks := f.blocks[bb := b.(body := b.body[k := Recorded(b.body[k])])])
  }

  // ----- one comparison ----------------------------------------------------------------------

  predicate Halved(stage: Stage, i: Instr)
    requires stage.Halves?
  {
    stage.mode != NONE && stage.w > 8 && !(Recordable(i) && stage.mode != ALL)
  }

  predicate Site(stage: Stage, f: Fn, bb: nat, k: nat) {
    bb < |f.blocks| && k < |f.blocks[bb].body| && Hits(Todo(stage), f.blocks[bb].body[k])
  }

  function CutFor(stage: Stage, f: Fn, bb: nat, k: nat): Cut
    requires StageOk(stage) && Site(stage, f, bb, k)
  {
    match stage
    case Inclusives => InclusiveCut(f, bb, k)
    case Signs => SignedCut(f, bb, k)
    case Halves(w, _) => if IsEquality(f.blocks[bb].body[k].pred) then EqualityCut(f, bb, k) else OrderCut(f, bb, k)
  }

  /** What a stage does to one collected comparison. */
  function RewriteAt(stage: Stage, f: Fn, bb: nat, k: nat): Fn
    requires StageOk(stage) && Site(stage, f, bb, k)
  {
    if stage.Halves? then
      var g := Mark(f, bb, k);
      if Halved(stage, f.blocks[bb].body[k]) then Apply(g, CutFor(stage, g, bb, k)) else g
    else Apply(f, CutFor(stage, f, bb, k))
  }

  /** The inserted instructions, spelled out. */
  function Pieces(stage: Stage, f: Fn, bb: nat, k: nat): seq<Instr>
    requires StageOk(stage) && Site(stage, f, bb, k)
  {
    var c := CutFor(stage, f, bb, k);
    c.pre + c.right[0].body + if |c.right| == 2 then c.right[1].body else []
  }

  lemma InsertedPieces(stage: Stage, f: Fn, bb: nat, k: nat)
    requires StageOk(stage) && Site(stage, f, bb, k)
    ensures var c := CutFor(stage, f, bb, k);
      && NoMulti(c.left) && NoMulti(c.right) && !c.term.Multi?
      && Inserted(c) == Pieces(stage, f, bb, k) && Numbered(Inserted(c), f.next)
  {
    var c := CutFor(stage, f, bb, k);
    assert NoMulti(c.left) && NoMulti(c.right) && !c.term.Multi? && c.left == [];
    assert c.right == if |c.right| == 2 then [c.right[0], c.right[1]] else [c.right[0]];
    PiecesNumbered(stage, f, bb, k);
    hide CutFor, NoMulti, Numbered;
    var a, b := c.right[0], c.right[if |c.right| == 2 then 1 else 0];
    assert [a][1..] == [] && [a, b][1..] == [b] && [b][1..] == [];
    assert Bodies([b]) == b.body + Bodies([]) && Bodies([a, b]) == a.body + Bodies([b]);
  }

  lemma PiecesNumbered(stage: Stage, f: Fn, bb: nat, k: nat)
    requires StageOk(stage) && Site(stage, f, bb, k)
    ensures Numbered(Pieces(stage, f, bb, k), f.next)
  {
    hide StandardMagic, ByteMultiple;
  }

  // ----- counting what is inserted -----------------------------------------------------------

  predicate AboutComparisons(q: Query) { !q.Defines? && !q.Exactly? && !q.Selects? }

  lemma PlainParts(q: Query, a: Instr, b: Instr, c: Instr, d: Instr)
    requires AboutComparisons(q) && !a.Icmp? && !b.Icmp? && !c.Icmp? && !d.Icmp?
    ensures TallyBody(q, [a, b]) == 0 && TallyBody(q, [a, b, c, d]) == 0
  {
    assert [a, b] == [a] + [b] && [a, b, c, d] == [a, b] + [c, d] && [c, d] == [c] + [d];
    TallyAppend(q, [a], [b]);
    TallyAppend(q, [c], [d]);
    TallyAppend(q, [a, b], [c, d]);
    TallySingle(q, a);
    TallySingle(q, b);
    TallySingle(q, c);
    TallySingle(q, d);
  }

  lemma TopTally(q: Query, f: Fn, i: Instr, k: nat, t: Width, j: Instr)
    requires AboutComparisons(q) && i.Icmp?
    ensures TallyBody(q, TopParts(f, i, k, t) + [j]) == Weight(q, j)
  {
    var p := TopParts(f, i, k, t);
    PlainParts(q, p[0], p[1], p[2], p[3]);
    TallyAppend(q, p, [j]);
    TallySingle(q, j);
  }

  lemma LowTally(q: Query, f: Fn, i: Instr, m: nat, h: Width, j: Instr)
    requires AboutComparisons(q) && i.Icmp?
    ensures TallyBody(q, LowParts(f, i, m, h) + [j]) == Weight(q, j)
  {
    var p := LowParts(f, i, m, h);
    PlainParts(q, p[0], p[1], p[0], p[1]);
    TallyAppend(q, p, [j]);
    TallySingle(q, j);
  }

  /** The comparisons among the inserted instructions. */
  function NewCompares(stage: Stage, f: Fn, bb: nat, k: nat): (cs: (Instr, Instr, Option<Instr>))
    requires StageOk(stage) && Site(stage, f, bb, k)
  {
    var c := CutFor(stage, f, bb, k);
    match stage
    case Inclusives => (c.pre[0], c.right[0].body[0], None)
    case Signs => (c.pre[4], c.right[0].body[0], Some(c.right[1].body[0]))
    case Halves(_, _) =>
      if IsEquality(f.blocks[bb].body[k].pred) then (c.pre[4], c.right[0].body[2], None)
      else (c.pre[4], c.right[0].body[0], Some(c.right[1].body[2]))
  }

  lemma PiecesTally(stage: Stage, f: Fn, bb: nat, k: nat, q: Query)
    requires StageOk(stage) && Site(stage, f, bb, k) && AboutComparisons(q)
    ensures var (x, y, z) := NewCompares(stage, f, bb, k);
      TallyBody(q, Pieces(stage, f, bb, k)) == Weight(q, x) + Weight(q, y) + if z.Some? then Weight(q, z.value) else 0
  {
    match stage
    case Inclusives => InclusivePiecesTally(f, bb, k, q);
    case Signs => SignPiecesTally(f, bb, k, q);
    case Halves(w, _) =>
      HalfPiecesTally(f, bb, k, q);
      hide Weight, StandardMagic, TallyBody;
      var c := CutFor(stage, f, bb, k);
      TallyAppend(q, c.pre, c.right[0].body);
      if |c.right| == 2 {
        TallyAppend(q, c.pre + c.right[0].body, c.right[1].body);
      } else {
        assert c.pre + c.right[0].body + [] == c.pre + c.right[0].body;
      }
  }

  lemma InclusivePiecesTally(f: Fn, bb: nat, k: nat, q: Query)
    requires Site(Inclusives, f, bb, k) && AboutComparisons(q)
    ensures var c := CutFor(Inclusives, f, bb, k);
      TallyBody(q, Pieces(Inclusives, f, bb, k)) == Weight(q, c.pre[0]) + Weight(q, c.right[0].body[0])
  {
    assert TallyBody(q, []) == 0;
    hide Weight, StandardMagic, TallyBody;
    var c := CutFor(Inclusives, f, bb, k);
    TallyAppend(q, c.pre + c.right[0].body, []);
    TallyAppend(q, c.pre, c.right[0].body);
    TallySingle(q, c.pre[0]);
    TallySingle(q, c.right[0].body[0]);
  }

  lemma SignPiecesTally(f: Fn, bb: nat, k: nat, q: Query)
    requires StageOk(Signs) && Site(Signs, f, bb, k) && AboutComparisons(q)
    ensures var c := CutFor(Signs, f, bb, k);
      TallyBody(q, Pieces(Signs, f, bb, k)) ==
      Weight(q, c.pre[4]) + Weight(q, c.right[0].body[0]) + Weight(q, c.right[1].body[0])
  {
    hide Weight, StandardMagic, TallyBody;
    var c, i := CutFor(Signs, f, bb, k), f.blocks[bb].body[k];
    TallyAppend(q, c.pre + c.right[0].body, c.right[1].body);
    TallyAppend(q, c.pre, c.right[0].body);
    assert c.pre == TopParts(f, i, i.w - 1, 1) + [c.pre[4]];
    TopTally(q, f, i, i.w - 1, 1, c.pre[4]);
    TallySingle(q, c.right[0].body[0]);
    TallySingle(q, c.right[1].body[0]);
  }

  lemma HalfPiecesTally(f: Fn, bb: nat, k: nat, q: Query)
    requires IcmpAt(f, bb, k) && f.blocks[bb].body[k].w > 1 && AboutComparisons(q)
    ensures var c := EqualityCut(f, bb, k);
      TallyBody(q, c.pre) == Weight(q, c.pre[4]) && TallyBody(q, c.right[0].body) == Weight(q, c.right[0].body[2])
    ensures var c := OrderCut(f, bb, k);
      && TallyBody(q, c.pre) == Weight(q, c.pre[4]) && TallyBody(q, c.right[0].body) == Weight(q, c.right[0].body[0])
      && TallyBody(q, c.right[1].body) == Weight(q, c.right[1].body[2])
  {
    hide Weight;
    var i := f.blocks[bb].body[k];
    var h := i.w / 2;
    var c := EqualityCut(f, bb, k);
    assert c.pre == TopParts(f, i, h, h) + [c.pre[4]];
    TopTally(q, f, i, h, h, c.pre[4]);
    assert c.right[0].body == LowParts(f, i, 5, h) + [c.right[0].body[2]];
    LowTally(q, f, i, 5, h, c.right[0].body[2]);
    var d := OrderCut(f, bb, k);
    assert d.pre == TopParts(f, i, h, h) + [d.pre[4]];
    TopTally(q, f, i, h, h, d.pre[4]);
    TallySingle(q, d.right[0].body[0]);
    assert d.right[1].body == LowParts(f, i, 6, h) + [d.right[1].body[2]];
    LowTally(q, f, i, 6, h, d.right[1].body[2]);
  }

  // ----- recording a word does not change behaviour ------------------------------------------

  lemma {:induction false} SameBody(sem: Sem, body: seq<Instr>, k: nat, j: Instr, s: St)
    requires k < |body| && forall t: St :: ExecInstr(sem, j, t) == ExecInstr(sem, body[k], t)
    ensures ExecBody(sem, body[k := j], s) == ExecBody(sem, body, s)
    decreases |body|
  {
    if k == 0 {
      assert body[0 := j][1..] == body[1..];
    } else {
      assert body[k := j][1..] == body[1..][k - 1 := j];
      match ExecInstr(sem, body[0], s)
      case Fault(_) =>
      case Ok(t) => SameBody(sem, body[1..], k - 1, j, t);
    }
  }

  lemma MarkStep(sem: Sem, f: Fn, bb: nat, k: nat, c: Config)
    requires bb < |f.blocks| && k < |f.blocks[bb].body|
    ensures Step(sem, Mark(f, bb, k), c) == Step(sem, f, c)
  {
    var b := f.blocks[bb];
    if c.Run? && c.cur == bb {
      var s := Enter(b, c.prev, c.st);
      SameBody(sem, b.body, k, Recorded(b.body[k]), s);
    }
  }

  lemma {:induction false} MarkSteps(sem: Sem, f: Fn, bb: nat, k: nat, c: Config, n: nat)
    requires bb < |f.blocks| && k < |f.blocks[bb].body|
    ensures Steps(sem, Mark(f, bb, k), c, n) == Steps(sem, f, c, n)
    decreases n
  {
    if n > 0 {
      MarkStep(sem, f, bb, k, c);
      MarkSteps(sem, f, bb, k, Step(sem, f, c), n - 1);
    }
  }

  lemma MarkPreserves(f: Fn, bb: nat, k: nat)
    requires bb < |f.blocks| && k < |f.blocks[bb].body|
    ensures Equivalent(f, Mark(f, bb, k))
  {
    hide Mark, Steps;
    forall sem: Sem, st: St, o: Seen
      ensures Yields(sem, f, Init(st), o) <==> Yields(sem, Mark(f, bb, k), Init(st), o)
    {
      forall n: nat ensures EndsIn(sem, f, Init(st), n, o) <==> EndsIn(sem, Mark(f, bb, k), Init(st), n, o) {
        MarkSteps(sem, f, bb, k, Init(st), n);
      }
    }
  }

  lemma MarkTally(q: Query, f: Fn, bb: nat, k: nat)
    requires bb < |f.blocks| && k < |f.blocks[bb].body|
    ensures Tally(q, Mark(f, bb, k)) + Weight(q, f.blocks[bb].body[k])
            == Tally(q, f) + Weight(q, Recorded(f.blocks[bb].body[k]))
  {
    hide Weight, Recorded;
    var b := f.blocks[bb];
    var i := Recorded(b.body[k]);
    var b' := b.(body := b.body[k := i]);
    TallyUpdate(q, f.blocks, bb, b');
    TallySplit(q, b.body, k);
    TallySplit(q, b'.body, k);
    assert b'.body[..k] == b.body[..k] && b'.body[k + 1..] == b.body[k + 1..];
  }

  lemma MarkKeepsGood(f: Fn, bb: nat, k: nat)
    requires bb < |f.blocks| && k < |f.blocks[bb].body| && Good(f)
    ensures Good(Mark(f, bb, k))
  {
    var g := Mark(f, bb, k);
    forall b | 0 <= b < |g.blocks|
      ensures BlockBelow(g.blocks[b], g.next) && Targets(Succs(g.blocks[b].term), |g.blocks|) && PhisMatch(g, b)
    {
      assert BlockBelow(f.blocks[b], f.next) && Targets(Succs(f.blocks[b].term), |f.blocks|);
      forall j | 0 <= j < |g.blocks[b].body| ensures InstrBelow(g.blocks[b].body[j], g.next) {
        assert InstrBelow(f.blocks[b].body[j], f.next);
      }
      assert PhisMatch(f, b);
      forall j, l: nat | 0 <= j < |g.blocks[b].phis|
        ensures Entries(g.blocks[b].phis[j].inc, l) == EdgeCount(g, l, b)
      {
        assert Entries(f.blocks[b].phis[j].inc, l) == EdgeCount(f, l, b);
        assert l < |f.blocks| ==> g.blocks[l].term == f.blocks[l].term;
      }
    }
    forall r: Reg ensures Tally(Defines(r), g) <= 1 {
      MarkTally(Defines(r), f, bb, k);
      assert Tally(Defines(r), f) <= 1;
    }
  }

  // ----- one comparison: behaviour, shape, accounts ------------------------------------------

  lemma CutForPreserves(stage: Stage, f: Fn, bb: nat, k: nat)
    requires StageOk(stage) && Site(stage, f, bb, k) && Good(f) && (stage.Halves? ==> stage.w > 8)
    ensures Equivalent(f, Apply(f, CutFor(stage, f, bb, k))) && Good(Apply(f, CutFor(stage, f, bb, k)))
  {
    assert && WellShaped(f, CutFor(stage, f, bb, k))
           && (forall sem: Sem :: Faithful(sem, f, CutFor(stage, f, bb, k))) by {
      assert BlockBelow(f.blocks[bb], f.next);
      assert InstrBelow(f.blocks[bb].body[k], f.next);
      hide Faithful, WellShaped, SelectCut, InclusiveCut, SignedCut, EqualityCut, OrderCut;
      var eq := IsEquality(f.blocks[bb].body[k].pred);
      forall sem: Sem ensures Faithful(sem, f, CutFor(stage, f, bb, k)) {
        match stage
        case Inclusives => InclusiveFaithful(sem, f, bb, k);
        case Signs => SignedFaithful(sem, f, bb, k);
        case Halves(_, _) =>
          if eq { EqualityFaithful(sem, f, bb, k); } else { OrderFaithful(sem, f, bb, k); }
      }
      match stage
      case Inclusives => InclusiveShape(f, bb, k);
      case Signs => SignedShape(f, bb, k);
      case Halves(_, _) =>
        if eq { EqualityShape(f, bb, k); } else { OrderShape(f, bb, k); }
    }
    InsertedPieces(stage, f, bb, k);
    hide Apply, CutFor, Pieces, Inserted, Equivalent, Faithful, WellShaped;
    assert CutFor(stage, f, bb, k).bb == bb && CutFor(stage, f, bb, k).k == k by { CutAtSite(stage, f, bb, k); }
    var c := CutFor(stage, f, bb, k);
    CutPreserves(f, c);
    CutKeepsShape(f, c);
    CutKeepsSsa(f, c);
  }

  lemma CutAtSite(stage: Stage, f: Fn, bb: nat, k: nat)
    requires StageOk(stage) && Site(stage, f, bb, k)
    ensures CutFor(stage, f, bb, k).bb == bb && CutFor(stage, f, bb, k).k == k
  {
  }

  /** Rewriting one comparison preserves behaviour and well-formedness. */
  lemma RewritePreserves(stage: Stage, f: Fn, bb: nat, k: nat)
    requires StageOk(stage) && Site(stage, f, bb, k) && Good(f)
    ensures Equivalent(f, RewriteAt(stage, f, bb, k)) && Good(RewriteAt(stage, f, bb, k))
  {
    hide Apply, Equivalent, Good, CutFor;
    if stage.Halves? {
      var g := Mark(f, bb, k);
      MarkPreserves(f, bb, k);
      MarkKeepsGood(f, bb, k);
      if Halved(stage, f.blocks[bb].body[k]) {
        assert Site(stage, g, bb, k);
        CutForPreserves(stage, g, bb, k);
        EquivalentTransitive(f, g, RewriteAt(stage, f, bb, k));
      }
    } else {
      CutForPreserves(stage, f, bb, k);
    }
  }

  predicate Cuts(stage: Stage, i: Instr) { stage.Halves? ==> Halved(stage, i) }

  /** What rewriting comparison i changes in a count. */
  function Change(stage: Stage, f: Fn, bb: nat, k: nat, q: Query): int
    requires StageOk(stage) && Site(stage, f, bb, k)
  {
    var i := f.blocks[bb].body[k];
    var j := if stage.Halves? then Recorded(i) else i;
    if Cuts(stage, i) then
      var (x, y, z) := NewCompares(stage, if stage.Halves? then Mark(f, bb, k) else f, bb, k);
      Weight(q, x) + Weight(q, y) + (if z.Some? then Weight(q, z.value) else 0) - Weight(q, i)
    else Weight(q, j) - Weight(q, i)
  }

  lemma RewriteTally(stage: Stage, f: Fn, bb: nat, k: nat, q: Query)
    requires StageOk(stage) && Site(stage, f, bb, k) && AboutComparisons(q)
    ensures Tally(q, RewriteAt(stage, f, bb, k)) == Tally(q, f) + Change(stage, f, bb, k, q)
  {
    hide Apply, CutFor, Pieces, Weight, NewCompares, Tally, Recorded;
    var g := if stage.Halves? then Mark(f, bb, k) else f;
    if stage.Halves? {
      MarkTally(q, f, bb, k);
      assert g.blocks[bb].body[k] == Recorded(f.blocks[bb].body[k]);
      SiteMarked(stage, f, bb, k);
    }
    if Cuts(stage, f.blocks[bb].body[k]) {
      CutAtSite(stage, g, bb, k);
      InsertedPieces(stage, g, bb, k);
      CutTally(q, g, CutFor(stage, g, bb, k));
      PiecesTally(stage, g, bb, k, q);
    }
  }

  lemma SiteMarked(stage: Stage, f: Fn, bb: nat, k: nat)
    requires StageOk(stage) && stage.Halves? && Site(stage, f, bb, k)
    ensures Site(stage, Mark(f, bb, k), bb, k)
  {
  }

  lemma HalfMagic(f: Fn, bb: nat, k: nat)
    requires IcmpAt(f, bb, k) && f.blocks[bb].body[k].w > 1
    ensures var c := EqualityCut(f, bb, k); Counts(c.pre[4]) && Counts(c.right[0].body[2])
    ensures var c := OrderCut(f, bb, k); Counts(c.pre[4]) && Counts(c.right[0].body[0]) && Counts(c.right[1].body[2])
  {
  }

  lemma InclusiveShares(f: Fn, bb: nat, k: nat, q: Query)
    requires Site(Inclusives, f, bb, k) && (q == EqualityShare || q == OrderShare)
    ensures Change(Inclusives, f, bb, k, q) == 0
  {
    var i := f.blocks[bb].body[k];
    MagicStrict(i.a, i.b, i.pred, i.w);
    hide StandardMagic;
  }

  lemma SignedShares(f: Fn, bb: nat, k: nat, q: Query)
    requires Site(Signs, f, bb, k) && (q == EqualityShare || q == OrderShare)
    ensures Change(Signs, f, bb, k, q) == 0
  {
    var i := f.blocks[bb].body[k];
    MagicUnsigned(i.a, i.b, i.pred, i.w);
    hide StandardMagic;
  }

  lemma HalvedShares(stage: Stage, f: Fn, bb: nat, k: nat, q: Query)
    requires StageOk(stage) && stage.Halves? && Site(stage, f, bb, k) && (q == EqualityShare || q == OrderShare)
    ensures Change(stage, f, bb, k, q) == 0
  {
    var i := f.blocks[bb].body[k];
    assert Weight(q, Recorded(i)) == Weight(q, i);
    if Cuts(stage, i) {
      HalvedWeights(stage, f, bb, k, q);
    }
    hide StandardMagic, NewCompares, Weight, Mark, Recorded;
  }

  lemma HalvedWeights(stage: Stage, f: Fn, bb: nat, k: nat, q: Query)
    requires StageOk(stage) && stage.Halves? && Site(stage, f, bb, k) && (q == EqualityShare || q == OrderShare)
    requires Cuts(stage, f.blocks[bb].body[k])
    ensures var (x, y, z) := NewCompares(stage, Mark(f, bb, k), bb, k);
            Weight(q, x) + Weight(q, y) + (if z.Some? then Weight(q, z.value) else 0) == Weight(q, f.blocks[bb].body[k])
  {
    var g, i := Mark(f, bb, k), f.blocks[bb].body[k];
    HalfMagic(g, bb, k);
    if IsEquality(i.pred) {
      EqualityWeights(g, bb, k, i, q);
    } else {
      OrderWeights(g, bb, k, i, q);
    }
    hide StandardMagic, Weight, Counts;
  }

  lemma EqualityWeights(g: Fn, bb: nat, k: nat, i: Instr, q: Query)
    requires IcmpAt(g, bb, k) && g.blocks[bb].body[k] == Recorded(i) && (q == EqualityShare || q == OrderShare)
    requires Counts(i) && IsEquality(i.pred) && ByteMultiple(i.w) && i.w > 8
    requires var c := EqualityCut(g, bb, k); Counts(c.pre[4]) && Counts(c.right[0].body[2])
    ensures var c := EqualityCut(g, bb, k); Weight(q, c.pre[4]) + Weight(q, c.right[0].body[2]) == Weight(q, i)
  {
    hide StandardMagic;
  }

  lemma OrderWeights(g: Fn, bb: nat, k: nat, i: Instr, q: Query)
    requires IcmpAt(g, bb, k) && g.blocks[bb].body[k] == Recorded(i) && (q == EqualityShare || q == OrderShare)
    requires Counts(i) && (i.pred == UGT || i.pred == ULT) && ByteMultiple(i.w) && i.w > 8
    requires var c := OrderCut(g, bb, k);
      Counts(c.pre[4]) && Counts(c.right[0].body[0]) && Counts(c.right[1].body[2])
    ensures var c := OrderCut(g, bb, k);
      Weight(q, c.pre[4]) + Weight(q, c.right[0].body[0]) + Weight(q, c.right[1].body[2]) == Weight(q, i)
  {
    hide StandardMagic;
  }

  /** No expansion loses or adds byte comparisons: the shares are conserved. */
  lemma SharesConserved(stage: Stage, f: Fn, bb: nat, k: nat, q: Query)
    requires StageOk(stage) && Site(stage, f, bb, k) && (q == EqualityShare || q == OrderShare)
    ensures Change(stage, f, bb, k, q) == 0
  {
    hide Change;
    match stage
    case Inclusives => InclusiveShares(f, bb, k, q);
    case Signs => SignedShares(f, bb, k, q);
    case Halves(_, _) => HalvedShares(stage, f, bb, k, q);
  }

  /** A stage removes the comparison it rewrites from its own work and from no other stage's. */
  lemma StageProgress(stage: Stage, f: Fn, bb: nat, k: nat)
    requires StageOk(stage) && Site(stage, f, bb, k)
    ensures Change(stage, f, bb, k, Todo(stage)) == if Cuts(stage, f.blocks[bb].body[k]) then -1 else 0
  {
    hide StandardMagic;
  }

  /** The work of a finished stage. */
  predicate Earlier(q: Query, stage: Stage) {
    || (q == Inclusive && stage != Inclusives)
    || (q == SignedOrder && stage.Halves?)
    || (q.ComparisonOf? && stage.Halves? && q.w > stage.w)
  }

  lemma StageStable(stage: Stage, f: Fn, bb: nat, k: nat, q: Query)
    requires StageOk(stage) && Site(stage, f, bb, k) && Earlier(q, stage)
    ensures Change(stage, f, bb, k, q) == 0
  {
    hide StandardMagic;
  }

  /** Words are recorded once, and move with the comparison of the high halves. */
  lemma WordsConserved(stage: Stage, f: Fn, bb: nat, k: nat, d: seq<nat>)
    requires StageOk(stage) && Site(stage, f, bb, k) && d != []
    requires var i := f.blocks[bb].body[k]; !Hits(Premature(i.w), i)
    ensures Change(stage, f, bb, k, Word(d)) ==
            var i := f.blocks[bb].body[k];
            One(stage.Halves? && Recordable(i) && WordOf(i) == d)
  {
    hide StandardMagic, LittleEndian;
  }

  /** No stage leaves a word where a later stage would record another one. */
  lemma NothingPremature(stage: Stage, f: Fn, bb: nat, k: nat, v: nat)
    requires StageOk(stage) && Site(stage, f, bb, k) && (stage.Halves? ==> v < stage.w)
    ensures Change(stage, f, bb, k, Premature(v)) <= 0
  {
    hide StandardMagic, LittleEndian;
  }

  lemma WideConserved(f: Fn, bb: nat, k: nat)
    requires Site(Inclusives, f, bb, k)
    ensures Change(Inclusives, f, bb, k, WideSigned) == 0
  {
    var i := f.blocks[bb].body[k];
    MagicStrict(i.a, i.b, i.pred, i.w);
    hide StandardMagic;
  }

  // ----- a whole stage -----------------------------------------------------------------------

  lemma RewriteKeepsWorkList(stage: Stage, f: Fn, bb: nat, k: nat, todo: seq<Instr>)
    requires StageOk(stage) && Site(stage, f, bb, k)
    requires WorkList(Todo(stage), f, todo) && todo != [] && f.blocks[bb].body[k] == todo[0]
    ensures WorkList(Todo(stage), RewriteAt(stage, f, bb, k), todo[1..])
  {
    hide Apply, CutFor, Pieces, NewCompares, Tally, Recorded, Inserted;
    var g := if stage.Halves? then Mark(f, bb, k) else f;
    forall j | 0 <= j < |todo[1..]| ensures Tally(Exactly(todo[1..][j]), RewriteAt(stage, f, bb, k)) > 0 {
      var q := Exactly(todo[j + 1]);
      assert todo[1..][j] == todo[j + 1] && todo[0] != todo[j + 1] && Tally(q, f) > 0;
      if stage.Halves? {
        MarkTally(q, f, bb, k);
        SiteMarked(stage, f, bb, k);
      }
      if Cuts(stage, todo[0]) {
        CutAtSite(stage, g, bb, k);
        InsertedPieces(stage, g, bb, k);
        CutTally(q, g, CutFor(stage, g, bb, k));
      }
    }
  }

  /** Rewrites the comparisons of a work list one after the other. */
  function RewriteAll(stage: Stage, f: Fn, todo: seq<Instr>): Fn
    requires StageOk(stage) && WorkList(Todo(stage), f, todo)
    decreases |todo|
  {
    if todo == [] then f
    else
      var p := Locate(f, todo[0]);
      RewriteKeepsWorkList(stage, f, p.0, p.1, todo);
      RewriteAll(stage, RewriteAt(stage, f, p.0, p.1), todo[1..])
  }

  function Work(stage: Stage, f: Fn): seq<Instr> { Collect(Todo(stage), f) }

  lemma WorkIsWorkList(stage: Stage, f: Fn)
    requires Ssa(f)
    ensures WorkList(Todo(stage), f, Work(stage, f)) && |Work(stage, f)| == Tally(Todo(stage), f)
  {
    CollectIsWorkList(Todo(stage), f);
  }

  /** A whole stage. */
  function Pass(stage: Stage, f: Fn): Fn
    requires StageOk(stage) && Ssa(f)
  {
    WorkIsWorkList(stage, f);
    RewriteAll(stage, f, Work(stage, f))
  }

  lemma {:induction false} RewriteAllPreserves(stage: Stage, f: Fn, todo: seq<Instr>)
    requires StageOk(stage) && WorkList(Todo(stage), f, todo) && Good(f)
    ensures Equivalent(f, RewriteAll(stage, f, todo)) && Good(RewriteAll(stage, f, todo))
    decreases |todo|
  {
    hide RewriteAt, Good, Hits;
    if todo == [] {
      EquivalentReflexive(f);
    } else {
      var p := Locate(f, todo[0]);
      var g := RewriteAt(stage, f, p.0, p.1);
      RewriteKeepsWorkList(stage, f, p.0, p.1, todo);
      RewritePreserves(stage, f, p.0, p.1);
      RewriteAllPreserves(stage, g, todo[1..]);
      EquivalentTransitive(f, g, RewriteAll(stage, g, todo[1..]));
    }
  }

  lemma EquivalentReflexive(f: Fn)
    ensures Equivalent(f, f)
  {
  }

  /** A count that no rewriting of the stage changes is the same after the stage. */
  lemma {:induction false} RewriteAllTally(stage: Stage, f: Fn, todo: seq<Instr>, q: Query)
    requires StageOk(stage) && WorkList(Todo(stage), f, todo) && AboutComparisons(q)
    requires || q == EqualityShare || q == OrderShare || Earlier(q, stage) || (stage == Inclusives && q == WideSigned)
             || (q == Todo(stage) && forall i :: i in todo ==> Cuts(stage, i))
    ensures Tally(q, RewriteAll(stage, f, todo)) == Tally(q, f) - if q == Todo(stage) then |todo| else 0
    decreases |todo|
  {
    hide RewriteAt, Hits, Change, Cuts;
    if todo != [] {
      var p := Locate(f, todo[0]);
      var g := RewriteAt(stage, f, p.0, p.1);
      RewriteKeepsWorkList(stage, f, p.0, p.1, todo);
      RewriteTally(stage, f, p.0, p.1, q);
      if q == EqualityShare || q == OrderShare {
        SharesConserved(stage, f, p.0, p.1, q);
      } else if Earlier(q, stage) {
        StageStable(stage, f, p.0, p.1, q);
      } else if q == WideSigned {
        WideConserved(f, p.0, p.1);
      } else {
        StageProgress(stage, f, p.0, p.1);
      }
      RewriteAllTally(stage, g, todo[1..], q);
    }
  }

  lemma {:induction false} RewriteAllPremature(stage: Stage, f: Fn, todo: seq<Instr>, v: nat)
    requires StageOk(stage) && WorkList(Todo(stage), f, todo) && (stage.Halves? ==> v < stage.w)
    ensures Tally(Premature(v), RewriteAll(stage, f, todo)) <= Tally(Premature(v), f)
    decreases |todo|
  {
    hide RewriteAt, Hits, Change;
    if todo != [] {
      var p := Locate(f, todo[0]);
      RewriteKeepsWorkList(stage, f, p.0, p.1, todo);
      RewriteTally(stage, f, p.0, p.1, Premature(v));
      NothingPremature(stage, f, p.0, p.1, v);
      RewriteAllPremature(stage, RewriteAt(stage, f, p.0, p.1), todo[1..], v);
    }
  }

  /** How many comparisons of a list are recorded with word d. */
  function Recordings(todo: seq<Instr>, d: seq<nat>): nat {
    if todo == [] then 0
    else One(Recordable(todo[0]) && WordOf(todo[0]) == d) + Recordings(todo[1..], d)
  }

  lemma {:induction false} RewriteAllWords(stage: Stage, f: Fn, todo: seq<Instr>, d: seq<nat>)
    requires StageOk(stage) && WorkList(Todo(stage), f, todo) && d != []
    requires forall j :: 0 <= j < |todo| ==> todo[j].Icmp? ==> !Hits(Premature(todo[j].w), todo[j])
    ensures Tally(Word(d), RewriteAll(stage, f, todo)) ==
            Tally(Word(d), f) + if stage.Halves? then Recordings(todo, d) else 0
    decreases |todo|
  {
    hide RewriteAt, Change, Recordable, WordOf;
    if todo != [] {
      var p := Locate(f, todo[0]);
      RewriteKeepsWorkList(stage, f, p.0, p.1, todo);
      RewriteTally(stage, f, p.0, p.1, Word(d));
      WordsConserved(stage, f, p.0, p.1, d);
      RewriteAllWords(stage, RewriteAt(stage, f, p.0, p.1), todo[1..], d);
    }
  }

  // ----- the pass ----------------------------------------------------------------------------

  function Run1(stage: Stage, f: Fn): (g: Fn)
    requires StageOk(stage) && Good(f)
    ensures Good(g)
  {
    WorkIsWorkList(stage, f);
    RewriteAllPreserves(stage, f, Work(stage, f));
    Pass(stage, f)
  }

  function Simplified(mode: Mode, f: Fn): (g: Fn)
    requires Good(f)
    ensures Good(g)
  {
    if mode == NONE then f else Run1(Signs, Run1(Inclusives, f))
  }

  function HalvedTo(mode: Mode, f: Fn): (g: Fn)
    requires Good(f)
    ensures Good(g)
  {
    Run1(Halves(8, mode), Run1(Halves(16, mode), Run1(Halves(32, mode), Run1(Halves(64, mode), f))))
  }

  /** The pass gives up (an assertion of the compiler plugin) on signed comparisons of more than
      64 bits, after the inclusive ones have been split. */
  predicate GivesUp(mode: Mode, f: Fn)
    requires Good(f)
  {
    mode != NONE && Tally(WideStrict, Run1(Inclusives, f)) > 0
  }

  function Convert(mode: Mode, f: Fn): Option<Fn>
    requires Good(f)
  {
    if GivesUp(mode, f) then None else Some(HalvedTo(mode, Simplified(mode, f)))
  }

  lemma Run1Preserves(stage: Stage, f: Fn)
    requires StageOk(stage) && Good(f)
    ensures Equivalent(f, Run1(stage, f))
  {
    WorkIsWorkList(stage, f);
    RewriteAllPreserves(stage, f, Work(stage, f));
  }

  lemma SimplifiedPreserves(mode: Mode, f: Fn)
    requires Good(f)
    ensures Equivalent(f, Simplified(mode, f))
  {
    hide Run1, Equivalent, Good;
    if mode == NONE {
      assert Equivalent(f, f) by { EquivalentReflexive(f); }
    } else {
      var g := Run1(Inclusives, f);
      Run1Preserves(Inclusives, f);
      Run1Preserves(Signs, g);
      EquivalentTransitive(f, g, Run1(Signs, g));
    }
  }

  lemma HalvedPreserves(mode: Mode, f: Fn)
    requires Good(f)
    ensures Equivalent(f, HalvedTo(mode, f))
  {
    hide Run1, Equivalent, Good;
    var f64 := Run1(Halves(64, mode), f);
    var f32 := Run1(Halves(32, mode), f64);
    var f16 := Run1(Halves(16, mode), f32);
    Run1Preserves(Halves(64, mode), f);
    Run1Preserves(Halves(32, mode), f64);
    Run1Preserves(Halves(16, mode), f32);
    Run1Preserves(Halves(8, mode), f16);
    EquivalentTransitive(f, f64, f32);
    EquivalentTransitive(f, f32, f16);
    EquivalentTransitive(f, f16, HalvedTo(mode, f));
  }

  /** Main result: in every mode and for every well-formed function, the converted function has
      the same results, crashes, memory effects, counters and non-termination on every input, and
      is again well-formed, with one phi entry per predecessor edge. */
  lemma ConvertPreserves(mode: Mode, f: Fn)
    requires Good(f) && Convert(mode, f).Some?
    ensures Equivalent(f, Convert(mode, f).value) && Good(Convert(mode, f).value)
  {
    hide Simplified, HalvedTo, Equivalent, Good;
    SimplifiedPreserves(mode, f);
    HalvedPreserves(mode, Simplified(mode, f));
    EquivalentTransitive(f, Simplified(mode, f), HalvedTo(mode, Simplified(mode, f)));
  }

  // ----- what is left after the pass -----------------------------------------------------------

  lemma Run1Tally(stage: Stage, f: Fn, q: Query)
    requires StageOk(stage) && Good(f) && AboutComparisons(q)
    requires || q == EqualityShare || q == OrderShare || Earlier(q, stage) || (stage == Inclusives && q == WideSigned)
             || (q == Todo(stage) && (stage.Halves? ==> stage.mode == ALL && stage.w > 8))
    ensures Tally(q, Run1(stage, f)) == if q == Todo(stage) then 0 else Tally(q, f)
  {
    WorkIsWorkList(stage, f);
    RewriteAllTally(stage, f, Work(stage, f), q);
  }

  /** The pass gives up exactly on the functions that have a signed comparison of more than 64
      bits; inclusive ones count only when they are not standard-magic. */
  lemma GivesUpExactly(mode: Mode, f: Fn)
    requires Good(f)
    ensures GivesUp(mode, f) <==> mode != NONE && Tally(WideSigned, f) > 0
  {
    var g := Run1(Inclusives, f);
    Run1Tally(Inclusives, f, WideSigned);
    Run1Tally(Inclusives, f, Inclusive);
    hide Run1, Good;
    WideAreStrict(g.blocks);
  }

  lemma {:induction false} WideAreStrictIn(body: seq<Instr>)
    requires TallyBody(Inclusive, body) == 0
    ensures TallyBody(WideSigned, body) == TallyBody(WideStrict, body)
    decreases |body|
  {
    if body != [] {
      WideAreStrictIn(body[1..]);
    }
  }

  lemma {:induction false} WideAreStrict(bs: seq<Block>)
    requires TallyBlocks(Inclusive, bs) == 0
    ensures TallyBlocks(WideSigned, bs) == TallyBlocks(WideStrict, bs)
    decreases |bs|
  {
    if bs != [] {
      WideAreStrictIn(bs[0].body);
      NoPhiHits(WideSigned, bs[0].phis);
      NoPhiHits(WideStrict, bs[0].phis);
      WideAreStrict(bs[1..]);
    }
  }

  lemma {:induction false} SharesAreBytesIn(body: seq<Instr>)
    requires TallyBody(Inclusive, body) == 0 && TallyBody(SignedOrder, body) == 0
    requires TallyBody(ComparisonOf(64), body) == 0 && TallyBody(ComparisonOf(32), body) == 0
             && TallyBody(ComparisonOf(16), body) == 0
    ensures TallyBody(EqualityShare, body) == TallyBody(EqualityOf(8), body)
    ensures TallyBody(OrderShare, body) == TallyBody(OrderOf(8), body)
    decreases |body|
  {
    if body != [] {
      SharesAreBytesIn(body[1..]);
      assert Weight(EqualityShare, body[0]) == Weight(EqualityOf(8), body[0])
             && Weight(OrderShare, body[0]) == Weight(OrderOf(8), body[0]);
    }
  }

  lemma {:induction false} SharesAreBytes(bs: seq<Block>)
    requires TallyBlocks(Inclusive, bs) == 0 && TallyBlocks(SignedOrder, bs) == 0
    requires TallyBlocks(ComparisonOf(64), bs) == 0 && TallyBlocks(ComparisonOf(32), bs) == 0
             && TallyBlocks(ComparisonOf(16), bs) == 0
    ensures TallyBlocks(EqualityShare, bs) == TallyBlocks(EqualityOf(8), bs)
    ensures TallyBlocks(OrderShare, bs) == TallyBlocks(OrderOf(8), bs)
    decreases |bs|
  {
    if bs != [] {
      SharesAreBytesIn(bs[0].body);
      NoPhiHits(EqualityShare, bs[0].phis);
      NoPhiHits(OrderShare, bs[0].phis);
      NoPhiHits(EqualityOf(8), bs[0].phis);
      NoPhiHits(OrderOf(8), bs[0].phis);
      SharesAreBytes(bs[1..]);
    }
  }

  /** Under ALL nothing is left to convert. */
  ghost predicate OnlyBytes(g: Fn) {
    && Tally(Inclusive, g) == 0 && Tally(SignedOrder, g) == 0
    && Tally(ComparisonOf(64), g) == 0 && Tally(ComparisonOf(32), g) == 0 && Tally(ComparisonOf(16), g) == 0
  }

  /** What every halving stage keeps. */
  lemma StageCounts(stage: Stage, f: Fn)
    requires StageOk(stage) && stage.Halves? && Good(f)
    ensures var g := Run1(stage, f);
      && Tally(EqualityShare, g) == Tally(EqualityShare, f) && Tally(OrderShare, g) == Tally(OrderShare, f)
      && Tally(Inclusive, g) == Tally(Inclusive, f) && Tally(SignedOrder, g) == Tally(SignedOrder, f)
  {
    hide Run1, Good, Tally;
    Run1Tally(stage, f, EqualityShare);
    Run1Tally(stage, f, OrderShare);
    Run1Tally(stage, f, Inclusive);
    Run1Tally(stage, f, SignedOrder);
  }

  lemma SimplifiedCounts(mode: Mode, f: Fn)
    requires Good(f) && mode != NONE
    ensures var g := Simplified(mode, f);
      && Tally(Inclusive, g) == 0 && Tally(SignedOrder, g) == 0
      && Tally(EqualityShare, g) == Tally(EqualityShare, f) && Tally(OrderShare, g) == Tally(OrderShare, f)
  {
    hide Run1, Good, Tally;
    var f1 := Run1(Inclusives, f);
    Run1Tally(Inclusives, f, Inclusive);
    Run1Tally(Inclusives, f, EqualityShare);
    Run1Tally(Inclusives, f, OrderShare);
    Run1Tally(Signs, f1, Inclusive);
    Run1Tally(Signs, f1, SignedOrder);
    Run1Tally(Signs, f1, EqualityShare);
    Run1Tally(Signs, f1, OrderShare);
  }

  lemma HalvedKeep(mode: Mode, f: Fn)
    requires Good(f)
    ensures var g := HalvedTo(mode, f);
      && Tally(EqualityShare, g) == Tally(EqualityShare, f) && Tally(OrderShare, g) == Tally(OrderShare, f)
      && Tally(Inclusive, g) == Tally(Inclusive, f) && Tally(SignedOrder, g) == Tally(SignedOrder, f)
  {
    hide Run1, Good, Tally;
    var f64 := Run1(Halves(64, mode), f);
    var f32 := Run1(Halves(32, mode), f64);
    var f16 := Run1(Halves(16, mode), f32);
    StageCounts(Halves(64, mode), f);
    StageCounts(Halves(32, mode), f64);
    StageCounts(Halves(16, mode), f32);
    StageCounts(Halves(8, mode), f16);
  }

  /** Main result under ALL: a w-bit equality has become exactly w/8 byte comparisons and a w-bit
      order comparison exactly 3^log2(w/8), an inclusive one both; nothing wider is left. */
  lemma ConvertCounts(f: Fn)
    requires Good(f) && Convert(ALL, f).Some?
    ensures var g := Convert(ALL, f).value;
      && OnlyBytes(g)
      && Tally(EqualityOf(8), g) == Tally(EqualityShare, f)
      && Tally(OrderOf(8), g) == Tally(OrderShare, f)
  {
    hide Run1, Good, Tally;
    var f2 := Simplified(ALL, f);
    SimplifiedCounts(ALL, f);
    HalvedKeep(ALL, f2);
    assert OnlyBytes(HalvedTo(ALL, f2)) by {
      hide Run1, Good, Tally;
      var f64 := Run1(Halves(64, ALL), f2);
      var f32 := Run1(Halves(32, ALL), f64);
      var f16 := Run1(Halves(16, ALL), f32);
      Run1Tally(Halves(64, ALL), f2, ComparisonOf(64));
      Run1Tally(Halves(32, ALL), f64, ComparisonOf(32));
      Run1Tally(Halves(32, ALL), f64, ComparisonOf(64));
      Run1Tally(Halves(16, ALL), f32, ComparisonOf(16));
      Run1Tally(Halves(16, ALL), f32, ComparisonOf(32));
      Run1Tally(Halves(16, ALL), f32, ComparisonOf(64));
      Run1Tally(Halves(8, ALL), f16, ComparisonOf(16));
      Run1Tally(Halves(8, ALL), f16, ComparisonOf(32));
      Run1Tally(Halves(8, ALL), f16, ComparisonOf(64));
    }
    BytesOnly(HalvedTo(ALL, f2));
  }

  lemma BytesOnly(g: Fn)
    requires OnlyBytes(g)
    ensures Tally(EqualityShare, g) == Tally(EqualityOf(8), g) && Tally(OrderShare, g) == Tally(OrderOf(8), g)
  {
    SharesAreBytes(g.blocks);
  }

  /** Every comparison of 16, 32 or 64 bits that is left is a standard-magic one, and executing any
      other one costs one byte comparison or none: `work` has become the number of byte
      comparisons executed. */
  lemma LeftoversAreMagic(g: Fn, bb: nat, k: nat, env: Env)
    requires OnlyBytes(g) && IcmpAt(g, bb, k)
    ensures var i := g.blocks[bb].body[k];
      && (i.w == 16 || i.w == 32 || i.w == 64 ==> StandardMagic(i.a, i.b, i.pred, i.w))
      && IcmpWork(i, env) == One(Counts(i) && i.w == 8)
  {
    var i := g.blocks[bb].body[k];
    if Counts(i) {
      if Hits(Inclusive, i) { InBlocksCounts(Inclusive, g.blocks, bb, k); }
      if Hits(SignedOrder, i) { InBlocksCounts(SignedOrder, g.blocks, bb, k); }
      if Hits(ComparisonOf(i.w), i) { InBlocksCounts(ComparisonOf(i.w), g.blocks, bb, k); }
      hide StandardMagic;
    }
  }

  // ----- dictionary words over the whole pass --------------------------------------------------

  /** No comparison carries a word that the pass would overwrite or drop. */
  ghost predicate Unmarked(f: Fn, upTo: nat) {
    forall v: nat :: v <= upTo ==> Tally(Premature(v), f) == 0
  }

  lemma UnmarkedWork(stage: Stage, f: Fn)
    requires StageOk(stage) && Good(f) && forall v: nat :: Tally(Premature(v), f) == 0 || (stage.Halves? && v > stage.w)
    ensures forall j :: 0 <= j < |Work(stage, f)| ==> Work(stage, f)[j].Icmp? ==>
      !Hits(Premature(Work(stage, f)[j].w), Work(stage, f)[j])
  {
    WorkIsWorkList(stage, f);
    var todo := Work(stage, f);
    forall j | 0 <= j < |todo| && todo[j].Icmp? ensures !Hits(Premature(todo[j].w), todo[j]) {
      var p := Locate(f, todo[j]);
      if Hits(Premature(todo[j].w), todo[j]) {
        InBlocksCounts(Premature(todo[j].w), f.blocks, p.0, p.1);
      }
    }
  }

  /** The assertion of recordToDictionary: a comparison to be recorded carries no word yet. */
  lemma RecordedOnce(w: nat, mode: Mode, f: Fn)
    requires ByteMultiple(w) && Good(f) && Unmarked(f, w)
    ensures forall j :: 0 <= j < |Work(Halves(w, mode), f)| ==>
      Recordable(Work(Halves(w, mode), f)[j]) ==> Work(Halves(w, mode), f)[j].meta.dict == []
  {
    var stage := Halves(w, mode);
    UnmarkedWork(stage, f);
    var todo := Work(stage, f);
    hide Good, Work;
    forall j | 0 <= j < |todo| && Recordable(todo[j]) ensures todo[j].meta.dict == [] {
      assert !Hits(Premature(todo[j].w), todo[j]);
    }
  }

  /** A halving stage attaches exactly the words of the comparisons it collects, and loses none. */
  lemma HalvesWords(w: nat, mode: Mode, f: Fn, d: seq<nat>)
    requires ByteMultiple(w) && Good(f) && Unmarked(f, w) && d != []
    ensures var g := Run1(Halves(w, mode), f);
      && Tally(Word(d), g) == Tally(Word(d), f) + Recordings(Work(Halves(w, mode), f), d)
      && (forall v: nat :: v < w ==> Tally(Premature(v), g) == 0)
  {
    hide Hits, Recordable, WordOf;
    var stage := Halves(w, mode);
    WorkIsWorkList(stage, f);
    UnmarkedWork(stage, f);
    RewriteAllWords(stage, f, Work(stage, f), d);
    forall v: nat | v < w ensures Tally(Premature(v), Run1(stage, f)) == 0 {
      RewriteAllPremature(stage, f, Work(stage, f), v);
    }
  }

  lemma SimplifiedWords(stage: Stage, f: Fn, d: seq<nat>)
    requires !stage.Halves? && Good(f) && d != [] && forall v: nat :: Tally(Premature(v), f) == 0
    ensures var g := Run1(stage, f);
      Tally(Word(d), g) == Tally(Word(d), f) && forall v: nat :: Tally(Premature(v), g) == 0
  {
    WorkIsWorkList(stage, f);
    UnmarkedWork(stage, f);
    RewriteAllWords(stage, f, Work(stage, f), d);
    forall v: nat ensures Tally(Premature(v), Run1(stage, f)) == 0 {
      RewriteAllPremature(stage, f, Work(stage, f), v);
    }
  }

  /** The function at the entry of a halving stage. */
  function EntryOf(w: nat, mode: Mode, f: Fn): (g: Fn)
    requires ByteMultiple(w) && Good(f)
    ensures Good(g)
  {
    var s := Simplified(mode, f);
    if w == 64 then s
    else if w == 32 then Run1(Halves(64, mode), s)
    else if w == 16 then Run1(Halves(32, mode), Run1(Halves(64, mode), s))
    else Run1(Halves(16, mode), Run1(Halves(32, mode), Run1(Halves(64, mode), s)))
  }

  function WordsAt(w: nat, mode: Mode, f: Fn, d: seq<nat>): nat
    requires ByteMultiple(w) && Good(f)
  {
    Recordings(Work(Halves(w, mode), EntryOf(w, mode, f)), d)
  }

  /** Over the whole pass, the words attached to comparisons are exactly the recorded constants:
      one per collected comparison of an original constant, none lost, none duplicated. */
  lemma ConvertWords(mode: Mode, f: Fn, d: seq<nat>)
    requires Good(f) && Convert(mode, f).Some? && d != [] && forall v: nat :: Tally(Premature(v), f) == 0
    ensures Tally(Word(d), Convert(mode, f).value) == Tally(Word(d), f)
            + WordsAt(64, mode, f, d) + WordsAt(32, mode, f, d) + WordsAt(16, mode, f, d) + WordsAt(8, mode, f, d)
  {
    hide Run1, Good, Tally, Work;
    if mode != NONE {
      SimplifiedWords(Inclusives, f, d);
      SimplifiedWords(Signs, Run1(Inclusives, f), d);
    }
    HalvesWords(64, mode, EntryOf(64, mode, f), d);
    HalvesWords(32, mode, EntryOf(32, mode, f), d);
    HalvesWords(16, mode, EntryOf(16, mode, f), d);
    HalvesWords(8, mode, EntryOf(8, mode, f), d);
  }

  // ----- what NOT_DICT converts, and what it leaves with a word ----------------------------------

  lemma {:induction false} LittleEndianDenotes(n: nat, bytes: nat)
    ensures var d := LittleEndian(n, bytes);
            (forall j :: 0 <= j < |d| ==> d[j] < 256) && Denoted(d) == Low(8 * bytes, n)
    decreases bytes
  {
    if bytes > 0 {
      LittleEndianDenotes(n / 256, bytes - 1);
      LowByte(n, bytes);
      hide Low;
    }
  }

  lemma LowByte(n: nat, bytes: nat)
    requires bytes > 0
    ensures Low(8 * bytes, n) == n % 256 + 256 * Low(8 * (bytes - 1), n / 256)
  {
    var m, p := n / 256, Pow2(8 * (bytes - 1));
    Arithmetic.Pow2Add(8, 8 * (bytes - 1));
    assert Pow2(8) == 256;
    hide Pow2;
    var q, r := Div(m, p), m % p;
    assert n == 256 * m + n % 256 && m == q * p + r;
    Regroup256(q, p, r, n % 256);
    Arithmetic.DivUnique(n, 256 * p, q, 256 * r + n % 256);
  }

  lemma Regroup256(q: nat, p: nat, r: nat, b: nat)
    requires r < p && b < 256
    ensures 256 * (q * p + r) + b == q * (256 * p) + (256 * r + b) && 256 * r + b < 256 * p
  {
  }

  /** What is recorded is the constant itself, byte by byte. */
  lemma RecordedHasWord(i: Instr)
    requires Recordable(i)
    ensures WordFor(Recorded(i).meta.dict, i)
  {
    hide Denoted, Low;
    LittleEndianDenotes(if i.a.Const? then i.a.n else i.b.n, i.w / 8);
  }

  /** What a halving stage that keeps the recorded comparisons brings to an end, or leaves alone. */
  predicate AboutWords(q: Query, stage: Stage)
  {
    && stage.Halves? && stage.mode != ALL && (q.Convertible? || q.ConstantOf? || q.Wordless?)
    && (stage.w <= q.w || q.ConstantOf?) && (q == Convertible(stage.w) ==> stage.w > 8 && stage.mode == NOT_DICT)
  }

  /** A comparison that is no equality of the original with a constant is converted; such an equality stays, and
      gets its word. */
  lemma WordsChange(stage: Stage, f: Fn, bb: nat, k: nat, q: Query)
    requires StageOk(stage) && Site(stage, f, bb, k) && AboutWords(q, stage)
    ensures Change(stage, f, bb, k, q) + One(q.w == stage.w && !q.ConstantOf? && Hits(q, f.blocks[bb].body[k])) == 0
  {
    var i := f.blocks[bb].body[k];
    if Recordable(i) {
      WordsKept(stage, i, q);
      hide *;
    } else {
      WordsCut(stage, f, bb, k, q);
    }
    hide StandardMagic, WordFor, LittleEndian, NewCompares, Mark;
  }

  lemma WordsKept(stage: Stage, i: Instr, q: Query)
    requires stage.Halves? && Hits(Todo(stage), i) && AboutWords(q, stage) && Recordable(i)
    ensures !Cuts(stage, i)
    ensures Weight(q, Recorded(i)) + One(q.w == stage.w && !q.ConstantOf? && Hits(q, i)) == Weight(q, i)
  {
    RecordedHasWord(i);
    hide StandardMagic, WordFor, LittleEndian;
  }

  lemma WordsCut(stage: Stage, f: Fn, bb: nat, k: nat, q: Query)
    requires StageOk(stage) && Site(stage, f, bb, k) && AboutWords(q, stage) && !Recordable(f.blocks[bb].body[k])
    ensures Change(stage, f, bb, k, q) + One(q.w == stage.w && !q.ConstantOf? && Hits(q, f.blocks[bb].body[k])) == 0
  {
    hide StandardMagic, WordFor, LittleEndian;
  }

  lemma {:induction false} WordsAll(stage: Stage, f: Fn, todo: seq<Instr>, q: Query)
    requires StageOk(stage) && WorkList(Todo(stage), f, todo) && AboutWords(q, stage)
    ensures Tally(q, RewriteAll(stage, f, todo)) ==
            Tally(q, f) - if q.w == stage.w && !q.ConstantOf? then TallyBody(q, todo) else 0
    decreases |todo|
  {
    hide RewriteAt, Hits, Change, Tally;
    if todo != [] {
      var p := Locate(f, todo[0]);
      RewriteKeepsWorkList(stage, f, p.0, p.1, todo);
      RewriteTally(stage, f, p.0, p.1, q);
      WordsChange(stage, f, p.0, p.1, q);
      WordsAll(stage, RewriteAt(stage, f, p.0, p.1), todo[1..], q);
    }
  }

  lemma WordsStage(w: nat, mode: Mode, f: Fn, q: Query)
    requires ByteMultiple(w) && Good(f) && AboutWords(q, Halves(w, mode))
    ensures Tally(q, Run1(Halves(w, mode), f)) == if q.w == w && !q.ConstantOf? then 0 else Tally(q, f)
  {
    var stage := Halves(w, mode);
    if q.w == w {
      WordsCollected(w, f, q);
    }
    hide Tally, Hits, Work;
    WorkIsWorkList(stage, f);
    WordsAll(stage, f, Work(stage, f), q);
  }

  lemma WordsCollected(w: nat, f: Fn, q: Query)
    requires (q.Convertible? || q.ConstantOf? || q.Wordless?) && q.w == w
    ensures forall mode :: TallyBody(q, Work(Halves(w, mode), f)) == Tally(q, f)
  {
    forall i | Hits(q, i) ensures Hits(ComparisonOf(w), i) {
    }
    CollectLosesNothing(ComparisonOf(w), q, f.blocks);
    hide Hits;
  }

  /** All the stages: nothing convertible and no constant without its word is left. */
  lemma WordsHalved(mode: Mode, f: Fn, q: Query)
    requires Good(f) && mode != ALL && (q.Convertible? || q.ConstantOf? || q.Wordless?) && ByteMultiple(q.w)
    requires q.Convertible? ==> q.w > 8 && mode == NOT_DICT
    ensures Tally(q, HalvedTo(mode, f)) == if q.ConstantOf? then Tally(q, f) else 0
  {
    var f64 := Run1(Halves(64, mode), f);
    var f32 := Run1(Halves(32, mode), f64);
    var f16 := Run1(Halves(16, mode), f32);
    hide Run1, Good, Tally, HalvedTo;
    if AboutWords(q, Halves(64, mode)) { WordsStage(64, mode, f, q); }
    if AboutWords(q, Halves(32, mode)) { WordsStage(32, mode, f64, q); }
    if AboutWords(q, Halves(16, mode)) { WordsStage(16, mode, f32, q); }
    WordsStage(8, mode, f16, q);
    assert HalvedTo(mode, f) == Run1(Halves(8, mode), f16) by { HalvedInSteps(mode, f); }
  }

  lemma HalvedInSteps(mode: Mode, f: Fn)
    requires Good(f)
    ensures HalvedTo(mode, f) ==
            Run1(Halves(8, mode), Run1(Halves(16, mode), Run1(Halves(32, mode), Run1(Halves(64, mode), f))))
  {
    hide Run1, Good;
  }

  /** Splitting an inclusive comparison with a constant adds an equality with it; nothing else does. */
  lemma ConstantsKept(stage: Stage, f: Fn, bb: nat, k: nat, w: nat)
    requires !stage.Halves? && Site(stage, f, bb, k) && w > 1
    ensures Change(stage, f, bb, k, ConstantOf(w)) == One(Hits(ConstantBound(w), f.blocks[bb].body[k]))
  {
    var i := f.blocks[bb].body[k];
    if stage == Inclusives {
      MagicStrict(i.a, i.b, i.pred, i.w);
    }
    hide StandardMagic;
  }

  lemma {:induction false} ConstantsAll(stage: Stage, f: Fn, todo: seq<Instr>, w: nat)
    requires !stage.Halves? && WorkList(Todo(stage), f, todo) && w > 1
    ensures Tally(ConstantOf(w), RewriteAll(stage, f, todo)) ==
            Tally(ConstantOf(w), f) + TallyBody(ConstantBound(w), todo)
    decreases |todo|
  {
    hide RewriteAt, Hits, Change, Tally;
    if todo != [] {
      var p := Locate(f, todo[0]);
      RewriteKeepsWorkList(stage, f, p.0, p.1, todo);
      RewriteTally(stage, f, p.0, p.1, ConstantOf(w));
      ConstantsKept(stage, f, p.0, p.1, w);
      ConstantsAll(stage, RewriteAt(stage, f, p.0, p.1), todo[1..], w);
    }
  }

  lemma {:induction false} NoBounds(w: nat, todo: seq<Instr>)
    requires forall j :: 0 <= j < |todo| ==> Hits(SignedOrder, todo[j])
    ensures TallyBody(ConstantBound(w), todo) == 0
    decreases |todo|
  {
    if todo != [] {
      assert Hits(SignedOrder, todo[0]);
      NoBounds(w, todo[1..]);
    }
  }

  lemma ConstantsAdded(f: Fn, w: nat)
    requires Good(f) && w > 1
    ensures Tally(ConstantOf(w), Run1(Inclusives, f)) == Tally(ConstantOf(w), f) + Tally(ConstantBound(w), f)
  {
    BoundsCollected(w, f);
    hide Tally, Hits, Work;
    WorkIsWorkList(Inclusives, f);
    ConstantsAll(Inclusives, f, Work(Inclusives, f), w);
  }

  lemma BoundsCollected(w: nat, f: Fn)
    ensures TallyBody(ConstantBound(w), Work(Inclusives, f)) == Tally(ConstantBound(w), f)
  {
    forall i | Hits(ConstantBound(w), i) ensures Hits(Inclusive, i) {
    }
    CollectLosesNothing(Inclusive, ConstantBound(w), f.blocks);
    hide Hits;
  }

  lemma ConstantsSimplified(mode: Mode, f: Fn, w: nat)
    requires Good(f) && mode != NONE && w > 1
    ensures Tally(ConstantOf(w), Simplified(mode, f)) == Tally(ConstantOf(w), f) + Tally(ConstantBound(w), f)
  {
    ConstantsAdded(f, w);
    var f1 := Run1(Inclusives, f);
    hide Tally, Hits, Work;
    WorkIsWorkList(Signs, f1);
    ConstantsAll(Signs, f1, Work(Signs, f1), w);
    NoBounds(w, Work(Signs, f1));
  }

  /** Under NOT_DICT what is left at 16, 32 and 64 bits is the equalities with constants, and they have their words. */
  ghost predicate OnlyWords(g: Fn) {
    && Tally(Inclusive, g) == 0 && Tally(SignedOrder, g) == 0
    && Tally(Convertible(64), g) == 0 && Tally(Convertible(32), g) == 0 && Tally(Convertible(16), g) == 0
    && Tally(Wordless(64), g) == 0 && Tally(Wordless(32), g) == 0 && Tally(Wordless(16), g) == 0
    && Tally(Wordless(8), g) == 0
  }

  lemma SharesLeftHere(i: Instr)
    requires !Hits(Inclusive, i) && !Hits(SignedOrder, i)
    requires !Hits(Convertible(64), i) && !Hits(Convertible(32), i) && !Hits(Convertible(16), i)
    ensures OrderParts(i) == One(Hits(OrderOf(8), i))
    ensures EqualityParts(i) == One(Hits(EqualityOf(8), i)) + 2 * One(Hits(ConstantOf(16), i))
                                + 4 * One(Hits(ConstantOf(32), i)) + 8 * One(Hits(ConstantOf(64), i))
  {
    hide StandardMagic;
  }

  lemma {:induction false} SharesLeftIn(body: seq<Instr>)
    requires TallyBody(Inclusive, body) == 0 && TallyBody(SignedOrder, body) == 0
    requires TallyBody(Convertible(64), body) == 0 && TallyBody(Convertible(32), body) == 0
             && TallyBody(Convertible(16), body) == 0
    ensures TallyBody(OrderShare, body) == TallyBody(OrderOf(8), body)
    ensures TallyBody(EqualityShare, body) == TallyBody(EqualityOf(8), body)
            + 2 * TallyBody(ConstantOf(16), body) + 4 * TallyBody(ConstantOf(32), body)
            + 8 * TallyBody(ConstantOf(64), body)
    decreases |body|
  {
    hide Hits, EqualityParts, OrderParts;
    if body != [] {
      SharesLeftHere(body[0]);
      SharesLeftIn(body[1..]);
    }
  }

  lemma {:induction false} SharesLeft(bs: seq<Block>)
    requires TallyBlocks(Inclusive, bs) == 0 && TallyBlocks(SignedOrder, bs) == 0
    requires TallyBlocks(Convertible(64), bs) == 0 && TallyBlocks(Convertible(32), bs) == 0
             && TallyBlocks(Convertible(16), bs) == 0
    ensures TallyBlocks(OrderShare, bs) == TallyBlocks(OrderOf(8), bs)
    ensures TallyBlocks(EqualityShare, bs) == TallyBlocks(EqualityOf(8), bs)
            + 2 * TallyBlocks(ConstantOf(16), bs) + 4 * TallyBlocks(ConstantOf(32), bs)
            + 8 * TallyBlocks(ConstantOf(64), bs)
    decreases |bs|
  {
    hide TallyBody, TallyPhis, TermHits;
    if bs != [] {
      SharesLeftIn(bs[0].body);
      PhisHitNothing(bs[0]);
      SharesLeft(bs[1..]);
    }
  }

  lemma PhisHitNothing(b: Block)
    ensures forall q: Query :: !q.Defines? ==> TallyPhis(q, b.phis) == 0 && !TermHits(q, b.term)
  {
    forall q: Query | !q.Defines? ensures TallyPhis(q, b.phis) == 0 && !TermHits(q, b.term) {
      NoPhiHits(q, b.phis);
    }
  }

  /** Main result under NOT_DICT: every comparison of 16, 32 or 64 bits is converted, except the standard-magic ones
      and the equalities with a constant; these keep their width and get their words. An order comparison has
      become exactly 3^log2(w/8) byte comparisons. */
  lemma NotDictConverts(f: Fn)
    requires Good(f) && Convert(NOT_DICT, f).Some?
    ensures var g := Convert(NOT_DICT, f).value;
      && OnlyWords(g)
      && Tally(OrderOf(8), g) == Tally(OrderShare, f)
      && Tally(EqualityOf(8), g) + 2 * Tally(ConstantOf(16), g) + 4 * Tally(ConstantOf(32), g)
         + 8 * Tally(ConstantOf(64), g) == Tally(EqualityShare, f)
      && forall w :: w in {8, 16, 32, 64} ==>
           Tally(ConstantOf(w), g) == Tally(ConstantOf(w), f) + Tally(ConstantBound(w), f)
  {
    hide Run1, Good, Tally, OnlyWords, HalvedTo;
    var f2 := Simplified(NOT_DICT, f);
    var g := HalvedTo(NOT_DICT, f2);
    SimplifiedCounts(NOT_DICT, f);
    HalvedKeep(NOT_DICT, f2);
    OnlyWordsLeft(f2);
    assert Tally(OrderShare, g) == Tally(OrderOf(8), g)
      && Tally(EqualityShare, g) == Tally(EqualityOf(8), g) + 2 * Tally(ConstantOf(16), g)
         + 4 * Tally(ConstantOf(32), g) + 8 * Tally(ConstantOf(64), g) by {
      WordsOnly(g);
    }
    forall w | w in {8, 16, 32, 64}
      ensures Tally(ConstantOf(w), g) == Tally(ConstantOf(w), f) + Tally(ConstantBound(w), f)
    {
      WordsHalved(NOT_DICT, f2, ConstantOf(w));
      ConstantsSimplified(NOT_DICT, f, w);
    }
  }

  lemma WordsOnly(g: Fn)
    requires OnlyWords(g)
    ensures Tally(OrderShare, g) == Tally(OrderOf(8), g)
    ensures Tally(EqualityShare, g) == Tally(EqualityOf(8), g) + 2 * Tally(ConstantOf(16), g)
            + 4 * Tally(ConstantOf(32), g) + 8 * Tally(ConstantOf(64), g)
  {
    SharesLeft(g.blocks);
  }

  lemma OnlyWordsLeft(f: Fn)
    requires Good(f) && Tally(Inclusive, f) == 0 && Tally(SignedOrder, f) == 0
    ensures OnlyWords(HalvedTo(NOT_DICT, f))
  {
    hide Good, Tally, HalvedTo;
    HalvedKeep(NOT_DICT, f);
    WordsHalved(NOT_DICT, f, Convertible(64));
    WordsHalved(NOT_DICT, f, Convertible(32));
    WordsHalved(NOT_DICT, f, Convertible(16));
    WordsHalved(NOT_DICT, f, Wordless(64));
    WordsHalved(NOT_DICT, f, Wordless(32));
    WordsHalved(NOT_DICT, f, Wordless(16));
    WordsHalved(NOT_DICT, f, Wordless(8));
  }

  /** Every comparison that is left, one by one. */
  lemma LeftoversHaveWords(g: Fn, bb: nat, k: nat)
    requires OnlyWords(g) && IcmpAt(g, bb, k) && g.blocks[bb].body[k].w in {16, 32, 64}
    ensures var i := g.blocks[bb].body[k];
      || StandardMagic(i.a, i.b, i.pred, i.w)
      || ((i.pred == EQ || i.pred == NE) && (i.a.Const? || i.b.Const?) && !i.meta.flagged && WordFor(i.meta.dict, i))
  {
    var i := g.blocks[bb].body[k];
    if Counts(i) {
      if Hits(Inclusive, i) { InBlocksCounts(Inclusive, g.blocks, bb, k); }
      if Hits(SignedOrder, i) { InBlocksCounts(SignedOrder, g.blocks, bb, k); }
      if Hits(Convertible(i.w), i) { InBlocksCounts(Convertible(i.w), g.blocks, bb, k); }
      if Hits(Wordless(i.w), i) { InBlocksCounts(Wordless(i.w), g.blocks, bb, k); }
    }
    hide StandardMagic, WordFor;
  }

  // ----- what NONE does --------------------------------------------------------------------------

  /** Only an equality with a constant may differ, and only by the word of that constant. */
  predicate SameButWord(i: Instr, j: Instr) {
    || i == j
    || (i.Icmp? && (i.pred == EQ || i.pred == NE) && (i.a.Const? || i.b.Const?) && !i.meta.flagged
        && j.Icmp? && WordFor(j.meta.dict, i) && j == i.(meta := Meta(false, j.meta.dict)))
  }

  ghost predicate SameButWords(f: Fn, g: Fn) {
    && f.next == g.next && |f.blocks| == |g.blocks|
    && forall b :: 0 <= b < |f.blocks| ==>
         && f.blocks[b].phis == g.blocks[b].phis && f.blocks[b].term == g.blocks[b].term
         && |f.blocks[b].body| == |g.blocks[b].body|
         && forall k :: 0 <= k < |f.blocks[b].body| ==> SameButWord(f.blocks[b].body[k], g.blocks[b].body[k])
  }

  lemma SameTransitive(f: Fn, g: Fn, h: Fn)
    requires SameButWords(f, g) && SameButWords(g, h)
    ensures SameButWords(f, h)
  {
    forall b, k | 0 <= b < |f.blocks| && 0 <= k < |f.blocks[b].body|
      ensures SameButWord(f.blocks[b].body[k], h.blocks[b].body[k])
    {
      assert SameButWord(f.blocks[b].body[k], g.blocks[b].body[k])
             && SameButWord(g.blocks[b].body[k], h.blocks[b].body[k]);
    }
    hide WordFor, SameButWord;
  }

  lemma MarkedIsSame(stage: Stage, f: Fn, bb: nat, k: nat)
    requires StageOk(stage) && Site(stage, f, bb, k) && stage.Halves? && stage.mode == NONE
    ensures SameButWords(f, RewriteAt(stage, f, bb, k))
  {
    var i := f.blocks[bb].body[k];
    if Recordable(i) {
      RecordedHasWord(i);
    }
    hide StandardMagic, WordFor, LittleEndian;
  }

  lemma {:induction false} AllMarkedIsSame(stage: Stage, f: Fn, todo: seq<Instr>)
    requires StageOk(stage) && WorkList(Todo(stage), f, todo) && stage.Halves? && stage.mode == NONE
    ensures SameButWords(f, RewriteAll(stage, f, todo))
    decreases |todo|
  {
    if todo != [] {
      var p := Locate(f, todo[0]);
      var g := RewriteAt(stage, f, p.0, p.1);
      RewriteKeepsWorkList(stage, f, p.0, p.1, todo);
      MarkedIsSame(stage, f, p.0, p.1);
      AllMarkedIsSame(stage, g, todo[1..]);
      SameTransitive(f, g, RewriteAll(stage, g, todo[1..]));
      hide RewriteAt, Hits, Tally, SameButWords;
    }
  }

  lemma StageOnlyRecords(w: nat, f: Fn)
    requires ByteMultiple(w) && Good(f)
    ensures SameButWords(f, Run1(Halves(w, NONE), f))
  {
    hide SameButWords, Hits, Tally;
    WorkIsWorkList(Halves(w, NONE), f);
    AllMarkedIsSame(Halves(w, NONE), f, Work(Halves(w, NONE), f));
  }

  /** Main result under NONE: the function stays as it is, but every equality with a constant has its word. */
  lemma NoneOnlyRecords(f: Fn)
    requires Good(f)
    ensures Convert(NONE, f).Some? && SameButWords(f, Convert(NONE, f).value)
    ensures forall w :: w in {8, 16, 32, 64} ==> Tally(Wordless(w), Convert(NONE, f).value) == 0
  {
    hide SameButWords, Run1, Good, Tally;
    var f64 := Run1(Halves(64, NONE), f);
    var f32 := Run1(Halves(32, NONE), f64);
    var f16 := Run1(Halves(16, NONE), f32);
    var g := Run1(Halves(8, NONE), f16);
    StageOnlyRecords(64, f);
    StageOnlyRecords(32, f64);
    StageOnlyRecords(16, f32);
    StageOnlyRecords(8, f16);
    SameTransitive(f, f64, f32);
    SameTransitive(f, f32, f16);
    SameTransitive(f, f16, g);
    forall w | w in {8, 16, 32, 64} ensures Tally(Wordless(w), g) == 0 {
      WordsHalved(NONE, f, Wordless(w));
    }
  }
}
