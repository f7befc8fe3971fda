/** Counting instructions and definitions across a function, and how a cut changes the counts. */
module Census {
  import opened Ir
  import opened Agreement
  import opened Splice

  /** What to count. */
  datatype Query =
    | Defines(r: Reg)
    | Exactly(i: Instr)
    | Inclusive
    | SignedOrder
    | EqualityOf(w: nat)
    | OrderOf(w: nat)
    | ComparisonOf(w: nat)
    | Premature(w: nat)
    | WideSigned
    | WideStrict
    | Word(d: seq<nat>)
    | Convertible(w: nat)
    | ConstantOf(w: nat)
    | ConstantBound(w: nat)
    | Wordless(w: nat)
    | Selects
    | EqualityShare
    | OrderShare

  /** Integer comparisons that are not standard-magic. */
  predicate Counts(i: Instr) {
    i.Icmp? && !StandardMagic(i.a, i.b, i.pred, i.w)
  }

  predicate Equality(i: Instr) { i.Icmp? && (i.pred == EQ || i.pred == NE) }

  predicate HasConstant(i: Instr) { i.Icmp? && (i.a.Const? || i.b.Const?) }

  /** The number that bytes denote, the least significant one first. */
  function Denoted(d: seq<nat>): nat { if d == [] then 0 else d[0] + 256 * Denoted(d[1..]) }

  /** The bytes of the constant that a comparison compares with. */
  predicate WordFor(d: seq<nat>, i: Instr)
    requires HasConstant(i)
  {
    && |d| == i.w / 8 && (forall j :: 0 <= j < |d| ==> d[j] < 256)
    && Denoted(d) == Low(8 * (i.w / 8), if i.a.Const? then i.a.n else i.b.n)
  }

  predicate Hits(q: Query, i: Instr) {
    match q
    case Defines(r) => !i.Bump? && i.dst == r
    case Exactly(j) => i == j
    case Inclusive => Counts(i) && (i.pred == UGE || i.pred == SGE || i.pred == ULE || i.pred == SLE)
    case SignedOrder => Counts(i) && (i.pred == SGT || i.pred == SLT)
    case EqualityOf(w) => Counts(i) && i.w == w && (i.pred == EQ || i.pred == NE)
    case OrderOf(w) => Counts(i) && i.w == w && (i.pred == UGT || i.pred == ULT)
    case ComparisonOf(w) => Counts(i) && i.w == w && (i.pred == EQ || i.pred == NE || i.pred == UGT || i.pred == ULT)
    case Premature(w) => i.Icmp? && i.w == w && i.meta.dict != [] && !(i.meta.flagged && (i.pred == EQ || i.pred == NE))
    case WideSigned =>
      i.Icmp? && i.w > 64 && (i.pred == SGT || i.pred == SLT || (Counts(i) && (i.pred == SGE || i.pred == SLE)))
    case WideStrict => i.Icmp? && i.w > 64 && (i.pred == SGT || i.pred == SLT)
    case Word(d) => i.Icmp? && d != [] && i.meta.dict == d
    case Convertible(w) =>
      Counts(i) && i.w == w && (i.pred == UGT || i.pred == ULT || (Equality(i) && (i.meta.flagged || !HasConstant(i))))
    case ConstantOf(w) => Counts(i) && i.w == w && Equality(i) && !i.meta.flagged && HasConstant(i)
    case ConstantBound(w) =>
      Counts(i) && i.w == w && (i.pred == UGE || i.pred == SGE || i.pred == ULE || i.pred == SLE) && HasConstant(i)
    case Wordless(w) =>
      Counts(i) && i.w == w && Equality(i) && !i.meta.flagged && HasConstant(i) && !WordFor(i.meta.dict, i)
    case Selects => i.Select?
    case EqualityShare => EqualityParts(i) > 0
    case OrderShare => OrderParts(i) > 0
  }

  /** Into how many byte comparisons for equality a comparison is going to be expanded. */
  function EqualityParts(i: Instr): nat {
    if !Counts(i) || !ByteMultiple(i.w) || i.pred == UGT || i.pred == ULT || i.pred == SGT || i.pred == SLT then 0
    else i.w / 8
  }

  /** 3^log2(w/8) */
  function OrderWeight(w: nat): nat {
    if w == 8 then 1 else if w == 16 then 3 else if w == 32 then 9 else if w == 64 then 27 else 0
  }

  /** Into how many byte comparisons for order. */
  function OrderParts(i: Instr): nat {
    if !Counts(i) || i.pred == EQ || i.pred == NE then 0 else OrderWeight(i.w)
  }

  predicate Simple(q: Query) { !q.EqualityShare? && !q.OrderShare? }

  /** What an instruction contributes to a count. */
  function Weight(q: Query, i: Instr): nat {
    match q
    case EqualityShare => EqualityParts(i)
    case OrderShare => OrderParts(i)
    case _ => One(Hits(q, i))
  }

  predicate DefinesHere(q: Query, r: Reg) { q == Defines(r) }

  predicate TermHits(q: Query, t: Term) { t.Multi? && DefinesHere(q, t.dst) }

  function One(b: bool): nat { if b then 1 else 0 }

  function TallyBody(q: Query, body: seq<Instr>): nat {
    if body == [] then 0 else Weight(q, body[0]) + TallyBody(q, body[1..])
  }

  function TallyPhis(q: Query, phis: seq<Phi>): nat {
    if phis == [] then 0 else One(DefinesHere(q, phis[0].dst)) + TallyPhis(q, phis[1..])
  }

  function TallyBlock(q: Query, b: Block): nat {
    TallyPhis(q, b.phis) + TallyBody(q, b.body) + One(TermHits(q, b.term))
  }

  function TallyBlocks(q: Query, bs: seq<Block>): nat {
    if bs == [] then 0 else TallyBlock(q, bs[0]) + TallyBlocks(q, bs[1..])
  }

  function Tally(q: Query, f: Fn): nat { TallyBlocks(q, f.blocks) }

  /** Static single assignment. */
  ghost predicate Ssa(f: Fn) {
    forall r: Reg :: Tally(Defines(r), f) <= 1
  }

  ghost predicate Good(f: Fn) { Closed(f) && PhisOk(f) && Ssa(f) }

  // ----- sums --------------------------------------------------------------------------------

  lemma {:induction false} TallyAppend(q: Query, a: seq<Instr>, b: seq<Instr>)
    ensures TallyBody(q, a + b) == TallyBody(q, a) + TallyBody(q, b)
    decreases |a|
  {
    if a == [] {
      assert a + b == b;
    } else {
      assert (a + b)[1..] == a[1..] + b;
      TallyAppend(q, a[1..], b);
    }
  }

  lemma TallySingle(q: Query, i: Instr)
    ensures TallyBody(q, [i]) == Weight(q, i)
  {
    assert [i][1..] == [];
  }

  lemma {:induction false} TallyBlocksAppend(q: Query, a: seq<Block>, b: seq<Block>)
    ensures TallyBlocks(q, a + b) == TallyBlocks(q, a) + TallyBlocks(q, b)
    decreases |a|
  {
    if a == [] {
      assert a + b == b;
    } else {
      assert (a + b)[1..] == a[1..] + b;
      TallyBlocksAppend(q, a[1..], b);
    }
  }

  lemma {:induction false} TallyUpdate(q: Query, bs: seq<Block>, n: nat, b: Block)
    requires n < |bs|
    ensures TallyBlocks(q, bs[n := b]) + TallyBlock(q, bs[n]) == TallyBlocks(q, bs) + TallyBlock(q, b)
    decreases |bs|
  {
    if n == 0 {
      assert bs[0 := b][1..] == bs[1..];
    } else {
      assert bs[n := b][1..] == bs[1..][n - 1 := b];
      TallyUpdate(q, bs[1..], n - 1, b);
    }
  }

  lemma {:induction false} TallySame(q: Query, a: seq<Block>, b: seq<Block>)
    requires |a| == |b| && forall i :: 0 <= i < |a| ==> TallyBlock(q, a[i]) == TallyBlock(q, b[i])
    ensures TallyBlocks(q, a) == TallyBlocks(q, b)
    decreases |a|
  {
    if a != [] {
      TallySame(q, a[1..], b[1..]);
    }
  }

  lemma {:induction false} TallyRename(q: Query, phis: seq<Phi>, from: nat, to: nat)
    ensures TallyPhis(q, RenamePhis(phis, from, to)) == TallyPhis(q, phis)
    decreases |phis|
  {
    if phis != [] {
      TallyRename(q, phis[1..], from, to);
      assert RenamePhis(phis, from, to)[1..] == RenamePhis(phis[1..], from, to);
    }
  }

  function Bodies(bs: seq<Block>): seq<Instr> {
    if bs == [] then [] else bs[0].body + Bodies(bs[1..])
  }

  /** The instructions a cut inserts, in the order in which they are numbered. */
  function Inserted(c: Cut): seq<Instr> { c.pre + Bodies(c.left) + Bodies(c.right) }

  predicate NoMulti(bs: seq<Block>) {
    forall i :: 0 <= i < |bs| ==> bs[i].phis == [] && !bs[i].term.Multi?
  }

  lemma {:induction false} TallyBodies(q: Query, bs: seq<Block>)
    requires NoMulti(bs)
    ensures TallyBlocks(q, bs) == TallyBody(q, Bodies(bs))
    decreases |bs|
  {
    if bs != [] {
      assert NoMulti(bs[1..]);
      TallyBodies(q, bs[1..]);
      TallyAppend(q, bs[0].body, Bodies(bs[1..]));
    }
  }

  lemma TallySplit(q: Query, body: seq<Instr>, k: nat)
    requires k < |body|
    ensures TallyBody(q, body) == TallyBody(q, body[..k]) + Weight(q, body[k]) + TallyBody(q, body[k + 1..])
  {
    assert body == body[..k] + body[k..];
    assert body[k..][1..] == body[k + 1..];
    TallyAppend(q, body[..k], body[k..]);
  }

  /** The two parts of the cut block. */
  lemma PartsTally(q: Query, b: Block, k: nat, pre: seq<Instr>, phis: seq<Phi>, t: Term, inc: seq<Inc>)
    requires k < |b.body| && !b.body[k].Bump? && !t.Multi? && TallyPhis(q, phis) == TallyPhis(q, b.phis)
    ensures TallyBlock(q, Block(phis, b.body[..k] + pre, t))
            + TallyBlock(q, Block([Phi(b.body[k].dst, inc)], b.body[k + 1..], b.term)) + Weight(q, b.body[k])
            == TallyBlock(q, b) + One(DefinesHere(q, b.body[k].dst)) + TallyBody(q, pre)
  {
    TallyAppend(q, b.body[..k], pre);
    TallySplit(q, b.body, k);
    var phi := Phi(b.body[k].dst, inc);
    assert [phi][1..] == [] && TallyPhis(q, [phi]) == One(DefinesHere(q, phi.dst)) + TallyPhis(q, []);
    hide Hits, DefinesHere, TermHits;
    assert !TermHits(q, t) by {
      assert !TermHits(q, t);
    }
  }

  lemma FourParts(q: Query, a: seq<Block>, l: seq<Block>, t: Block, r: seq<Block>)
    ensures TallyBlocks(q, a + l + [t] + r) ==
            TallyBlocks(q, a) + TallyBlocks(q, l) + TallyBlock(q, t) + TallyBlocks(q, r)
  {
    TallyBlocksAppend(q, a + l + [t], r);
    TallyBlocksAppend(q, a + l, [t]);
    TallyBlocksAppend(q, a, l);
    assert [t][1..] == [];
  }

  lemma InsertedTally(q: Query, c: Cut)
    requires NoMulti(c.left) && NoMulti(c.right)
    ensures TallyBody(q, Inserted(c)) == TallyBody(q, c.pre) + TallyBlocks(q, c.left) + TallyBlocks(q, c.right)
  {
    TallyBodies(q, c.left);
    TallyBodies(q, c.right);
    TallyAppend(q, c.pre + Bodies(c.left), Bodies(c.right));
    TallyAppend(q, c.pre, Bodies(c.left));
  }

  lemma RedirectTally(q: Query, bs: seq<Block>, dests: seq<nat>, from: nat, to: nat)
    ensures TallyBlocks(q, Redirect(bs, dests, from, to)) == TallyBlocks(q, bs)
    ensures forall s :: 0 <= s < |bs| ==>
              TallyPhis(q, Redirect(bs, dests, from, to)[s].phis) == TallyPhis(q, bs[s].phis)
  {
    var moved := Redirect(bs, dests, from, to);
    forall s | 0 <= s < |bs|
      ensures TallyBlock(q, moved[s]) == TallyBlock(q, bs[s]) && TallyPhis(q, moved[s].phis) == TallyPhis(q, bs[s].phis)
    {
      TallyRename(q, bs[s].phis, from, to);
    }
    TallySame(q, moved, bs);
  }

  /** A cut takes one instruction away, defines its name by a phi, and inserts the new ones. */
  lemma CutTally(q: Query, f: Fn, c: Cut)
    requires At(f, c.bb, c.k) && NoMulti(c.left) && NoMulti(c.right) && !c.term.Multi?
    ensures var i := f.blocks[c.bb].body[c.k];
      Tally(q, Apply(f, c)) + Weight(q, i) == Tally(q, f) + One(DefinesHere(q, i.dst)) + TallyBody(q, Inserted(c))
  {
    hide TallyBlocks, TallyBlock, Hits, DefinesHere, Inserted;
    var b, e := f.blocks[c.bb], Tail(f, c);
    var moved := Redirect(f.blocks, Succs(b.term), c.bb, e);
    RedirectTally(q, f.blocks, Succs(b.term), c.bb, e);
    var head := Block(moved[c.bb].phis, b.body[..c.k] + c.pre, c.term);
    var tail := Block([Phi(b.body[c.k].dst, c.inc)], b.body[c.k + 1..], b.term);
    TallyUpdate(q, moved, c.bb, head);
    FourParts(q, moved[c.bb := head], c.left, tail, c.right);
    PartsTally(q, moved[c.bb], c.k, c.pre, moved[c.bb].phis, c.term, c.inc);
    InsertedTally(q, c);
  }

  // ----- definitions -------------------------------------------------------------------------

  lemma {:induction false} BodyUndefined(body: seq<Instr>, r: Reg, n: nat)
    requires BodyBelow(body, n) && r.id >= n
    ensures TallyBody(Defines(r), body) == 0
    decreases |body|
  {
    if body != [] {
      assert InstrBelow(body[0], n);
      assert BodyBelow(body[1..], n);
      BodyUndefined(body[1..], r, n);
    }
  }

  lemma {:induction false} PhisUndefined(phis: seq<Phi>, r: Reg, n: nat)
    requires PhisBelow(phis, n) && r.id >= n
    ensures TallyPhis(Defines(r), phis) == 0
    decreases |phis|
  {
    if phis != [] {
      PhisUndefined(phis[1..], r, n);
    }
  }

  lemma {:induction false} FreshUndefined(bs: seq<Block>, r: Reg, n: nat)
    requires forall b :: 0 <= b < |bs| ==> BlockBelow(bs[b], n)
    requires r.id >= n
    ensures TallyBlocks(Defines(r), bs) == 0
    decreases |bs|
  {
    if bs != [] {
      assert BlockBelow(bs[0], n);
      PhisUndefined(bs[0].phis, r, n);
      BodyUndefined(bs[0].body, r, n);
      FreshUndefined(bs[1..], r, n);
    }
  }

  /** The inserted instructions define consecutive fresh names. */
  predicate Numbered(body: seq<Instr>, from: nat) {
    forall j :: 0 <= j < |body| ==> !body[j].Bump? && body[j].dst == Reg(from + j, false)
  }

  lemma {:induction false} NumberedOnce(body: seq<Instr>, from: nat, r: Reg)
    requires Numbered(body, from)
    ensures TallyBody(Defines(r), body) <= 1
    ensures r.id < from ==> TallyBody(Defines(r), body) == 0
    decreases |body|
  {
    if body != [] {
      assert Numbered(body[1..], from + 1) by {
        forall j | 0 <= j < |body[1..]|
          ensures !body[1..][j].Bump? && body[1..][j].dst == Reg(from + 1 + j, false)
        {
          assert body[1..][j] == body[j + 1];
        }
      }
      NumberedOnce(body[1..], from + 1, r);
    }
  }

  /** A cut that numbers its instructions keeps static single assignment. */
  lemma CutKeepsSsa(f: Fn, c: Cut)
    requires At(f, c.bb, c.k) && NoMulti(c.left) && NoMulti(c.right) && !c.term.Multi?
    requires Closed(f) && Ssa(f) && Numbered(Inserted(c), f.next)
    ensures Ssa(Apply(f, c))
  {
    forall r: Reg ensures Tally(Defines(r), Apply(f, c)) <= 1 {
      CutTally(Defines(r), f, c);
      NumberedOnce(Inserted(c), f.next, r);
      assert Tally(Defines(r), f) <= 1;
      if r.id >= f.next {
        FreshUndefined(f.blocks, r, f.next);
        assert BlockBelow(f.blocks[c.bb], f.next);
        assert InstrBelow(f.blocks[c.bb].body[c.k], f.next);
      }
    }
  }

  // ----- finding an instruction --------------------------------------------------------------

  function IndexIn(body: seq<Instr>, i: Instr): (k: nat)
    requires TallyBody(Exactly(i), body) > 0
    ensures k < |body| && body[k] == i
  {
    if body[0] == i then 0 else 1 + IndexIn(body[1..], i)
  }

  lemma {:induction false} PhisDefineOnly(i: Instr, phis: seq<Phi>)
    ensures TallyPhis(Exactly(i), phis) == 0
    decreases |phis|
  {
    if phis != [] {
      PhisDefineOnly(i, phis[1..]);
    }
  }

  function LocateFrom(bs: seq<Block>, i: Instr): (p: (nat, nat))
    requires TallyBlocks(Exactly(i), bs) > 0
    ensures p.0 < |bs| && p.1 < |bs[p.0].body| && bs[p.0].body[p.1] == i
  {
    PhisDefineOnly(i, bs[0].phis);
    if TallyBody(Exactly(i), bs[0].body) > 0 then (0, IndexIn(bs[0].body, i))
    else
      var p := LocateFrom(bs[1..], i);
      (p.0 + 1, p.1)
  }

  /** The block and index at which an instruction of the function now stands. */
  function Locate(f: Fn, i: Instr): (p: (nat, nat))
    requires Tally(Exactly(i), f) > 0
    ensures p.0 < |f.blocks| && p.1 < |f.blocks[p.0].body| && f.blocks[p.0].body[p.1] == i
  {
    LocateFrom(f.blocks, i)
  }

  lemma {:induction false} InBodyCounts(q: Query, body: seq<Instr>, k: nat)
    requires k < |body| && Hits(q, body[k])
    ensures TallyBody(q, body) > 0
    decreases |body|
  {
    if k > 0 {
      InBodyCounts(q, body[1..], k - 1);
    }
  }

  lemma {:induction false} InBlocksCounts(q: Query, bs: seq<Block>, b: nat, k: nat)
    requires b < |bs| && k < |bs[b].body| && Hits(q, bs[b].body[k])
    ensures TallyBlocks(q, bs) > 0
    decreases |bs|
  {
    if b == 0 {
      InBodyCounts(q, bs[0].body, k);
    } else {
      InBlocksCounts(q, bs[1..], b - 1, k);
    }
  }

  // ----- collecting a work list --------------------------------------------------------------

  function CollectBody(q: Query, body: seq<Instr>): seq<Instr> {
    if body == [] then []
    else (if Hits(q, body[0]) then [body[0]] else []) + CollectBody(q, body[1..])
  }

  function CollectBlocks(q: Query, bs: seq<Block>): seq<Instr> {
    if bs == [] then [] else CollectBody(q, bs[0].body) + CollectBlocks(q, bs[1..])
  }

  /** The instructions a pass is going to rewrite, in program order. */
  function Collect(q: Query, f: Fn): seq<Instr> { CollectBlocks(q, f.blocks) }

  /** A work list: the instructions are in the function and define different names. */
  ghost predicate WorkList(q: Query, f: Fn, todo: seq<Instr>) {
    && (forall j :: 0 <= j < |todo| ==> Hits(q, todo[j]) && !todo[j].Bump? && Tally(Exactly(todo[j]), f) > 0)
    && (forall j, k :: 0 <= j < k < |todo| ==> todo[j] != todo[k])
  }

  lemma {:induction false} CollectBodyTally(q: Query, q': Query, body: seq<Instr>)
    requires Simple(q)
    ensures TallyBody(q', CollectBody(q, body)) <= TallyBody(q', body)
    ensures q' == q ==> TallyBody(q', CollectBody(q, body)) == TallyBody(q', body) == |CollectBody(q, body)|
    ensures TallyBody(q, CollectBody(q, body)) == |CollectBody(q, body)|
    decreases |body|
  {
    hide Hits;
    if body != [] {
      CollectBodyTally(q, q', body[1..]);
      TallyAppend(q', if Hits(q, body[0]) then [body[0]] else [], CollectBody(q, body[1..]));
      TallyAppend(q, if Hits(q, body[0]) then [body[0]] else [], CollectBody(q, body[1..]));
      TallySingle(q', body[0]);
      TallySingle(q, body[0]);
    }
  }

  lemma {:induction false} CollectTally(q: Query, q': Query, bs: seq<Block>)
    requires Simple(q)
    ensures TallyBody(q', CollectBlocks(q, bs)) <= TallyBlocks(q', bs)
    ensures TallyBody(q, CollectBlocks(q, bs)) == |CollectBlocks(q, bs)|
    ensures q' == q && !q.Defines? ==> TallyBlocks(q, bs) == |CollectBlocks(q, bs)|
    decreases |bs|
  {
    if bs != [] {
      CollectBodyTally(q, q', bs[0].body);
      CollectTally(q, q', bs[1..]);
      TallyAppend(q', CollectBody(q, bs[0].body), CollectBlocks(q, bs[1..]));
      TallyAppend(q, CollectBody(q, bs[0].body), CollectBlocks(q, bs[1..]));
      if !q.Defines? {
        NoPhiHits(q, bs[0].phis);
      }
    }
  }

  /** Collecting for one query loses nothing of a narrower one. */
  lemma {:induction false} CollectLosesNothing(q: Query, q': Query, bs: seq<Block>)
    requires Simple(q') && !q'.Defines? && forall i :: Hits(q', i) ==> Hits(q, i)
    ensures TallyBody(q', CollectBlocks(q, bs)) == TallyBlocks(q', bs)
    decreases |bs|
  {
    if bs != [] {
      BodyLosesNothing(q, q', bs[0].body);
      CollectLosesNothing(q, q', bs[1..]);
      TallyAppend(q', CollectBody(q, bs[0].body), CollectBlocks(q, bs[1..]));
      NoPhiHits(q', bs[0].phis);
    }
  }

  lemma {:induction false} BodyLosesNothing(q: Query, q': Query, body: seq<Instr>)
    requires Simple(q') && forall i :: Hits(q', i) ==> Hits(q, i)
    ensures TallyBody(q', CollectBody(q, body)) == TallyBody(q', body)
    decreases |body|
  {
    hide Hits;
    if body != [] {
      BodyLosesNothing(q, q', body[1..]);
      TallyAppend(q', if Hits(q, body[0]) then [body[0]] else [], CollectBody(q, body[1..]));
      TallySingle(q', body[0]);
    }
  }

  lemma {:induction false} CollectBodyAppend(q: Query, a: seq<Instr>, b: seq<Instr>)
    ensures CollectBody(q, a + b) == CollectBody(q, a) + CollectBody(q, b)
    decreases |a|
  {
    if a == [] {
      assert a + b == b;
    } else {
      assert (a + b)[1..] == a[1..] + b;
      hide Hits;
      CollectBodyAppend(q, a[1..], b);
      var first := if Hits(q, a[0]) then [a[0]] else [];
      assert first + (CollectBody(q, a[1..]) + CollectBody(q, b)) == first + CollectBody(q, a[1..]) + CollectBody(q, b);
    }
  }

  lemma {:induction false} CollectBlocksAppend(q: Query, a: seq<Block>, b: Block)
    ensures CollectBlocks(q, a + [b]) == CollectBlocks(q, a) + CollectBody(q, b.body)
    decreases |a|
  {
    if a == [] {
      assert [b][1..] == [];
    } else {
      assert (a + [b])[1..] == a[1..] + [b];
      CollectBlocksAppend(q, a[1..], b);
    }
  }

  lemma {:induction false} NoPhiHits(q: Query, phis: seq<Phi>)
    requires !q.Defines?
    ensures TallyPhis(q, phis) == 0
    decreases |phis|
  {
    if phis != [] {
      NoPhiHits(q, phis[1..]);
    }
  }

  lemma {:induction false} TallyAtMost(q: Query, body: seq<Instr>)
    requires Simple(q)
    ensures TallyBody(q, body) <= |body|
    ensures TallyBody(q, body) == |body| ==> forall j :: 0 <= j < |body| ==> Hits(q, body[j])
    decreases |body|
  {
    if body != [] {
      TallyAtMost(q, body[1..]);
    }
  }

  lemma {:induction false} TwiceInBody(q: Query, body: seq<Instr>, j: nat, k: nat)
    requires j < k < |body| && Hits(q, body[j]) && Hits(q, body[k])
    ensures TallyBody(q, body) >= 2
    decreases |body|
  {
    if j == 0 {
      InBodyCounts(q, body[1..], k - 1);
    } else {
      TwiceInBody(q, body[1..], j - 1, k - 1);
    }
  }

  /** Collecting from an SSA function yields a work list of everything the query counts. */
  lemma CollectIsWorkList(q: Query, f: Fn)
    requires Ssa(f) && !q.Defines? && Simple(q) && forall i :: Hits(q, i) ==> !i.Bump?
    ensures WorkList(q, f, Collect(q, f)) && |Collect(q, f)| == Tally(q, f)
  {
    var todo := Collect(q, f);
    CollectTally(q, q, f.blocks);
    TallyAtMost(q, todo);
    forall j | 0 <= j < |todo| ensures Hits(q, todo[j]) && !todo[j].Bump? && Tally(Exactly(todo[j]), f) > 0 {
      CollectTally(q, Exactly(todo[j]), f.blocks);
      InBodyCounts(Exactly(todo[j]), todo, j);
    }
    forall j, k | 0 <= j < k < |todo| ensures todo[j] != todo[k] {
      var d := Defines(todo[j].dst);
      assert Tally(d, f) <= 1;
      CollectTally(q, d, f.blocks);
      if todo[j] == todo[k] {
        TwiceInBody(d, todo, j, k);
      }
    }
  }

  /** A cut at todo[0] that inserts none of the others leaves the rest a work list. */
  lemma CutKeepsWorkList(q: Query, f: Fn, c: Cut, todo: seq<Instr>)
    requires At(f, c.bb, c.k) && NoMulti(c.left) && NoMulti(c.right) && !c.term.Multi?
    requires WorkList(q, f, todo) && todo != [] && f.blocks[c.bb].body[c.k] == todo[0]
    ensures WorkList(q, Apply(f, c), todo[1..])
  {
    forall j | 0 <= j < |todo[1..]| ensures Tally(Exactly(todo[1..][j]), Apply(f, c)) > 0 {
      assert todo[1..][j] == todo[j + 1] && todo[0] != todo[j + 1];
      CutTally(Exactly(todo[j + 1]), f, c);
    }
  }
}
