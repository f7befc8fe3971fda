/** select-to-branch: every select becomes a diamond of two empty blocks and a phi. */
module SelectToBranch {
  import opened Ir
  import opened Agreement
  import opened Splice
  import opened Expansions
  import opened Census
  import opened Editor

  predicate SelectAt(f: Fn, bb: nat, k: nat) {
    bb < |f.blocks| && k < |f.blocks[bb].body| && f.blocks[bb].body[k].Select?
  }

  lemma SelectInserts(f: Fn, bb: nat, k: nat)
    requires SelectAt(f, bb, k)
    ensures var c := SelectCut(f, bb, k);
      NoMulti(c.left) && NoMulti(c.right) && !c.term.Multi? && Inserted(c) == []
  {
    var c := SelectCut(f, bb, k);
    assert c.left[1..] == [c.left[1]] && c.left[1..][1..] == [];
    assert Bodies(c.left) == c.left[0].body + Bodies(c.left[1..]);
  }

  lemma SelectPreserves(f: Fn, bb: nat, k: nat)
    requires SelectAt(f, bb, k) && Good(f)
    ensures Equivalent(f, Apply(f, SelectCut(f, bb, k))) && Good(Apply(f, SelectCut(f, bb, k)))
  {
    var c := SelectCut(f, bb, k);
    assert InstrBelow(f.blocks[bb].body[k], f.next) by { assert BlockBelow(f.blocks[bb], f.next); }
    forall sem: Sem ensures Faithful(sem, f, c) {
      SelectFaithful(sem, f, bb, k);
    }
    assert WellShaped(f, SelectCut(f, bb, k)) by {
      var c, n := SelectCut(f, bb, k), |f.blocks|;
      forall l: nat ensures Entries(c.inc, l) == Occurrences(NewSuccs(f, c, l), Tail(f, c)) {
        EntriesTwo(c.inc[0], c.inc[1], l);
        OccurrencesTwo(n, n + 1, n + 2);
        OccurrencesTwo(n + 2, n + 2, n + 2);
      }
    }
    SelectInserts(f, bb, k);
    hide Apply, Inserted, Equivalent, Faithful, WellShaped;
    CutPreserves(f, c);
    CutKeepsShape(f, c);
    CutKeepsSsa(f, c);
  }

  lemma SelectKeepsWorkList(f: Fn, bb: nat, k: nat, todo: seq<Instr>)
    requires WorkList(Selects, f, todo) && todo != [] && SelectAt(f, bb, k) && f.blocks[bb].body[k] == todo[0]
    ensures WorkList(Selects, Apply(f, SelectCut(f, bb, k)), todo[1..])
  {
    SelectInserts(f, bb, k);
    CutKeepsWorkList(Selects, f, SelectCut(f, bb, k), todo);
  }

  /** Converts the selects of a list in that order. */
  function ConvertAll(f: Fn, todo: seq<Instr>): Fn
    requires WorkList(Selects, f, todo)
    decreases |todo|
  {
    if todo == [] then f
    else
      var p := Locate(f, todo[0]);
      SelectKeepsWorkList(f, p.0, p.1, todo);
      ConvertAll(Apply(f, SelectCut(f, p.0, p.1)), todo[1..])
  }

  /** Main result, for every order in which the set of selects may be iterated: behaviour is
      preserved, every phi keeps one entry per predecessor edge, and as many selects disappear as
      were listed. */
  lemma {:induction false} ConvertAllPreserves(f: Fn, todo: seq<Instr>)
    requires WorkList(Selects, f, todo) && Good(f)
    ensures Equivalent(f, ConvertAll(f, todo)) && Good(ConvertAll(f, todo))
    ensures Tally(Selects, ConvertAll(f, todo)) == Tally(Selects, f) - |todo|
    decreases |todo|
  {
    hide Good, Tally, Apply;
    if todo == [] {
      assert Equivalent(f, f) by { hide *; SameIsEquivalent(f); }
    } else {
      var p := Locate(f, todo[0]);
      var g := Apply(f, SelectCut(f, p.0, p.1));
      SelectKeepsWorkList(f, p.0, p.1, todo);
      SelectPreserves(f, p.0, p.1);
      SelectInserts(f, p.0, p.1);
      CutTally(Selects, f, SelectCut(f, p.0, p.1));
      ConvertAllPreserves(g, todo[1..]);
      EquivalentTransitive(f, g, ConvertAll(g, todo[1..]));
    }
  }

  lemma SameIsEquivalent(f: Fn)
    ensures Equivalent(f, f)
  {
  }

  // ----- the three splits --------------------------------------------------------------------

  lemma {:induction false} RenameTwice(inc: seq<Inc>, a: nat, b: nat, c: nat)
    requires Entries(inc, b) == 0
    ensures RenameIncs(RenameIncs(inc, a, b), b, c) == RenameIncs(inc, a, c)
    decreases |inc|
  {
    if inc != [] {
      RenameTwice(inc[1..], a, b, c);
      assert RenameIncs(inc, a, b)[1..] == RenameIncs(inc[1..], a, b);
    }
  }

  lemma {:induction false} RenamePhisTwice(phis: seq<Phi>, a: nat, b: nat, c: nat)
    requires forall i :: 0 <= i < |phis| ==> Entries(phis[i].inc, b) == 0
    ensures RenamePhis(RenamePhis(phis, a, b), b, c) == RenamePhis(phis, a, c)
    decreases |phis|
  {
    if phis != [] {
      RenameTwice(phis[0].inc, a, b, c);
      RenamePhisTwice(phis[1..], a, b, c);
      assert RenamePhis(phis, a, b)[1..] == RenamePhis(phis[1..], a, b);
    }
  }

  lemma NoEntriesYet(f: Fn, l: nat)
    requires PhisOk(f) && |f.blocks| <= l
    ensures forall s, i :: 0 <= s < |f.blocks| && 0 <= i < |f.blocks[s].phis| ==>
              Entries(f.blocks[s].phis[i].inc, l) == 0
  {
    forall s, i | 0 <= s < |f.blocks| && 0 <= i < |f.blocks[s].phis|
      ensures Entries(f.blocks[s].phis[i].inc, l) == 0
    {
      assert PhisMatch(f, s);
      assert Entries(f.blocks[s].phis[i].inc, l) == EdgeCount(f, l, s);
    }
  }

  /** The blocks after the three splits. */
  function SplitThrice(f: Fn, bb: nat, k: nat): (r: seq<Block>)
    requires bb < |f.blocks| && k < |f.blocks[bb].body|
    ensures |r| == |f.blocks| + 3
  {
    var n := |f.blocks|;
    SplitAt(SplitAt(SplitAt(f.blocks, bb, k), n, 0), n + 1, 0)
  }

  /** Splitting the last block in front of everything leaves it empty. */
  lemma SplitLast(bs: seq<Block>, n: nat, body: seq<Instr>, t: Term)
    requires n + 1 == |bs| && bs[n] == Block([], body, t) && n !in Succs(t)
    ensures SplitAt(bs, n, 0)[n] == Block([], [], Br(n + 1)) && SplitAt(bs, n, 0)[n + 1] == Block([], body, t)
  {
    SplitOld(bs, n, 0, n);
    assert body[..0] == [] && body[0..] == body;
    hide *;
  }

  /** Later blocks do not disturb an empty block that is not a target. */
  lemma SplitBeside(bs: seq<Block>, n: nat, l: nat, to: nat)
    requires n < |bs| && l < |bs| && l != n && bs[l] == Block([], [], Br(to)) && l !in Succs(bs[n].term)
    ensures SplitAt(bs, n, 0)[l] == bs[l]
  {
    SplitOld(bs, n, 0, l);
    hide *;
  }

  lemma ThriceNew(f: Fn, bb: nat, k: nat)
    requires bb < |f.blocks| && k < |f.blocks[bb].body| && Targets(Succs(f.blocks[bb].term), |f.blocks|)
    ensures var (r, n, b) := (SplitThrice(f, bb, k), |f.blocks|, f.blocks[bb]);
      && r[n] == Block([], [], Br(n + 1)) && r[n + 1] == Block([], [], Br(n + 2))
      && r[n + 2] == Block([], b.body[k..], b.term)
  {
    var n, b := |f.blocks|, f.blocks[bb];
    hide *;
    var r1 := SplitAt(f.blocks, bb, k);
    var r2 := SplitAt(r1, n, 0);
    SplitLast(r1, n, b.body[k..], b.term);
    SplitLast(r2, n + 1, b.body[k..], b.term);
    SplitBeside(r2, n + 1, n, n + 1);
    ThriceIs(f, bb, k);
  }

  lemma SplitOld(bs: seq<Block>, bb: nat, k: nat, s: nat)
    requires bb < |bs| && k <= |bs[bb].body| && s < |bs|
    ensures var (b, r) := (bs[bb], SplitAt(bs, bb, k));
      r[s] == Block(if s in Succs(b.term) then RenamePhis(bs[s].phis, bb, |bs|) else bs[s].phis,
                    if s == bb then b.body[..k] else bs[s].body, if s == bb then Br(|bs|) else bs[s].term)
  {
    hide RenamePhis;
    var moved := Redirect(bs, Succs(bs[bb].term), bb, |bs|);
    assert SplitAt(bs, bb, k)[s] == moved[bb := Block(moved[bb].phis, bs[bb].body[..k], Br(|bs|))][s];
  }

  lemma ThriceOld(f: Fn, bb: nat, k: nat, s: nat)
    requires bb < |f.blocks| && k < |f.blocks[bb].body| && s < |f.blocks| && PhisOk(f)
    ensures var (r, n, b) := (SplitThrice(f, bb, k), |f.blocks|, f.blocks[bb]);
      r[s] == Block(if s in Succs(b.term) then RenamePhis(f.blocks[s].phis, bb, n + 2) else f.blocks[s].phis,
                    if s == bb then b.body[..k] else f.blocks[s].body,
                    if s == bb then Br(n) else f.blocks[s].term)
  {
    hide *;
    var n, b := |f.blocks|, f.blocks[bb];
    var r1 := SplitAt(f.blocks, bb, k);
    var r2 := SplitAt(r1, n, 0);
    var r3 := SplitAt(r2, n + 1, 0);
    SplitOld(f.blocks, bb, k, s);
    SplitOld(r1, n, 0, s);
    SplitOld(r2, n + 1, 0, s);
    var p0, p1, p2, p3 := f.blocks[s].phis, r1[s].phis, r2[s].phis, r3[s].phis;
    if s in Succs(b.term) {
      assert p1 == RenamePhis(p0, bb, n);
      assert p2 == RenamePhis(p1, n, n + 1);
      assert p3 == RenamePhis(p2, n + 1, n + 2);
      assert var n := |f.blocks|;
          RenamePhis(RenamePhis(RenamePhis(f.blocks[s].phis, bb, n), n, n + 1), n + 1, n + 2) ==
            RenamePhis(f.blocks[s].phis, bb, n + 2) by {
        var n := |f.blocks|;
        NoEntriesYet(f, n);
        NoEntriesYet(f, n + 1);
        RenamePhisTwice(f.blocks[s].phis, bb, n, n + 1);
        RenamePhisTwice(f.blocks[s].phis, bb, n + 1, n + 2);
      }
    }
    ThriceIs(f, bb, k);
  }

  lemma ThriceIs(f: Fn, bb: nat, k: nat)
    requires bb < |f.blocks| && k < |f.blocks[bb].body|
    ensures var n := |f.blocks|;
      SplitThrice(f, bb, k) == SplitAt(SplitAt(SplitAt(f.blocks, bb, k), n, 0), n + 1, 0)
  {
    hide SplitAt, Redirect;
  }

  /** Two new terminators and a phi in the place of the select, after the three splits. */
  function Edited(t: seq<Block>, f: Fn, bb: nat, k: nat): (r: seq<Block>)
    requires SelectAt(f, bb, k) && |t| == |f.blocks| + 3
    ensures |r| == |f.blocks| + 3
  {
    var (n, i) := (|f.blocks|, f.blocks[bb].body[k]);
    t[bb := t[bb].(term := CondBr(i.c, n, n + 1))][n := t[n].(term := Br(n + 2))]
     [n + 2 := Block([Phi(i.dst, [Inc(n, i.a), Inc(n + 1, i.b)])], f.blocks[bb].body[k..][1..], f.blocks[bb].term)]
  }

  function Diamond(f: Fn, bb: nat, k: nat): (r: seq<Block>)
    requires SelectAt(f, bb, k)
    ensures |r| == |f.blocks| + 3
  {
    Edited(SplitThrice(f, bb, k), f, bb, k)
  }

  lemma DiamondOld(f: Fn, bb: nat, k: nat, s: nat)
    requires SelectAt(f, bb, k) && PhisOk(f) && s < |f.blocks|
    ensures Diamond(f, bb, k)[s] == Apply(f, SelectCut(f, bb, k)).blocks[s]
  {
    hide Apply, Diamond, SplitThrice, SelectCut, RenamePhis, PhisOk, Succs;
    ThriceOld(f, bb, k, s);
    DiamondOldIs(f, bb, k, s);
    assert var (n, i, b) := (|f.blocks|, f.blocks[bb].body[k], f.blocks[bb]);
        Apply(f, SelectCut(f, bb, k)).blocks[s] ==
        Block(if s in Succs(b.term) then RenamePhis(f.blocks[s].phis, bb, n + 2) else f.blocks[s].phis,
              if s == bb then b.body[..k] else f.blocks[s].body,
              if s == bb then CondBr(i.c, n, n + 1) else f.blocks[s].term) by {
      SelectFields(f, bb, k);
      var c, body: seq<Instr> := SelectCut(f, bb, k), f.blocks[bb].body;
      assert body[..k] + [] == body[..k];
      hide *;
      OldBlock(f, c, s);
    }
  }

  lemma DiamondOldIs(f: Fn, bb: nat, k: nat, s: nat)
    requires SelectAt(f, bb, k) && s < |f.blocks|
    ensures var (n, i, r, t) := (|f.blocks|, f.blocks[bb].body[k], Diamond(f, bb, k), SplitThrice(f, bb, k));
      r[s] == if s == bb then t[s].(term := CondBr(i.c, n, n + 1)) else t[s]
  {
    hide SplitThrice;
  }

  lemma SelectFields(f: Fn, bb: nat, k: nat)
    requires SelectAt(f, bb, k)
    ensures var (n, i, c) := (|f.blocks|, f.blocks[bb].body[k], SelectCut(f, bb, k));
      && At(f, c.bb, c.k) && c.bb == bb && c.k == k && c.pre == [] && c.term == CondBr(i.c, n, n + 1)
         && Tail(f, c) == n + 2
  {
  }

  lemma DiamondNew(f: Fn, bb: nat, k: nat)
    requires SelectAt(f, bb, k) && Targets(Succs(f.blocks[bb].term), |f.blocks|)
    ensures var (n, r, g) := (|f.blocks|, Diamond(f, bb, k), Apply(f, SelectCut(f, bb, k)).blocks);
      r[n] == g[n] && r[n + 1] == g[n + 1] && r[n + 2] == g[n + 2]
  {
    hide Diamond, Apply, SplitThrice, SelectCut, RenamePhis, Redirect;
    ThriceNew(f, bb, k);
    SelectBlocks(f, bb, k);
    DiamondNewIs(f, bb, k);
  }

  lemma DiamondNewIs(f: Fn, bb: nat, k: nat)
    requires SelectAt(f, bb, k)
    ensures var (n, i, r, t) := (|f.blocks|, f.blocks[bb].body[k], Diamond(f, bb, k), SplitThrice(f, bb, k));
      && r[n] == t[n].(term := Br(n + 2)) && r[n + 1] == t[n + 1]
      && r[n + 2] == Block([Phi(i.dst, [Inc(n, i.a), Inc(n + 1, i.b)])], f.blocks[bb].body[k + 1..], f.blocks[bb].term)
  {
    hide SplitThrice;
    assert f.blocks[bb].body[k..][1..] == f.blocks[bb].body[k + 1..];
  }

  lemma SelectBlocks(f: Fn, bb: nat, k: nat)
    requires SelectAt(f, bb, k)
    ensures var (n, i, g) := (|f.blocks|, f.blocks[bb].body[k], Apply(f, SelectCut(f, bb, k)).blocks);
      && |g| == n + 3 && g[n] == Block([], [], Br(n + 2)) && g[n + 1] == Block([], [], Br(n + 2))
      && g[n + 2] == Block([Phi(i.dst, [Inc(n, i.a), Inc(n + 1, i.b)])], f.blocks[bb].body[k + 1..], f.blocks[bb].term)
  {
    var c := SelectCut(f, bb, k);
    TailBlock(f, c);
    LeftBlock(f, c, 0);
    LeftBlock(f, c, 1);
    hide Apply;
  }

  lemma DiamondMade(f: Fn, bb: nat, k: nat)
    requires SelectAt(f, bb, k) && PhisOk(f) && Targets(Succs(f.blocks[bb].term), |f.blocks|)
    ensures Diamond(f, bb, k) == Apply(f, SelectCut(f, bb, k)).blocks
  {
    DiamondNew(f, bb, k);
    SelectBlocks(f, bb, k);
    forall s: nat | s < |f.blocks| ensures Diamond(f, bb, k)[s] == Apply(f, SelectCut(f, bb, k)).blocks[s] {
      DiamondOld(f, bb, k, s);
    }
    var n := |f.blocks|;
    hide *;
    SameBlocks(Diamond(f, bb, k), Apply(f, SelectCut(f, bb, k)).blocks, n);
  }

  lemma SameBlocks(r: seq<Block>, g: seq<Block>, n: nat)
    requires |r| == |g| == n + 3 && r[n] == g[n] && r[n + 1] == g[n + 1] && r[n + 2] == g[n + 2]
    requires forall s: nat :: s < n ==> r[s] == g[s]
    ensures r == g
  {
    forall s | 0 <= s < |r| ensures r[s] == g[s] {
    }
  }

  /** The three splits, with the edits that follow them, make the function with the select cut. */
  lemma SplitsLeadToCut(f: Fn, bb: nat, k: nat)
    requires SelectAt(f, bb, k) && Good(f)
    ensures bb < |f.blocks| && k < |f.blocks[bb].body| && f.blocks[bb].body[k].Select?
    ensures var n := |f.blocks|;
      var (t, b) := (SplitAt(SplitAt(SplitAt(f.blocks, bb, k), n, 0), n + 1, 0), f.blocks[bb]);
      && |t| == n + 3 && t[n + 2] == Block([], b.body[k..], b.term) && b.body[k..][0] == b.body[k]
      && Apply(f, SelectCut(f, bb, k)) == Fn(Edited(t, f, bb, k), f.next)
  {
    SelectThere(f, bb, k);
    ThriceNew(f, bb, k);
    DiamondMade(f, bb, k);
    ThriceIs(f, bb, k);
    assert Diamond(f, bb, k) == Edited(SplitThrice(f, bb, k), f, bb, k) by {
      hide SplitThrice, Edited;
    }
    SelectKeepsNext(f, bb, k);
    hide *;
    assert f.blocks[bb].body[k..][0] == f.blocks[bb].body[k];
  }

  lemma SelectThere(f: Fn, bb: nat, k: nat)
    requires SelectAt(f, bb, k) && Good(f)
    ensures bb < |f.blocks| && k < |f.blocks[bb].body| && f.blocks[bb].body[k].Select?
    ensures PhisOk(f) && Targets(Succs(f.blocks[bb].term), |f.blocks|)
  {
  }

  lemma SelectKeepsNext(f: Fn, bb: nat, k: nat)
    requires SelectAt(f, bb, k) && Good(f)
    ensures Apply(f, SelectCut(f, bb, k)).next == f.next
  {
    ApplyBlocks(f, SelectCut(f, bb, k));
    hide Apply;
  }

  method SplitSelect(m: Function, bb: nat, k: nat)
    requires SelectAt(m.Model(), bb, k) && Good(m.Model())
    modifies m
    ensures m.Model() == Apply(old(m.Model()), SelectCut(old(m.Model()), bb, k))
  {
    ghost var f := m.Model();
    SplitsLeadToCut(f, bb, k);
    hide SelectAt, Good, SelectCut, Apply, SplitThrice, SplitAt;
    var i := m.blocks[bb].body[k];
    var yes := m.SplitBasicBlock(bb, k);
    var no := m.SplitBasicBlock(yes, 0);
    var end := m.SplitBasicBlock(no, 0);
    m.SetTerminator(bb, CondBr(i.c, yes, no));
    m.SetTerminator(yes, Br(end));
    m.ReplaceFirstWithPhi(end, [Inc(yes, i.a), Inc(no, i.b)]);
  }

  // ----- the pass ----------------------------------------------------------------------------

  lemma {:induction false} ConvertOneMore(f: Fn, todo: seq<Instr>, i: Instr)
    requires WorkList(Selects, f, todo + [i])
    ensures WorkList(Selects, f, todo)
    ensures var g := ConvertAll(f, todo);
      Tally(Exactly(i), g) > 0 && i.Select? &&
      ConvertAll(f, todo + [i]) == Apply(g, SelectCut(g, Locate(g, i).0, Locate(g, i).1))
    decreases |todo|
  {
    hide Apply, Tally;
    var all := todo + [i];
    forall j | 0 <= j < |todo| ensures Hits(Selects, todo[j]) && !todo[j].Bump? && Tally(Exactly(todo[j]), f) > 0 {
      assert all[j] == todo[j];
    }
    forall j, k | 0 <= j < k < |todo| ensures todo[j] != todo[k] {
      assert all[j] == todo[j] && all[k] == todo[k];
    }
    assert all[|todo|] == i && Hits(Selects, i);
    if todo != [] {
      assert all[0] == todo[0] && all[1..] == todo[1..] + [i];
      var p := Locate(f, todo[0]);
      SelectKeepsWorkList(f, p.0, p.1, all);
      SelectKeepsWorkList(f, p.0, p.1, todo);
      ConvertOneMore(Apply(f, SelectCut(f, p.0, p.1)), todo[1..], i);
    } else {
      assert all[1..] == [] && all[0] == i;
      var p := Locate(f, i);
      SelectKeepsWorkList(f, p.0, p.1, all);
      assert ConvertAll(Apply(f, SelectCut(f, p.0, p.1)), []) == Apply(f, SelectCut(f, p.0, p.1));
    }
  }

  /** One more select that was collected. */
  lemma ListingGrows(f: Fn, all: seq<Instr>, order: seq<Instr>, i: Instr)
    requires WorkList(Selects, f, all) && WorkList(Selects, f, order) && i in all && i !in order
    ensures WorkList(Selects, f, order + [i])
  {
  }

  lemma {:induction false} DistinctCardinality(s: seq<Instr>)
    requires forall j, k :: 0 <= j < k < |s| ==> s[j] != s[k]
    ensures |set i | i in s| == |s|
    decreases |s|
  {
    if s != [] {
      DistinctCardinality(s[1..]);
      assert (set i | i in s) == {s[0]} + (set i | i in s[1..]);
      assert s[0] !in s[1..];
    }
  }

  /** The selects in order have been converted, those in todo have not. */
  ghost predicate Underway(f: Fn, g: Fn, found: seq<Instr>, order: seq<Instr>, todo: set<Instr>)
  {
    && WorkList(Selects, f, order) && g == ConvertAll(f, order) && Good(g)
    && (forall i :: i in order ==> i in found && i !in todo) && (forall i :: i in todo ==> i in found)
    && |order| + |todo| == |found|
  }

  lemma NothingYet(f: Fn, found: seq<Instr>)
    requires Good(f) && found == Collect(Selects, f)
    ensures WorkList(Selects, f, found) && |found| == Tally(Selects, f)
    ensures Underway(f, f, found, [], set i | i in found)
  {
    CollectIsWorkList(Selects, f);
    DistinctCardinality(found);
    hide Good, Tally, Hits;
  }

  lemma AllDone(f: Fn, g: Fn, found: seq<Instr>, order: seq<Instr>)
    requires Underway(f, g, found, order, {})
    ensures WorkList(Selects, f, order) && g == ConvertAll(f, order) && Good(g) && |order| == |found|
  {
  }

  /** The pass: the selects form a set of pointers, so they are processed in an arbitrary order. */
  method RunOnModule(m: Function) returns (ghost order: seq<Instr>)
    requires Good(m.Model())
    modifies m
    ensures WorkList(Selects, old(m.Model()), order) && |order| == Tally(Selects, old(m.Model()))
    ensures m.Model() == ConvertAll(old(m.Model()), order) && Good(m.Model())
  {
    hide *;
    ghost var f := m.Model();
    var found := m.Gather(Selects);
    NothingYet(f, found);
    var todo := set i | i in found;
    order := [];
    while todo != {}
      invariant Underway(f, m.Model(), found, order, todo)
      decreases |todo|
    {
      var i :| i in todo;
      ConvertNext(m, i, f, found, order, todo);
      order := order + [i];
      todo := todo - {i};
    }
    AllDone(f, m.Model(), found, order);
  }

  method ConvertNext(m: Function, i: Instr, ghost f: Fn, ghost found: seq<Instr>, ghost order: seq<Instr>,
                     ghost todo: set<Instr>)
    requires Good(f) && WorkList(Selects, f, found) && Underway(f, m.Model(), found, order, todo) && i in todo
    modifies m
    ensures Underway(f, m.Model(), found, order + [i], todo - {i})
  {
    hide Good, Tally, Apply, ConvertAll, SelectCut, Hits, WorkList;
    ListingGrows(f, found, order, i);
    ConvertOneMore(f, order, i);
    ConvertAllPreserves(f, order + [i]);
    var p := Locate(m.Model(), i);
    SplitSelect(m, p.0, p.1);
  }
}
