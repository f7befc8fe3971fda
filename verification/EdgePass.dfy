/** The no-collision pass: collect the edges to instrument, number them from 1 in whatever order the
    set yields them, and edit the function edge by edge. */
module EdgePass {
  import opened Ir
  import opened Splice
  import opened Editor
  import opened EdgeCounters

  // ----- map size ----------------------------------------------------------------------------

  const U32_MAX := 0xFFFF_FFFF

  /** get_map_size; None where its assertions fail. */
  function MapSize(size: nat): Option<nat> {
    if size == 0 then None
    else
      var words := (size - 1) / 8 + 1;
      if words <= U32_MAX / 8 then Some(words * 8) else None
  }

  /** The map size is the least multiple of 8 that has room for `size` counters. */
  lemma MapSizeFits(size: nat)
    requires MapSize(size).Some?
    ensures var r := MapSize(size).value;
      r % 8 == 0 && size <= r && (forall k: nat :: k % 8 == 0 && size <= k ==> r <= k) && r <= U32_MAX
  {
  }

  /** The id of an edge is its place in the order, from 1 on. */
  ghost function IdOf(order: seq<Edge>, e: Edge): nat
    requires e in order
  {
    1 + if order[0] == e then 0 else IdOf(order[1..], e)
  }

  lemma {:induction false} IdOfIs(order: seq<Edge>, e: Edge)
    requires e in order
    ensures 1 <= IdOf(order, e) <= |order| && order[IdOf(order, e) - 1] == e
  {
    if order[0] != e {
      IdOfIs(order[1..], e);
    }
  }

  /** Whatever the order of the edges, ids start at 1, different edges have different ids, an edge listed once
      has its place as its only id, and all of them index the map allocated for the final edge count. */
  lemma IdsFit(order: seq<Edge>, d: Edge, e: Edge)
    requires d in order && e in order && MapSize(|order| + 1).Some?
    ensures 1 <= IdOf(order, e) < |order| + 1 <= MapSize(|order| + 1).value
    ensures IdOf(order, d) == IdOf(order, e) <==> d == e
    ensures (forall i, j :: 0 <= i < j < |order| ==> order[i] != order[j]) ==>
            forall i :: 0 <= i < |order| && order[i] == e ==> i + 1 == IdOf(order, e)
  {
    MapSizeFits(|order| + 1);
    IdOfIs(order, d);
    IdOfIs(order, e);
  }

  // ----- which edges -------------------------------------------------------------------------

  /** Blocks with a dictionary word are instrumented at every exit, others at every conditional
      branch, invoke or indirect branch. A terminator with many exits is an invoke here: it chooses one of them.
      Indirect branches are at the end of this file. */
  predicate Chosen(f: Fn, dicts: set<nat>, l: nat)
    requires l < |f.blocks|
  {
    l in dicts || f.blocks[l].term.CondBr? || f.blocks[l].term.Multi?
  }

  predicate Wanted(f: Fn, dicts: set<nat>, e: Edge) {
    ValidEdge(f, e) && Chosen(f, dicts, e.0)
  }

  method RecordInstruction(l: nat, t: Term, edges: set<Edge>) returns (r: set<Edge>)
    ensures forall e: Edge :: e in r <==> e in edges || (e.0 == l && e.1 < |Succs(t)|)
  {
    r := edges;
    for i := 0 to |Succs(t)|
      invariant forall e: Edge :: e in r <==> e in edges || (e.0 == l && e.1 < i)
    {
      r := r + {(l, i)};
    }
  }

  method CollectEdges(m: Function, dicts: set<nat>) returns (edges: set<Edge>)
    ensures forall e: Edge :: e in edges <==> Wanted(m.Model(), dicts, e)
  {
    edges := {};
    for l := 0 to |m.blocks|
      invariant forall e: Edge :: e in edges <==> e.0 < l && Wanted(m.Model(), dicts, e)
    {
      if Chosen(m.Model(), dicts, l) {
        edges := RecordInstruction(l, m.blocks[l].term, edges);
      }
    }
  }

  // ----- one edge ----------------------------------------------------------------------------

  method SetIncomingBlocks(m: Function, s: nat, from: nat, to: nat)
    requires s < |m.blocks|
    modifies m`blocks
    ensures m.blocks == old(m.blocks)[s := old(m.blocks)[s].(phis := SetFirstAll(old(m.blocks)[s].phis, from, to))]
  {
    var b := m.blocks[s];
    var done: seq<Phi> := [];
    for i := 0 to |b.phis|
      invariant |done| == i && forall j :: 0 <= j < i ==>
                done[j] == Phi(b.phis[j].dst, SetFirst(b.phis[j].inc, from, to))
    {
      done := done + [Phi(b.phis[i].dst, SetFirst(b.phis[i].inc, from, to))];
    }
    assert done == SetFirstAll(b.phis, from, to);
    m.blocks := m.blocks[s := b.(phis := done)];
  }

  /** `marked` are the blocks renamed as instrumented; the pass asserts that it never instruments
      such a block as the single target of an edge. */
  method InstrumentInstruction(m: Function, e: Edge, id: nat, marked: set<nat>) returns (marked': set<nat>)
    requires Closed(m.Model()) && ValidEdge(m.Model(), e)
    requires Preds(m.Model(), Dest(m.Model(), e)) == 1 ==> Dest(m.Model(), e) !in marked
    modifies m`blocks
    ensures m.Model() == Instrument(old(m.Model()), e, id)
    ensures var f := old(m.Model());
            marked' == marked + {if Preds(f, Dest(f, e)) == 1 then Dest(f, e) else |f.blocks|}
  {
    ghost var f := m.Model();
    assert Targets(Succs(f.blocks[e.0].term), |f.blocks|);
    var s := Succs(m.blocks[e.0].term)[e.1];
    if Preds(m.Model(), s) == 1 {
      assert s !in marked;
      var b := m.blocks[s];
      m.blocks := m.blocks[s := b.(body := [Bump(id)] + b.body)];
      marked' := marked + {s};
    } else {
      var l := m.CreateBlock();
      m.SetTerminator(e.0, SetSucc(m.blocks[e.0].term, e.1, l));
      m.SetTerminator(l, Br(s));
      m.Append(l, Bump(id));
      SetIncomingBlocks(m, s, e.0, l);
      assert m.blocks[l].body == [Bump(id)];
      assert m.blocks == OnEdge(f, e, id).blocks;
      marked' := marked + {l};
    }
  }

  // ----- the assertion about names never fails -----------------------------------------------

  lemma {:induction false} PredsAfter(f: Fn, e: Edge, id: nat, s: nat, n: nat)
    requires Closed(f) && ValidEdge(f, e) && s < |f.blocks| && n <= |f.blocks|
    ensures PredsBelow(OnEdge(f, e, id), s, n) + (if e.0 < n && s == Dest(f, e) then 1 else 0) == PredsBelow(f, s, n)
    decreases n
  {
    hide Occurrences, OnEdge, Closed, Succs;
    if n > 0 {
      PredsAfter(f, e, id, s, n - 1);
      OnEdgeCount(f, e, id, n - 1, s);
      OccurrencesAt(Succs(f.blocks[e.0].term), e.1, Dest(f, e));
    }
  }

  lemma {:induction false} PredsSame(f: Fn, g: Fn, s: nat, n: nat)
    requires n <= |f.blocks| <= |g.blocks| && forall l :: 0 <= l < n ==> g.blocks[l].term == f.blocks[l].term
    ensures PredsBelow(g, s, n) == PredsBelow(f, s, n)
    decreases n
  {
    if n > 0 {
      PredsSame(f, g, s, n - 1);
    }
  }

  /** Instrumenting an edge changes neither the number of ways into an old block nor the targets of
      the other edges. */
  lemma PredsKept(f: Fn, e: Edge, id: nat, s: nat)
    requires Instrumentable(f, e) && s < |f.blocks|
    ensures Preds(Instrument(f, e, id), s) == Preds(f, s)
    ensures forall e': Edge :: ValidEdge(f, e') && e' != e ==>
      ValidEdge(Instrument(f, e, id), e') && Dest(Instrument(f, e, id), e') == Dest(f, e')
  {
    CountKept(f, e, id, s);
    OthersKept(f, e, id);
    hide *;
  }

  lemma CountKept(f: Fn, e: Edge, id: nat, s: nat)
    requires Instrumentable(f, e) && s < |f.blocks|
    ensures Preds(Instrument(f, e, id), s) == Preds(f, s)
  {
    var n := |f.blocks|;
    if Preds(f, Dest(f, e)) == 1 {
      PredsSame(f, Instrument(f, e, id), s, n);
    } else {
      PredsAfter(f, e, id, s, n);
      NewWay(f, e, id, s);
      hide OnEdge, Occurrences, PredsBelow, Dest, ValidEdge, Closed;
    }
  }

  /** The block on the edge is a way into the target of the edge. */
  lemma NewWay(f: Fn, e: Edge, id: nat, s: nat)
    requires Instrumentable(f, e) && s < |f.blocks|
    ensures var g, n := OnEdge(f, e, id), |f.blocks|;
      |g.blocks| == n + 1 && PredsBelow(g, s, n + 1) == PredsBelow(g, s, n) + if Dest(f, e) == s then 1 else 0
  {
    var g, n := OnEdge(f, e, id), |f.blocks|;
    assert g.blocks[n].term == Br(Dest(f, e)) && Succs(Br(Dest(f, e))) == [Dest(f, e)];
    assert Occurrences([Dest(f, e)], s) == if Dest(f, e) == s then 1 else 0 by {
      assert [Dest(f, e)][1..] == [];
    }
  }

  lemma OthersKept(f: Fn, e: Edge, id: nat)
    requires Instrumentable(f, e)
    ensures forall e': Edge :: ValidEdge(f, e') && e' != e ==>
      ValidEdge(Instrument(f, e, id), e') && Dest(Instrument(f, e, id), e') == Dest(f, e')
  {
  }

  /** What is known about the current function g while f is being instrumented. */
  ghost predicate Progress(f: Fn, g: Fn, todo: set<Edge>, marked: set<nat>) {
    && |f.blocks| <= |g.blocks|
    && (forall s :: 0 <= s < |f.blocks| ==> Preds(g, s) == Preds(f, s))
    && (forall e :: e in todo ==> ValidEdge(f, e) && ValidEdge(g, e) && Dest(g, e) == Dest(f, e) < |f.blocks|)
    && (forall s :: s in marked && s < |f.blocks| && Preds(f, s) == 1 ==> forall e :: e in todo ==> Dest(f, e) != s)
  }

  lemma ProgressStep(f: Fn, g: Fn, todo: set<Edge>, marked: set<nat>, e: Edge, id: nat)
    requires Progress(f, g, todo, marked) && e in todo && Instrumentable(g, e)
    ensures Preds(g, Dest(g, e)) == 1 ==> Dest(g, e) !in marked
    ensures var m := if Preds(g, Dest(g, e)) == 1 then Dest(g, e) else |g.blocks|;
      Progress(f, Instrument(g, e, id), todo - {e}, marked + {m})
  {
    var h := Instrument(g, e, id);
    var m := if Preds(g, Dest(g, e)) == 1 then Dest(g, e) else |g.blocks|;
    forall s | 0 <= s < |f.blocks| ensures Preds(h, s) == Preds(f, s) {
      PredsKept(g, e, id, s);
    }
    PredsKept(g, e, id, Dest(g, e));
    forall s, d | s in marked + {m} && s < |f.blocks| && Preds(f, s) == 1 && d in todo - {e} ensures Dest(f, d) != s {
      if s == m && Dest(f, d) == s {
        OnlyEdge(f, e, d);
      }
    }
  }

  // ----- the pass ----------------------------------------------------------------------------

  lemma AllValidAppend(f: Fn, order: seq<Edge>, e: Edge)
    ensures AllValid(f, order + [e]) <==> AllValid(f, order) && ValidEdge(f, e)
  {
    var all := order + [e];
    if AllValid(f, all) {
      forall i | 0 <= i < |order| ensures ValidEdge(f, order[i]) {
        assert all[i] == order[i];
      }
      assert all[|order|] == e;
    }
  }

  lemma InstrumentNone(f: Fn, order: seq<Edge>, id: nat)
    requires Sound(f) && order == []
    ensures AllValid(f, order) && InstrumentAll(f, order, id) == f
  {
  }

  lemma InstrumentFirst(f: Fn, order: seq<Edge>, id: nat)
    requires Sound(f) && AllValid(f, order) && order != []
    ensures Instrumentable(f, order[0])
    ensures var g := Instrument(f, order[0], id);
      Sound(g) && AllValid(g, order[1..]) && InstrumentAll(f, order, id) == InstrumentAll(g, order[1..], id + 1)
  {
    NextValid(f, order, id);
  }

  lemma {:induction false} OneMoreEdge(f: Fn, order: seq<Edge>, id: nat, e: Edge)
    requires Sound(f) && AllValid(f, order + [e])
    ensures AllValid(f, order)
    ensures Instrumentable(InstrumentAll(f, order, id), e)
    ensures InstrumentAll(f, order + [e], id) == Instrument(InstrumentAll(f, order, id), e, id + |order|)
    decreases |order|
  {
    hide Sound, Instrument, InstrumentAll, AllValid, Instrumentable, ValidEdge;
    var all := order + [e];
    AllValidAppend(f, order, e);
    InstrumentFirst(f, all, id);
    if order == [] {
      assert all[1..] == [] && all[0] == e;
      InstrumentNone(f, order, id);
      InstrumentNone(Instrument(f, e, id), [], id + 1);
    } else {
      assert all[1..] == order[1..] + [e] && all[0] == order[0];
      InstrumentFirst(f, order, id);
      OneMoreEdge(Instrument(f, order[0], id), order[1..], id + 1, e);
    }
  }

  /** Takes one edge out of the set and instruments it. */
  method InstrumentNext(m: Function, e: Edge, id: nat, marked: set<nat>, ghost f: Fn, ghost edges: set<Edge>,
                        ghost order: seq<Edge>)
    returns (marked': set<nat>)
    requires Sound(f) && AllValid(f, order) && m.Model() == InstrumentAll(f, order, 1) && id == |order| + 1
    requires Progress(f, m.Model(), edges, marked) && e in edges
    modifies m`blocks
    ensures AllValid(f, order + [e]) && m.Model() == InstrumentAll(f, order + [e], 1)
    ensures Progress(f, m.Model(), edges - {e}, marked')
  {
    assert ValidEdge(f, e);
    AllValidAppend(f, order, e);
    hide *;
    OneMoreEdge(f, order, 1, e);
    ProgressStep(f, m.Model(), edges, marked, e, id);
    InstrumentableParts(m.Model(), e);
    marked' := InstrumentInstruction(m, e, id, marked);
  }

  /** Every wanted edge once. */
  ghost predicate Lists(f: Fn, dicts: set<nat>, order: seq<Edge>) {
    (forall e: Edge :: e in order <==> Wanted(f, dicts, e)) && NoRepeats(order)
  }

  /** The edges taken out of the set so far, in order. */
  ghost predicate Listing(all: set<Edge>, order: seq<Edge>, edges: set<Edge>) {
    && (forall e :: e in all <==> e in order || e in edges)
    && (forall e :: e in order ==> e !in edges)
    && (forall i, j :: 0 <= i < j < |order| ==> order[i] != order[j])
  }

  lemma ListingStep(all: set<Edge>, order: seq<Edge>, edges: set<Edge>, e: Edge)
    requires Listing(all, order, edges) && e in edges
    ensures Listing(all, order + [e], edges - {e})
  {
  }

  /** `order` lists the wanted edges without repetition: edge order[i] has counter i + 1. */
  method RunOnModule(m: Function, dicts: set<nat>) returns (ghost order: seq<Edge>, edgeCount: nat)
    requires Sound(m.Model())
    modifies m
    ensures Lists(old(m.Model()), dicts, order)
    ensures AllValid(old(m.Model()), order) && m.Model() == InstrumentAll(old(m.Model()), order, 1)
    ensures edgeCount == |order| + 1
  {
    ghost var f := m.Model();
    var edges := CollectEdges(m, dicts);
    ghost var all := edges;
    order, edgeCount := [], 1;
    var marked: set<nat> := {};
    StartProgress(f, dicts, edges);
    assert Listing(all, order, edges);
    hide *;
    InstrumentNone(f, [], 1);
    while edges != {}
      invariant AllValid(f, order) && m.Model() == InstrumentAll(f, order, 1) && edgeCount == |order| + 1
      invariant Progress(f, m.Model(), edges, marked) && Sound(f)
      invariant Listing(all, order, edges)
      decreases |edges|
    {
      var e :| e in edges;
      ListingStep(all, order, edges, e);
      marked := InstrumentNext(m, e, edgeCount, marked, f, edges, order);
      order := order + [e];
      edgeCount := edgeCount + 1;
      edges := edges - {e};
    }
  }

  lemma StartProgress(f: Fn, dicts: set<nat>, edges: set<Edge>)
    requires Sound(f) && forall e: Edge :: e in edges <==> Wanted(f, dicts, e)
    ensures Progress(f, f, edges, {})
  {
    forall e | e in edges ensures ValidEdge(f, e) && Dest(f, e) < |f.blocks| {
      assert Targets(Succs(f.blocks[e.0].term), |f.blocks|);
    }
  }

  lemma InstrumentableParts(f: Fn, e: Edge)
    requires Instrumentable(f, e)
    ensures Closed(f) && ValidEdge(f, e) && Dest(f, e) < |f.blocks|
  {
  }

  // ----- which edges have counters -----------------------------------------------------------

  /** Both ways out of a conditional branch are listed, all ways out of a terminator with many exits, and all ways
      out of a block with a dictionary word; the way out of any other unconditional branch is not. */
  lemma WhichEdges(f: Fn, dicts: set<nat>, order: seq<Edge>, l: nat)
    requires Lists(f, dicts, order) && l < |f.blocks|
    ensures f.blocks[l].term.CondBr? ==> (l, 0) in order && (l, 1) in order
    ensures f.blocks[l].term.Multi? ==> forall i :: 0 <= i < |f.blocks[l].term.dests| ==> (l, i) in order
    ensures l in dicts ==> forall i :: 0 <= i < |Succs(f.blocks[l].term)| ==> (l, i) in order
    ensures f.blocks[l].term.Br? && l !in dicts ==> (l, 0) !in order
  {
    forall i | 0 <= i < |Succs(f.blocks[l].term)|
      ensures (l, i) in order <==> Wanted(f, dicts, (l, i))
    {
    }
    if f.blocks[l].term.CondBr? {
      assert Wanted(f, dicts, (l, 0)) && Wanted(f, dicts, (l, 1));
    }
    assert !f.blocks[l].term.CondBr? && !f.blocks[l].term.Multi? && l !in dicts ==> !Wanted(f, dicts, (l, 0));
  }

  /** The counter at a place of the order ends at its start plus the traversals of edge d, which has that place. */
  ghost predicate OwnCounter(order: seq<Edge>, st: St, o': Outcome, tk: multiset<Edge>, d: Edge) {
    exists k :: 0 <= k < |order| && order[k] == d && Count(o'.st.ctr, 1 + k) == (Count(st.ctr, 1 + k) + tk[d]) % 256
  }

  ghost predicate OwnCounters(f: Fn, order: seq<Edge>, st: St, o': Outcome, tk: multiset<Edge>) {
    forall l :: 0 <= l < |f.blocks| && f.blocks[l].term.CondBr? ==>
      OwnCounter(order, st, o', tk, (l, 0)) && OwnCounter(order, st, o', tk, (l, 1))
  }

  lemma ListedHaveCounters(f: Fn, dicts: set<nat>, order: seq<Edge>, st: St, o: Outcome, tk: multiset<Edge>,
                           o': Outcome)
    requires Lists(f, dicts, order) && ExactCounters(order, 1, st, o, tk, o')
    ensures OwnCounters(f, order, st, o', tk)
  {
    forall l | 0 <= l < |f.blocks| && f.blocks[l].term.CondBr?
      ensures OwnCounter(order, st, o', tk, (l, 0)) && OwnCounter(order, st, o', tk, (l, 1))
    {
      WhichEdges(f, dicts, order, l);
      hide *;
      ListedHasCounter(order, st, o, tk, o', (l, 0));
      ListedHasCounter(order, st, o, tk, o', (l, 1));
    }
  }

  lemma ListedHasCounter(order: seq<Edge>, st: St, o: Outcome, tk: multiset<Edge>, o': Outcome, d: Edge)
    requires d in order && ExactCounters(order, 1, st, o, tk, o')
    ensures OwnCounter(order, st, o', tk, d)
  {
    hide Count;
    var k :| 0 <= k < |order| && order[k] == d;
  }

  ghost predicate BranchesCounted(sem: Sem, f: Fn, g: Fn, order: seq<Edge>, st: St, tk: multiset<Edge>) {
    exists m: nat, o': Outcome, tk': multiset<Edge> ::
      HaltsIn(sem, g, Init(st), m, o', tk') && OwnCounters(f, order, st, o', tk)
  }

  lemma CountedRunCounts(sem: Sem, f: Fn, g: Fn, dicts: set<nat>, order: seq<Edge>, st: St, o: Outcome,
                         tk: multiset<Edge>)
    requires Lists(f, dicts, order) && CountedRun(sem, g, order, st, o, tk)
    ensures BranchesCounted(sem, f, g, order, st, tk)
  {
    hide HaltsIn, ExactCounters, OwnCounters, Lists;
    var m: nat, o', tk' :| HaltsIn(sem, g, Init(st), m, o', tk') && ExactCounters(order, 1, st, o, tk, o');
    ListedHaveCounters(f, dicts, order, st, o, tk, o');
  }

  lemma ListsAreValid(f: Fn, dicts: set<nat>, order: seq<Edge>)
    requires Lists(f, dicts, order)
    ensures AllValid(f, order)
  {
    forall k | 0 <= k < |order|
      ensures ValidEdge(f, order[k])
    {
      assert order[k] in order;
    }
  }

  /** Main result: whatever the set of dictionary words and the order of its edges, in every run that ends each way
      out of every conditional branch has a counter of its own that counts how often it was taken. */
  lemma BranchesAreCounted(sem: Sem, f: Fn, dicts: set<nat>, order: seq<Edge>, st: St, n: nat, o: Outcome,
                           tk: multiset<Edge>)
    requires Sound(f) && NoBumps(f) && ByteCounters(st.ctr) && Lists(f, dicts, order)
    requires HaltsIn(sem, f, Init(st), n, o, tk)
    ensures AllValid(f, order) && BranchesCounted(sem, f, InstrumentAll(f, order, 1), order, st, tk)
  {
    hide *;
    ListsAreValid(f, dicts, order);
    InstrumentationCounts(sem, f, order, st);
    CountedRunCounts(sem, f, InstrumentAll(f, order, 1), dicts, order, st, o, tk);
  }

  // ----- indirect branches -------------------------------------------------------------------

  /** An indirect branch in block l goes to the block whose address it was given, if that is in its list. The
      address of a block is the block: instrumenting an edge does not change it. */
  predicate MayJump(f: Fn, l: nat, t: nat) {
    l < |f.blocks| && t < |f.blocks| && t in Succs(f.blocks[l].term)
  }

  predicate StartsWithCount(f: Fn, t: nat, id: nat) {
    t < |f.blocks| && f.blocks[t].body != [] && f.blocks[t].body[0] == Bump(id)
  }

  ghost predicate NoRepeats(order: seq<Edge>) {
    forall i, j :: 0 <= i < j < |order| ==> order[i] != order[j]
  }

  /** Where an edge leads after some edges were instrumented: to a new block if it was one of them, unless it is the
      only way into its target; else where it did before. */
  ghost predicate LeadsAfter(f: Fn, g: Fn, order: seq<Edge>, d: Edge)
    requires ValidEdge(f, d)
  {
    && |f.blocks| <= |g.blocks| && ValidEdge(g, d) && |Succs(g.blocks[d.0].term)| == |Succs(f.blocks[d.0].term)|
    && Dest(f, d) < |f.blocks| && Preds(g, Dest(f, d)) == Preds(f, Dest(f, d))
    && if d in order && Preds(f, Dest(f, d)) != 1 then Dest(g, d) >= |f.blocks| else Dest(g, d) == Dest(f, d)
  }

  lemma {:induction false} EdgeAfter(f: Fn, order: seq<Edge>, d: Edge)
    requires Sound(f) && AllValid(f, order) && NoRepeats(order) && ValidEdge(f, d)
    ensures LeadsAfter(f, InstrumentAll(f, order, 1), order, d)
    decreases |order|
  {
    hide *;
    if order == [] {
      NothingDone(f, order, d);
    } else {
      var (less, e) := (order[..|order| - 1], order[|order| - 1]);
      LastEdge(f, order);
      OneMoreEdge(f, less, 1, e);
      EdgeAfter(f, less, d);
      EdgeAfter(f, less, e);
      EdgeNow(f, InstrumentAll(f, less, 1), less, e, 1 + |less|, d);
    }
  }

  lemma NothingDone(f: Fn, order: seq<Edge>, d: Edge)
    requires Sound(f) && order == [] && ValidEdge(f, d)
    ensures AllValid(f, order) && LeadsAfter(f, InstrumentAll(f, order, 1), order, d)
  {
    assert Targets(Succs(f.blocks[d.0].term), |f.blocks|);
  }

  lemma LastEdge(f: Fn, order: seq<Edge>)
    requires AllValid(f, order) && NoRepeats(order) && order != []
    ensures var (less, e) := (order[..|order| - 1], order[|order| - 1]);
            order == less + [e] && AllValid(f, less) && NoRepeats(less) && ValidEdge(f, e) && e !in less
  {
  }

  lemma EdgeNow(f: Fn, g: Fn, less: seq<Edge>, e: Edge, id: nat, d: Edge)
    requires Instrumentable(g, e) && ValidEdge(f, d) && ValidEdge(f, e) && e !in less
    requires LeadsAfter(f, g, less, d) && LeadsAfter(f, g, less, e)
    ensures LeadsAfter(f, Instrument(g, e, id), less + [e], d)
  {
    PredsKept(g, e, id, Dest(f, d));
    assert d in less + [e] <==> d in less || d == e;
  }

  /** The only way into a block is counted at its start. */
  lemma {:induction false} CountAtTarget(f: Fn, order: seq<Edge>, i: nat)
    requires Sound(f) && AllValid(f, order) && NoRepeats(order) && i < |order| && Preds(f, Dest(f, order[i])) == 1
    ensures StartsWithCount(InstrumentAll(f, order, 1), Dest(f, order[i]), i + 1)
    decreases |order|
  {
    var (less, e, d) := (order[..|order| - 1], order[|order| - 1], order[i]);
    LastEdge(f, order);
    OneMoreEdge(f, less, 1, e);
    EdgeAfter(f, less, e);
    if i < |less| {
      CountAtTarget(f, less, i);
      if Dest(f, e) == Dest(f, d) {
        OnlyEdge(f, d, e);
      }
    }
  }

  /** Main result about indirect branches, in whatever order the wanted edges are instrumented: a jump over such
      an edge is still defined if and only if the edge is the only way into its target, and is then counted;
      otherwise the branch no longer lists the target, however often it did before. */
  lemma IndirectIsCountedIff(f: Fn, dicts: set<nat>, order: seq<Edge>, i: nat)
    requires Sound(f) && Lists(f, dicts, order) && i < |order|
    ensures AllValid(f, order)
    ensures var (g, l, t) := (InstrumentAll(f, order, 1), order[i].0, Dest(f, order[i]));
            && (MayJump(g, l, t) <==> Preds(f, t) == 1)
            && (MayJump(g, l, t) ==> StartsWithCount(g, t, i + 1))
  {
    var d := order[i];
    ListsAreValid(f, dicts, order);
    assert d in order;
    hide InstrumentAll, Sound, Preds;
    EdgeAfter(f, order, d);
    var (g, l, t) := (InstrumentAll(f, order, 1), d.0, Dest(f, d));
    if MayJump(g, l, t) {
      var j :| 0 <= j < |Succs(g.blocks[l].term)| && Succs(g.blocks[l].term)[j] == t;
      assert Wanted(f, dicts, (l, j));
      EdgeAfter(f, order, (l, j));
    }
    if Preds(f, t) == 1 {
      assert Succs(g.blocks[l].term)[d.1] == t;
      CountAtTarget(f, order, i);
    }
  }

  /** For example, a block that two other blocks lead to: the indirect branch of one of them is undefined after
      its edges were instrumented. */
  lemma IndirectCanBreak()
    ensures var f := Fn([Block([], [], Multi(Reg(0, false), 0, [], [2, 1])), Block([], [], Br(2)),
                         Block([], [], Ret(Const(0)))], 1);
            var order := [(0, 0), (0, 1)];
            && Sound(f) && Lists(f, {}, order) && AllValid(f, order)
            && MayJump(f, 0, 2) && !MayJump(InstrumentAll(f, order, 1), 0, 2)
  {
    var b0, b1 := Block([], [], Multi(Reg(0, false), 0, [], [2, 1])), Block([], [], Br(2));
    var f := Fn([b0, b1, Block([], [], Ret(Const(0)))], 1);
    assert Succs(b0.term) == [2, 1] && Succs(b1.term) == [2];
    assert [2, 1][1..] == [1] && [2][1..] == [] && [1][1..] == [];
    assert Occurrences([1], 2) == 0 && Occurrences([2, 1], 2) == 1 && Occurrences([2], 2) == 1;
    assert PredsBelow(f, 2, 1) == 1 && PredsBelow(f, 2, 2) == 2;
    assert Preds(f, 2) >= 2;
    assert b0.term.Multi? && Wanted(f, {}, (0, 0)) && Wanted(f, {}, (0, 1));
    IndirectIsCountedIff(f, {}, [(0, 0), (0, 1)], 0);
  }
}
