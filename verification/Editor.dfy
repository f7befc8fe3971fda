/** Editing a function in place: splitting blocks, inserting instructions, replacing terminators and
    phis, the way the compiler passes do it. */
module Editor {
  import opened Ir
  import opened Splice
  import opened Expansions
  import opened Census

  /** The tail of a block, from instruction k on, becomes a new block to which the head jumps; the
      phis of the successors follow the terminator. */
  function SplitAt(blocks: seq<Block>, bb: nat, k: nat): (r: seq<Block>)
    requires bb < |blocks| && k <= |blocks[bb].body|
    ensures |r| == |blocks| + 1
    ensures r[|blocks|] == Block([], blocks[bb].body[k..], blocks[bb].term)
  {
    var b := blocks[bb];
    var moved := Redirect(blocks, Succs(b.term), bb, |blocks|);
    moved[bb := Block(moved[bb].phis, b.body[..k], Br(|blocks|))] + [Block([], b.body[k..], b.term)]
  }

  /** Function f while its block bb is being expanded at instruction k: the head ends in the
      instructions h and the terminator ht, r are the inserted blocks. */
  function Expanding(f: Fn, bb: nat, k: nat, h: seq<Instr>, ht: Term, r: seq<Block>): (bs: seq<Block>)
    requires bb < |f.blocks| && k < |f.blocks[bb].body|
    ensures |bs| == |f.blocks| + 1 + |r|
  {
    var b := f.blocks[bb];
    var moved := Redirect(f.blocks, Succs(b.term), bb, |f.blocks|);
    moved[bb := Block(moved[bb].phis, b.body[..k] + h, ht)] + [Block([], b.body[k..], b.term)] + r
  }

  lemma ExpandingBlocks(f: Fn, bb: nat, k: nat, h: seq<Instr>, ht: Term, r: seq<Block>)
    requires bb < |f.blocks| && k < |f.blocks[bb].body|
    ensures var (bs, b, n) := (Expanding(f, bb, k, h, ht, r), f.blocks[bb], |f.blocks|);
      && bs[bb].body == b.body[..k] + h
      && bs[n] == Block([], b.body[k..], b.term) && b.body[k..][0] == b.body[k]
      && forall q :: 0 <= q < |r| ==> bs[n + 1 + q] == r[q]
  {
  }

  lemma ExpandingTerm(f: Fn, bb: nat, k: nat, h: seq<Instr>, ht: Term, t: Term, r: seq<Block>)
    requires bb < |f.blocks| && k < |f.blocks[bb].body|
    ensures var bs := Expanding(f, bb, k, h, ht, r); bs[bb := bs[bb].(term := t)] == Expanding(f, bb, k, h, t, r)
  {
    hide Redirect;
  }

  lemma ExpandingDone(f: Fn, bb: nat, k: nat, h: seq<Instr>, t: Term, r: seq<Block>, inc: seq<Inc>, next: nat)
    requires At(f, bb, k)
    ensures var n := |f.blocks|;
      Expanding(f, bb, k, h, t, r)[n := Block([Phi(f.blocks[bb].body[k].dst, inc)], f.blocks[bb].body[k + 1..],
                                              f.blocks[bb].term)]
      == Apply(f, Cut(bb, k, h, t, [], r, inc, next)).blocks
  {
    hide Redirect;
  }

  class Function {
    var blocks: seq<Block>
    var next: nat

    function Model(): Fn
      reads this
    {
      Fn(blocks, next)
    }

    constructor (f: Fn)
      ensures Model() == f
    {
      blocks, next := f.blocks, f.next;
    }

    // ----- editing -----------------------------------------------------------------------------

    method NewName() returns (r: Reg)
      modifies this`next
      ensures r == Reg(old(next), false) && next == old(next) + 1
    {
      r := Reg(next, false);
      next := next + 1;
    }

    method SplitBasicBlock(bb: nat, k: nat) returns (end: nat)
      requires bb < |blocks| && k <= |blocks[bb].body|
      modifies this`blocks
      ensures end == |old(blocks)| && blocks == SplitAt(old(blocks), bb, k)
    {
      var b := blocks[bb];
      end := |blocks|;
      blocks := Redirect(blocks, Succs(b.term), bb, end);
      blocks := blocks[bb := Block(blocks[bb].phis, b.body[..k], Br(end))];
      blocks := blocks + [Block([], b.body[k..], b.term)];
    }

    method CreateBlock() returns (l: nat)
      modifies this`blocks
      ensures l == |old(blocks)| && blocks == old(blocks) + [Block([], [], Unreachable)]
    {
      l := |blocks|;
      blocks := blocks + [Block([], [], Unreachable)];
    }

    /** Adds an instruction in front of the terminator of block l. */
    method Append(l: nat, i: Instr)
      requires l < |blocks|
      modifies this`blocks
      ensures blocks == old(blocks)[l := old(blocks)[l].(body := old(blocks)[l].body + [i])]
    {
      blocks := blocks[l := blocks[l].(body := blocks[l].body + [i])];
    }

    method SetTerminator(l: nat, t: Term)
      requires l < |blocks|
      modifies this`blocks
      ensures blocks == old(blocks)[l := old(blocks)[l].(term := t)]
    {
      blocks := blocks[l := blocks[l].(term := t)];
    }

    /** Replaces the first instruction of a block without phis by a phi of the same name. */
    method ReplaceFirstWithPhi(l: nat, inc: seq<Inc>)
      requires l < |blocks| && blocks[l].phis == [] && blocks[l].body != [] && !blocks[l].body[0].Bump?
      modifies this`blocks
      ensures var b := old(blocks)[l];
        blocks == old(blocks)[l := Block([Phi(b.body[0].dst, inc)], b.body[1..], b.term)]
    {
      var b := blocks[l];
      blocks := blocks[l := Block([Phi(b.body[0].dst, inc)], b.body[1..], b.term)];
    }

    // ----- expanding a comparison --------------------------------------------------------------

    method BeginExpansion(bb: nat, k: nat) returns (end: nat)
      requires bb < |blocks| && k < |blocks[bb].body|
      modifies this`blocks
      ensures end == |old(blocks)| && blocks == Expanding(old(Model()), bb, k, [], Br(end), [])
    {
      ghost var b := blocks[bb];
      end := SplitBasicBlock(bb, k);
      assert b.body[..k] + [] == b.body[..k];
    }

    method AppendToHead(bb: nat, i: Instr, ghost f: Fn, ghost k: nat, ghost h: seq<Instr>, ghost ht: Term,
                        ghost r: seq<Block>)
      requires bb < |f.blocks| && k < |f.blocks[bb].body| && blocks == Expanding(f, bb, k, h, ht, r)
      modifies this`blocks
      ensures blocks == Expanding(f, bb, k, h + [i], ht, r)
    {
      ExpandingBlocks(f, bb, k, h, ht, r);
      Append(bb, i);
      assert f.blocks[bb].body[..k] + (h + [i]) == (f.blocks[bb].body[..k] + h) + [i];
    }

    /** Shifts and truncations of both operands at the end of the head. */
    method AppendTopParts(bb: nat, i: Instr, s: nat, t: Width, ghost f: Fn, ghost k: nat, ghost ht: Term)
      returns (x: Reg, y: Reg)
      requires bb < |f.blocks| && k < |f.blocks[bb].body| && i.Icmp?
      requires blocks == Expanding(f, bb, k, [], ht, []) && next == f.next
      modifies this
      ensures x == New(f, 1) && y == New(f, 3) && next == f.next + 4
      ensures blocks == Expanding(f, bb, k, TopParts(f, i, s, t), ht, [])
    {
      ghost var p := TopParts(f, i, s, t);
      hide Expanding;
      var s0 := NewName();
      AppendToHead(bb, LShr(s0, i.w, i.a, s), f, k, [], ht, []);
      x := NewName();
      AppendToHead(bb, Trunc(x, t, Use(s0)), f, k, [] + [p[0]], ht, []);
      var s1 := NewName();
      AppendToHead(bb, LShr(s1, i.w, i.b, s), f, k, [] + [p[0]] + [p[1]], ht, []);
      y := NewName();
      AppendToHead(bb, Trunc(y, t, Use(s1)), f, k, [] + [p[0]] + [p[1]] + [p[2]], ht, []);
      assert [] + [p[0]] + [p[1]] + [p[2]] + [p[3]] == p;
    }

    /** A new block with one instruction and a terminator. */
    method CreateArm(i: Instr, t: Term, ghost f: Fn, ghost bb: nat, ghost k: nat, ghost h: seq<Instr>, ghost ht: Term,
                     ghost r: seq<Block>) returns (l: nat)
      requires bb < |f.blocks| && k < |f.blocks[bb].body| && blocks == Expanding(f, bb, k, h, ht, r)
      modifies this`blocks
      ensures l == |f.blocks| + 1 + |r| && blocks == Expanding(f, bb, k, h, ht, r + [Block([], [i], t)])
    {
      l := CreateBlock();
      Append(l, i);
      SetTerminator(l, t);
      assert blocks[l].body == [i];
    }

    /** A new block that compares the low halves of both operands. */
    method CreateLowArm(i: Instr, w: Width, m: Meta, t: Term, ghost q: nat, ghost f: Fn, ghost bb: nat, ghost k: nat,
                        ghost h: seq<Instr>, ghost ht: Term, ghost r: seq<Block>) returns (l: nat, d: Reg)
      requires bb < |f.blocks| && k < |f.blocks[bb].body| && blocks == Expanding(f, bb, k, h, ht, r)
      requires i.Icmp? && next == f.next + q
      modifies this
      ensures l == |f.blocks| + 1 + |r| && d == New(f, q + 2) && next == f.next + q + 3
      ensures blocks == Expanding(f, bb, k, h, ht, r +
        [Block([], LowParts(f, i, q, w) + [Icmp(d, i.pred, w, Use(New(f, q)), Use(New(f, q + 1)), m)], t)])
    {
      l := CreateBlock();
      var x := NewName();
      Append(l, Trunc(x, w, i.a));
      var y := NewName();
      Append(l, Trunc(y, w, i.b));
      d := NewName();
      Append(l, Icmp(d, i.pred, w, Use(x), Use(y), m));
      SetTerminator(l, t);
      assert blocks[l].body == LowParts(f, i, q, w) + [Icmp(d, i.pred, w, Use(x), Use(y), m)];
    }

    /** The terminator of inserted block number q. */
    method SetArmTerminator(l: nat, t: Term, ghost q: nat, ghost f: Fn, ghost bb: nat, ghost k: nat,
                            ghost h: seq<Instr>,
                            ghost ht: Term, ghost r: seq<Block>)
      requires bb < |f.blocks| && k < |f.blocks[bb].body| && blocks == Expanding(f, bb, k, h, ht, r)
      requires q < |r| && l == |f.blocks| + 1 + q
      modifies this`blocks
      ensures blocks == Expanding(f, bb, k, h, ht, r[q := r[q].(term := t)])
    {
      ExpandingBlocks(f, bb, k, h, ht, r);
      SetTerminator(l, t);
    }

    /** The head gets its terminator, and a phi takes the place of the comparison. */
    method EndExpansion(bb: nat, t: Term, inc: seq<Inc>, ghost f: Fn, ghost k: nat, ghost h: seq<Instr>, ghost ht: Term,
                        ghost r: seq<Block>, end: nat)
      requires At(f, bb, k) && blocks == Expanding(f, bb, k, h, ht, r) && end == |f.blocks|
      modifies this`blocks
      ensures Model() == Apply(f, Cut(bb, k, h, t, [], r, inc, next))
    {
      hide Expanding, Apply;
      ExpandingTerm(f, bb, k, h, ht, t, r);
      SetTerminator(bb, t);
      ExpandingBlocks(f, bb, k, h, t, r);
      assert f.blocks[bb].body[k..][1..] == f.blocks[bb].body[k + 1..];
      ReplaceFirstWithPhi(end, inc);
      ExpandingDone(f, bb, k, h, t, r, inc, next);
      assert Apply(f, Cut(bb, k, h, t, [], r, inc, next)).next == next by {
        ApplyBlocks(f, Cut(bb, k, h, t, [], r, inc, next));
      }
    }

    /** Collects the comparisons a stage is about, in program order. */
    method Gather(q: Query) returns (icomps: seq<Instr>)
      ensures icomps == Collect(q, Model())
    {
      icomps := [];
      for b := 0 to |blocks|
        invariant icomps == CollectBlocks(q, blocks[..b])
      {
        var body := blocks[b].body;
        for k := 0 to |body|
          invariant icomps == CollectBlocks(q, blocks[..b]) + CollectBody(q, body[..k])
        {
          CollectBodyAppend(q, body[..k], [body[k]]);
          assert body[..k] + [body[k]] == body[..k + 1] && [body[k]][1..] == [];
          if Hits(q, body[k]) {
            icomps := icomps + [body[k]];
          }
        }
        assert body[..|body|] == body;
        CollectBlocksAppend(q, blocks[..b], blocks[b]);
        assert blocks[..b] + [blocks[b]] == blocks[..b + 1];
      }
      assert blocks[..|blocks|] == blocks;
    }

    /** Is there an instruction the query counts? */
    method Contains(q: Query) returns (found: bool)
      requires Simple(q) && !q.Defines?
      ensures found <==> Tally(q, Model()) > 0
    {
      var icomps := Gather(q);
      CollectTally(q, q, blocks);
      found := icomps != [];
    }
  }
}
