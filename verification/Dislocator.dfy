/** libdislocator: an allocator that puts every block right before a page that cannot be accessed, and never
    uses the pages of a freed block again. */
module Dislocator {
  import opened Bytes

  const PAGE_SIZE := 4096

  const ALLOC_CANARY := 0xAACC_AACC

  const ALLOC_CLOBBER: byte := 0xCC

  const SIZE_MAX := 0xFFFF_FFFF_FFFF_FFFF

  function PgCount(l: nat): nat { (l + (PAGE_SIZE - 1)) / PAGE_SIZE }

  datatype Block = Block(ptr: int, len: nat)
  {
    /** The page behind the block, and the first page of its mapping. */
    function Guard(): int { (ptr + len) / PAGE_SIZE }

    function First(): int { Guard() - PgCount(len + 8) }

    predicate Aligned() { (ptr + len) % PAGE_SIZE == 0 }

    predicate Spans(page: int) { First() <= page <= Guard() }
  }

  ghost predicate Apart(a: Block, b: Block) { a.Guard() < b.First() || b.Guard() < a.First() }

  function Sum(bs: seq<Block>): nat { if bs == [] then 0 else bs[0].len + Sum(bs[1..]) }

  lemma {:induction false} SumSplit(xs: seq<Block>, ys: seq<Block>)
    ensures Sum(xs + ys) == Sum(xs) + Sum(ys)
  {
    if xs == [] {
      assert xs + ys == ys;
    } else {
      SumSplit(xs[1..], ys);
      assert (xs + ys)[1..] == xs[1..] + ys;
    }
  }

  /** The block that ends at the last but one of the given pages. */
  function At(at: int, len: nat): (b: Block)
    ensures b.Aligned() && b.First() == at && b.Guard() == at + PgCount(len + 8) && b.len == len
  {
    Block((at + PgCount(len + 8)) * PAGE_SIZE - len, len)
  }

  function PageRange(at: int, n: nat): (r: set<int>)
    ensures forall page :: page in r <==> at <= page < at + n
  {
    if n == 0 then {} else PageRange(at, n - 1) + {at + n - 1}
  }

  ghost function Removed(bs: seq<Block>, b: Block): (r: seq<Block>)
    requires b in bs
    ensures multiset(r) == multiset(bs) - multiset{b} && forall o :: o in r ==> o in bs
  {
    if bs[0] == b then (assert bs == [b] + bs[1..]; bs[1..])
    else (assert bs == [bs[0]] + bs[1..]; [bs[0]] + Removed(bs[1..], b))
  }

  lemma {:induction false} SumWithout(bs: seq<Block>, b: Block)
    requires b in bs
    ensures Sum(bs) == Sum(Removed(bs, b)) + b.len
  {
    if bs[0] != b {
      SumWithout(bs[1..], b);
    }
  }

  // ----- memory ----------------------------------------------------------------------------------

  /** Memory that was never written holds zeros. */
  function Load(mem: map<int, byte>, a: int): byte { if a in mem then mem[a] else 0 }

  function Word(mem: map<int, byte>, a: int): nat
  {
    Load(mem, a) + 0x100 * Load(mem, a + 1) + 0x1_0000 * Load(mem, a + 2) + 0x100_0000 * Load(mem, a + 3)
  }

  function StoreWord(mem: map<int, byte>, a: int, v: nat): map<int, byte>
    requires v < 0x1_0000_0000
  {
    mem[a := v % 0x100][a + 1 := v / 0x100 % 0x100][a + 2 := v / 0x1_0000 % 0x100][a + 3 := v / 0x100_0000]
  }

  lemma WordStored(mem: map<int, byte>, a: int, v: nat)
    requires v < 0x1_0000_0000
    ensures Word(StoreWord(mem, a, v), a) == v
    ensures forall x :: x < a || a + 4 <= x ==> Load(StoreWord(mem, a, v), x) == Load(mem, x)
  {
    Digits(v);
    BytesStored(mem, a, v % 0x100, v / 0x100 % 0x100, v / 0x1_0000 % 0x100, v / 0x100_0000);
  }

  lemma Digits(v: nat)
    ensures v == v % 0x100 + 0x100 * (v / 0x100 % 0x100) + 0x1_0000 * (v / 0x1_0000 % 0x100)
            + 0x100_0000 * (v / 0x100_0000)
  {
    var (q, r) := (v / 0x100, v / 0x1_0000);
    assert q == q % 0x100 + 0x100 * (q / 0x100) && q / 0x100 == r;
    assert r == r % 0x100 + 0x100 * (r / 0x100) && r / 0x100 == v / 0x100_0000;
  }

  lemma BytesStored(mem: map<int, byte>, a: int, b0: byte, b1: byte, b2: byte, b3: byte)
    ensures var m := mem[a := b0][a + 1 := b1][a + 2 := b2][a + 3 := b3];
            && Word(m, a) == b0 + 0x100 * b1 + 0x1_0000 * b2 + 0x100_0000 * b3
            && forall x :: x < a || a + 4 <= x ==> Load(m, x) == Load(mem, x)
  {
  }

  /** The same contents from one address to another. */
  ghost predicate Same(m: map<int, byte>, n: map<int, byte>, lo: int, hi: int)
  {
    forall a :: lo <= a < hi ==> Load(m, a) == Load(n, a)
  }

  lemma SameTwice(m: map<int, byte>, n: map<int, byte>, o: map<int, byte>, lo: int, hi: int)
    requires Same(m, n, lo, hi) && Same(n, o, lo, hi)
    ensures Same(m, o, lo, hi)
  {
  }

  ghost predicate Header(mem: map<int, byte>, b: Block)
  {
    Word(mem, b.ptr - 8) == b.len && Word(mem, b.ptr - 4) == ALLOC_CANARY
  }

  ghost function Contents(m: map<int, byte>, b: Block): (s: seq<byte>)
    ensures |s| == b.len
  {
    seq<byte>(b.len, k => Load(m, b.ptr + k))
  }

  lemma ContentsSame(m: map<int, byte>, n: map<int, byte>, b: Block)
    requires Same(m, n, b.ptr, b.ptr + b.len)
    ensures Contents(m, b) == Contents(n, b)
  {
  }

  lemma ContentsSet(m: map<int, byte>, b: Block, k: nat, v: byte)
    requires k < b.len
    ensures Contents(m[b.ptr + k := v], b) == Contents(m, b)[k := v]
    ensures forall a :: a != b.ptr + k ==> Load(m[b.ptr + k := v], a) == Load(m, a)
  {
    var n := m[b.ptr + k := v];
    forall j | 0 <= j < b.len
      ensures Contents(n, b)[j] == Contents(m, b)[k := v][j]
    {
      assert Contents(n, b)[j] == Load(n, b.ptr + j) && Contents(m, b)[j] == Load(m, b.ptr + j);
    }
  }

  lemma HeaderSame(m: map<int, byte>, n: map<int, byte>, b: Block)
    requires Header(m, b) && Same(m, n, b.ptr - 8, b.ptr)
    ensures Header(n, b)
  {
  }

  // ----- blocks ----------------------------------------------------------------------------------

  /** A block in use: its pages can be accessed, the one behind it cannot, and its header is intact. */
  ghost predicate InUse(mem: map<int, byte>, readable: set<int>, b: Block)
  {
    && b.Aligned() && Header(mem, b) && b.Guard() !in readable
    && forall page :: b.First() <= page < b.Guard() ==> page in readable
  }

  ghost predicate Gone(readable: set<int>, b: Block)
  {
    b.Aligned() && forall page :: b.Spans(page) ==> page !in readable
  }

  ghost predicate AllApart(bs: seq<Block>)
  {
    forall i, j :: 0 <= i < j < |bs| ==> Apart(bs[i], bs[j])
  }

  lemma AllApartPrefix(bs: seq<Block>, cs: seq<Block>)
    requires AllApart(bs + cs)
    ensures AllApart(bs)
  {
    forall i, j | 0 <= i < j < |bs|
      ensures Apart(bs[i], bs[j])
    {
      assert (bs + cs)[i] == bs[i] && (bs + cs)[j] == bs[j];
    }
  }

  lemma {:induction false} Moved(bs: seq<Block>, cs: seq<Block>, b: Block)
    requires b in bs && AllApart(bs + cs)
    ensures AllApart(Removed(bs, b) + (cs + [b]))
    ensures forall o :: o in Removed(bs, b) + cs ==> Apart(o, b)
  {
    var q := bs + cs;
    if bs[0] == b {
      assert q[0] == b;
      var r := bs[1..] + (cs + [b]);
      forall k | 0 <= k < |r| - 1
        ensures r[k] == q[k + 1] && Apart(q[0], r[k])
      {
      }
      assert bs[1..] + cs == r[..|r| - 1];
    } else {
      assert bs[1..] + cs == q[1..];
      Moved(bs[1..], cs, b);
      var r := Removed(bs[1..], b) + (cs + [b]);
      assert Removed(bs, b) + (cs + [b]) == [bs[0]] + r;
      forall o | o in r
        ensures Apart(bs[0], o)
      {
        assert o in q[1..];
        var k :| 0 <= k < |q| - 1 && q[1..][k] == o;
        assert q[0] == bs[0] && Apart(q[0], q[k + 1]);
      }
    }
  }

  ghost predicate OnlyData(m: map<int, byte>, n: map<int, byte>, b: Block)
  {
    forall a :: a < b.ptr || b.ptr + b.len <= a ==> Load(m, a) == Load(n, a)
  }

  /** A byte inside a block is in no header. */
  lemma HeadersKept(bs: seq<Block>, m: map<int, byte>, n: map<int, byte>, b: Block)
    requires AllApart(bs) && forall o :: o in bs ==> o.Aligned() && Header(m, o)
    requires b in bs && OnlyData(m, n, b)
    ensures forall o :: o in bs ==> Header(n, o) && (o != b ==> Same(m, n, o.ptr - 8, o.ptr + o.len))
  {
    forall o | o in bs
      ensures Header(n, o) && (o != b ==> Same(m, n, o.ptr - 8, o.ptr + o.len))
    {
      if o != b {
        var i :| 0 <= i < |bs| && bs[i] == b;
        var j :| 0 <= j < |bs| && bs[j] == o;
        assert Apart(bs[if i < j then i else j], bs[if i < j then j else i]);
      }
      HeaderSame(m, n, o);
    }
  }

  /** After a new block got its pages, the pages of others are as they were. */
  ghost predicate Opened(rd: set<int>, rd': set<int>, b: Block)
  {
    forall page :: page in rd' <==> if b.Spans(page) then page != b.Guard() else page in rd
  }

  ghost predicate Closed(rd: set<int>, rd': set<int>, b: Block)
  {
    forall page :: page in rd' <==> page in rd && !b.Spans(page)
  }

  ghost predicate OnlyHeader(m: map<int, byte>, n: map<int, byte>, b: Block)
  {
    forall a :: a < b.ptr - 8 || b.ptr <= a ==> Load(m, a) == Load(n, a)
  }

  lemma StillInUse(m: map<int, byte>, n: map<int, byte>, rd: set<int>, rd': set<int>, o: Block, b: Block)
    requires InUse(m, rd, o) && b.Aligned() && Apart(o, b) && OnlyHeader(m, n, b)
    requires Opened(rd, rd', b) || Closed(rd, rd', b)
    ensures InUse(n, rd', o) && Same(m, n, o.ptr - 8, o.ptr + o.len)
  {
    HeaderSame(m, n, o);
  }

  lemma StillGone(rd: set<int>, rd': set<int>, o: Block, b: Block)
    requires Gone(rd, o) && Apart(o, b) && (Opened(rd, rd', b) || Closed(rd, rd', b))
    ensures Gone(rd', o)
  {
  }

  lemma NewInUse(m: map<int, byte>, rd: set<int>, rd': set<int>, b: Block)
    requires b.Aligned() && Opened(rd, rd', b) && b.len < 0x1_0000_0000
    ensures var n := StoreWord(StoreWord(m, b.ptr - 8, b.len), b.ptr - 4, ALLOC_CANARY);
            InUse(n, rd', b) && OnlyHeader(m, n, b)
  {
    var m' := StoreWord(m, b.ptr - 8, b.len);
    WordStored(m, b.ptr - 8, b.len);
    WordStored(m', b.ptr - 4, ALLOC_CANARY);
  }

  datatype Result = Pointer(p: int) | Null | Abort | Fault

  class Heap {
    const maxMem: nat
    const hardFail: bool
    const noCallocOver: bool
    var totalMem: nat
    var mem: map<int, byte>
    var readable: set<int>
    ghost var live: seq<Block>
    ghost var freed: seq<Block>

    /** The bookkeeping is right for the given contents of the memory. */
    ghost predicate Sound(contents: map<int, byte>)
      reads this
    {
      && totalMem == Sum(live) <= maxMem < 0x1_0000_0000
      && AllApart(live + freed)
      && (forall b :: b in live ==> InUse(contents, readable, b))
      && (forall b :: b in freed ==> Gone(readable, b))
    }

    ghost predicate Valid()
      reads this
    {
      Sound(mem)
    }

    constructor (limit: nat, hard: bool, noOver: bool)
      requires limit < 0x1_0000_0000
      ensures Valid() && live == freed == [] && maxMem == limit && hardFail == hard && noCallocOver == noOver
    {
      maxMem, hardFail, noCallocOver := limit, hard, noOver;
      totalMem, mem, readable, live, freed := 0, map[], {}, [], [];
    }

    predicate Accessible(a: int)
      reads this
    {
      a / PAGE_SIZE in readable
    }

    /** Reading or writing behind a block faults, and so does any access to a block that was freed. */
    lemma Caught(b: Block, a: int)
      requires Valid()
      requires (b in live && b.ptr + b.len <= a < b.ptr + b.len + PAGE_SIZE)
               || (b in freed && b.ptr - 8 <= a < b.ptr + b.len + PAGE_SIZE)
      ensures !Accessible(a)
    {
      if b in freed && a < b.ptr + b.len {
      }
    }

    /** What the kernel promises of new pages: no block has them, and nothing was ever stored there. */
    ghost predicate Fresh(at: int, b: Block)
      reads this
    {
      && at > 0 && (forall o :: o in live + freed ==> Apart(o, b))
      && forall a :: at * PAGE_SIZE <= a < (at + PgCount(b.len + 8)) * PAGE_SIZE ==> a !in mem
    }

    /** The blocks already in use keep their contents. */
    twostate predicate OthersKept(bs: seq<Block>)
      reads this
    {
      forall b :: b in bs ==> Same(old(mem), mem, b.ptr - 8, b.ptr + b.len)
    }

    /** The kernel gives pages from at on, or none. */
    method Alloc(len: nat, at: int, ok: bool) returns (r: Result)
      requires Valid() && len <= SIZE_MAX && Fresh(at, At(at, len))
      modifies this
      ensures Valid() && freed == old(freed) && OthersKept(old(live))
      ensures if old(totalMem) + len > maxMem || !ok
              then r == (if hardFail then Abort else Null) && live == old(live) && mem == old(mem)
                   && readable == old(readable)
              else r == Pointer(At(at, len).ptr) && live == old(live) + [At(at, len)]
      ensures r.Pointer? ==> Contents(mem, At(at, len)) == seq(len, _ => 0)
    {
      var total := (totalMem + len) % (SIZE_MAX + 1);
      if total > maxMem || total < totalMem {
        return if hardFail then Abort else Null;
      }
      if !ok {
        return if hardFail then Abort else Null;
      }
      ghost var b, mem0, readable0 := At(at, len), mem, readable;
      var n := PgCount(len + 8);
      readable := readable + PageRange(at, n + 1);
      readable := readable - {at + n};
      var ret := at * PAGE_SIZE;
      ret := ret + PAGE_SIZE * n - len - 8;
      ret := ret + 8;
      mem := StoreWord(mem, ret - 8, len);
      mem := StoreWord(mem, ret - 4, ALLOC_CANARY);
      totalMem := totalMem + len;
      live := live + [Block(ret, len)];
      r := Pointer(ret);
      Allocated(old(live), b, mem0, mem, readable0, readable);
    }

    lemma Allocated(was: seq<Block>, b: Block, mem0: map<int, byte>, mem1: map<int, byte>, readable0: set<int>,
                    readable1: set<int>)
      requires b.Aligned() && Opened(readable0, readable1, b) && b.len < 0x1_0000_0000
      requires mem1 == StoreWord(StoreWord(mem0, b.ptr - 8, b.len), b.ptr - 4, ALLOC_CANARY)
      requires AllApart(was + freed) && forall o :: o in was + freed ==> Apart(o, b)
      requires (forall o :: o in was ==> InUse(mem0, readable0, o)) && (forall o :: o in freed ==> Gone(readable0, o))
      ensures Sum(was + [b]) == Sum(was) + b.len && AllApart(was + [b] + freed)
      ensures (forall o :: o in was + [b] ==> InUse(mem1, readable1, o))
              && (forall o :: o in freed ==> Gone(readable1, o))
      ensures forall o :: o in was ==> Same(mem0, mem1, o.ptr - 8, o.ptr + o.len)
      ensures OnlyHeader(mem0, mem1, b)
    {
      SumSplit(was, [b]);
      assert AllApart(was + [b] + freed) by {
        var (q, r) := (was + freed, was + [b] + freed);
        forall i, j | 0 <= i < j < |r|
          ensures Apart(r[i], r[j])
        {
          var k, l := if i < |was| then i else i - 1, if j < |was| then j else j - 1;
          assert i != |was| ==> r[i] == q[k] && q[k] in q;
          assert j != |was| ==> r[j] == q[l] && q[l] in q;
        }
      }
      hide InUse, Gone, Apart, AllApart, Opened, OnlyHeader, StoreWord, Same;
      NewInUse(mem0, readable0, readable1, b);
      forall o | o in was
        ensures InUse(mem1, readable1, o) && Same(mem0, mem1, o.ptr - 8, o.ptr + o.len)
      {
        StillInUse(mem0, mem1, readable0, readable1, o, b);
      }
      forall o | o in freed
        ensures Gone(readable1, o)
      {
        StillGone(readable0, readable1, o, b);
      }
    }

    /** The program stores a byte. */
    method Store(a: int, v: byte) returns (r: Result)
      requires Valid()
      modifies `mem
      ensures r == if Accessible(a) then Pointer(a) else Fault
      ensures if Accessible(a) then Load(mem, a) == v && forall x :: x != a ==> Load(mem, x) == old(Load(mem, x))
              else mem == old(mem)
      ensures (exists b :: b in live && b.ptr <= a < b.ptr + b.len) ==> r.Pointer? && Valid()
    {
      if !Accessible(a) {
        return Fault;
      }
      mem := mem[a := v];
      r := Pointer(a);
      if b :| b in live && b.ptr <= a < b.ptr + b.len {
        AllApartPrefix(live, freed);
        HeadersKept(live, old(mem), mem, b);
      }
    }

    /** The block that was handed out at an address. */
    ghost predicate Handed(ptr: int, b: Block)
      reads this
    {
      b in live + freed && b.ptr == ptr
    }

    /** The header leads back to the first page of the mapping. */
    lemma BaseIs(b: Block)
      requires Valid() && b in live
      ensures Word(mem, b.ptr - 4) == ALLOC_CANARY && Word(mem, b.ptr - 8) == b.len
      ensures b.ptr - (PAGE_SIZE * PgCount(b.len + 8) - b.len - 8) - 8 == b.First() * PAGE_SIZE
    {
    }

    /** Freeing takes the whole mapping away, of which the address is computed from the header. Freeing twice
        faults. */
    method Free(ptr: int, ghost b: Block) returns (r: Result)
      requires Valid() && (ptr == 0 || Handed(ptr, b))
      modifies this
      ensures Valid() && mem == old(mem)
      ensures ptr == 0 || b !in old(live) ==> r == if ptr == 0 then Null else Fault
      ensures ptr == 0 || b !in old(live) ==>
              live == old(live) && freed == old(freed) && readable == old(readable) && totalMem == old(totalMem)
      ensures ptr != 0 && b in old(live) ==>
              && r == Null && totalMem == old(totalMem) - b.len && freed == old(freed) + [b]
              && live == Removed(old(live), b)
              && forall page :: page in readable <==> page in old(readable) && !b.Spans(page)
    {
      if ptr == 0 {
        return Null;
      }
      assert Accessible(b.ptr - 4) == Accessible(b.ptr - 1) == (b in live);
      if !Accessible(ptr - 4) || !Accessible(ptr - 1) {
        return Fault;
      }
      BaseIs(b);
      if Word(mem, ptr - 4) != ALLOC_CANARY {
        return Abort;
      }
      Unmap(ptr, Word(mem, ptr - 8), b);
      r := Null;
    }

    method Unmap(ptr: int, len: nat, ghost b: Block)
      requires Valid() && b in live && b.ptr == ptr && b.len == len
      modifies `totalMem, `readable, `live, `freed
      ensures Valid() && totalMem == old(totalMem) - b.len && freed == old(freed) + [b]
      ensures live == Removed(old(live), b) && Closed(old(readable), readable, b)
    {
      BaseIs(b);
      SumWithout(live, b);
      var base := ptr - (PAGE_SIZE * PgCount(len + 8) - len - 8) - 8;
      ghost var first := b.First();
      assert base / PAGE_SIZE == first && first + PgCount(len + 8) == b.Guard() && b.Guard() !in readable
             && b.Aligned();
      totalMem := totalMem - len;
      readable := readable - PageRange(base / PAGE_SIZE, PgCount(len + 8));
      assert Closed(old(readable), readable, b);
      hide InUse, Gone, AllApart, Removed, Sum, PgCount, Closed;
      Released(live, freed, b, old(readable), readable);
      live, freed := Removed(live, b), freed + [b];
    }

    lemma Released(was: seq<Block>, gone: seq<Block>, b: Block, readable0: set<int>, readable1: set<int>)
      requires b in was && b.Aligned() && Closed(readable0, readable1, b) && AllApart(was + gone)
      requires (forall o :: o in was ==> InUse(mem, readable0, o)) && (forall o :: o in gone ==> Gone(readable0, o))
      ensures var left := Removed(was, b);
              && AllApart(left + (gone + [b])) && (forall o :: o in left ==> InUse(mem, readable1, o))
              && (forall o :: o in gone + [b] ==> Gone(readable1, o))
    {
      var left := Removed(was, b);
      Moved(was, gone, b);
      assert OnlyHeader(mem, mem, b);
      assert Gone(readable1, b);
      hide InUse, Gone, Apart, AllApart, Closed, Opened, OnlyHeader, Same, Removed;
      forall o | o in left
        ensures InUse(mem, readable1, o)
      {
        StillInUse(mem, mem, readable0, readable1, o, b);
      }
      forall o | o in gone
        ensures Gone(readable1, o)
      {
        StillGone(readable0, readable1, o, b);
      }
    }

    /** Writing inside one block keeps everything else. */
    lemma DataWritten(m: map<int, byte>, b: Block)
      requires Sound(m) && b in live && OnlyData(m, mem, b)
      ensures Valid() && forall o :: o in live && o != b ==> Same(m, mem, o.ptr - 8, o.ptr + o.len)
    {
      AllApartPrefix(live, freed);
      HeadersKept(live, m, mem, b);
    }

    method Memset(b: Block, v: byte)
      requires Valid() && b in live
      modifies `mem
      ensures Valid() && Contents(mem, b) == seq(b.len, _ => v)
      ensures forall o :: o in live && o != b ==> Same(old(mem), mem, o.ptr - 8, o.ptr + o.len)
    {
      for k := 0 to b.len
        invariant OnlyData(old(mem), mem, b)
        invariant Contents(mem, b) == seq(k, _ => v) + Contents(old(mem), b)[k..]
      {
        ContentsSet(mem, b, k, v);
        mem := mem[b.ptr + k := v];
      }
      DataWritten(old(mem), b);
    }

    /** Like the allocation itself, but the block is filled with a pattern. */
    method Malloc(len: nat, at: int, ok: bool) returns (r: Result)
      requires Valid() && len <= SIZE_MAX && Fresh(at, At(at, len))
      modifies this
      ensures Valid() && freed == old(freed) && OthersKept(old(live))
      ensures if old(totalMem) + len > maxMem || !ok
              then r == (if hardFail then Abort else Null) && live == old(live) && mem == old(mem)
                   && readable == old(readable)
              else r == Pointer(At(at, len).ptr) && live == old(live) + [At(at, len)]
      ensures r.Pointer? ==> Contents(mem, At(at, len)) == seq(len, _ => ALLOC_CLOBBER)
    {
      r := Alloc(len, at, ok);
      if r.Pointer? && len > 0 {
        Memset(Block(r.p, len), ALLOC_CLOBBER);
      }
    }

    /** The check by division finds exactly the products that do not fit. */
    lemma OverflowTest(n: nat, cnt: nat)
      requires 0 < cnt
      ensures (n * cnt) % (SIZE_MAX + 1) / cnt == n <==> n * cnt <= SIZE_MAX
    {
      var p := n * cnt;
      var q := p % (SIZE_MAX + 1);
      if p <= SIZE_MAX {
        Quotient(n, cnt, p);
      } else if q / cnt == n {
        assert q < p;
        Below(n, cnt, q);
      }
    }

    lemma Quotient(n: nat, cnt: nat, p: nat)
      requires 0 < cnt && p == n * cnt
      ensures p / cnt == n
    {
      var q := p / cnt;
      assert p == q * cnt + p % cnt;
      if q < n {
        Times(q + 1, n, cnt);
      } else if q > n {
        Times(n + 1, q, cnt);
      }
    }

    lemma Times(a: nat, b: nat, c: nat)
      requires a <= b
      ensures a * c <= b * c
    {
    }

    lemma Below(n: nat, cnt: nat, q: nat)
      requires 0 < cnt && q / cnt == n
      ensures n * cnt <= q
    {
    }

    /** Zeroed memory for an array, unless its size does not fit. */
    method Calloc(elemLen: nat, elemCnt: nat, at: int, ok: bool) returns (r: Result)
      requires Valid() && elemLen <= SIZE_MAX && elemCnt <= SIZE_MAX
      requires elemLen * elemCnt <= SIZE_MAX ==> Fresh(at, At(at, elemLen * elemCnt))
      modifies this
      ensures Valid() && freed == old(freed) && OthersKept(old(live))
      ensures elemLen * elemCnt > SIZE_MAX ==> r == (if noCallocOver then Null else Abort) && live == old(live)
      ensures elemLen * elemCnt <= SIZE_MAX ==>
              if old(totalMem) + elemLen * elemCnt > maxMem || !ok
              then r == (if hardFail then Abort else Null) && live == old(live)
              else r == Pointer(At(at, elemLen * elemCnt).ptr) && live == old(live) + [At(at, elemLen * elemCnt)]
      ensures r.Pointer? ==> Contents(mem, At(at, elemLen * elemCnt)) == seq(elemLen * elemCnt, _ => 0)
    {
      var len := (elemLen * elemCnt) % (SIZE_MAX + 1);
      if elemCnt > 0 {
        OverflowTest(elemLen, elemCnt);
      }
      if elemCnt > 0 && len / elemCnt != elemLen {
        return if noCallocOver then Null else Abort;
      }
      assert len == elemLen * elemCnt;
      r := Alloc(len, at, ok);
    }

    lemma NotBoth(b: Block)
      requires Valid() && b in live
      ensures b !in freed
    {
      var i :| 0 <= i < |live| && live[i] == b;
      var all := live + freed;
      forall j | 0 <= j < |freed|
        ensures freed[j] != b
      {
        assert all[i] == b && all[|live| + j] == freed[j] && Apart(all[i], all[|live| + j]);
      }
    }

    /** The common part of an old and a new block is moved, and the old block is freed. An old block that was freed
        before faults, with the new block taken. */
    method Realloc(ptr: int, len: nat, at: int, ok: bool, ghost b: Block) returns (r: Result)
      requires Valid() && (ptr == 0 || Handed(ptr, b)) && len <= SIZE_MAX && Fresh(at, At(at, len))
      modifies this
      ensures Valid()
      ensures if old(totalMem) + len > maxMem || !ok
              then r == (if hardFail then Abort else Null) && live == old(live) && freed == old(freed)
                   && mem == old(mem)
              else if ptr != 0 && b !in old(live)
              then r == Fault && live == old(live) + [At(at, len)] && freed == old(freed)
              else r == Pointer(At(at, len).ptr)
      ensures r.Pointer? && ptr == 0 ==>
              live == old(live) + [At(at, len)] && freed == old(freed)
                && Contents(mem, At(at, len)) == seq(len, _ => ALLOC_CLOBBER)
      ensures r.Pointer? && ptr != 0 ==>
              var n := Min(len, b.len);
              && freed == old(freed) + [b] && live == Removed(old(live) + [At(at, len)], b)
              && Contents(mem, At(at, len)) == old(Contents(mem, b))[..n] + seq(len - n, _ => ALLOC_CLOBBER)
      ensures OthersKept(old(live))
    {
      r := Malloc(len, at, ok);
      if !r.Pointer? || ptr == 0 {
        return;
      }
      assert Accessible(b.ptr - 4) == Accessible(b.ptr - 1) == (b in live);
      if !Accessible(ptr - 4) || !Accessible(ptr - 1) {
        return Fault;
      }
      NotBoth(b);
      ghost var mem1 := mem;
      ContentsSame(old(mem), mem, b);
      NewBlock(old(live), At(at, len), b);
      hide Sound, Contents, PgCount, Apart, Same, Removed;
      forall o | o in old(live)
        ensures o != At(at, len) && o in live
      {
        NewBlock(old(live), At(at, len), o);
      }
      r := Replace(Block(r.p, len), ptr, b);
      forall o | o in old(live)
        ensures Same(old(mem), mem, o.ptr - 8, o.ptr + o.len)
      {
        SameTwice(old(mem), mem1, mem, o.ptr - 8, o.ptr + o.len);
      }
    }

    method Replace(dst: Block, ptr: int, ghost b: Block) returns (r: Result)
      requires Valid() && dst in live && b in live && dst != b && b.ptr == ptr != 0
      modifies this
      ensures Valid() && r == Pointer(dst.ptr) && freed == old(freed) + [b] && live == Removed(old(live), b)
      ensures var n := Min(dst.len, b.len);
              Contents(mem, dst) == old(Contents(mem, b))[..n] + old(Contents(mem, dst))[n..]
      ensures forall o :: o in old(live) && o != dst ==> Same(old(mem), mem, o.ptr - 8, o.ptr + o.len)
    {
      BaseIs(b);
      hide Sound, Contents, PgCount, Apart, Same, Removed;
      if Word(mem, ptr - 4) != ALLOC_CANARY {
        return Abort;
      }
      var src := Block(ptr, Word(mem, ptr - 8));
      Memcpy(dst, src, Min(dst.len, src.len));
      var done := Free(ptr, b);
      r := Pointer(dst.ptr);
    }

    /** A block that was there before is not the new one. */
    lemma NewBlock(was: seq<Block>, dst: Block, b: Block)
      requires Valid() && live == was + [dst] && b in was
      ensures dst != b && dst in live && b in live
    {
      var i :| 0 <= i < |was| && was[i] == b;
      AllApartPrefix(live, freed);
      assert live[i] == b && live[|was|] == dst && Apart(live[i], live[|was|]);
    }

    method Memcpy(dst: Block, src: Block, n: nat)
      requires Valid() && dst in live && src in live && dst != src && n <= Min(dst.len, src.len)
      modifies `mem
      ensures Valid() && Contents(mem, dst) == old(Contents(mem, src))[..n] + old(Contents(mem, dst))[n..]
      ensures forall o :: o in live && o != dst ==> Same(old(mem), mem, o.ptr - 8, o.ptr + o.len)
    {
      assert dst.ptr + dst.len <= src.ptr - 8 || src.ptr + src.len <= dst.ptr - 8 by {
        AllApartPrefix(live, freed);
        var i :| 0 <= i < |live| && live[i] == dst;
        var j :| 0 <= j < |live| && live[j] == src;
        assert Apart(live[if i < j then i else j], live[if i < j then j else i]);
      }
      ghost var from, to := Contents(mem, src), Contents(mem, dst);
      hide Contents, OnlyData, Valid, Load;
      Unwritten(dst, mem);
      for i := 0 to n
        invariant OnlyData(old(mem), mem, dst) && Contents(mem, dst) == from[..i] + to[i..]
      {
        ByteCopied(old(mem), mem, dst, src, i, from, to);
        mem := mem[dst.ptr + i := Load(mem, src.ptr + i)];
      }
      DataWritten(old(mem), dst);
    }

    lemma Unwritten(b: Block, m: map<int, byte>)
      ensures OnlyData(m, m, b)
    {
    }

    lemma ByteCopied(was: map<int, byte>, m: map<int, byte>, dst: Block, src: Block, i: nat, from: seq<byte>,
                     to: seq<byte>)
      requires dst.ptr + dst.len <= src.ptr || src.ptr + src.len <= dst.ptr
      requires i < dst.len && i < src.len && from == Contents(was, src) && |to| == dst.len
      requires OnlyData(was, m, dst) && Contents(m, dst) == from[..i] + to[i..]
      ensures var m' := m[dst.ptr + i := Load(m, src.ptr + i)];
              OnlyData(was, m', dst) && Contents(m', dst) == from[..i + 1] + to[i + 1..]
    {
      ContentsSet(m, dst, i, Load(m, src.ptr + i));
      assert Load(m, src.ptr + i) == from[i];
      assert (from[..i] + to[i..])[i := from[i]] == from[..i + 1] + to[i + 1..];
    }
  }
}
