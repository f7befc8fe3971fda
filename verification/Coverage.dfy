/** Source coverage: numbered blocks, the bitmap of executed blocks, the file that maps blocks to source lines,
    and the scripts that read both. */
module Coverage {
  import opened BitMaps

  // ----- text ------------------------------------------------------------------------------------

  function Before(s: string, c: char): (r: string)
    ensures |r| <= |s| && c !in r && (c in s ==> |r| < |s|)
  {
    if s == [] || s[0] == c then [] else [s[0]] + Before(s[1..], c)
  }

  function Split(s: string, c: char): (r: seq<string>)
    ensures |r| > 0 && forall i :: 0 <= i < |r| ==> c !in r[i]
    decreases |s|
  {
    if c in s then [Before(s, c)] + Split(s[|Before(s, c)| + 1..], c) else [s]
  }

  function Join(lines: seq<string>): string
  {
    if lines == [] then [] else if |lines| == 1 then lines[0] else lines[0] + "," + Join(lines[1..])
  }

  lemma {:induction false} BeforeIs(a: string, c: char, b: string)
    requires c !in a
    ensures Before(a + [c] + b, c) == a
  {
    var s := a + [c] + b;
    if a != [] {
      assert s[1..] == a[1..] + [c] + b;
      BeforeIs(a[1..], c, b);
    }
  }

  lemma SplitFirst(a: string, c: char, b: string)
    requires c !in a
    ensures Split(a + [c] + b, c) == [a] + Split(b, c)
  {
    var s := a + [c] + b;
    BeforeIs(a, c, b);
    assert s[|a|] == c;
    assert s[|a| + 1..] == b;
  }

  lemma {:induction false} SplitJoin(lines: seq<string>)
    requires lines != [] && forall i :: 0 <= i < |lines| ==> ',' !in lines[i]
    ensures Split(Join(lines), ',') == lines
  {
    if |lines| > 1 {
      SplitFirst(lines[0], ',', Join(lines[1..]));
      SplitJoin(lines[1..]);
    }
  }

  lemma {:induction false} JoinHas(lines: seq<string>, c: char)
    requires c != ','
    ensures c in Join(lines) <==> exists i :: 0 <= i < |lines| && c in lines[i]
  {
    if |lines| > 1 {
      JoinHas(lines[1..], c);
      assert forall i :: 0 <= i < |lines| - 1 ==> lines[1..][i] == lines[i + 1];
    }
  }

  function Digit(d: nat): char
    requires d < 10
  {
    '0' + d as char
  }

  function Dec(n: nat): (r: string)
    ensures |r| > 0
  {
    if n < 10 then [Digit(n)] else Dec(n / 10) + [Digit(n % 10)]
  }

  predicate IsNumber(s: string)
  {
    |s| > 0 && forall i :: 0 <= i < |s| ==> '0' <= s[i] <= '9'
  }

  function Number(s: string): nat
    requires IsNumber(s)
  {
    var d := s[|s| - 1] as int - '0' as int;
    if |s| == 1 then d else 10 * Number(s[..|s| - 1]) + d
  }

  lemma {:induction false} NumberReadsBack(n: nat)
    ensures IsNumber(Dec(n)) && Number(Dec(n)) == n
  {
    if n >= 10 {
      NumberReadsBack(n / 10);
      assert Dec(n)[..|Dec(n)| - 1] == Dec(n / 10);
    }
  }

  // ----- the file that maps blocks to lines ------------------------------------------------------

  /** The lines of a block, joined: each is added with a comma, and the last comma is dropped. */
  method AddSrcInfo(lines: seq<string>) returns (info: string)
    ensures info == Join(lines)
  {
    var all: string := [];
    for i := 0 to |lines|
      invariant all == if i == 0 then [] else Join(lines[..i]) + ","
    {
      JoinMore(lines[..i], lines[i]);
      assert lines[..i + 1] == lines[..i] + [lines[i]];
      all := all + lines[i] + ",";
    }
    assert lines[..|lines|] == lines;
    info := all[..if |all| > 0 then |all| - 1 else 0];
  }

  lemma {:induction false} JoinMore(lines: seq<string>, more: string)
    ensures Join(lines + [more]) == if lines == [] then more else Join(lines) + "," + more
  {
    if |lines| > 0 {
      JoinMore(lines[1..], more);
      assert (lines + [more])[1..] == lines[1..] + [more];
    }
  }

  function Line(id: nat, info: string): string { Dec(id) + "=" + info + "\n" }

  /** Blocks are numbered from zero in the order in which they are visited. */
  function Mapping(infos: seq<seq<string>>): string
  {
    if infos == [] then [] else Mapping(infos[..|infos| - 1]) + Line(|infos| - 1, Join(infos[|infos| - 1]))
  }

  /** No file is written for a program without blocks. */
  method WriteMapping(infos: seq<seq<string>>) returns (written: bool, file: string)
    ensures written == (|infos| > 0) && (written ==> file == Mapping(infos))
  {
    written, file := |infos| > 0, [];
    for id := 0 to |infos|
      invariant file == Mapping(infos[..id])
    {
      var info := AddSrcInfo(infos[id]);
      assert infos[..id + 1][..id] == infos[..id];
      file := file + Dec(id) + "=" + info + "\n";
    }
    assert infos[..|infos|] == infos;
  }

  function ReadLines(file: string): seq<string>
    decreases |file|
  {
    if file == [] then [] else
      var l := Before(file, '\n');
      if '\n' in file then [file[..|l| + 1]] + ReadLines(file[|l| + 1..]) else [file]
  }

  datatype Option<T> = None | Some(value: T)

  type Dict = map<nat, seq<string>>

  /** What the reader makes of one line; a malformed one raises an exception. */
  function Parse(line: string): Option<(nat, seq<string>)>
    requires |line| > 0
  {
    var (key, body) := (Split(line, '=')[0], Split(line[..|line| - 1], '='));
    if IsNumber(key) && |body| > 1 then Some((Number(key), Split(body[1], ','))) else None
  }

  function ParseAll(lines: seq<string>): Option<Dict>
    requires forall i :: 0 <= i < |lines| ==> |lines[i]| > 0
  {
    if lines == [] then Some(map[]) else
      var (d, e) := (ParseAll(lines[..|lines| - 1]), Parse(lines[|lines| - 1]));
      if d.Some? && e.Some? then Some(d.value[e.value.0 := e.value.1]) else None
  }

  lemma {:induction false} NoneStays(lines: seq<string>, n: nat)
    requires n <= |lines| && forall i :: 0 <= i < |lines| ==> |lines[i]| > 0
    requires ParseAll(lines[..n]).None?
    ensures ParseAll(lines).None?
  {
    if n < |lines| {
      assert lines[..|lines| - 1][..n] == lines[..n];
      NoneStays(lines[..|lines| - 1], n);
    } else {
      assert lines[..n] == lines;
    }
  }

  lemma {:induction false} NoEmptyLines(file: string)
    ensures forall i :: 0 <= i < |ReadLines(file)| ==> |ReadLines(file)[i]| > 0
    decreases |file|
  {
    if '\n' in file {
      NoEmptyLines(file[|Before(file, '\n')| + 1..]);
    }
  }

  method Read(file: string) returns (r: Option<Dict>)
    ensures (forall i :: 0 <= i < |ReadLines(file)| ==> |ReadLines(file)[i]| > 0) && r == ParseAll(ReadLines(file))
  {
    NoEmptyLines(file);
    var lines := ReadLines(file);
    var d: Dict := map[];
    for i := 0 to |lines|
      invariant ParseAll(lines[..i]) == Some(d)
    {
      assert lines[..i + 1][..i] == lines[..i];
      var e := Parse(lines[i]);
      if e.None? {
        NoneStays(lines, i + 1);
        return None;
      }
      d := d[e.value.0 := e.value.1];
    }
    assert lines[..|lines|] == lines;
    r := Some(d);
  }

  // ----- reading back ----------------------------------------------------------------------------

  /** What the reader sees of the lines of a block. */
  function Shown(lines: seq<string>): seq<string> { Split(Split(Join(lines), '=')[0], ',') }

  ghost predicate OneLine(lines: seq<string>) { forall i :: 0 <= i < |lines| ==> '\n' !in lines[i] }

  lemma {:induction false} DecHas(n: nat, c: char)
    requires !('0' <= c <= '9')
    ensures c !in Dec(n)
  {
    if n >= 10 {
      DecHas(n / 10, c);
    }
  }

  lemma {:induction false} LinesAppend(a: string, l: string)
    requires (a == [] || a[|a| - 1] == '\n') && '\n' !in l
    ensures ReadLines(a + l + "\n") == ReadLines(a) + [l + "\n"]
    decreases |a|
  {
    var s := a + l + "\n";
    if a == [] {
      assert s == l + ['\n'] + [];
      BeforeIs(l, '\n', []);
      assert ReadLines([]) == [];
    } else {
      BeforeEnds(a, '\n');
      var (h, t) := (Before(a, '\n'), a[|Before(a, '\n')| + 1..]);
      assert a == h + ['\n'] + t && s == h + ['\n'] + (t + l + "\n");
      BeforeIs(h, '\n', t + l + "\n");
      assert t == [] || t[|t| - 1] == a[|a| - 1];
      LinesAppend(t, l);
      assert s[|h| + 1..] == t + l + "\n" && s[..|h| + 1] == a[..|h| + 1];
    }
  }

  lemma {:induction false} BeforeEnds(s: string, c: char)
    requires c in s
    ensures |Before(s, c)| < |s| && s[|Before(s, c)|] == c && s[..|Before(s, c)|] == Before(s, c)
  {
    if s[0] != c {
      BeforeEnds(s[1..], c);
    }
  }

  function LinesOf(infos: seq<seq<string>>): (r: seq<string>)
    ensures |r| == |infos| && forall i :: 0 <= i < |r| ==> |r[i]| > 0
  {
    seq(|infos|, id requires 0 <= id < |infos| => Line(id, Join(infos[id])))
  }

  lemma {:induction false} MappingLines(infos: seq<seq<string>>)
    requires forall i :: 0 <= i < |infos| ==> OneLine(infos[i])
    ensures ReadLines(Mapping(infos)) == LinesOf(infos)
    ensures infos != [] ==> var file := Mapping(infos); file != [] && file[|file| - 1] == '\n'
  {
    if infos != [] {
      var n := |infos| - 1;
      MappingLines(infos[..n]);
      var (a, l) := (Mapping(infos[..n]), Dec(n) + "=" + Join(infos[n]));
      DecHas(n, '\n');
      JoinHas(infos[n], '\n');
      LinesAppend(a, l);
      assert Line(n, Join(infos[n])) == l + "\n";
      assert Mapping(infos) == a + (l + "\n") == a + l + "\n";
      hide *;
      LinesOfLast(infos);
    }
  }

  lemma LinesOfLast(infos: seq<seq<string>>)
    requires infos != []
    ensures var n := |infos| - 1; LinesOf(infos) == LinesOf(infos[..n]) + [Line(n, Join(infos[n]))]
  {
  }

  /** The mapping is read back as it was written, each block under its number. */
  ghost predicate Holds(r: Option<Dict>, infos: seq<seq<string>>)
  {
    && r.Some? && (forall id: nat :: id in r.value <==> id < |infos|)
    && forall id: nat :: id < |infos| ==> r.value[id] == Shown(infos[id])
  }

  lemma {:induction false} ParseLines(infos: seq<seq<string>>)
    ensures Holds(ParseAll(LinesOf(infos)), infos)
  {
    if infos != [] {
      var n := |infos| - 1;
      ParseLines(infos[..n]);
      assert Parse(Line(n, Join(infos[n]))) == Some((n, Shown(infos[n]))) by {
        var (info, line) := (Join(infos[n]), Line(n, Join(infos[n])));
        DecHas(n, '=');
        NumberReadsBack(n);
        SplitFirst(Dec(n), '=', info + "\n");
        assert line == Dec(n) + ['='] + (info + "\n");
        SplitFirst(Dec(n), '=', info);
        assert line[..|line| - 1] == Dec(n) + ['='] + info;
      }
      LinesOfLast(infos);
      hide *;
      assert (LinesOf(infos[..n]) + [(Line(n, Join(infos[n])))])[..|LinesOf(infos[..n])|] == LinesOf(infos[..n]);
      HoldsMore(ParseAll(LinesOf(infos[..n])), infos, n);
    }
  }

  lemma HoldsMore(r: Option<Dict>, infos: seq<seq<string>>, n: nat)
    requires n == |infos| - 1 && Holds(r, infos[..n])
    ensures r.Some? && Holds(Some(r.value[n := Shown(infos[n])]), infos)
  {
    hide Shown;
  }

  ghost predicate Plain(lines: seq<string>)
  {
    forall i :: 0 <= i < |lines| ==> ',' !in lines[i] && '=' !in lines[i]
  }

  /** The lines of a block are recovered exactly if none of them has a comma or an equals sign. */
  lemma ShownIs(lines: seq<string>)
    requires forall i :: 0 <= i < |lines| ==> lines[i] != []
    ensures (forall l :: l in lines <==> l != [] && l in Shown(lines)) <==> Plain(lines)
  {
    if Plain(lines) {
      JoinHas(lines, '=');
      assert Split(Join(lines), '=') == [Join(lines)];
      if lines != [] {
        SplitJoin(lines);
      } else {
        assert Shown(lines) == [""];
      }
    } else {
      var i :| 0 <= i < |lines| && (',' in lines[i] || '=' in lines[i]);
      var first := Split(Join(lines), '=')[0];
      PieceHas(first, ',', '=');
      assert lines[i] in lines && lines[i] !in Shown(lines);
    }
  }

  /** Splitting a text brings no new characters into the pieces. */
  lemma {:induction false} PieceHas(s: string, c: char, d: char)
    requires d !in s
    ensures forall i :: 0 <= i < |Split(s, c)| ==> d !in Split(s, c)[i]
    decreases |s|
  {
    if c in s {
      BeforeEnds(s, c);
      var n := |Before(s, c)|;
      PieceHas(s[n + 1..], c, d);
      assert d !in s[..n];
    }
  }

  // ----- the bitmap ------------------------------------------------------------------------------

  const U32 := 0x1_0000_0000

  /** In 32-bit arithmetic; without any block the result is the size of the largest map. */
  function GetBBMapSize(blocks: nat): nat { (blocks - 1) % U32 / 8 + 1 }

  ghost function Ids(traces: seq<seq<nat>>): set<nat>
  {
    set t, k | 0 <= t < |traces| && 0 <= k < |traces[t]| :: traces[t][k]
  }

  /** The traced program and the fuzzer share the map of one run; the fuzzer keeps the map of all runs. */
  class Tracer {
    const traceBB: array<bv8>
    const coverageBB: array<bv8>

    ghost predicate Valid(blocks: nat)
    {
      blocks < U32 && traceBB != coverageBB && traceBB.Length == coverageBB.Length == GetBBMapSize(blocks)
    }

    constructor (blocks: nat)
      requires blocks < U32
      ensures Valid(blocks) && fresh(traceBB) && fresh(coverageBB) && Bits(coverageBB[..]) == {}
    {
      traceBB := new bv8[GetBBMapSize(blocks)](_ => 0);
      coverageBB := new bv8[GetBBMapSize(blocks)](_ => 0);
      new;
      NoBits(coverageBB[..]);
    }

    /** A block announces itself. */
    method BBTrace(blocks: nat, id: nat)
      requires Valid(blocks) && id < blocks
      modifies traceBB
      ensures Bits(traceBB[..]) == old(Bits(traceBB[..])) + {id}
    {
      SetBit(traceBB[..], id);
      traceBB[id / 8] := traceBB[id / 8] | Mask(id % 8);
    }

    method RunTarget(blocks: nat, trace: seq<nat>)
      requires Valid(blocks) && forall k :: 0 <= k < |trace| ==> trace[k] < blocks
      modifies traceBB
      ensures Bits(traceBB[..]) == Ids([trace])
    {
      for j := 0 to traceBB.Length
        invariant forall i :: 0 <= i < j ==> traceBB[i] == 0
      {
        traceBB[j] := 0;
      }
      NoBits(traceBB[..]);
      for k := 0 to |trace|
        invariant Bits(traceBB[..]) == Ids([trace[..k]])
      {
        IdsGrow(trace, k);
        BBTrace(blocks, trace[k]);
      }
      assert trace[..|trace|] == trace;
    }

    /** The input is run again and again, and what the last run traced is added to the map of all runs. */
    method Calibrate(blocks: nat, trace: seq<nat>, cycles: nat)
      requires Valid(blocks) && cycles > 0 && forall k :: 0 <= k < |trace| ==> trace[k] < blocks
      modifies traceBB, coverageBB
      ensures Bits(coverageBB[..]) == old(Bits(coverageBB[..])) + Ids([trace])
    {
      for c := 0 to cycles
        invariant c > 0 ==> Bits(traceBB[..]) == Ids([trace])
        invariant coverageBB[..] == old(coverageBB[..])
      {
        RunTarget(blocks, trace);
      }
      ghost var before, last := coverageBB[..], traceBB[..];
      for j := 0 to coverageBB.Length
        invariant traceBB[..] == last
        invariant forall i :: 0 <= i < coverageBB.Length ==>
                  coverageBB[i] == if i < j then before[i] | traceBB[i] else before[i]
      {
        coverageBB[j] := coverageBB[j] | traceBB[j];
      }
      AddBits(before, last, coverageBB[..]);
    }
  }

  lemma NoBits(m: seq<bv8>)
    requires forall i :: 0 <= i < |m| ==> m[i] == 0
    ensures Bits(m) == {}
  {
    forall i: nat | i < 8 * |m|
      ensures !Bit(m, i)
    {
    }
  }

  lemma IdsGrow(trace: seq<nat>, k: nat)
    requires k < |trace|
    ensures Ids([trace[..0]]) == {} && Ids([trace[..k + 1]]) == Ids([trace[..k]]) + {trace[k]}
  {
    var (a, b) := (Ids([trace[..k]]), Ids([trace[..k + 1]]));
    assert [trace[..k + 1]][0][k] == trace[k];
    forall x | x in a
      ensures x in b
    {
      var j :| 0 <= j < k && trace[..k][j] == x;
      assert [trace[..k + 1]][0][j] == x;
    }
  }

  // ----- the scripts -----------------------------------------------------------------------------

  /** The blocks whose bits are set in the file. */
  method ExtractBBs(contents: seq<bv8>) returns (bbs: set<nat>)
    ensures bbs == Bits(contents)
  {
    bbs := {};
    for n := 0 to |contents|
      invariant forall i: nat :: i in bbs <==> i < 8 * n && Bit(contents, i)
    {
      for bit := 0 to 8
        invariant forall i: nat :: i in bbs <==> i < 8 * n + bit && Bit(contents, i)
      {
        assert (8 * n + bit) / 8 == n && (8 * n + bit) % 8 == bit;
        if contents[n] & Mask(bit) != 0 {
          bbs := bbs + {8 * n + bit};
        }
      }
    }
  }

  ghost predicate Recorded(d: Dict, bbs: set<nat>, l: string)
  {
    l != [] && exists id :: id in bbs && id in d && l in d[id]
  }

  /** The lines of the given blocks; a block that is not in the mapping is an error. */
  method ExtractLines(bbs: set<nat>, d: Dict) returns (ok: bool, lines: set<string>)
    ensures ok <==> bbs <= d.Keys
    ensures ok ==> forall l :: l in lines <==> Recorded(d, bbs, l)
  {
    lines := {};
    ok := true;
    var left := bbs;
    while left != {}
      invariant left <= bbs && bbs - left <= d.Keys
      invariant forall l :: l in lines <==> Recorded(d, bbs - left, l)
      decreases left
    {
      var id :| id in left;
      if id !in d {
        return false, {};
      }
      var new_ := set l | l in d[id] && l != [];
      lines := lines + new_;
      assert bbs - (left - {id}) == (bbs - left) + {id};
      left := left - {id};
    }
    assert bbs - left == bbs;
  }

  // ----- from the compiler to the report ---------------------------------------------------------

  /** A line is recorded for some block that an input executed. */
  ghost predicate Covered(infos: seq<seq<string>>, traces: seq<seq<nat>>, l: string)
  {
    exists id :: id in Ids(traces) && id < |infos| && l in infos[id]
  }

  lemma RecordedIsCovered(infos: seq<seq<string>>, traces: seq<seq<nat>>, d: Dict, l: string)
    requires forall i, k :: 0 <= i < |infos| && 0 <= k < |infos[i]| ==> infos[i][k] != []
    requires forall i :: 0 <= i < |infos| ==> Plain(infos[i])
    requires Holds(Some(d), infos)
    ensures Recorded(d, Ids(traces), l) <==> Covered(infos, traces, l)
  {
    forall id: nat | id < |infos|
      ensures l in infos[id] <==> l != [] && l in d[id]
    {
      ShownIs(infos[id]);
    }
  }

  /** For any inputs, the blocks in the report are the ones that some input executed, and its lines are the
      ones recorded for them. The names of source files have no comma, no equals sign and no line break. */
  method Report(infos: seq<seq<string>>, traces: seq<seq<nat>>, cycles: nat)
    returns (ok: bool, bbs: set<nat>, lines: set<string>)
    requires 0 < |infos| < U32 && cycles > 0
    requires forall t, k :: 0 <= t < |traces| && 0 <= k < |traces[t]| ==> traces[t][k] < |infos|
    requires forall i, k :: 0 <= i < |infos| && 0 <= k < |infos[i]| ==> infos[i][k] != []
    requires forall i :: 0 <= i < |infos| ==> OneLine(infos[i]) && Plain(infos[i])
    ensures ok && bbs == Ids(traces) && forall l :: l in lines <==> Covered(infos, traces, l)
  {
    var blocks := |infos|;
    var written, file := WriteMapping(infos);
    MappingLines(infos);
    ParseLines(infos);
    var tracer := new Tracer(blocks);
    for t := 0 to |traces|
      invariant Bits(tracer.coverageBB[..]) == Ids(traces[..t])
    {
      assert Ids(traces[..0]) == {} && Ids(traces[..t + 1]) == Ids(traces[..t]) + Ids([traces[t]]) by {
        var (a, b, c) := (Ids(traces[..t]), Ids(traces[..t + 1]), Ids([traces[t]]));
        forall x | x in a
          ensures x in b
        {
          var u, k :| 0 <= u < t && 0 <= k < |traces[..t][u]| && traces[..t][u][k] == x;
          assert traces[..t + 1][u][k] == x;
        }
        forall x | x in c
          ensures x in b
        {
          var k :| 0 <= k < |traces[t]| && [traces[t]][0][k] == x;
          assert traces[..t + 1][t][k] == x;
        }
        forall x | x in b
          ensures x in a + c
        {
          var u, k :| 0 <= u < t + 1 && 0 <= k < |traces[..t + 1][u]| && traces[..t + 1][u][k] == x;
          if u < t {
            assert traces[..t][u][k] == x;
          } else {
            assert [traces[t]][0][k] == x;
          }
        }
      }
      tracer.Calibrate(blocks, traces[t], cycles);
    }
    assert traces[..|traces|] == traces;
    bbs := ExtractBBs(tracer.coverageBB[..]);
    var d := Read(file);
    ok, lines := ExtractLines(bbs, d.value);
    forall l
      ensures l in lines <==> Covered(infos, traces, l)
    {
      RecordedIsCovered(infos, traces, d.value, l);
    }
  }
}
