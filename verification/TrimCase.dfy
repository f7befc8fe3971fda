/** The trimmer of afl-fuzz: chunks of a queue entry are left out as long as the checksum of the trace stays
    the same. */
module TrimCase {
  import opened Bytes
  import opened Blocks
  import Arithmetic = Halves
  import Bitwise

  const TRIM_MIN_BYTES := 4

  const TRIM_START_STEPS := 16

  const TRIM_END_STEPS := 1024

  const MAX_FILE := 1024 * 1024

  function LeastChunk(len: nat): nat { Max(NextP2(len) / TRIM_END_STEPS, TRIM_MIN_BYTES) }

  /** Sweeps with ever smaller chunks; the bound on the chunk follows the shrinking test case. */
  function TrimFrom(keep: Oracle, s: seq<byte>, n: nat): seq<byte>
    decreases n
  {
    if n >= LeastChunk(|s|) then TrimFrom(keep, Sweep(keep, s, n, n), n / 2) else s
  }

  function Trimmed(keep: Oracle, s: seq<byte>): seq<byte>
  {
    if |s| < 5 then s else TrimFrom(keep, s, Max(NextP2(|s|) / TRIM_START_STEPS, TRIM_MIN_BYTES))
  }

  /** A sweep that starts behind the first h bytes leaves them alone. */
  lemma {:induction false} SweepKeepsHead(keep: Oracle, s: seq<byte>, n: nat, p: nat, h: nat)
    requires n > 0 && h <= p && h <= |s|
    ensures h <= |Sweep(keep, s, n, p)| && Sweep(keep, s, n, p)[..h] == s[..h]
    decreases |s| - p
  {
    if p >= |s| {
    } else if keep(Without(s, p, n)) {
      SweepKeepsHead(keep, Without(s, p, n), n, p, h);
      assert Without(s, p, n)[..h] == s[..h];
    } else {
      SweepKeepsHead(keep, s, n, p + n, h);
    }
  }

  lemma {:induction false} TrimFromKeeps(keep: Oracle, s: seq<byte>, n: nat)
    requires |s| >= TRIM_MIN_BYTES
    ensures var r := TrimFrom(keep, s, n);
            && Subsequence(r, s) && (keep(s) ==> keep(r))
            && |r| >= TRIM_MIN_BYTES && r[..TRIM_MIN_BYTES] == s[..TRIM_MIN_BYTES]
    decreases n
  {
    if n >= LeastChunk(|s|) {
      var t := Sweep(keep, s, n, n);
      SweepIsSubsequence(keep, s, n, n);
      SweepKeepsHead(keep, s, n, n, TRIM_MIN_BYTES);
      TrimFromKeeps(keep, t, n / 2);
      FitsTransitive(TrimFrom(keep, t, n / 2), t, s, false);
    } else {
      FitsSelf(s, false);
    }
  }

  /** Trimming keeps the checksum and leaves a subsequence; a test case of five bytes or more keeps its first
      four bytes. Shorter ones are left alone. */
  lemma TrimmedKeeps(keep: Oracle, s: seq<byte>)
    ensures var r := Trimmed(keep, s);
            && Subsequence(r, s) && (keep(s) ==> keep(r))
            && (if |s| < 5 then r == s
                else |r| >= TRIM_MIN_BYTES && r[..TRIM_MIN_BYTES] == s[..TRIM_MIN_BYTES])
  {
    if |s| < 5 {
      FitsSelf(s, false);
    } else {
      TrimFromKeeps(keep, s, Max(NextP2(|s|) / TRIM_START_STEPS, TRIM_MIN_BYTES));
    }
  }

  // ----- which chunks are tried ------------------------------------------------------------------

  /** A position that chunks of n bytes behind each other reach from p on. */
  predicate Starts(q: int, p: nat, n: nat)
    requires n > 0
  {
    q >= p && (q - p) % n == 0
  }

  /** No chunk of n bytes from position p on can be left out. */
  ghost predicate NoneLeft(keep: Oracle, s: seq<byte>, n: nat, p: nat)
    requires n > 0
  {
    forall q :: Starts(q, p, n) && q < |s| ==> !keep(Without(s, q, n))
  }

  /** The next chunk starts n bytes further on. */
  lemma NextStarts(q: int, p: nat, n: nat)
    requires n > 0
    ensures Starts(q, p, n) <==> q == p || Starts(q, p + n, n)
  {
    if q > p {
      var d := q - p;
      if d < n {
        Arithmetic.DivUnique(d, n, 0, d);
      } else {
        var e := d - n;
        var a, r := e / n, e % n;
        assert e == a * n + r && (a + 1) * n == a * n + n;
        Arithmetic.DivUnique(d, n, a + 1, r);
      }
    } else if q == p {
      Arithmetic.DivUnique(0, n, 0, 0);
    }
  }

  lemma {:induction false} SweepIsStuckIff(keep: Oracle, s: seq<byte>, n: nat, p: nat)
    requires n > 0
    ensures Sweep(keep, s, n, p) == s <==> NoneLeft(keep, s, n, p)
    ensures Sweep(keep, s, n, p) == s || |Sweep(keep, s, n, p)| < |s|
    decreases |s| - p
  {
    forall q: int ensures Starts(q, p, n) <==> q == p || Starts(q, p + n, n) {
      NextStarts(q, p, n);
    }
    if p >= |s| {
      hide Starts;
      assert forall q :: Starts(q, p, n) ==> q >= p by { StartsBehind(p, n); }
    } else {
      hide Starts;
      assert Starts(p, p, n);
      if keep(Without(s, p, n)) {
        SweepIsStuckIff(keep, Without(s, p, n), n, p);
      } else {
        SweepIsStuckIff(keep, s, n, p + n);
      }
    }
  }

  lemma StartsBehind(p: nat, n: nat)
    requires n > 0
    ensures forall q :: Starts(q, p, n) ==> q >= p
  {
  }

  lemma {:induction false} TrimFromIsStuckIff(keep: Oracle, s: seq<byte>, n: nat)
    ensures TrimFrom(keep, s, n) == s <==>
            forall j: nat :: Bitwise.Shr(n, j) >= LeastChunk(|s|) ==>
                               NoneLeft(keep, s, Bitwise.Shr(n, j), Bitwise.Shr(n, j))
    ensures |TrimFrom(keep, s, n)| <= |s|
    decreases n
  {
    hide NoneLeft, LeastChunk, Bitwise.Shr;
    assert LeastChunk(|s|) >= TRIM_MIN_BYTES by { LeastIsPositive(|s|); }
    ShiftNone(n);
    if n >= LeastChunk(|s|) {
      var t := Sweep(keep, s, n, n);
      SweepIsStuckIff(keep, s, n, n);
      TrimFromIsStuckIff(keep, t, n / 2);
      forall j: nat | j > 0 ensures Bitwise.Shr(n, j) == Bitwise.Shr(n / 2, j - 1) {
        Bitwise.ShrStep(n, j);
      }
      forall j: nat ensures Bitwise.Shr(n / 2, j) == Bitwise.Shr(n, j + 1) {
        Bitwise.ShrStep(n, j + 1);
      }
    } else {
      forall j: nat ensures Bitwise.Shr(n, j) <= n {
        if j > 0 {
          Bitwise.ShrSmaller(n, j);
        }
      }
    }
  }

  lemma LeastIsPositive(len: nat)
    ensures LeastChunk(len) >= TRIM_MIN_BYTES
  {
  }

  lemma ShiftNone(n: nat)
    ensures Bitwise.Shr(n, 0) == n
  {
  }

  /** The lengths of the chunks: a sixteenth of the length, rounded up to a power of two, and its halves down to a
      1024th, but never less than four bytes. */
  ghost predicate LengthTried(len: nat, n: nat)
  {
    n >= Max(NextP2(len) / 1024, 4) && exists j: nat :: n == Bitwise.Shr(Max(NextP2(len) / 16, 4), j)
  }

  /** A test case comes out as it was exactly if it is too short, or if leaving out any chunk of a length that is
      tried, at a multiple of that length behind the first one, changes the checksum. */
  lemma NothingToTrimIff(keep: Oracle, s: seq<byte>)
    ensures Trimmed(keep, s) == s <==>
            |s| < 5 || forall n: nat, q: nat :: LengthTried(|s|, n) && Starts(q, n, n) && q < |s| ==>
                         !keep(Without(s, q, n))
  {
    var first := Max(NextP2(|s|) / 16, 4);
    TrimFromIsStuckIff(keep, s, first);
    hide Bitwise.Shr, NextP2, Starts;
    if forall n: nat, q: nat :: LengthTried(|s|, n) && Starts(q, n, n) && q < |s| ==> !keep(Without(s, q, n)) {
      forall j: nat | Bitwise.Shr(first, j) >= LeastChunk(|s|)
        ensures NoneLeft(keep, s, Bitwise.Shr(first, j), Bitwise.Shr(first, j))
      {
        assert LengthTried(|s|, Bitwise.Shr(first, j));
        StartsBehind(Bitwise.Shr(first, j), Bitwise.Shr(first, j));
      }
    }
    if forall j: nat :: Bitwise.Shr(first, j) >= LeastChunk(|s|) ==>
        NoneLeft(keep, s, Bitwise.Shr(first, j), Bitwise.Shr(first, j)) {
      forall n: nat, q: nat | LengthTried(|s|, n) && Starts(q, n, n) && q < |s| ensures !keep(Without(s, q, n)) {
        var j: nat :| n == Bitwise.Shr(first, j);
        assert NoneLeft(keep, s, Bitwise.Shr(first, j), Bitwise.Shr(first, j));
      }
    }
  }

  /** The number of chunks of n bytes that cover the given number of bytes, the last one perhaps partly. */
  function Chunks(bytes: int, n: nat): nat
    requires n > 0
    decreases bytes
  {
    if bytes <= 0 then 0 else 1 + Chunks(bytes - n, n)
  }

  // ----- files -----------------------------------------------------------------------------------

  /** Writing at a position inside a file or at its end. */
  function Written(file: seq<byte>, at: nat, data: seq<byte>): seq<byte>
    requires at <= |file|
  {
    file[..at] + data + file[Min(at + |data|, |file|)..]
  }

  function Truncated(file: seq<byte>, n: nat): seq<byte>
  {
    if n <= |file| then file[..n] else file + seq(n - |file|, _ => 0)
  }

  /** What a run reports: whether the target could not be run at all, and else the trace. */
  datatype Report = Report(failed: bool, trace: seq<byte>)

  class Trimmer {
    const target: seq<byte> -> Report
    const checksum: seq<byte> -> nat
    const execCksum: nat
    const inBuf: array<byte>
    const named: bool
    var len: nat
    var testCase: seq<byte>
    var outFile: seq<byte>
    var traceBits: seq<byte>

    ghost predicate Valid()
      reads this`len
    {
      len <= inBuf.Length <= MAX_FILE
    }

    ghost function Contents(): seq<byte>
      requires Valid()
      reads this`len, inBuf
    {
      inBuf[..len]
    }

    ghost function Keeps(): Oracle
    {
      (s: seq<byte>) => checksum(target(s).trace) == execCksum
    }

    constructor (run: seq<byte> -> Report, hash: seq<byte> -> nat, sum: nat, data: array<byte>, outFileNamed: bool)
      requires data.Length <= MAX_FILE
      ensures Valid() && target == run && checksum == hash && execCksum == sum && inBuf == data && len == data.Length
      ensures testCase == data[..] && named == outFileNamed
    {
      target, checksum, execCksum, inBuf, named, len := run, hash, sum, data, outFileNamed, data.Length;
      testCase, outFile, traceBits := data[..], [], [];
    }

    /** The file the target reads: one that the user named is removed and made anew, the fuzzer's own is rewritten
        in place and cut to size, which removes what was there before. */
    method WriteWithGap(skipAt: nat, skipLen: nat)
      requires Valid() && skipAt + skipLen <= len
      modifies `outFile
      ensures outFile == Without(Contents(), skipAt, skipLen)
    {
      if named {
        outFile := [];
      }
      WriteParts(skipAt, skipLen);
      if !named {
        outFile := Truncated(outFile, len - skipLen);
      }
    }

    /** Both parts are written over what the file holds; an old end may stick out. */
    method WriteParts(skipAt: nat, skipLen: nat)
      requires Valid() && skipAt + skipLen <= len
      modifies `outFile
      ensures len - skipLen <= |outFile| && outFile[..len - skipLen] == Without(Contents(), skipAt, skipLen)
      ensures old(outFile) == [] ==> outFile == Without(Contents(), skipAt, skipLen)
    {
      var tailLen := len - skipAt - skipLen;
      if skipAt > 0 {
        outFile := Written(outFile, 0, inBuf[..skipAt]);
      }
      assert skipAt <= |outFile| && outFile[..skipAt] == inBuf[..skipAt];
      if tailLen > 0 {
        outFile := Written(outFile, skipAt, inBuf[skipAt + skipLen..len]);
      }
      assert outFile[..len - skipLen] == inBuf[..skipAt] + inBuf[skipAt + skipLen..len] ==
             Without(Contents(), skipAt, skipLen);
      assert old(outFile) == [] ==> |outFile| == len - skipLen;
    }

    method RunTarget() returns (failed: bool)
      modifies `traceBits
      ensures failed == target(outFile).failed && traceBits == target(outFile).trace
    {
      failed, traceBits := target(outFile).failed, target(outFile).trace;
    }

    /** Try the test case without one chunk, and drop the chunk if the checksum stays. */
    method TrimChunk(removePos: nat, trimAvail: nat) returns (failed: bool, gone: bool)
      requires Valid() && removePos + trimAvail <= len
      modifies inBuf, `len, `outFile, `traceBits
      ensures Valid() && (failed ==> !gone)
      ensures !failed ==> gone == Keeps()(Without(old(Contents()), removePos, trimAvail))
      ensures gone ==> checksum(traceBits) == execCksum
      ensures Contents() == if gone then Without(old(Contents()), removePos, trimAvail) else old(Contents())
    {
      gone := false;
      WriteWithGap(removePos, trimAvail);
      failed := RunTarget();
      if !failed && checksum(traceBits) == execCksum {
        var moveTail := len - removePos - trimAvail;
        len := len - trimAvail;
        Move(inBuf, removePos, removePos + trimAvail, moveTail);
        gone := true;
        assert Contents() == Without(old(Contents()), removePos, trimAvail);
      }
    }

    /** Sweep with one chunk length. An execution that fails ends the trimming. How many executions it takes
        does not depend on which chunks go. */
    method TrimChunks(removeLen: nat, lenP2: nat, execs: nat, needsWrite: bool, cleanTrace: seq<byte>)
      returns (failed: bool, lenP2': nat, execs': nat, needsWrite': bool, cleanTrace': seq<byte>)
      requires Valid() && TRIM_MIN_BYTES <= removeLen && TRIM_MIN_BYTES <= len && lenP2 == NextP2(len)
      requires needsWrite ==> checksum(cleanTrace) == execCksum
      modifies inBuf, `len, `outFile, `traceBits
      ensures Valid() && lenP2' == NextP2(len) && TRIM_MIN_BYTES <= len
      ensures needsWrite' ==> checksum(cleanTrace') == execCksum
      ensures if len < old(len) then needsWrite' else Contents() == old(Contents()) && needsWrite' == needsWrite
      ensures if failed then Partial(old(Contents()), Contents())
              else Contents() == Sweep(Keeps(), old(Contents()), removeLen, removeLen)
      ensures !failed ==> execs' == execs + Chunks(old(len) - removeLen, removeLen)
    {
      hide Keeps, Subsequence, Partial, Without, NextP2;
      ghost var keep, was := Keeps(), Contents();
      var removePos := removeLen;
      failed, lenP2', execs', needsWrite', cleanTrace' := false, lenP2, execs, needsWrite, cleanTrace;
      PartialStart(was);
      while removePos < len
        invariant Valid() && lenP2' == NextP2(len) && TRIM_MIN_BYTES <= len && removeLen <= removePos
        invariant needsWrite' ==> checksum(cleanTrace') == execCksum
        invariant if len < |was| then needsWrite' else Contents() == was && needsWrite' == needsWrite
        invariant Partial(was, Contents())
        invariant Sweep(keep, Contents(), removeLen, removePos) == Sweep(keep, was, removeLen, removeLen)
        invariant execs' + Chunks(len - removePos, removeLen) == execs + Chunks(|was| - removeLen, removeLen)
        decreases len, len - removePos
      {
        ghost var s := Contents();
        var trimAvail := Min(removeLen, len - removePos);
        WholeChunk(s, removePos, removeLen);
        var gone;
        failed, gone := TrimChunk(removePos, trimAvail);
        execs' := execs' + 1;
        if failed {
          return;
        }
        if gone {
          lenP2' := RoundUp(len);
          PartialStep(was, s, removePos, removeLen);
          if !needsWrite' {
            needsWrite' := true;
            cleanTrace' := traceBits;
          }
        } else {
          removePos := removePos + removeLen;
        }
      }
    }

    lemma WholeChunk(s: seq<byte>, p: nat, n: nat)
      requires p <= |s|
      ensures Without(s, p, Min(n, |s| - p)) == Without(s, p, n)
      ensures |Without(s, p, n)| == |s| - Min(n, |s| - p)
    {
    }

    /** What an interrupted trimming has made of a test case. */
    ghost predicate Partial(was: seq<byte>, s: seq<byte>)
    {
      Subsequence(s, was) && (Keeps()(was) ==> Keeps()(s))
    }

    lemma PartialStart(was: seq<byte>)
      ensures Partial(was, was)
    {
      FitsSelf(was, false);
    }

    lemma PartialStep(was: seq<byte>, s: seq<byte>, p: nat, n: nat)
      requires Partial(was, s) && p <= |s| && Keeps()(Without(s, p, n))
      ensures Partial(was, Without(s, p, n))
    {
      WithoutIsSubsequence(s, p, n);
      FitsTransitive(Without(s, p, n), s, was, false);
    }

    lemma PartialJoin(was: seq<byte>, s: seq<byte>, t: seq<byte>, n: nat)
      requires n > 0 && Partial(was, s) && (Partial(s, t) || t == Sweep(Keeps(), s, n, n))
      ensures Partial(was, t)
    {
      SweepIsSubsequence(Keeps(), s, n, n);
      FitsTransitive(t, s, was, false);
    }

    /** After a run without a failure the buffer and the file on disk hold the trimmed test case, and the trace
        at hand is one with the checksum of the entry, to be scored again, exactly when something went. */
    method TrimCase() returns (failed: bool, rescore: bool)
      requires Valid() && testCase == Contents()
      modifies inBuf, `len, `outFile, `traceBits, `testCase
      ensures Valid() && Partial(old(Contents()), Contents())
      ensures !failed ==> Contents() == Trimmed(Keeps(), old(Contents())) && testCase == Contents()
      ensures !failed ==> rescore == (Contents() != old(Contents()))
      ensures rescore ==> checksum(traceBits) == execCksum
      ensures failed ==> !rescore && testCase == old(testCase)
    {
      hide Keeps, Partial, NextP2, Sweep;
      failed, rescore := false, false;
      ghost var keep, was := Keeps(), Contents();
      PartialStart(was);
      if len < 5 {
        return;
      }
      var lenP2 := RoundUp(len);
      var removeLen: nat := Max(lenP2 / TRIM_START_STEPS, TRIM_MIN_BYTES);
      var execs, needsWrite, cleanTrace := 0, false, [];
      while removeLen >= Max(lenP2 / TRIM_END_STEPS, TRIM_MIN_BYTES)
        invariant Valid() && lenP2 == NextP2(len) && TRIM_MIN_BYTES <= len && testCase == was
        invariant needsWrite ==> checksum(cleanTrace) == execCksum
        invariant if needsWrite then len < |was| else Contents() == was
        invariant Partial(was, Contents())
        invariant TrimFrom(keep, Contents(), removeLen) == Trimmed(keep, was)
        decreases removeLen
      {
        ghost var s := Contents();
        failed, lenP2, execs, needsWrite, cleanTrace := TrimChunks(removeLen, lenP2, execs, needsWrite, cleanTrace);
        PartialJoin(was, s, Contents(), removeLen);
        if failed {
          return;
        }
        removeLen := removeLen / 2;
      }
      if needsWrite {
        testCase := inBuf[..len];
        traceBits := cleanTrace;
        rescore := true;
      }
    }
  }
}
