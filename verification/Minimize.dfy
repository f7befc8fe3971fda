/** afl-tmin: the accept/reject decision of a run, and the passes that shrink a test case. */
module Minimize {
  import opened Bytes
  import opened Blocks

  const TRIM_START_STEPS := 16

  const TMIN_SET_MIN_SIZE := 4

  const TMIN_SET_STEPS := 128

  const TMIN_MAX_FILE := 10 * 1024 * 1024

  const MSAN_ERROR := 86

  // ----- what the target does, and when two runs count as alike ----------------------------------

  datatype Status = Exited(code: nat) | Signaled(sig: nat)

  datatype Outcome = Outcome(timedOut: bool, status: Status, cksum: nat)

  datatype Options = Options(exactMode: bool, exitCrash: bool)

  predicate Crashed(o: Options, s: Status)
  {
    match s
    case Signaled(_) => true
    case Exited(code) => code == MSAN_ERROR || (code != 0 && o.exitCrash)
  }

  /** A candidate run is as good as the baseline run: both crash or neither does, and they took the
      same path, which for crashes matters in exact mode only. Runs that time out are never good. */
  ghost predicate Alike(o: Options, baseline: Outcome, candidate: Outcome)
  {
    && !candidate.timedOut
    && Crashed(o, candidate.status) == Crashed(o, baseline.status)
    && ((Crashed(o, baseline.status) && !o.exactMode) || candidate.cksum == baseline.cksum)
  }

  /** The test the code applies to candidates, from the mode and checksum the first run left behind. */
  predicate Accepts(o: Options, crashMode: bool, origCksum: nat, candidate: Outcome)
  {
    && !candidate.timedOut
    && Crashed(o, candidate.status) == crashMode
    && ((crashMode && !o.exactMode) || candidate.cksum == origCksum)
  }

  // ----- the passes without their short cuts -----------------------------------------------------

  function Try(keep: Oracle, s: seq<byte>, t: seq<byte>): seq<byte> { if keep(t) then t else s }

  /** Blank the blocks from position p on, one after the other. */
  function Normalize(keep: Oracle, s: seq<byte>, n: nat, p: nat): seq<byte>
    requires n > 0
    decreases |s| - p
  {
    if p >= |s| then s else Normalize(keep, Try(keep, s, Blanked(s, p, Min(n, |s| - p))), n, p + n)
  }

  function Shrink(keep: Oracle, s: seq<byte>, n: nat): seq<byte>
    requires n > 0
    decreases n
  {
    var t := Sweep(keep, s, n, 0);
    if n > 1 && t != [] then Shrink(keep, t, n / 2) else t
  }

  function Alphabet(keep: Oracle, s: seq<byte>, b: nat): seq<byte>
    decreases 256 - b
  {
    if b >= 256 then s else Alphabet(keep, Try(keep, s, Renamed(s, b)), b + 1)
  }

  /** The alphabet stage at symbol i: bytes from i up are still those of the stage's input. */
  predicate Untried(was: seq<byte>, s: seq<byte>, i: nat)
  {
    |s| == |was| && forall j :: 0 <= j < |s| ==> s[j] == was[j] || (s[j] == ZERO && was[j] < i)
  }

  /** A symbol that the stage's input did not hold, or the filler, need not be tried. */
  lemma AlphabetStep(keep: Oracle, was: seq<byte>, s: seq<byte>, i: byte)
    requires Untried(was, s, i)
    ensures Alphabet(keep, s, i) == Alphabet(keep, Try(keep, s, Renamed(s, i)), i + 1)
    ensures i == ZERO || i !in was ==> Renamed(s, i) == s
    ensures i != ZERO && i in was ==> Renamed(s, i) != s
    ensures Untried(was, s, i + 1) && Untried(was, Renamed(s, i), i + 1)
  {
    var t := Renamed(s, i);
    if i != ZERO && i in was {
      var j :| 0 <= j < |was| && was[j] == i;
      assert t[j] != s[j];
    }
    if i == ZERO || i !in was {
      forall j | 0 <= j < |s|
        ensures t[j] == s[j]
      {
        assert was[j] in was;
      }
      assert t == s;
    }
  }

  lemma AlphabetEnd(keep: Oracle, s: seq<byte>)
    ensures Alphabet(keep, s, 256) == s
  {
  }

  function Characters(keep: Oracle, s: seq<byte>, i: nat): seq<byte>
    decreases |s| - i
  {
    if i >= |s| then s else Characters(keep, Try(keep, s, s[i := ZERO]), i + 1)
  }

  lemma CharactersStep(keep: Oracle, s: seq<byte>, i: nat)
    requires i < |s|
    ensures Characters(keep, s, i) == Characters(keep, Try(keep, s, s[i := ZERO]), i + 1)
    ensures s[i] == ZERO ==> s[i := ZERO] == s
  {
  }

  lemma CharactersEnd(keep: Oracle, s: seq<byte>)
    ensures Characters(keep, s, |s|) == s
  {
  }

  function DeletionStage(keep: Oracle, s: seq<byte>): seq<byte>
  {
    NextP2IsLeast(|s| / TRIM_START_STEPS);
    Shrink(keep, s, NextP2(|s| / TRIM_START_STEPS))
  }

  function ReplacementStages(keep: Oracle, s: seq<byte>): seq<byte> { Characters(keep, Alphabet(keep, s, 0), 0) }

  /** All passes. From the second on, a pass whose deletions change nothing ends the run at once. */
  function Passes(keep: Oracle, s: seq<byte>, first: bool): seq<byte>
    decreases Weight(s)
  {
    var d := DeletionStage(keep, s);
    var t := ReplacementStages(keep, d);
    DeletionEmbeds(keep, s);
    ReplacementEmbeds(keep, d);
    EmbedsTransitive(t, d, s);
    EmbeddingIsLighter(t, s);
    if !first && d == s then s else if t == s then s else Passes(keep, t, false)
  }

  lemma PassesStep(keep: Oracle, s: seq<byte>, first: bool)
    ensures var d := DeletionStage(keep, s);
            var t := ReplacementStages(keep, d);
            && Weight(d) <= Weight(s) && (Weight(d) == Weight(s) ==> d == s)
            && Passes(keep, s, first) ==
               if (!first && d == s) || t == s then s else Passes(keep, t, false)
  {
    DeletionEmbeds(keep, s);
    EmbeddingIsLighter(DeletionStage(keep, s), s);
  }

  function SetLength(len: nat): nat { Max(NextP2(len / TMIN_SET_STEPS), TMIN_SET_MIN_SIZE) }

  function Minimized(keep: Oracle, s: seq<byte>): seq<byte>
  {
    Passes(keep, Normalize(keep, s, SetLength(|s|), 0), true)
  }

  // ----- each pass leaves an embedding of its input, and the oracle true --------------------------

  lemma {:induction false} NormalizeEmbeds(keep: Oracle, s: seq<byte>, n: nat, p: nat)
    requires n > 0
    ensures var r := Normalize(keep, s, n, p); Embeds(r, s) && (keep(s) ==> keep(r)) && |r| == |s|
    decreases |s| - p
  {
    if p < |s| {
      var t := Try(keep, s, Blanked(s, p, Min(n, |s| - p)));
      NormalizeEmbeds(keep, t, n, p + n);
      PointwiseEmbeds(Blanked(s, p, Min(n, |s| - p)), s);
      EmbedsSelf(s);
      EmbedsTransitive(Normalize(keep, s, n, p), t, s);
    } else {
      EmbedsSelf(s);
    }
  }

  lemma {:induction false} ShrinkEmbeds(keep: Oracle, s: seq<byte>, n: nat)
    requires n > 0
    ensures var r := Shrink(keep, s, n); Embeds(r, s) && (keep(s) ==> keep(r))
    decreases n
  {
    var t := Sweep(keep, s, n, 0);
    SweepEmbeds(keep, s, n, 0);
    if n > 1 && t != [] {
      ShrinkEmbeds(keep, t, n / 2);
      EmbedsTransitive(Shrink(keep, t, n / 2), t, s);
    }
  }

  lemma DeletionEmbeds(keep: Oracle, s: seq<byte>)
    ensures var r := DeletionStage(keep, s); Embeds(r, s) && (keep(s) ==> keep(r))
  {
    NextP2IsLeast(|s| / TRIM_START_STEPS);
    ShrinkEmbeds(keep, s, NextP2(|s| / TRIM_START_STEPS));
  }

  lemma {:induction false} AlphabetEmbeds(keep: Oracle, s: seq<byte>, b: nat)
    ensures var r := Alphabet(keep, s, b); Embeds(r, s) && (keep(s) ==> keep(r))
    decreases 256 - b
  {
    EmbedsSelf(s);
    if b < 256 {
      var t := Try(keep, s, Renamed(s, b));
      AlphabetEmbeds(keep, t, b + 1);
      PointwiseEmbeds(Renamed(s, b), s);
      EmbedsTransitive(Alphabet(keep, s, b), t, s);
    }
  }

  lemma {:induction false} CharactersEmbeds(keep: Oracle, s: seq<byte>, i: nat)
    ensures var r := Characters(keep, s, i); Embeds(r, s) && (keep(s) ==> keep(r))
    decreases |s| - i
  {
    EmbedsSelf(s);
    if i < |s| {
      var t := Try(keep, s, s[i := ZERO]);
      CharactersEmbeds(keep, t, i + 1);
      PointwiseEmbeds(s[i := ZERO], s);
      EmbedsTransitive(Characters(keep, s, i), t, s);
    }
  }

  lemma ReplacementEmbeds(keep: Oracle, s: seq<byte>)
    ensures var r := ReplacementStages(keep, s); Embeds(r, s) && (keep(s) ==> keep(r))
  {
    var a := Alphabet(keep, s, 0);
    AlphabetEmbeds(keep, s, 0);
    CharactersEmbeds(keep, a, 0);
    EmbedsTransitive(Characters(keep, a, 0), a, s);
  }

  lemma {:induction false} PassesEmbed(keep: Oracle, s: seq<byte>, first: bool)
    ensures var r := Passes(keep, s, first); Embeds(r, s) && (keep(s) ==> keep(r))
    decreases Weight(s)
  {
    var d := DeletionStage(keep, s);
    var t := ReplacementStages(keep, d);
    DeletionEmbeds(keep, s);
    ReplacementEmbeds(keep, d);
    EmbedsTransitive(t, d, s);
    EmbeddingIsLighter(t, s);
    EmbedsSelf(s);
    if (first || d != s) && t != s {
      PassesEmbed(keep, t, false);
      EmbedsTransitive(Passes(keep, t, false), t, s);
    }
  }

  /** The result still satisfies the oracle and is left of the input after dropping and blanking bytes. */
  lemma MinimizedEmbeds(keep: Oracle, s: seq<byte>)
    ensures var r := Minimized(keep, s); Embeds(r, s) && (keep(s) ==> keep(r))
  {
    var m := Normalize(keep, s, SetLength(|s|), 0);
    NormalizeEmbeds(keep, s, SetLength(|s|), 0);
    PassesEmbed(keep, m, true);
    EmbedsTransitive(Minimized(keep, s), m, s);
  }

  // ----- what block normalization and the alphabet stage decide ------------------------------------

  /** Normalization from position q on, block by block. */
  lemma {:induction false} NormalizedFrom(keep: Oracle, s: seq<byte>, n: nat, q: nat, p: nat)
    requires n > 0 && Aligned(p, n) && Aligned(q, n)
    ensures var r := Normalize(keep, s, n, q);
            && |r| == |s| && (forall j :: 0 <= j < |s| && j < q ==> r[j] == s[j])
            && (q <= p < |s| ==> DecidedBlock(keep, s, r, p, Min(n, |s| - p)))
    decreases |s| - q
  {
    hide Blanked, DecidedBlock;
    if q < |s| {
      var t, r := Try(keep, s, Blanked(s, q, Min(n, |s| - q))), Normalize(keep, s, n, q);
      BlankedAt(s, q, Min(n, |s| - q));
      assert Aligned(q + n, n);
      NormalizedFrom(keep, t, n, q + n, p);
      hide Normalize;
      if p == q {
        FirstBlock(keep, s, t, r, q, Min(n, |s| - q));
      } else if q < p < |s| {
        NextAligned(q, p, n);
        SameBehind(keep, s, t, r, p, Min(n, |s| - p));
      }
    }
  }

  lemma BlankedAt(s: seq<byte>, p: nat, m: nat)
    requires p + m <= |s|
    ensures forall j :: 0 <= j < |s| ==> Blanked(s, p, m)[j] == if p <= j < p + m then ZERO else s[j]
  {
  }

  lemma FirstBlock(keep: Oracle, s: seq<byte>, t: seq<byte>, r: seq<byte>, p: nat, m: nat)
    requires |r| == |s| && p + m <= |s| && t == Try(keep, s, Blanked(s, p, m))
    requires forall j :: 0 <= j < p + m ==> r[j] == t[j]
    ensures DecidedBlock(keep, s, r, p, m)
  {
    BlankedAt(s, p, m);
    hide Blanked;
    assert r[..p] + s[p..] == s;
  }

  lemma SameBehind(keep: Oracle, s: seq<byte>, t: seq<byte>, r: seq<byte>, p: nat, m: nat)
    requires |r| == |s| == |t| && p + m <= |s| && (forall j :: p <= j < |s| ==> t[j] == s[j])
    requires DecidedBlock(keep, t, r, p, m)
    ensures DecidedBlock(keep, s, r, p, m)
  {
    hide Blanked;
    assert r[..p] + s[p..] == r[..p] + t[p..];
  }

  /** An aligned block of the input becomes filler if the oracle accepts that, with the blocks before it as decided
      and those behind it as given; otherwise it stays as it was. */
  predicate DecidedBlock(keep: Oracle, s: seq<byte>, r: seq<byte>, p: nat, m: nat)
    requires |r| == |s| && p + m <= |s|
  {
    var accepted := keep(Blanked(r[..p] + s[p..], p, m));
    forall j :: p <= j < p + m ==> r[j] == if accepted then ZERO else s[j]
  }

  /** Every aligned block of the input is tried and decided in this way. */
  lemma NormalizedBlockByBlock(keep: Oracle, s: seq<byte>, n: nat, p: nat)
    requires n > 0 && Aligned(p, n) && p < |s|
    ensures var (r, m) := (Normalize(keep, s, n, 0), Min(n, |s| - p));
            |r| == |s| && forall j :: p <= j < p + m ==>
              r[j] == if keep(Blanked(r[..p] + s[p..], p, m)) then ZERO else s[j]
  {
    NormalizedFrom(keep, s, n, 0, p);
  }

  /** The bytes below a symbol as the alphabet stage left them, the others as they were. */
  function Mixed(s: seq<byte>, r: seq<byte>, b: nat): (t: seq<byte>)
    requires |r| == |s|
    ensures |t| == |s|
  {
    seq(|s|, j requires 0 <= j < |s| => if s[j] < b then r[j] else s[j])
  }

  /** The alphabet stage from symbol a on, symbol by symbol. */
  lemma {:induction false} AlphabetFrom(keep: Oracle, was: seq<byte>, s: seq<byte>, a: nat, b: byte)
    requires Untried(was, s, a)
    ensures var r := Alphabet(keep, s, a);
            && |r| == |was| && (forall j :: 0 <= j < |was| && was[j] < a ==> r[j] == s[j])
            && (a <= b ==> forall j :: 0 <= j < |was| && was[j] == b ==>
                  r[j] == if keep(Renamed(Mixed(was, r, b), b)) then ZERO else b)
    decreases 256 - a
  {
    if a < 256 {
      var t, r := Try(keep, s, Renamed(s, a)), Alphabet(keep, s, a);
      AlphabetStep(keep, was, s, a);
      AlphabetFrom(keep, was, t, a + 1, b);
      if a == b {
        assert Mixed(was, r, b) == s;
      }
    }
  }

  /** For every symbol, all its occurrences become filler if the oracle accepts that, with the smaller symbols as
      decided and the larger ones as given; otherwise all of them stay. */
  lemma AlphabetSymbolBySymbol(keep: Oracle, s: seq<byte>, b: byte)
    ensures var r := Alphabet(keep, s, 0);
            && |r| == |s|
            && forall j :: 0 <= j < |s| && s[j] == b ==>
                 r[j] == if keep(Renamed(Mixed(s, r, b), b)) then ZERO else b
  {
    AlphabetFrom(keep, s, s, 0, b);
  }

  // ----- nothing more can be deleted from the result ----------------------------------------------

  /** The position p is a multiple of n. */
  predicate Aligned(p: nat, n: nat)
    requires n > 0
  {
    p == 0 || (p >= n && Aligned(p - n, n))
  }

  /** No block of n bytes at a multiple of n can go. */
  predicate Stuck(keep: Oracle, s: seq<byte>, n: nat)
    requires n > 0
  {
    forall p: nat :: p < |s| && Aligned(p, n) ==> !keep(Without(s, p, n))
  }

  /** Nor can any at half the length, a quarter, and so on down to single bytes. */
  predicate StuckDown(keep: Oracle, s: seq<byte>, n: nat)
    requires n > 0
  {
    Stuck(keep, s, n) && (n > 1 ==> StuckDown(keep, s, n / 2))
  }

  lemma {:induction false} NextAligned(p: nat, q: nat, n: nat)
    requires n > 0 && Aligned(p, n) && Aligned(q, n) && p < q
    ensures Aligned(p + n, n) && p + n <= q
  {
    if p > 0 {
      NextAligned(p - n, q - n, n);
    }
  }

  lemma {:induction false} AlignedToOne(p: nat)
    ensures Aligned(p, 1)
  {
    if p > 0 {
      AlignedToOne(p - 1);
    }
  }

  lemma {:induction false} FixedSweepIsStuck(keep: Oracle, s: seq<byte>, n: nat, p: nat, q: nat)
    requires n > 0 && Sweep(keep, s, n, p) == s && Aligned(p, n) && Aligned(q, n) && p <= q < |s|
    ensures !keep(Without(s, q, n))
    decreases |s| - p
  {
    if keep(Without(s, p, n)) {
      var t := Without(s, p, n);
      SweepEmbeds(keep, t, n, p);
      EmbeddingIsLighter(s, t);
      assert false;
    } else if p < q {
      NextAligned(p, q, n);
      FixedSweepIsStuck(keep, s, n, p + n, q);
    }
  }

  lemma {:induction false} FixedShrinkIsStuck(keep: Oracle, s: seq<byte>, n: nat)
    requires n > 0 && Shrink(keep, s, n) == s
    ensures StuckDown(keep, s, n)
    decreases n
  {
    var t := Sweep(keep, s, n, 0);
    SweepEmbeds(keep, s, n, 0);
    if n > 1 && t != [] {
      ShrinkEmbeds(keep, t, n / 2);
      EmbeddingIsLighter(s, t);
      EmbeddingIsLighter(t, s);
    }
    assert t == s;
    forall q: nat | q < |s| && Aligned(q, n)
      ensures !keep(Without(s, q, n))
    {
      FixedSweepIsStuck(keep, s, n, 0, q);
    }
    if n > 1 {
      if s == [] {
        NothingIsStuck(keep, n);
      } else {
        FixedShrinkIsStuck(keep, s, n / 2);
      }
    }
  }

  lemma {:induction false} NothingIsStuck(keep: Oracle, n: nat)
    requires n > 0
    ensures StuckDown(keep, [], n)
    decreases n
  {
    if n > 1 {
      NothingIsStuck(keep, n / 2);
    }
  }

  lemma {:induction false} StuckAtOne(keep: Oracle, s: seq<byte>, n: nat)
    requires n > 0 && StuckDown(keep, s, n)
    ensures Stuck(keep, s, 1)
    decreases n
  {
    if n > 1 {
      StuckAtOne(keep, s, n / 2);
    }
  }

  lemma {:induction false} PassesEndStuck(keep: Oracle, s: seq<byte>, first: bool)
    ensures DeletionStage(keep, Passes(keep, s, first)) == Passes(keep, s, first)
    decreases Weight(s)
  {
    var d := DeletionStage(keep, s);
    var t := ReplacementStages(keep, d);
    DeletionEmbeds(keep, s);
    ReplacementEmbeds(keep, d);
    EmbedsTransitive(t, d, s);
    EmbeddingIsLighter(t, s);
    if first || d != s {
      if t == s {
        EmbeddingIsLighter(t, d);
        EmbeddingIsLighter(d, s);
      } else {
        PassesEndStuck(keep, t, false);
      }
    }
  }

  /** The result is 1-minimal: deleting any one byte is rejected. Moreover no aligned block can go, for
      any of the block lengths a further pass would try. */
  lemma MinimizedIsOneMinimal(keep: Oracle, s: seq<byte>)
    ensures var r := Minimized(keep, s);
            && (forall p: nat :: p < |r| ==> !keep(Without(r, p, 1)))
            && NextP2(|r| / TRIM_START_STEPS) > 0
            && StuckDown(keep, r, NextP2(|r| / TRIM_START_STEPS))
  {
    var r := Minimized(keep, s);
    PassesEndStuck(keep, Normalize(keep, s, SetLength(|s|), 0), true);
    var n := NextP2(|r| / TRIM_START_STEPS);
    NextP2IsLeast(|r| / TRIM_START_STEPS);
    FixedShrinkIsStuck(keep, r, n);
    StuckAtOne(keep, r, n);
    forall p: nat | p < |r|
      ensures !keep(Without(r, p, 1))
    {
      AlignedToOne(p);
    }
  }

  // ----- but it may still hold bytes that could be blanked ----------------------------------------

  lemma {:induction false} FixedCharactersAreNeeded(keep: Oracle, s: seq<byte>, i: nat, j: nat)
    requires Characters(keep, s, i) == s && i <= j < |s| && s[j] != ZERO
    ensures !keep(s[j := ZERO])
    decreases |s| - i
  {
    if keep(s[i := ZERO]) {
      var t := s[i := ZERO];
      CharactersEmbeds(keep, t, i + 1);
      EmbeddingIsLighter(s, t);
      PointwiseEmbeds(t, s);
      EmbeddingIsLighter(t, s);
      assert t == s;
      assert s[i] == ZERO;
    }
    if i < j {
      FixedCharactersAreNeeded(keep, s, i + 1, j);
    }
  }

  /** When the first pass changes nothing, no single byte of the result can be blanked either. */
  lemma UnchangedIsBlankMinimal(keep: Oracle, s: seq<byte>, j: nat)
    requires var m := Normalize(keep, s, SetLength(|s|), 0); ReplacementStages(keep, DeletionStage(keep, m)) == m
    requires j < |Minimized(keep, s)| && Minimized(keep, s)[j] != ZERO
    ensures !keep(Minimized(keep, s)[j := ZERO])
  {
    var m := Normalize(keep, s, SetLength(|s|), 0);
    var d := DeletionStage(keep, m);
    var a := Alphabet(keep, d, 0);
    DeletionEmbeds(keep, m);
    AlphabetEmbeds(keep, d, 0);
    CharactersEmbeds(keep, a, 0);
    EmbeddingIsLighter(d, m);
    EmbeddingIsLighter(a, d);
    EmbeddingIsLighter(m, a);
    FixedCharactersAreNeeded(keep, m, 0, j);
  }

  /** A character sweep keeps bytes or blanks them; one that it keeps can be blanked in the end only if a later one
      was blanked. */
  lemma {:induction false} SweptByteIsNeeded(keep: Oracle, s: seq<byte>, i: nat, j: nat)
    requires i <= |s|
    ensures var r := Characters(keep, s, i);
            && |r| == |s| && r[..i] == s[..i] && (forall k :: i <= k < |s| ==> r[k] == s[k] || r[k] == ZERO)
            && (i <= j < |s| && r[j] != ZERO && (forall k :: j < k < |s| ==> r[k] == s[k]) ==> !keep(r[j := ZERO]))
    decreases |s| - i
  {
    if i < |s| {
      var t, r := Try(keep, s, s[i := ZERO]), Characters(keep, s, i);
      CharactersStep(keep, s, i);
      SweptByteIsNeeded(keep, t, i + 1, j);
      assert r[..i] == r[..i + 1][..i] == t[..i + 1][..i] == s[..i];
      assert r[i] == r[..i + 1][i] == t[i];
      if j == i && r[i] != ZERO && forall k :: j < k < |s| ==> r[k] == s[k] {
        assert r == s;
      }
    }
  }

  /** The input of the last character sweep that a run makes; prev is the one of the pass before. */
  function LastSweep(keep: Oracle, s: seq<byte>, first: bool, prev: seq<byte>): seq<byte>
    decreases Weight(s)
  {
    var d := DeletionStage(keep, s);
    var a := Alphabet(keep, d, 0);
    var t := Characters(keep, a, 0);
    DeletionEmbeds(keep, s);
    ReplacementEmbeds(keep, d);
    EmbedsTransitive(t, d, s);
    EmbeddingIsLighter(t, s);
    if !first && d == s then prev else if t == s then a else LastSweep(keep, t, false, a)
  }

  lemma {:induction false} LastSweepMakesResult(keep: Oracle, s: seq<byte>, first: bool, prev: seq<byte>)
    requires !first ==> s == Characters(keep, prev, 0)
    ensures Passes(keep, s, first) == Characters(keep, LastSweep(keep, s, first, prev), 0)
    decreases Weight(s)
  {
    var d := DeletionStage(keep, s);
    var a := Alphabet(keep, d, 0);
    var t := Characters(keep, a, 0);
    PassesStep(keep, s, first);
    DeletionEmbeds(keep, s);
    ReplacementEmbeds(keep, d);
    EmbedsTransitive(t, d, s);
    EmbeddingIsLighter(t, s);
    if (first || d != s) && t != s {
      LastSweepMakesResult(keep, t, false, a);
    }
  }

  function SweptLast(keep: Oracle, s: seq<byte>): seq<byte>
  {
    LastSweep(keep, Normalize(keep, s, SetLength(|s|), 0), true, [])
  }

  /** The result is what the last character sweep made of its input; a byte of it can be blanked only if that
      sweep blanked a later one. In particular, none can if the last sweep changed nothing. */
  lemma BlankableOnlyBeforeBlanked(keep: Oracle, s: seq<byte>, j: nat)
    requires j < |Minimized(keep, s)| && Minimized(keep, s)[j] != ZERO && keep(Minimized(keep, s)[j := ZERO])
    ensures var (a, r) := (SweptLast(keep, s), Minimized(keep, s));
            && r == Characters(keep, a, 0) && |r| == |a| && r != a
            && exists k :: j < k < |r| && r[k] == ZERO && a[k] != ZERO
  {
    var m := Normalize(keep, s, SetLength(|s|), 0);
    LastSweepMakesResult(keep, m, true, []);
    SweptByteIsNeeded(keep, SweptLast(keep, s), 0, j);
  }

  ghost predicate BlankMinimal(keep: Oracle, s: seq<byte>)
  {
    forall j :: 0 <= j < |s| && s[j] != ZERO ==> !keep(s[j := ZERO])
  }

  /** No byte of the result can be blanked if and only if none can that stands before one that the last character
      sweep blanked. */
  lemma BlankMinimalIff(keep: Oracle, s: seq<byte>)
    ensures var (a, r) := (SweptLast(keep, s), Minimized(keep, s));
            && |r| == |a|
            && (BlankMinimal(keep, r) <==>
                forall j, k :: 0 <= j < k < |r| && r[j] != ZERO && r[k] == ZERO && a[k] != ZERO ==> !keep(r[j := ZERO]))
  {
    var (a, r) := (SweptLast(keep, s), Minimized(keep, s));
    LastSweepMakesResult(keep, Normalize(keep, s, SetLength(|s|), 0), true, []);
    SweptByteIsNeeded(keep, a, 0, 0);
    hide Minimized, SweptLast;
    if j :| 0 <= j < |r| && r[j] != ZERO && keep(r[j := ZERO]) {
      BlankableOnlyBeforeBlanked(keep, s, j);
    }
  }

  // ----- exactly when the input comes out as it was ------------------------------------------------

  /** No aligned block of n bytes can be blanked, but those that are. */
  ghost predicate Unblankable(keep: Oracle, s: seq<byte>, n: nat)
    requires n > 0
  {
    forall p: nat :: p < |s| && Aligned(p, n) ==>
      var t := Blanked(s, p, Min(n, |s| - p)); t == s || !keep(t)
  }

  /** No symbol can be replaced by the filler everywhere. */
  ghost predicate Unrenamable(keep: Oracle, s: seq<byte>)
  {
    forall b: byte :: Renamed(s, b) == s || !keep(Renamed(s, b))
  }

  lemma {:induction false} NormalizeStays(keep: Oracle, s: seq<byte>, n: nat, p: nat)
    requires n > 0 && Aligned(p, n) && Unblankable(keep, s, n)
    ensures Normalize(keep, s, n, p) == s
    decreases |s| - p
  {
    hide Unblankable, Blanked;
    if p < |s| {
      assert Aligned(p + n, n);
      assert Try(keep, s, Blanked(s, p, Min(n, |s| - p))) == s by { BlockStays(keep, s, n, p); }
      NormalizeStays(keep, s, n, p + n);
    }
  }

  lemma BlockStays(keep: Oracle, s: seq<byte>, n: nat, p: nat)
    requires n > 0 && Aligned(p, n) && p < |s| && Unblankable(keep, s, n)
    ensures Try(keep, s, Blanked(s, p, Min(n, |s| - p))) == s
  {
  }

  lemma {:induction false} SweepStays(keep: Oracle, s: seq<byte>, n: nat, p: nat)
    requires n > 0 && Aligned(p, n) && Stuck(keep, s, n)
    ensures Sweep(keep, s, n, p) == s
    decreases |s| - p
  {
    if p < |s| {
      assert Aligned(p + n, n);
      SweepStays(keep, s, n, p + n);
    }
  }

  lemma {:induction false} ShrinkStays(keep: Oracle, s: seq<byte>, n: nat)
    requires n > 0 && StuckDown(keep, s, n)
    ensures Shrink(keep, s, n) == s
    decreases n
  {
    SweepStays(keep, s, n, 0);
    if n > 1 {
      ShrinkStays(keep, s, n / 2);
    }
  }

  lemma {:induction false} AlphabetStays(keep: Oracle, s: seq<byte>, b: nat)
    requires forall c: byte :: Renamed(s, c) == s || !keep(Renamed(s, c))
    ensures Alphabet(keep, s, b) == s
    decreases 256 - b
  {
    if b < 256 {
      assert Try(keep, s, Renamed(s, b)) == s;
      AlphabetStays(keep, s, b + 1);
    }
  }

  lemma {:induction false} CharactersStay(keep: Oracle, s: seq<byte>, i: nat)
    requires BlankMinimal(keep, s)
    ensures Characters(keep, s, i) == s
    decreases |s| - i
  {
    if i < |s| {
      assert Try(keep, s, s[i := ZERO]) == s;
      CharactersStay(keep, s, i + 1);
    }
  }

  lemma StagesUnchanged(keep: Oracle, s: seq<byte>)
    requires Minimized(keep, s) == s
    ensures Normalize(keep, s, SetLength(|s|), 0) == s && DeletionStage(keep, s) == s
    ensures Alphabet(keep, s, 0) == s && Characters(keep, s, 0) == s
  {
    var m := Normalize(keep, s, SetLength(|s|), 0);
    NormalizeEmbeds(keep, s, SetLength(|s|), 0);
    PassesEmbed(keep, m, true);
    EmbeddingIsLighter(m, s);
    EmbeddingIsLighter(s, m);
    var d := DeletionStage(keep, s);
    var a := Alphabet(keep, d, 0);
    var t := Characters(keep, a, 0);
    DeletionEmbeds(keep, s);
    AlphabetEmbeds(keep, d, 0);
    CharactersEmbeds(keep, a, 0);
    EmbeddingIsLighter(d, s);
    EmbeddingIsLighter(a, d);
    EmbeddingIsLighter(t, a);
    PassesStep(keep, s, true);
    if t != s {
      PassesEmbed(keep, t, false);
      EmbeddingIsLighter(Passes(keep, t, false), t);
    }
  }

  lemma NothingToRename(keep: Oracle, s: seq<byte>)
    requires Alphabet(keep, s, 0) == s
    ensures Unrenamable(keep, s)
  {
    forall b: byte | keep(Renamed(s, b)) ensures Renamed(s, b) == s {
      AlphabetSymbolBySymbol(keep, s, b);
      assert Mixed(s, s, b) == s;
    }
  }

  lemma NothingToBlank(keep: Oracle, s: seq<byte>, n: nat)
    requires n > 0 && Normalize(keep, s, n, 0) == s
    ensures Unblankable(keep, s, n)
  {
    forall p: nat | p < |s| && Aligned(p, n) && keep(Blanked(s, p, Min(n, |s| - p)))
      ensures Blanked(s, p, Min(n, |s| - p)) == s
    {
      NormalizedBlockByBlock(keep, s, n, p);
      assert s[..p] + s[p..] == s;
      BlankedAt(s, p, Min(n, |s| - p));
    }
  }

  /** The input comes out as it was if and only if no aligned block can be blanked, no aligned block can be deleted at
      any of the lengths from a sixteenth of the input down to one byte, no symbol can be replaced everywhere, and
      no byte can be blanked. So none of the stages is without effect, or tries less than it should. */
  lemma UnchangedIff(keep: Oracle, s: seq<byte>)
    ensures NextP2(|s| / 16) > 0
    ensures Minimized(keep, s) == s <==>
            && Unblankable(keep, s, Max(NextP2(|s| / 128), 4)) && StuckDown(keep, s, NextP2(|s| / 16))
            && Unrenamable(keep, s) && BlankMinimal(keep, s)
  {
    var n, k := SetLength(|s|), NextP2(|s| / 16);
    NextP2IsLeast(|s| / 16);
    hide NextP2;
    if Minimized(keep, s) == s {
      StagesUnchanged(keep, s);
      NothingToBlank(keep, s, n);
      FixedShrinkIsStuck(keep, s, k);
      NothingToRename(keep, s);
      forall j | 0 <= j < |s| && s[j] != ZERO ensures !keep(s[j := ZERO]) {
        FixedCharactersAreNeeded(keep, s, 0, j);
      }
    } else if Unblankable(keep, s, n) && StuckDown(keep, s, k) && Unrenamable(keep, s) && BlankMinimal(keep, s) {
      NormalizeStays(keep, s, n, 0);
      ShrinkStays(keep, s, k);
      AlphabetStays(keep, s, 0);
      CharactersStay(keep, s, 0);
      PassesStep(keep, s, true);
    }
  }

  /** An oracle and an input for which a byte of the result can be blanked: the early end of the second pass
      leaves out the replacement stages. */
  function Picky(): Oracle
  {
    (s: seq<byte>) => s == [97, 98, 98] || s == [97, ZERO, 98] || s == [ZERO, ZERO, 98]
  }

  lemma PickyKeepsLength(s: seq<byte>)
    requires |s| == 3
    ensures DeletionStage(Picky(), s) == s
  {
    var keep := Picky();
    assert Shrink(keep, s, 1) == Sweep(keep, s, 1, 0);
    assert !keep(Without(s, 0, 1)) && !keep(Without(s, 1, 1)) && !keep(Without(s, 2, 1));
    assert Sweep(keep, s, 1, 0) == Sweep(keep, s, 1, 1) == Sweep(keep, s, 1, 2) == Sweep(keep, s, 1, 3);
  }

  lemma PickyCharacters()
    ensures Characters(Picky(), [97, 98, 98], 0) == [97, ZERO, 98]
  {
    var keep := Picky();
    var s: seq<byte>, t: seq<byte> := [97, 98, 98], [97, ZERO, 98];
    assert s[0 := ZERO] == [ZERO, 98, 98] && s[1 := ZERO] == t && t[2 := ZERO] == [97, ZERO, ZERO];
    assert !keep([ZERO, 98, 98]) && keep(t) && !keep([97, ZERO, ZERO]);
    CharactersStep(keep, s, 0);
    CharactersStep(keep, s, 1);
    CharactersStep(keep, t, 2);
    CharactersEnd(keep, t);
    hide Characters, Picky;
  }

  lemma PickyPasses()
    ensures Passes(Picky(), [97, 98, 98], true) == [97, ZERO, 98]
  {
    var s: seq<byte>, t: seq<byte> := [97, 98, 98], [97, ZERO, 98];
    PickyKeepsLength(s);
    PickyKeepsLength(t);
    assert Alphabet(Picky(), [97, 98, 98], 0) == [97, 98, 98] by {
      var keep := Picky();
      var s: seq<byte> := [97, 98, 98];
      forall c: byte
        ensures Renamed(s, c) == s || !keep(Renamed(s, c))
      {
        var t := Renamed(s, c);
        if c == 97 {
          assert t[0] == ZERO && t[1] == 98;
        } else if c == 98 {
          assert t[2] == ZERO;
        }
      }
      AlphabetStays(keep, s, 0);
    }
    PickyCharacters();
    assert Passes(Picky(), t, false) == t;
  }

  lemma BlankMinimalityCanFail()
    ensures var s: seq<byte> := [97, 98, 98];
            && Picky()(s)
            && Minimized(Picky(), s) == [97, ZERO, 98]
            && Picky()([97, ZERO, 98][0 := ZERO])
  {
    hide Passes;
    var s: seq<byte> := [97, 98, 98];
    assert SetLength(3) == 4;
    assert Blanked(s, 0, 3) == [ZERO, ZERO, ZERO];
    assert Normalize(Picky(), s, 4, 0) == Normalize(Picky(), s, 4, 4) == s;
    PickyPasses();
    assert [97, ZERO, 98][0 := ZERO] == [ZERO, ZERO, 98];
  }
}
