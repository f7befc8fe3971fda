/** The favored entries of the queue: the best entry for every byte of the trace map, the compact traces kept
    for the holders of such a slot, and the greedy choice of entries that together cover the map. */
module QueueScore {
  import opened Bytes
  import opened BitMaps

  datatype Option<T> = None | Some(value: T)

  // ----- the greedy choice -----------------------------------------------------------------------

  ghost predicate Known<T>(slots: seq<T>, none: T, hits: map<T, set<nat>>)
  {
    forall j :: 0 <= j < |slots| && slots[j] != none ==> slots[j] in hits
  }

  /** Every holder of a slot hits it. */
  ghost predicate HoldersHit<T>(slots: seq<T>, none: T, hits: map<T, set<nat>>)
    requires Known(slots, none, hits)
  {
    forall j :: 0 <= j < |slots| && slots[j] != none ==> j in hits[slots[j]]
  }

  /** Go over the slots from i on; the holder of a slot not covered yet is picked and covers what it hits. */
  ghost function Greedy<T>(slots: seq<T>, none: T, hits: map<T, set<nat>>, i: nat, left: set<nat>): seq<T>
    requires i <= |slots| && Known(slots, none, hits)
    decreases |slots| - i
  {
    if i == |slots| then []
    else if slots[i] != none && i in left then [slots[i]] + Greedy(slots, none, hits, i + 1, left - hits[slots[i]])
    else Greedy(slots, none, hits, i + 1, left)
  }

  lemma GreedySkips<T>(slots: seq<T>, none: T, hits: map<T, set<nat>>, i: nat, left: set<nat>)
    requires i < |slots| && Known(slots, none, hits) && (slots[i] == none || i !in left)
    ensures Greedy(slots, none, hits, i, left) == Greedy(slots, none, hits, i + 1, left)
  {
  }

  ghost predicate CoveredBy<T>(picks: seq<T>, hits: map<T, set<nat>>, j: nat)
  {
    exists k :: 0 <= k < |picks| && picks[k] in hits && j in hits[picks[k]]
  }

  lemma GreedyPicks<T>(slots: seq<T>, none: T, hits: map<T, set<nat>>, i: nat, left: set<nat>)
    requires i < |slots| && Known(slots, none, hits) && slots[i] != none && i in left
    ensures Greedy(slots, none, hits, i, left) == [slots[i]] + Greedy(slots, none, hits, i + 1, left - hits[slots[i]])
  {
  }

  /** Every slot with a holder is covered by some pick. */
  lemma {:induction false} GreedyCovers<T>(slots: seq<T>, none: T, hits: map<T, set<nat>>, i: nat, left: set<nat>,
                                           j: nat)
    requires Known(slots, none, hits) && HoldersHit(slots, none, hits)
    requires i <= j < |slots| && slots[j] != none && j in left
    ensures CoveredBy(Greedy(slots, none, hits, i, left), hits, j)
    decreases |slots| - i
  {
    var picks := Greedy(slots, none, hits, i, left);
    if slots[i] != none && i in left {
      var rest := Greedy(slots, none, hits, i + 1, left - hits[slots[i]]);
      if j in hits[slots[i]] {
        assert picks[0] == slots[i];
      } else {
        GreedyCovers(slots, none, hits, i + 1, left - hits[slots[i]], j);
        var k :| 0 <= k < |rest| && rest[k] in hits && j in hits[rest[k]];
        assert picks[k + 1] == rest[k];
      }
    } else {
      GreedyCovers(slots, none, hits, i + 1, left, j);
    }
  }

  /** Every pick holds a slot that was not covered before. */
  lemma {:induction false} PickHoldsASlot<T>(slots: seq<T>, none: T, hits: map<T, set<nat>>, i: nat, left: set<nat>,
                                             k: nat)
    returns (j: nat)
    requires Known(slots, none, hits) && HoldersHit(slots, none, hits)
    requires i <= |slots| && k < |Greedy(slots, none, hits, i, left)|
    ensures var picks := Greedy(slots, none, hits, i, left);
            && i <= j < |slots| && j in left && slots[j] != none && slots[j] == picks[k]
            && !CoveredBy(picks[..k], hits, j)
    decreases |slots| - i
  {
    var picks := Greedy(slots, none, hits, i, left);
    if slots[i] != none && i in left {
      if k == 0 {
        j := i;
      } else {
        var rest := Greedy(slots, none, hits, i + 1, left - hits[slots[i]]);
        j := PickHoldsASlot(slots, none, hits, i + 1, left - hits[slots[i]], k - 1);
        assert picks[..k] == [slots[i]] + rest[..k - 1];
      }
    } else {
      j := PickHoldsASlot(slots, none, hits, i + 1, left, k);
    }
  }

  /** No entry is picked twice. */
  lemma GreedyIsDistinct<T>(slots: seq<T>, none: T, hits: map<T, set<nat>>, i: nat, left: set<nat>, k: nat, l: nat)
    requires Known(slots, none, hits) && HoldersHit(slots, none, hits)
    requires i <= |slots| && k < l < |Greedy(slots, none, hits, i, left)|
    ensures Greedy(slots, none, hits, i, left)[k] != Greedy(slots, none, hits, i, left)[l]
  {
    var picks := Greedy(slots, none, hits, i, left);
    var j := PickHoldsASlot(slots, none, hits, i, left, l);
    if picks[k] == picks[l] {
      assert picks[..l][k] == picks[l] && j in hits[picks[l]];
      assert CoveredBy(picks[..l], hits, j);
    }
  }

  ghost predicate Distinct<T>(s: seq<T>)
  {
    forall k, l :: 0 <= k < l < |s| ==> s[k] != s[l]
  }

  /** The picks for the slots before number j. */
  ghost function PicksBefore<T>(slots: seq<T>, none: T, hits: map<T, set<nat>>, left: set<nat>, j: nat): seq<T>
    requires j <= |slots| && Known(slots, none, hits)
  {
    Greedy(slots[..j], none, hits, 0, left)
  }

  /** When its turn comes, a slot is still uncovered although its holder has been picked. */
  ghost predicate Stray<T>(slots: seq<T>, none: T, hits: map<T, set<nat>>, left: set<nat>, b: nat)
    requires b < |slots| && Known(slots, none, hits)
  {
    && slots[b] != none && b in left
    && slots[b] in PicksBefore(slots, none, hits, left, b)
       && !CoveredBy(PicksBefore(slots, none, hits, left, b), hits, b)
  }

  lemma {:induction false} GreedyFrom<T>(slots: seq<T>, none: T, hits: map<T, set<nat>>, i: nat, left: set<nat>, j: nat)
    requires i <= j < |slots| && Known(slots, none, hits) && Known(slots[..j], none, hits)
    ensures var picks := Greedy(slots[..j], none, hits, i, left);
            Greedy(slots[..j + 1], none, hits, i, left) ==
            if slots[j] != none && j in left && !CoveredBy(picks, hits, j) then picks + [slots[j]] else picks
    decreases j - i
  {
    var (s, t) := (slots[..j], slots[..j + 1]);
    assert Known(t, none, hits);
    if i == j {
      assert Greedy(t, none, hits, j + 1, left) == [];
      assert Greedy(t, none, hits, j + 1, left - (if t[j] in hits then hits[t[j]] else {})) == [];
    } else if slots[i] != none && i in left {
      var left' := left - hits[slots[i]];
      GreedyFrom(slots, none, hits, i + 1, left', j);
      CoveredSplits(slots[i], Greedy(s, none, hits, i + 1, left'), hits, j);
      assert s[i] == t[i] == slots[i];
    } else {
      GreedyFrom(slots, none, hits, i + 1, left, j);
      assert s[i] == t[i] == slots[i];
    }
  }

  lemma CoveredSplits<T>(q: T, picks: seq<T>, hits: map<T, set<nat>>, j: nat)
    ensures CoveredBy([q] + picks, hits, j) <==> (q in hits && j in hits[q]) || CoveredBy(picks, hits, j)
  {
    var all := [q] + picks;
    if CoveredBy(picks, hits, j) {
      var k :| 0 <= k < |picks| && picks[k] in hits && j in hits[picks[k]];
      assert all[k + 1] == picks[k];
    }
    if q in hits && j in hits[q] {
      assert all[0] == q;
    }
  }

  /** One slot more: its holder is picked if the slot is still uncovered. */
  lemma PicksNext<T>(slots: seq<T>, none: T, hits: map<T, set<nat>>, left: set<nat>, j: nat)
    requires j < |slots| && Known(slots, none, hits)
    ensures var picks := PicksBefore(slots, none, hits, left, j);
            PicksBefore(slots, none, hits, left, j + 1) ==
            if slots[j] != none && j in left && !CoveredBy(picks, hits, j) then picks + [slots[j]] else picks
  {
    GreedyFrom(slots, none, hits, 0, left, j);
  }

  lemma {:induction false} RepeatsIffBefore<T>(slots: seq<T>, none: T, hits: map<T, set<nat>>, left: set<nat>, n: nat)
    requires n <= |slots| && Known(slots, none, hits)
    ensures !Distinct(PicksBefore(slots, none, hits, left, n)) <==>
            exists b :: 0 <= b < n && Stray(slots, none, hits, left, b)
    decreases n
  {
    if n == 0 {
      assert PicksBefore(slots, none, hits, left, 0) == [];
    } else {
      RepeatsIffBefore(slots, none, hits, left, n - 1);
      PicksNext(slots, none, hits, left, n - 1);
      DistinctMore(PicksBefore(slots, none, hits, left, n - 1), slots[n - 1]);
      hide PicksBefore, CoveredBy, Distinct;
      if b :| 0 <= b < n && Stray(slots, none, hits, left, b) {
        assert b == n - 1 || 0 <= b < n - 1;
      }
      if Stray(slots, none, hits, left, n - 1) {
        assert 0 <= n - 1 < n;
      }
    }
  }

  lemma DistinctMore<T>(s: seq<T>, x: T)
    ensures Distinct(s + [x]) <==> Distinct(s) && x !in s
  {
    var t := s + [x];
    forall k, l | 0 <= k < l < |s|
      ensures t[k] == s[k] && t[l] == s[l]
    {
    }
    if x in s {
      var k :| 0 <= k < |s| && s[k] == x;
      assert t[k] == t[|s|];
    }
  }

  /** An entry is picked twice exactly if some held slot is stray: no compact trace picked so far has it, not even
      that of its holder, which has been picked for an earlier slot. */
  lemma RepeatsIff<T>(slots: seq<T>, none: T, hits: map<T, set<nat>>, left: set<nat>)
    requires Known(slots, none, hits)
    ensures !Distinct(Greedy(slots, none, hits, 0, left)) <==>
            exists b :: 0 <= b < |slots| && Stray(slots, none, hits, left, b)
  {
    RepeatsIffBefore(slots, none, hits, left, |slots|);
    assert slots[..|slots|] == slots;
  }

  /** The compact trace of every holder has all its slots but perhaps the first one. */
  ghost predicate TracesLaterSlots<T>(slots: seq<T>, none: T, hits: map<T, set<nat>>)
    requires Known(slots, none, hits)
  {
    forall a, b :: 0 <= a < b < |slots| && slots[a] == slots[b] != none ==> b in hits[slots[b]]
  }

  /** Whatever else is to be covered, no entry is picked twice, if and only if compact traces have all held slots
      but perhaps the first of each holder. */
  lemma DistinctIff<T>(slots: seq<T>, none: T, hits: map<T, set<nat>>)
    requires Known(slots, none, hits)
    ensures (forall left :: Distinct(Greedy(slots, none, hits, 0, left))) <==> TracesLaterSlots(slots, none, hits)
  {
    if TracesLaterSlots(slots, none, hits) {
      forall left
        ensures Distinct(Greedy(slots, none, hits, 0, left))
      {
        RepeatsIff(slots, none, hits, left);
        forall b | 0 <= b < |slots|
          ensures !Stray(slots, none, hits, left, b)
        {
          NotStray(slots, none, hits, left, b);
        }
      }
    } else {
      var a, b :| 0 <= a < b < |slots| && slots[a] == slots[b] != none && b !in hits[slots[b]];
      TwoSlotsRepeat(slots, none, hits, a, b);
      assert !Distinct(Greedy(slots, none, hits, 0, {a, b}));
    }
  }

  lemma NotStray<T>(slots: seq<T>, none: T, hits: map<T, set<nat>>, left: set<nat>, b: nat)
    requires b < |slots| && Known(slots, none, hits) && TracesLaterSlots(slots, none, hits)
    ensures !Stray(slots, none, hits, left, b)
  {
    var picks := PicksBefore(slots, none, hits, left, b);
    if slots[b] in picks && slots[b] != none {
      var k :| 0 <= k < |picks| && picks[k] == slots[b];
      var a := PickedFor(slots[..b], none, hits, 0, left, k);
      assert slots[a] == slots[b];
      assert CoveredBy(picks, hits, b);
    }
  }

  lemma {:induction false} PickedFor<T>(slots: seq<T>, none: T, hits: map<T, set<nat>>, i: nat, left: set<nat>, k: nat)
    returns (j: nat)
    requires Known(slots, none, hits) && i <= |slots| && k < |Greedy(slots, none, hits, i, left)|
    ensures i <= j < |slots| && slots[j] != none && slots[j] == Greedy(slots, none, hits, i, left)[k]
    decreases |slots| - i
  {
    if slots[i] != none && i in left {
      if k == 0 {
        j := i;
      } else {
        j := PickedFor(slots, none, hits, i + 1, left - hits[slots[i]], k - 1);
      }
    } else {
      j := PickedFor(slots, none, hits, i + 1, left, k);
    }
  }

  lemma {:induction false} SkipTo<T>(slots: seq<T>, none: T, hits: map<T, set<nat>>, i: nat, left: set<nat>, j: nat)
    requires i <= j <= |slots| && Known(slots, none, hits) && forall k :: i <= k < j ==> k !in left
    ensures Greedy(slots, none, hits, i, left) == Greedy(slots, none, hits, j, left)
    decreases j - i
  {
    if i < j {
      SkipTo(slots, none, hits, i + 1, left, j);
    }
  }

  lemma TwoSlotsRepeat<T>(slots: seq<T>, none: T, hits: map<T, set<nat>>, a: nat, b: nat)
    requires Known(slots, none, hits) && a < b < |slots| && slots[a] == slots[b] != none && b !in hits[slots[b]]
    ensures !Distinct(Greedy(slots, none, hits, 0, {a, b}))
  {
    var (q, left) := (slots[a], {a, b} - hits[slots[a]]);
    var (rest, last) := (Greedy(slots, none, hits, a + 1, left), Greedy(slots, none, hits, b + 1, left - hits[q]));
    SkipTo(slots, none, hits, 0, {a, b}, a);
    SkipTo(slots, none, hits, a + 1, left, b);
    var picks := Greedy(slots, none, hits, 0, {a, b});
    assert rest == [q] + last && picks == [q] + rest;
    assert picks[0] == picks[1];
  }

  ghost function Elements<T>(s: seq<T>): set<T> { set x | x in s }

  /** How many elements of a sequence, repetitions included, are outside a set. */
  ghost function Outside<T>(s: seq<T>, f: set<T>): nat
  {
    if s == [] then 0 else Outside(s[..|s| - 1], f) + if s[|s| - 1] in f then 0 else 1
  }

  lemma {:induction false} ElementsCount<T>(s: seq<T>)
    ensures |Elements(s)| <= |s| && (|Elements(s)| == |s| <==> Distinct(s))
  {
    if s == [] {
      assert Elements(s) == {};
    } else {
      var (t, x) := (s[..|s| - 1], s[|s| - 1]);
      ElementsCount(t);
      assert s == t + [x];
      DistinctMore(t, x);
      assert Elements(s) == Elements(t) + {x};
      assert x in t <==> x in Elements(t);
    }
  }

  lemma {:induction false} OutsideCount<T>(s: seq<T>, f: set<T>)
    requires Distinct(s)
    ensures Outside(s, f) == |Elements(s) - f|
  {
    if s == [] {
      assert Elements(s) == {};
    } else {
      var (t, x) := (s[..|s| - 1], s[|s| - 1]);
      assert s == t + [x];
      DistinctMore(t, x);
      OutsideCount(t, f);
      assert Elements(t + [x]) - f == (Elements(t) - f) + (if x in f then {} else {x});
      assert x !in Elements(t);
      hide Elements, Distinct;
    }
  }

  // ----- who wins a slot -------------------------------------------------------------------------

  /** The number of slots that q holds. */
  ghost function Held<T>(slots: seq<T>, q: T): nat { multiset(slots)[q] }

  lemma HolderHolds<T>(slots: seq<T>, i: nat)
    requires i < |slots|
    ensures Held(slots, slots[i]) > 0
  {
    assert slots[i] in multiset(slots);
  }

  lemma CountAfterUpdate<T>(s: seq<T>, i: nat, q: T, e: T)
    requires i < |s|
    ensures Held(s[i := q], e) + (if s[i] == e then 1 else 0) == Held(s, e) + (if q == e then 1 else 0)
  {
  }

  lemma TwoAreTwo<T>(s: seq<T>, q: T, h: nat, j: nat)
    requires h < j < |s| && s[h] == q && s[j] == q
    ensures Held(s, q) >= 2
  {
    assert s == s[..j] + s[j..];
    assert s[..j][h] == q && s[j..][0] == q;
    assert q in multiset(s[..j]) && q in multiset(s[j..]);
  }

  /** The compact trace of the entry starts afresh: it holds nothing yet, or it holds one slot only and loses that
      to itself before it has won another, all within the first n slots. */
  ghost predicate Restarts<T>(slots: seq<T>, q: T, won: seq<bool>, n: nat)
    requires |won| == |slots| && n <= |slots|
  {
    Held(slots, q) == 0 || (Held(slots, q) == 1 && exists h :: 0 <= h < n && LosesFirst(slots, q, won, h))
  }

  ghost predicate LosesFirst<T>(slots: seq<T>, q: T, won: seq<bool>, h: nat)
    requires |won| == |slots| && h < |slots|
  {
    slots[h] == q && won[h] && forall j :: 0 <= j < h ==> !won[j]
  }

  /** The slots after the first n have been decided. */
  ghost function Decided<T>(slots: seq<T>, q: T, won: seq<bool>, n: nat): seq<T>
    requires |won| == |slots| && n <= |slots|
  {
    seq(|slots|, i requires 0 <= i < |slots| => if i < n && won[i] then q else slots[i])
  }

  lemma DecidedNext<T>(slots: seq<T>, q: T, won: seq<bool>, n: nat)
    requires |won| == |slots| && n < |slots|
    ensures var s := Decided(slots, q, won, n);
            s[n] == slots[n] && Decided(slots, q, won, n + 1) == if won[n] then s[n := q] else s
  {
    var s := Decided(slots, q, won, n);
    assert Decided(slots, q, won, n + 1) == if won[n] then s[n := q] else s;
  }

  lemma NoneDecided<T>(slots: seq<T>, q: T, won: seq<bool>)
    requires |won| == |slots|
    ensures Decided(slots, q, won, 0) == slots && (Restarts(slots, q, won, 0) <==> Held(slots, q) == 0)
  {
    assert Decided(slots, q, won, 0) == slots;
  }

  /** The compact trace is rebuilt at slot n, which q wins, exactly when that makes it start afresh or it has
      done so already. */
  lemma RestartsNext<T>(slots: seq<T>, q: T, won: seq<bool>, n: nat)
    requires |won| == |slots| && n < |slots| && won[n]
    requires Held(slots, q) <= Held(Decided(slots, q, won, n), q)
    ensures var s := Decided(slots, q, won, n);
            var rebuilt := Held(s, q) == 0 || (Held(s, q) == 1 && s[n] == q);
            && (rebuilt ==> Restarts(slots, q, won, n + 1))
            && (Restarts(slots, q, won, n + 1) && !rebuilt ==> Restarts(slots, q, won, n) && Held(s, q) > 0)
  {
    hide Held;
    var s := Decided(slots, q, won, n);
    if Held(s, q) == 1 && s[n] == q {
      forall j | 0 <= j < n
        ensures !won[j]
      {
        if won[j] {
          TwoAreTwo(s, q, j, n);
        }
      }
      assert s == slots;
      assert LosesFirst(slots, q, won, n);
    }
    if Held(slots, q) == 1 && LosesFirst(slots, q, won, n) {
      assert s == slots;
    }
  }

  lemma WinnersAt<T>(slots: seq<T>, none: T, factor: map<T, nat>, q: T, trace: seq<byte>, i: nat)
    requires |trace| == |slots| && q in factor
    requires forall i :: 0 <= i < |slots| && slots[i] != none ==> slots[i] in factor
    requires i < |slots|
    ensures Winners(slots, none, factor, q, trace)[i] ==
            (trace[i] != 0 && (slots[i] == none || factor[q] <= factor[slots[i]]))
  {
  }

  lemma RestartsIfWon<T>(slots: seq<T>, q: T, won: seq<bool>, n: nat)
    requires |won| == |slots| && n < |slots|
    ensures Restarts(slots, q, won, n) ==> Restarts(slots, q, won, n + 1)
    ensures !won[n] ==> (Restarts(slots, q, won, n + 1) <==> Restarts(slots, q, won, n))
  {
  }

  /** Which slots q takes: those it hits and that no cheaper entry holds. */
  ghost function Winners<T>(slots: seq<T>, none: T, factor: map<T, nat>, q: T, trace: seq<byte>): (won: seq<bool>)
    requires |trace| == |slots| && q in factor
    requires forall i :: 0 <= i < |slots| && slots[i] != none ==> slots[i] in factor
    ensures |won| == |slots|
  {
    seq(|slots|, i requires 0 <= i < |slots| => trace[i] != 0 && (slots[i] == none || factor[q] <= factor[slots[i]]))
  }

  /** Every slot that a scored entry hits is held by a scored entry that hits it too and is none dearer. */
  ghost predicate Cheapest<T>(slots: seq<T>, none: T, factor: map<T, nat>, support: map<T, set<nat>>)
  {
    && support.Keys <= factor.Keys
    && (forall i :: 0 <= i < |slots| && slots[i] != none ==> slots[i] in support && i in support[slots[i]])
    && forall i, e :: 0 <= i < |slots| && e in support && i in support[e] ==>
         slots[i] != none && slots[i] in factor && factor[slots[i]] <= factor[e]
  }

  /** Scoring an entry for the first time, or again after it became no dearer, keeps the cheapest holders. */
  lemma ScoringKeepsCheapest<T>(slots: seq<T>, none: T, factor: map<T, nat>, support: map<T, set<nat>>,
                                q: T, f: nat, trace: seq<byte>)
    requires |trace| == |slots| && q != none && q in factor && Cheapest(slots, none, factor, support)
    requires q in support ==> f <= factor[q] && Support(trace) == support[q]
    ensures var won := Winners(slots, none, factor[q := f], q, trace);
            Cheapest(Decided(slots, q, won, |slots|), none, factor[q := f], support[q := Support(trace)])
  {
    var factor', support' := factor[q := f], support[q := Support(trace)];
    var won := Winners(slots, none, factor', q, trace);
    var slots' := Decided(slots, q, won, |slots|);
    forall i, e | 0 <= i < |slots'| && e in support' && i in support'[e]
      ensures slots'[i] != none && slots'[i] in factor' && factor'[slots'[i]] <= factor'[e]
    {
      assert slots'[i] == if won[i] then q else slots[i];
      if e != q {
        assert i in support[e];
      }
    }
  }

  lemma StrangersHoldNothing<T>(slots: seq<T>, none: T, factor: map<T, nat>, support: map<T, set<nat>>, q: T)
    requires Cheapest(slots, none, factor, support) && q !in support && q != none
    ensures Held(slots, q) == 0
  {
    assert q !in slots;
  }

  lemma StrangerHoldsNothing<T>(slots: seq<T>, q: T)
    requires q !in slots
    ensures Held(slots, q) == 0
  {
  }

  lemma NewcomerKeepsCheapest<T>(slots: seq<T>, none: T, factor: map<T, nat>, support: map<T, set<nat>>, q: T, f: nat)
    requires Cheapest(slots, none, factor, support) && q !in factor && q !in slots
    ensures Cheapest(slots, none, factor[q := f], support)
  {
  }

  lemma Mul(a: nat, b: nat, c: nat)
    requires b <= c
    ensures a * b <= a * c
  {
  }

  /** Exactly when the compact trace of the scored entry covers all its slots afterwards: it starts afresh, or it
      covered the slots just won before. Traces with one support per entry always do. */
  lemma CoverageAfterScoring<T>(slots: seq<T>, q: T, won: seq<bool>, mini: set<nat>, support: set<nat>)
    requires |won| == |slots| && forall i :: 0 <= i < |slots| && won[i] ==> i in support
    requires forall i :: 0 <= i < |slots| && slots[i] == q ==> i in mini
    ensures var slots' := Decided(slots, q, won, |slots|);
            var mini' := if Restarts(slots, q, won, |slots|) then support else mini;
            (forall i :: 0 <= i < |slots| && slots'[i] == q ==> i in mini') <==>
            Restarts(slots, q, won, |slots|) || forall i :: 0 <= i < |slots| && won[i] ==> i in mini
  {
    var slots' := Decided(slots, q, won, |slots|);
    if Restarts(slots, q, won, |slots|) {
      forall i | 0 <= i < |slots| && slots'[i] == q
        ensures i in support
      {
        if !won[i] {
          HolderHolds(slots, i);
          var h :| 0 <= h < |slots| && LosesFirst(slots, q, won, h);
          if h < i {
            TwoAreTwo(slots, q, h, i);
          } else if i < h {
            TwoAreTwo(slots, q, i, h);
          }
        }
      }
    } else {
      forall i | 0 <= i < |slots| && won[i]
        ensures slots'[i] == q
      {
      }
    }
  }

  // ----- the queue -------------------------------------------------------------------------------

  /** The bit positions of the non-zero bytes of a trace. */
  ghost function Support(trace: seq<byte>): set<nat> { set i: nat | i < |trace| && trace[i] != 0 }

  /** Drop the counts of a trace: one bit for every byte. */
  method MinimizeBits(src: array<byte>) returns (mini: seq<bv8>)
    requires src.Length % 8 == 0
    ensures |mini| == src.Length / 8 && Bits(mini) == Support(src[..])
  {
    var dst := new bv8[src.Length / 8](_ => 0);
    for i := 0 to src.Length
      invariant Bits(dst[..]) == Support(src[..i])
    {
      assert src[..i + 1] == src[..i] + [src[i]];
      assert Support(src[..i + 1]) == Support(src[..i]) + (if src[i] != 0 then {i} else {});
      if src[i] != 0 {
        SetBit(dst[..], i);
        dst[i / 8] := dst[i / 8] | Mask(i % 8);
      }
    }
    assert src[..src.Length] == src[..];
    mini := dst[..];
  }

  /** Take the bits of a compact trace out of a map, looking only at bytes where the trace has some. */
  method RemoveBits(v: array<bv8>, mini: seq<bv8>)
    requires v.Length == |mini|
    modifies v
    ensures Bits(v[..]) == old(Bits(v[..])) - Bits(mini)
  {
    ghost var was := v[..];
    var j := |mini|;
    while j > 0
      invariant j <= |mini| && forall k :: 0 <= k < |mini| ==> v[k] == if k < j then was[k] else was[k] & !mini[k]
    {
      j := j - 1;
      if mini[j] != 0 {
        v[j] := v[j] & !mini[j];
      } else {
        assert was[j] & !(0 as bv8) == was[j];
      }
    }
    ClearBits(was, mini, v[..]);
  }

  function Full(size: nat): seq<bv8> { seq(size / 8, _ => 255) }

  lemma FullHasAll(size: nat, i: nat)
    requires size % 8 == 0 && i < size
    ensures i in Bits(Full(size))
  {
    assert Full(size)[i / 8] == 255;
    BitsAt(Full(size), i);
  }

  /** The checksum of an entry after its calibration runs: that of the first run, unless it had one. */
  ghost function FirstSum(hash: seq<byte> -> nat, sum: nat, runs: seq<seq<byte>>): nat
    decreases |runs|
  {
    if runs == [] || sum != 0 then sum else FirstSum(hash, hash(runs[0]), runs[1..])
  }

  class QueueEntry {
    var execUs: nat
    var execCksum: nat
    var len: nat
    var wasFuzzed: bool
    var favored: bool
    var traceMini: Option<seq<bv8>>
    var tcRef: nat

    constructor (us: nat, length: nat)
      ensures execUs == us && execCksum == 0 && len == length && !wasFuzzed && !favored
      ensures traceMini == None && tcRef == 0
    {
      execUs, execCksum, len, wasFuzzed, favored, traceMini, tcRef := us, 0, length, false, false, None, 0;
    }

    ghost predicate Keeps(bits: set<nat>)
      reads this`traceMini
    {
      traceMini.Some? && Bits(traceMini.value) == bits
    }

    function FavFactor(): nat
      reads this`execUs, this`len
    {
      execUs * len
    }
  }

  class Queue {
    const mapSize: nat
    const hash: seq<byte> -> nat
    const topRated: array<QueueEntry?>
    var entries: seq<QueueEntry>
    var scoreChanged: bool
    var queuedFavored: nat
    var pendingFavored: nat
    ghost var support: map<QueueEntry?, set<nat>>

    ghost predicate RefCounted(e: QueueEntry, slots: seq<QueueEntry?>)
      reads e`tcRef, e`traceMini
    {
      e.tcRef == Held(slots, e) &&
      if e.tcRef == 0 then e.traceMini == None else e.traceMini.Some? && |e.traceMini.value| == mapSize / 8
    }

    /** The number of slots an entry holds is its reference count, and the compact trace is there just when
        that is positive. */
    ghost predicate Counts()
      reads this`entries, topRated, entries`tcRef, entries`traceMini
    {
      && mapSize % 8 == 0 && topRated.Length == mapSize
      && (forall i :: 0 <= i < mapSize && topRated[i] != null ==> topRated[i] in entries)
      && forall e :: e in entries ==> RefCounted(e, topRated[..])
    }

    twostate predicate OnlyLoses(e: QueueEntry)
      reads e
    {
      e.tcRef <= old(e.tcRef) && e.traceMini == old(e.traceMini)
    }

    /** The entry takes the slot, from no one or from its holder, which may be the entry itself. */
    method WinSlot(q: QueueEntry, i: nat, traceBits: array<byte>)
      requires Counts() && q in entries && i < mapSize && traceBits.Length == mapSize
      modifies topRated, entries`tcRef, entries`traceMini
      ensures Counts() && topRated[..] == old(topRated[..])[i := q]
      ensures forall e :: e in entries && e != q && e.tcRef > 0 ==> OnlyLoses(e)
      ensures q.tcRef == old(q.tcRef) + (if old(topRated[i]) == q then 0 else 1)
      ensures if old(q.tcRef == 0 || (q.tcRef == 1 && topRated[i] == q))
              then q.Keeps(Support(traceBits[..])) else q.traceMini == old(q.traceMini)
    {
      hide Held, Bits, Support;
      ghost var was := topRated[..];
      var top := topRated[i];
      if top != null {
        assert RefCounted(top, was);
        HolderHolds(was, i);
        top.tcRef := top.tcRef - 1;
        if top.tcRef == 0 {
          top.traceMini := None;
        }
      }
      topRated[i] := q;
      q.tcRef := q.tcRef + 1;
      if q.traceMini == None {
        var mini := MinimizeBits(traceBits);
        q.traceMini := Some(mini);
      }
      assert topRated[..] == was[i := q];
      forall e | e in entries
        ensures RefCounted(e, was[i := q])
      {
        assert old(RefCounted(e, was));
        CountAfterUpdate(was, i, q, e);
      }
    }

    ghost function Factors(): map<QueueEntry?, nat>
      reads this`entries, entries`execUs, entries`len
    {
      map e: QueueEntry | e in entries :: e.FavFactor()
    }

    /** How far a scoring has come: the first n slots are decided. The map holds the reference counts and the
        compact traces from before. */
    ghost predicate Progress(q: QueueEntry, hit: set<nat>, slots: seq<QueueEntry?>, won: seq<bool>,
                             was: map<QueueEntry, (nat, Option<seq<bv8>>)>, n: nat)
      reads `entries, topRated, entries`tcRef, entries`traceMini
    {
      && Counts() && q in entries && |won| == |slots| == mapSize && n <= mapSize
      && topRated[..] == Decided(slots, q, won, n)
      && (forall e :: e in entries ==> e in was)
      && (forall e :: e in entries && e != q && e.tcRef > 0 ==> e.tcRef <= was[e].0 && e.traceMini == was[e].1)
      && Held(slots, q) <= q.tcRef
      && if Restarts(slots, q, won, n) then q.tcRef > 0 ==> q.Keeps(hit) else q.traceMini == was[q].1
    }

    method Contend(q: QueueEntry, favFactor: nat, traceBits: array<byte>, i: nat, ghost slots: seq<QueueEntry?>,
                   ghost won: seq<bool>, ghost was: map<QueueEntry, (nat, Option<seq<bv8>>)>)
      requires i < mapSize && traceBits.Length == mapSize
      requires Progress(q, Support(traceBits[..]), slots, won, was, i)
      requires won[i] <==> traceBits[i] != 0 && (slots[i] == null || favFactor <= slots[i].FavFactor())
      modifies `scoreChanged, topRated, entries`tcRef, entries`traceMini
      ensures Progress(q, Support(traceBits[..]), slots, won, was, i + 1)
      ensures scoreChanged == (old(scoreChanged) || won[i])
    {
      hide Held, Bits, Decided, Restarts, Support;
      DecidedNext(slots, q, won, i);
      RestartsIfWon(slots, q, won, i);
      assert topRated[i] == topRated[..][i] == slots[i];
      if traceBits[i] != 0 {
        if topRated[i] != null && favFactor > topRated[i].FavFactor() {
          return;
        }
        assert RefCounted(q, topRated[..]);
        RestartsNext(slots, q, won, i);
        WinSlot(q, i, traceBits);
        scoreChanged := true;
      }
    }

    /** The holders before and after, in full; of the compact traces, those of others stay as long as they hold a
        slot, and that of the entry is made anew just when it starts afresh. */
    method UpdateBitmapScore(q: QueueEntry, traceBits: array<byte>)
      requires Counts() && q in entries && traceBits.Length == mapSize
      modifies `scoreChanged, topRated, entries`tcRef, entries`traceMini
      ensures Counts()
      ensures var slots := old(topRated[..]);
              var won := Winners(slots, null, Factors(), q, traceBits[..]);
              && topRated[..] == Decided(slots, q, won, mapSize)
              && scoreChanged == (old(scoreChanged) || true in won)
              && (forall e :: e in entries && e != q && e.tcRef > 0 ==> OnlyLoses(e))
              && if Restarts(slots, q, won, mapSize) then q.tcRef > 0 ==> q.Keeps(Support(traceBits[..]))
                 else q.traceMini == old(q.traceMini)
    {
      hide Held, Bits, Decided, Restarts, Winners, Support, Progress;
      ghost var slots, factors := topRated[..], Factors();
      ghost var won := Winners(slots, null, factors, q, traceBits[..]);
      ghost var was := map e | e in entries :: (e.tcRef, e.traceMini);
      var favFactor := q.FavFactor();
      StartProgress(q, Support(traceBits[..]), slots, won, was);
      for i := 0 to mapSize
        invariant Progress(q, Support(traceBits[..]), slots, won, was, i)
        invariant scoreChanged == (old(scoreChanged) || true in won[..i])
      {
        assert won[..i + 1] == won[..i] + [won[i]];
        WinnersAt(slots, null, factors, q, traceBits[..], i);
        Contend(q, favFactor, traceBits, i, slots, won, was);
      }
      assert won[..mapSize] == won;
      EndProgress(q, Support(traceBits[..]), slots, won, was);
    }

    lemma StartProgress(q: QueueEntry, hit: set<nat>, slots: seq<QueueEntry?>, won: seq<bool>,
                        was: map<QueueEntry, (nat, Option<seq<bv8>>)>)
      requires Counts() && q in entries && |won| == |slots| && slots == topRated[..]
      requires forall e :: e in entries ==> e in was && was[e] == (e.tcRef, e.traceMini)
      ensures Progress(q, hit, slots, won, was, 0)
    {
      hide Held, Decided, Restarts;
      NoneDecided(slots, q, won);
      assert RefCounted(q, slots);
    }

    lemma EndProgress(q: QueueEntry, hit: set<nat>, slots: seq<QueueEntry?>, won: seq<bool>,
                      was: map<QueueEntry, (nat, Option<seq<bv8>>)>)
      requires Progress(q, hit, slots, won, was, mapSize)
      ensures Counts() && |won| == |slots| == mapSize && topRated[..] == Decided(slots, q, won, mapSize)
      ensures forall e :: e in entries ==> e in was
      ensures forall e :: e in entries && e != q && e.tcRef > 0 ==> e.tcRef <= was[e].0 && e.traceMini == was[e].1
      ensures if Restarts(slots, q, won, mapSize) then q.tcRef > 0 ==> q.Keeps(hit) else q.traceMini == was[q].1
    {
    }

    ghost predicate Compact(e: QueueEntry)
      reads `support, e`tcRef, e`traceMini
    {
      e.tcRef > 0 ==> e in support && e.Keeps(support[e])
    }

    /** What holds between operations. The map from scored entries to the bytes their traces hit is kept for the
        statements only. */
    ghost predicate Valid()
      reads this, topRated, entries`execUs, entries`len, entries`wasFuzzed, entries`favored, entries`traceMini,
            entries`tcRef
    {
      && Scored(Factors())
      && queuedFavored == |Favored()| && pendingFavored == |Pending()|
    }

    ghost function Favored(): set<QueueEntry>
      reads `entries, entries`favored
    {
      set e | e in entries && e.favored
    }

    ghost function Pending(): set<QueueEntry>
      reads `entries, entries`favored, entries`wasFuzzed
    {
      set e | e in entries && e.favored && !e.wasFuzzed
    }

    constructor (size: nat, sum: seq<byte> -> nat)
      requires size % 8 == 0
      ensures Valid() && mapSize == size && hash == sum && entries == [] && fresh(topRated) && support == map[]
      ensures forall i :: 0 <= i < size ==> topRated[i] == null
    {
      mapSize, hash := size, sum;
      topRated := new QueueEntry?[size](_ => null);
      entries, scoreChanged, queuedFavored, pendingFavored, support := [], false, 0, 0, map[];
    }

    method AddToQueue(us: nat, length: nat) returns (q: QueueEntry)
      requires Valid()
      modifies `entries
      ensures Valid() && fresh(q) && entries == old(entries) + [q]
      ensures q.execUs == us && q.execCksum == 0 && q.len == length && q !in support
    {
      hide Held, Cheapest, Bits;
      ghost var slots, factors := topRated[..], Factors();
      q := new QueueEntry(us, length);
      assert q !in slots;
      StrangerHoldsNothing(slots, q);
      NewcomerKeepsCheapest(slots, null, factors, support, q, us * length);
      entries := entries + [q];
      assert Factors() == factors[q := us * length];
      assert Favored() == old(Favored()) && Pending() == old(Pending());
      forall e | e in entries
        ensures RefCounted(e, slots) && Compact(e)
      {
        if e != q {
          assert e in old(entries);
          assert old(RefCounted(e, slots)) && old(Compact(e));
        }
      }
    }

    ghost predicate Scored(factors: map<QueueEntry?, nat>)
      reads `entries, `support, topRated, entries`tcRef, entries`traceMini
    {
      && Counts() && (forall e :: e in entries ==> e in factors)
      && (forall e :: e in entries ==> Compact(e))
      && Cheapest(topRated[..], null, factors, support)
    }

    /** Score the entry, for the first time or after it became no dearer, with a trace that hits what its earlier
        traces hit. The factors are those before the entry changed. */
    method Score(q: QueueEntry, traceBits: array<byte>, ghost factors: map<QueueEntry?, nat>)
      requires Scored(factors) && q in entries && Factors() == factors[q := q.FavFactor()]
      requires traceBits.Length == mapSize
      requires q in support ==> q.FavFactor() <= factors[q] && Support(traceBits[..]) == support[q]
      modifies `support, `scoreChanged, topRated, entries`tcRef, entries`traceMini
      ensures Scored(Factors()) && support == old(support)[q := Support(traceBits[..])]
      ensures topRated[..] == Decided(old(topRated[..]), q,
                                      Winners(old(topRated[..]), null, Factors(), q, traceBits[..]), mapSize)
    {
      hide Held, Support, Winners, Decided, Cheapest, Restarts, Bits, RefCounted, QueueEntry.Keeps;
      ghost var slots, hit := topRated[..], Support(traceBits[..]);
      ghost var won := Winners(slots, null, Factors(), q, traceBits[..]);
      ScoringKeepsCheapest(slots, null, factors, support, q, q.FavFactor(), traceBits[..]);
      SettledStarts(slots, q, won, factors);
      UpdateBitmapScore(q, traceBits);
      support := support[q := hit];
      StillCompact(q);
    }

    /** Nobody's compact trace but that of the scored entry is made anew. */
    twostate lemma StillCompact(q: QueueEntry)
      requires old(forall e :: e in entries ==> Compact(e)) && entries == old(entries)
      requires support.Keys == old(support).Keys + {q}
      requires forall e :: e in old(support) && e != q ==> support[e] == old(support)[e]
      requires forall e :: e in entries && e != q && e.tcRef > 0 ==> OnlyLoses(e)
      requires Compact(q)
      ensures forall e :: e in entries ==> Compact(e)
    {
      forall e | e in entries
        ensures Compact(e)
      {
        assert old(Compact(e));
      }
    }

    /** An entry that keeps its compact trace has one that is right. */
    lemma SettledStarts(slots: seq<QueueEntry?>, q: QueueEntry, won: seq<bool>, factors: map<QueueEntry?, nat>)
      requires Scored(factors) && q in entries && slots == topRated[..] && |won| == |slots|
      ensures !Restarts(slots, q, won, mapSize) ==> q in support && q.Keeps(support[q])
    {
      hide Held;
      if q !in support {
        StrangersHoldNothing(slots, null, factors, support, q);
      }
      assert RefCounted(q, slots) && Compact(q);
    }

    /** Time and length multiplied decide who is cheaper: every held slot is with an entry whose product is none
        larger than that of any scored entry that hits the slot. */
    lemma HoldersAreCheapest(i: nat, e: QueueEntry)
      requires Valid() && i < mapSize && e in entries && e in support && i in support[e]
      ensures var h := topRated[i];
              h != null && h in entries && h in support && i in support[h] && h.execUs * h.len <= e.execUs * e.len
    {
      assert topRated[..][i] == topRated[i];
      assert e in Factors() && topRated[i] in Factors();
    }

    /** An entry wins a slot that it hits exactly if nobody holds that or the product of its time and length is not
        larger than the holder's. */
    lemma WinsBySmallerProduct(slots: seq<QueueEntry?>, q: QueueEntry, trace: seq<byte>, i: nat)
      requires q in entries && |trace| == |slots| && i < |slots|
      requires forall j :: 0 <= j < |slots| && slots[j] != null ==> slots[j] in entries
      ensures var h := slots[i];
              Winners(slots, null, Factors(), q, trace)[i] <==>
              trace[i] != 0 && (h == null || q.execUs * q.len <= h.execUs * h.len)
    {
    }

    /** The calibration runs keep the checksum of the first one and the trace of the last one. */
    method Calibrate(q: QueueEntry, runs: seq<seq<byte>>) returns (traceBits: array<byte>)
      requires runs != [] && forall k :: 0 <= k < |runs| ==> |runs[k]| == mapSize
      modifies q`execCksum
      ensures fresh(traceBits) && traceBits[..] == runs[|runs| - 1]
      ensures q.execCksum == FirstSum(hash, old(q.execCksum), runs)
    {
      traceBits := new byte[mapSize];
      assert runs[0..] == runs;
      for k := 0 to |runs|
        invariant FirstSum(hash, q.execCksum, runs[k..]) == FirstSum(hash, old(q.execCksum), runs)
        invariant k > 0 ==> traceBits[..] == runs[k - 1]
      {
        assert runs[k..][1..] == runs[k + 1..];
        forall i | 0 <= i < mapSize {
          traceBits[i] := runs[k][i];
        }
        assert traceBits[..] == runs[k];
        var cksum := hash(traceBits[..]);
        if q.execCksum != cksum && q.execCksum == 0 {
          q.execCksum := cksum;
        }
      }
      assert runs[|runs|..] == [];
    }

    /** A calibration ends with the first scoring of the entry, by its last run. */
    method Calibrated(q: QueueEntry, us: nat, runs: seq<seq<byte>>)
      requires Valid() && q in entries && q !in support
      requires runs != [] && forall k :: 0 <= k < |runs| ==> |runs[k]| == mapSize
      modifies q`execUs, q`execCksum, `support, `scoreChanged, topRated, entries`tcRef, entries`traceMini
      ensures Valid() && q.execUs == us && q.execCksum == FirstSum(hash, old(q.execCksum), runs)
      ensures var slots := old(topRated[..]);
              var last := runs[|runs| - 1];
              && support == old(support)[q := Support(last)]
              && topRated[..] == Decided(slots, q, Winners(slots, null, Factors(), q, last), mapSize)
    {
      hide *;
      var traceBits := Calibrate(q, runs);
      ScoreNew(q, us, traceBits);
    }

    method ScoreNew(q: QueueEntry, us: nat, traceBits: array<byte>)
      requires Valid() && q in entries && q !in support && traceBits.Length == mapSize
      modifies q`execUs, `support, `scoreChanged, topRated, entries`tcRef, entries`traceMini
      ensures Valid() && q.execUs == us
      ensures var slots := old(topRated[..]);
              var last := traceBits[..];
              && support == old(support)[q := Support(last)]
              && topRated[..] == Decided(slots, q, Winners(slots, null, Factors(), q, last), mapSize)
    {
      hide Scored, Winners, Decided, Support;
      ghost var factors := Factors();
      q.execUs := us;
      assert Factors() == factors[q := q.FavFactor()];
      Score(q, traceBits, factors);
    }

    /** The end of a trimming that removed something, which takes a run with the checksum of the entry: it is scored
        again, smaller. Runs with that checksum hit the same bytes. */
    method Trimmed(q: QueueEntry, length: nat, traceBits: array<byte>) returns (scored: bool)
      requires Valid() && q in entries && traceBits.Length == mapSize && q in support && length <= q.len
      requires hash(traceBits[..]) == q.execCksum ==> Support(traceBits[..]) == support[q]
      modifies q`len, `support, `scoreChanged, topRated, entries`tcRef, entries`traceMini
      ensures Valid() && support == old(support) && (scored <==> hash(traceBits[..]) == q.execCksum)
      ensures var slots := old(topRated[..]);
              if scored
              then q.len == length
                   && topRated[..] == Decided(slots, q, Winners(slots, null, Factors(), q, traceBits[..]), mapSize)
              else q.len == old(q.len) && topRated[..] == slots
    {
      hide Scored, Winners, Decided, Support;
      scored := hash(traceBits[..]) == q.execCksum;
      if scored {
        ghost var factors := Factors();
        assert support[q := support[q]] == support;
        Mul(q.execUs, length, q.len);
        q.len := length;
        assert Factors() == factors[q := q.FavFactor()];
        Score(q, traceBits, factors);
      }
    }

    /** What the compact traces hold. */
    ghost function Minis(): map<QueueEntry?, set<nat>>
      reads `entries, entries`traceMini
    {
      map e: QueueEntry | e in entries && e.traceMini.Some? :: Bits(e.traceMini.value)
    }

    ghost function Picks(): seq<QueueEntry?>
      requires Known(topRated[..], null, Minis())
      reads `entries, topRated, entries`traceMini
    {
      Greedy(topRated[..], null, Minis(), 0, Bits(Full(mapSize)))
    }

    lemma HoldersKnown()
      requires Counts()
      ensures Known(topRated[..], null, Minis())
      ensures forall i :: 0 <= i < mapSize && topRated[i] != null ==> topRated[i] in Minis()
    {
      hide Bits, Held;
      forall i | 0 <= i < mapSize && topRated[i] != null
        ensures topRated[i] in Minis() && topRated[..][i] == topRated[i]
      {
        HolderTraces(i);
      }
    }

    lemma HolderTraces(i: nat)
      requires Counts() && i < mapSize && topRated[i] != null
      ensures topRated[i] in entries && topRated[i].traceMini.Some? && |topRated[i].traceMini.value| == mapSize / 8
    {
      assert RefCounted(topRated[i], topRated[..]);
      HolderHolds(topRated[..], i);
    }

    ghost predicate Covers(i: nat)
      reads this, entries
    {
      exists e :: e in entries && e.favored && e in support && i in support[e]
    }

    ghost function Fuzzed(): set<QueueEntry?>
      reads `entries, entries`wasFuzzed
    {
      set e: QueueEntry | e in entries && e.wasFuzzed
    }

    method ClearFavored()
      modifies entries`favored
      ensures forall e :: e in entries ==> !e.favored
    {
      for k := 0 to |entries|
        invariant forall j :: 0 <= j < k ==> !entries[j].favored
      {
        entries[k].favored := false;
      }
    }

    /** How far culling has come: the picks so far are the favored ones and are counted, and those still to come
        are told by the bits left in the map. */
    ghost predicate Culling(picked: seq<QueueEntry?>, left: set<nat>, i: nat)
      reads this, topRated, entries
    {
      && Counts() && i <= mapSize && Known(topRated[..], null, Minis())
      && Picks() == picked + Greedy(topRated[..], null, Minis(), i, left)
      && (forall e :: e in entries ==> (e.favored <==> e in picked))
      && queuedFavored == |picked| && pendingFavored == Outside(picked, Fuzzed())
    }

    method StartCulling() returns (tempV: array<bv8>)
      requires Counts()
      modifies `queuedFavored, `pendingFavored, entries`favored
      ensures fresh(tempV) && tempV.Length == mapSize / 8 && Culling([], Bits(tempV[..]), 0)
    {
      hide Greedy, Bits;
      tempV := new bv8[mapSize / 8](_ => 255);
      assert tempV[..] == Full(mapSize);
      queuedFavored, pendingFavored := 0, 0;
      ClearFavored();
      HoldersKnown();
    }

    method Favor(e: QueueEntry, ghost picked: seq<QueueEntry?>)
      requires e in entries && (forall o :: o in entries ==> (o.favored <==> o in picked))
      requires queuedFavored == |picked| && pendingFavored == Outside(picked, Fuzzed())
      modifies `queuedFavored, `pendingFavored, e`favored
      ensures forall o :: o in entries ==> (o.favored <==> o in picked + [e])
      ensures queuedFavored == |picked + [e]| && pendingFavored == Outside(picked + [e], Fuzzed())
    {
      assert (picked + [e])[..|picked|] == picked;
      e.favored := true;
      queuedFavored := queuedFavored + 1;
      if !e.wasFuzzed {
        pendingFavored := pendingFavored + 1;
      }
    }

    method CullSlot(i: nat, tempV: array<bv8>, ghost picked: seq<QueueEntry?>) returns (ghost picked': seq<QueueEntry?>)
      requires Culling(picked, Bits(tempV[..]), i) && i < mapSize && tempV.Length == mapSize / 8
      modifies tempV, `queuedFavored, `pendingFavored, entries`favored
      ensures Culling(picked', Bits(tempV[..]), i + 1)
    {
      hide Greedy, Bits, Held, Counts, Outside;
      picked' := picked;
      SlotsAre();
      var top := topRated[i];
      ghost var left, slots, minis := Bits(tempV[..]), topRated[..], Minis();
      BitsAt(tempV[..], i);
      if top != null && Has(tempV[i / 8], i % 8) {
        HolderTraces(i);
        GreedyPicks(slots, null, minis, i, left);
        RemoveBits(tempV, top.traceMini.value);
        Favor(top, picked);
        picked' := picked + [top];
        assert Minis() == minis;
        assert Picks() == picked + [top] + Greedy(slots, null, minis, i + 1, left - minis[top]);
      } else {
        GreedySkips(slots, null, minis, i, left);
      }
    }

    lemma SlotsAre()
      requires Counts()
      ensures topRated.Length == mapSize && mapSize % 8 == 0
      ensures forall i :: 0 <= i < mapSize && topRated[i] != null ==> topRated[i] in entries
    {
    }

    /** In a valid queue the compact traces of holders are what they were scored with, and hit what they hold. */
    lemma ValidHoldersHit()
      requires Scored(Factors())
      ensures Known(topRated[..], null, Minis()) && HoldersHit(topRated[..], null, Minis())
      ensures forall i :: 0 <= i < mapSize && topRated[i] != null ==>
                topRated[i] in support && Minis()[topRated[i]] == support[topRated[i]]
    {
      HoldersKnown();
      forall i | 0 <= i < mapSize && topRated[i] != null
        ensures topRated[i] in support && Minis()[topRated[i]] == support[topRated[i]] && i in support[topRated[i]]
      {
        assert topRated[..][i] == topRated[i];
        assert Compact(topRated[i]) && RefCounted(topRated[i], topRated[..]);
        HolderHolds(topRated[..], i);
      }
    }

    lemma FirstHolder(q: QueueEntry, slots: seq<QueueEntry?>)
      requires Valid() && |slots| > 0 && topRated[..] == slots[0 := q]
      ensures Counts() && q in support && q.Keeps(support[q])
    {
      HolderHolds(slots[0 := q], 0);
      assert topRated[0] == q && RefCounted(q, topRated[..]) && Compact(q);
    }

    lemma ValidPicksDistinct()
      requires Scored(Factors()) && Known(topRated[..], null, Minis())
      ensures Distinct(Picks())
    {
      ValidHoldersHit();
      hide Greedy, Bits, Scored;
      var picks := Picks();
      forall k, l | 0 <= k < l < |picks|
        ensures picks[k] != picks[l]
      {
        GreedyIsDistinct(topRated[..], null, Minis(), 0, Bits(Full(mapSize)), k, l);
      }
    }

    /** The counters are those of a culling that is over: they count every pick, and hence the favored entries
        exactly if no entry was picked twice. */
    lemma EndCulling(picked: seq<QueueEntry?>, left: set<nat>)
      requires Culling(picked, left, mapSize)
      ensures Picks() == picked && (queuedFavored == |Favored()| <==> Distinct(Picks()))
      ensures Distinct(Picks()) ==> pendingFavored == |Pending()|
    {
      SlotsAre();
      assert Picks() == picked;
      hide Greedy, Bits, Counts, Outside, Distinct;
      forall k | 0 <= k < |picked|
        ensures picked[k] != null && picked[k] in entries
      {
        assert Picks()[k] != null && Picks()[k] in entries by {
          var j := PickedFor(topRated[..], null, Minis(), 0, Bits(Full(mapSize)), k);
        }
      }
      assert Favored() == Elements(picked);
      assert Pending() == Elements(picked) - Fuzzed();
      ElementsCount(picked);
      if Distinct(picked) {
        OutsideCount(picked, Fuzzed());
      }
    }

    /** The state after the last slot. */
    ghost predicate Culled()
      requires Known(topRated[..], null, Minis())
      reads this, topRated, entries
    {
      && (forall e :: e in entries ==> (e.favored <==> e in Picks()))
      && queuedFavored == |Picks()| && pendingFavored == Outside(Picks(), Fuzzed())
      && (queuedFavored == |Favored()| <==> Distinct(Picks()))
      && (Distinct(Picks()) ==> pendingFavored == |Pending()|)
    }

    method CullSlots()
      requires Counts()
      modifies `queuedFavored, `pendingFavored, entries`favored
      ensures Counts() && Known(topRated[..], null, Minis()) && Culled()
    {
      hide *;
      ghost var picked := [];
      var tempV := StartCulling();
      for i := 0 to mapSize
        invariant Culling(picked, Bits(tempV[..]), i) && tempV.Length == mapSize / 8
      {
        picked := CullSlot(i, tempV, picked);
      }
      EndCulling(picked, Bits(tempV[..]));
      CulledNow(picked, Bits(tempV[..]));
    }

    lemma CulledNow(picked: seq<QueueEntry?>, left: set<nat>)
      requires Culling(picked, left, mapSize) && Picks() == picked
               && (queuedFavored == |Favored()| <==> Distinct(Picks()))
      requires Distinct(Picks()) ==> pendingFavored == |Pending()|
      ensures Counts() && Known(topRated[..], null, Minis()) && Culled()
    {
    }

    lemma CulledValid()
      requires Scored(Factors()) && Known(topRated[..], null, Minis()) && Culled()
      ensures Valid() && forall i :: 0 <= i < mapSize && topRated[i] != null ==> Covers(i)
    {
      ValidPicksDistinct();
      SlotsAre();
      forall i | 0 <= i < mapSize && topRated[i] != null
        ensures Covers(i)
      {
        assert Covers(i) by {
          ValidHoldersHit();
          var picks := Picks();
          FullHasAll(mapSize, i);
          GreedyCovers(topRated[..], null, Minis(), 0, Bits(Full(mapSize)), i);
          var k :| 0 <= k < |picks| && picks[k] in Minis() && i in Minis()[picks[k]];
          var j := PickedFor(topRated[..], null, Minis(), 0, Bits(Full(mapSize)), k);
          assert picks[k] == topRated[j] && topRated[j] in entries;
        }
      }
    }

    /** Unless nothing changed since the last time: exactly the greedy picks are favored, and every pick is counted,
        so that the counters are right if and only if no entry was picked twice. A valid queue stays valid, with
        exact counters, and its favored entries cover every held slot. */
    method CullQueue()
      requires Counts()
      modifies `scoreChanged, `queuedFavored, `pendingFavored, entries`favored
      ensures Counts() && !scoreChanged && Known(topRated[..], null, Minis())
      ensures !old(scoreChanged) ==>
                queuedFavored == old(queuedFavored) && pendingFavored == old(pendingFavored)
                && forall e :: e in entries ==> e.favored == old(e.favored)
      ensures old(scoreChanged) ==>
                && (forall e :: e in entries ==> (e.favored <==> e in Picks()))
                && queuedFavored == |Picks()| && pendingFavored == Outside(Picks(), Fuzzed())
                && (queuedFavored == |Favored()| <==> Distinct(Picks()))
      ensures old(Valid()) ==> Valid()
      ensures old(Valid()) && old(scoreChanged) ==> forall i :: 0 <= i < mapSize && topRated[i] != null ==> Covers(i)
    {
      if scoreChanged {
        CullChanged();
      } else {
        HoldersKnown();
      }
    }

    method CullChanged()
      requires Counts()
      modifies `scoreChanged, `queuedFavored, `pendingFavored, entries`favored
      ensures Counts() && !scoreChanged && Known(topRated[..], null, Minis()) && Culled()
      ensures old(Valid()) ==> Valid() && forall i :: 0 <= i < mapSize && topRated[i] != null ==> Covers(i)
    {
      hide Scored, Counts, Known, Outside, Distinct, Culled, Picks, Minis, Favored, Fuzzed, Pending, Factors, Covers;
      scoreChanged := false;
      CullSlots();
      if old(Valid()) {
        CulledValid();
      }
    }

    /** The first time an entry was fuzzed to the end; a favored one is then no longer pending. */
    method MarkFuzzed(q: QueueEntry)
      requires Valid() && q in entries
      modifies `pendingFavored, q`wasFuzzed
      ensures Valid() && q.wasFuzzed
      ensures pendingFavored == old(pendingFavored) - (if old(q.favored && !q.wasFuzzed) then 1 else 0)
    {
      hide Scored;
      if !q.wasFuzzed {
        ghost var pending := Pending();
        q.wasFuzzed := true;
        if q.favored {
          assert q in pending;
          pendingFavored := pendingFavored - 1;
        }
        assert Pending() == pending - {q};
      }
    }
  }

  // ----- a queue in which an entry is picked twice -----------------------------------------------

  /** A trace that hits one byte. */
  function OneHit(i: nat): seq<byte>
    requires i < 8
  {
    seq(8, j => if j == i then 1 else 0)
  }

  method NewTrace(i: nat) returns (trace: array<byte>)
    requires i < 8
    ensures fresh(trace) && trace.Length == 8 && trace[..] == OneHit(i) && Support(trace[..]) == {i}
  {
    trace := new byte[8](j => if j == i then 1 else 0);
    assert trace[..] == OneHit(i);
    assert OneHit(i)[i] == 1;
  }

  ghost function NoSlots<T>(none: T): seq<T> { seq(8, _ => none) }

  /** What two scorings leave, when the first trace hits byte 0 and the second one byte 1. */
  lemma TwoScorings<T>(none: T, q: T, f: map<T, nat>, g: map<T, nat>)
    requires q != none && q in f && q in g
    ensures Decided(NoSlots(none), q, Winners(NoSlots(none), none, f, q, OneHit(0)), 8) == NoSlots(none)[0 := q]
    ensures var (slots, won) := (NoSlots(none)[0 := q], Winners(NoSlots(none)[0 := q], none, g, q, OneHit(1)));
            && Decided(slots, q, won, 8) == slots[1 := q] && !Restarts(slots, q, won, 8) && won[1]
  {
    var slots := NoSlots(none)[0 := q];
    HolderHolds(slots, 0);
    assert slots[1..] == seq(7, _ => none);
  }

  lemma PicksTwice<T>(none: T, q: T, hits: map<T, set<nat>>, left: set<nat>)
    requires q != none && q in hits && hits[q] == {0} && 0 in left && 1 in left
    ensures var slots := NoSlots(none)[0 := q][1 := q];
            Known(slots, none, hits) && Greedy(slots, none, hits, 0, left) == [q, q]
  {
    var slots := NoSlots(none)[0 := q][1 := q];
    assert Known(slots, none, hits);
    var (two, three) := (left - hits[q], left - hits[q] - hits[q]);
    AllSkipped(slots, none, hits, 2, three);
    assert Greedy(slots, none, hits, 1, two) == [q] + Greedy(slots, none, hits, 2, three);
    assert Greedy(slots, none, hits, 0, left) == [q] + Greedy(slots, none, hits, 1, two);
  }

  lemma {:induction false} AllSkipped<T>(slots: seq<T>, none: T, hits: map<T, set<nat>>, i: nat, left: set<nat>)
    requires i <= |slots| && Known(slots, none, hits) && forall j :: i <= j < |slots| ==> slots[j] == none
    ensures Greedy(slots, none, hits, i, left) == []
    decreases |slots| - i
  {
    if i < |slots| {
      AllSkipped(slots, none, hits, i + 1, left);
    }
  }

  /** A queue of one entry, whose first calibration run hits byte 1 and whose last one hits byte 0. */
  method ScoredOnce(us: nat, length: nat, sum: seq<byte> -> nat, more: nat) returns (queue: Queue, q: QueueEntry)
    requires sum(OneHit(1)) != 0
    ensures fresh(queue) && fresh(queue.topRated) && fresh(q) && queue.Counts() && queue.mapSize == 8
    ensures queue.hash == sum && q.execCksum == sum(OneHit(1))
    ensures queue.entries == [q] && queue.topRated[..] == NoSlots(null)[0 := q] && q.Keeps({0})
  {
    queue := new Queue(8, sum);
    q := queue.AddToQueue(us, length);
    assert queue.topRated[..] == NoSlots(null);
    hide *;
    ScoreFirst(queue, q, us, more);
  }

  method ScoreFirst(queue: Queue, q: QueueEntry, us: nat, more: nat)
    requires queue.Valid() && queue.mapSize == 8 && queue.entries == [q] && q !in queue.support
    requires queue.topRated[..] == NoSlots(null) && q.execCksum == 0 && queue.hash(OneHit(1)) != 0
    modifies q`execUs, q`execCksum, queue`support, queue`scoreChanged, queue.topRated
    modifies queue.entries`tcRef, queue.entries`traceMini
    ensures queue.Counts() && queue.topRated[..] == NoSlots(null)[0 := q] && q.Keeps({0})
    ensures q.execCksum == queue.hash(OneHit(1))
  {
    var runs := [OneHit(1)] + seq(more, _ => OneHit(1)) + [OneHit(0)];
    assert runs[0] == OneHit(1) && runs[|runs| - 1] == OneHit(0);
    assert FirstSum(queue.hash, 0, runs) == FirstSum(queue.hash, queue.hash(OneHit(1)), runs[1..]);
    assert Support(OneHit(0)) == {0} by {
      assert OneHit(0)[0] == 1;
    }
    hide Winners, Decided, Restarts, OneHit, NoSlots, Support, Bits, Held, Queue.Valid, Queue.Counts, QueueEntry.Keeps;
    queue.Calibrated(q, us, runs);
    TwoScorings(null, q, queue.Factors(), queue.Factors());
    queue.FirstHolder(q, NoSlots(null));
  }

  /** The second scoring gives the entry another slot and leaves its compact trace alone. */
  method ScoreElsewhere(queue: Queue, q: QueueEntry, shorter: nat) returns (scored: bool)
    requires queue.Counts() && queue.mapSize == 8 && queue.entries == [q] && q.Keeps({0})
    requires queue.topRated[..] == NoSlots(null)[0 := q] && q.execCksum == queue.hash(OneHit(1))
    modifies q`len, queue`scoreChanged, queue.topRated, queue.entries`tcRef, queue.entries`traceMini
    ensures scored && queue.scoreChanged && q.len == shorter
    ensures queue.Counts() && queue.topRated[..] == NoSlots(null)[0 := q][1 := q] && q.Keeps({0})
  {
    ghost var factors := queue.Factors();
    var trace := NewTrace(1);
    scored := queue.hash(trace[..]) == q.execCksum;
    if scored {
      q.len := shorter;
      assert q in factors && q in queue.Factors();
      hide *;
      TwoScorings(null, q, factors, queue.Factors());
      queue.UpdateBitmapScore(q, trace);
    }
  }

  /** A target that does not always do the same: the first calibration run of an entry hits byte 1, and gives it its
      checksum; the last one hits byte 0, and the entry is scored by that. A run of the trimmed test case does what
      the first one did, so its checksum is right and the entry is scored again, by byte 1. Its compact trace stays
      what it was, so that culling picks it for both bytes and counts it twice. */
  method ScoreAgainElsewhere(us: nat, length: nat, shorter: nat, sum: seq<byte> -> nat, more: nat)
    returns (queue: Queue, q: QueueEntry)
    requires shorter <= length && sum(OneHit(1)) != 0
    ensures fresh(queue) && queue.hash == sum && queue.Counts() && Known(queue.topRated[..], null, queue.Minis())
    ensures queue.entries == [q] && queue.Picks() == [q, q] && queue.queuedFavored == 2 && queue.Favored() == {q}
  {
    queue, q := ScoredOnce(us, length, sum, more);
    hide NoSlots, Bits, Held, Greedy, Distinct, Outside;
    var scored := ScoreElsewhere(queue, q, shorter);
    queue.CullQueue();
    FullHasAll(8, 0);
    FullHasAll(8, 1);
    PicksTwice(null, q, queue.Minis(), Bits(Full(8)));
  }
}
