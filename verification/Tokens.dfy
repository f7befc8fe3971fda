/** The tokens of the fuzzer: how they are ordered, chosen for a queue entry, and learned from what runs. */
module Tokens {
  import opened Bytes
  import opened Reachable

  const MAX_DICT_FILE := 128

  const MIN_AUTO_EXTRA := 1

  const MAX_AUTO_EXTRA := 56

  const USE_AUTO_EXTRAS := 50

  const MAX_AUTO_EXTRAS := 500

  const INTERESTING_16: seq<int> := [-32768, -129, 128, 255, 256, 512, 1000, 1024, 4096, 32767]

  const INTERESTING_32: seq<int> := [-2147483648, -100663046, -32769, 32768, 65535, 65536, 100663045, 2147483647]

  datatype Token = Token(data: seq<byte>, hits: int, index: int)

  ghost predicate ByLength(ts: seq<Token>)
  {
    forall j, k :: 0 <= j <= k < |ts| ==> |ts[j].data| <= |ts[k].data|
  }

  ghost predicate Proper(ts: seq<Token>)
  {
    forall j :: 0 <= j < |ts| ==> 1 <= |ts[j].data| <= MAX_DICT_FILE
  }

  // ----- sorting ---------------------------------------------------------------------------------

  ghost predicate SortedBy(ts: seq<Token>, key: Token -> int)
  {
    forall j, k :: 0 <= j <= k < |ts| ==> key(ts[j]) <= key(ts[k])
  }

  function Insert(ts: seq<Token>, t: Token, key: Token -> int): seq<Token>
  {
    if ts == [] || key(t) < key(ts[0]) then [t] + ts else [ts[0]] + Insert(ts[1..], t, key)
  }

  lemma {:induction false} InsertKeepsSorted(ts: seq<Token>, t: Token, key: Token -> int)
    requires SortedBy(ts, key)
    ensures SortedBy(Insert(ts, t, key), key)
    ensures multiset(Insert(ts, t, key)) == multiset(ts) + multiset{t} && |Insert(ts, t, key)| == |ts| + 1
  {
    if ts == [] || key(t) < key(ts[0]) {
    } else {
      InsertKeepsSorted(ts[1..], t, key);
      assert ts == [ts[0]] + ts[1..];
      var r := Insert(ts[1..], t, key);
      forall k | 0 <= k < |r|
        ensures key(ts[0]) <= key(r[k])
      {
        assert r[k] in multiset(r);
      }
    }
  }

  /** Stands for the library's sort, of which no more is used than this contract. */
  method QSort(ts: seq<Token>, key: Token -> int) returns (r: seq<Token>)
    ensures multiset(r) == multiset(ts) && |r| == |ts| && SortedBy(r, key)
  {
    r := [];
    for n := 0 to |ts|
      invariant multiset(r) == multiset(ts[..n]) && |r| == n && SortedBy(r, key)
    {
      InsertKeepsSorted(r, ts[n], key);
      assert ts[..n + 1] == ts[..n] + [ts[n]];
      r := Insert(r, ts[n], key);
    }
    assert ts[..|ts|] == ts;
  }

  // ----- the tokens of a queue entry -------------------------------------------------------------

  ghost predicate HasData(ts: seq<Token>, d: seq<byte>)
  {
    exists k :: 0 <= k < |ts| && ts[k].data == d
  }

  ghost predicate NoTwice(ts: seq<Token>)
  {
    forall j, k :: 0 <= j < k < |ts| ==> ts[j].data != ts[k].data
  }

  /** The tokens whose block or edge was executed, each once, in the order of the dictionary. */
  method SelectExtras(extras: seq<Token>, executed: int -> bool) returns (picks: seq<Token>)
    ensures NoTwice(picks) && (ByLength(extras) ==> ByLength(picks))
    ensures forall t :: t in picks ==> t in extras && executed(t.index)
    ensures forall c :: 0 <= c < |extras| && executed(extras[c].index) ==> HasData(picks, extras[c].data)
  {
    picks := [];
    for c := 0 to |extras|
      invariant NoTwice(picks)
      invariant forall t :: t in picks ==> t in extras[..c] && executed(t.index)
      invariant forall d :: 0 <= d < c && executed(extras[d].index) ==> HasData(picks, extras[d].data)
      invariant ByLength(extras) ==> ByLength(picks)
    {
      if executed(extras[c].index) {
        var duplicate := false;
        var k := 0;
        while k < |picks| && !duplicate
          invariant k <= |picks| && (duplicate <==> exists j :: 0 <= j < k && picks[j].data == extras[c].data)
        {
          if picks[k].data == extras[c].data {
            duplicate := true;
          }
          k := k + 1;
        }
        if !duplicate {
          Appended(extras, c, picks);
          picks := picks + [extras[c]];
        }
      }
    }
  }

  lemma Appended(extras: seq<Token>, c: nat, picks: seq<Token>)
    requires c < |extras| && forall t :: t in picks ==> t in extras[..c]
    requires ByLength(extras) ==> ByLength(picks)
    ensures ByLength(extras) ==> ByLength(picks + [extras[c]])
    ensures forall d :: HasData(picks, d) ==> HasData(picks + [extras[c]], d)
    ensures HasData(picks + [extras[c]], extras[c].data)
  {
    var more := picks + [extras[c]];
    assert more[|picks|] == extras[c];
    if ByLength(extras) {
      forall k | 0 <= k < |picks|
        ensures |picks[k].data| <= |extras[c].data|
      {
        assert picks[k] in extras[..c];
        var d :| 0 <= d < c && extras[..c][d] == picks[k];
      }
    }
    forall d | HasData(picks, d)
      ensures HasData(more, d)
    {
      var k :| 0 <= k < |picks| && picks[k].data == d;
      assert more[k].data == d;
    }
  }

  // ----- tokens learned on the way ---------------------------------------------------------------

  function Lower(c: byte): byte { if 65 <= c <= 90 then c + 32 else c }

  /** Equal but for the case of letters. */
  ghost predicate NoCase(a: seq<byte>, b: seq<byte>)
  {
    |a| == |b| && forall k :: 0 <= k < |a| ==> Lower(a[k]) == Lower(b[k])
  }

  method MemcmpNocase(a: seq<byte>, b: seq<byte>) returns (same: bool)
    requires |a| == |b|
    ensures same <==> NoCase(a, b)
  {
    for k := 0 to |a|
      invariant forall j :: 0 <= j < k ==> Lower(a[j]) == Lower(b[j])
    {
      if Lower(a[k]) != Lower(b[k]) {
        return false;
      }
    }
    same := true;
  }

  ghost predicate Uniform(m: seq<byte>)
  {
    forall k :: 0 <= k < |m| ==> m[k] == m[0]
  }

  /** One of the built-in numbers of two or four bytes, stored with either byte first. */
  ghost predicate Builtin(m: seq<byte>)
  {
    || (|m| == 2 && exists k :: 0 <= k < |INTERESTING_16| && Stores16(m, INTERESTING_16[k]))
    || (|m| == 4 && exists k :: 0 <= k < |INTERESTING_32| && Stores32(m, INTERESTING_32[k]))
  }

  predicate Stores16(m: seq<byte>, v: int)
    requires |m| == 2
  {
    Word(m[0], m[1]) == v % 0x1_0000 || Word(m[1], m[0]) == v % 0x1_0000
  }

  predicate Stores32(m: seq<byte>, v: int)
    requires |m| == 4
  {
    Dword(m[0], m[1], m[2], m[3]) == v % 0x1_0000_0000 || Dword(m[3], m[2], m[1], m[0]) == v % 0x1_0000_0000
  }

  /** The comparison is between ints, so a negative number never equals the unsigned word itself. */
  predicate Hits16(w: int, v: int)
    requires -0x8000 <= v < 0x8000
  {
    w == v || w == Swap16(v % 0x1_0000)
  }

  predicate Hits32(w: int, v: int)
  {
    w == v % 0x1_0000_0000 || w == Swap32(v % 0x1_0000_0000)
  }

  lemma SwapIs16(lo: byte, hi: byte, v: int)
    requires 0 <= v < 0x1_0000
    ensures Word(lo, hi) == Swap16(v) <==> Word(hi, lo) == v
  {
    assert v == Word(v % 0x100, v / 0x100);
    Swapped16(v % 0x100, v / 0x100);
    SameWord(lo, hi, v / 0x100, v % 0x100);
    SameWord(hi, lo, v % 0x100, v / 0x100);
  }

  lemma StoresIs16(m: seq<byte>, v: int)
    requires |m| == 2 && -0x8000 <= v < 0x8000
    ensures Stores16(m, v) <==> Word(m[0], m[1]) == v % 0x1_0000 || Word(m[0], m[1]) == Swap16(v % 0x1_0000)
    ensures Hits16(Word(m[0], m[1]), v) ==> Stores16(m, v)
    ensures v >= 0 && Stores16(m, v) ==> Hits16(Word(m[0], m[1]), v)
  {
    SwapIs16(m[0], m[1], v % 0x1_0000);
  }

  /** The number whose swapped form is the unsigned form of this one, if this one is negative. */
  function Twin(k: nat): nat { if k == 0 then 2 else if k == 1 then 9 else k }

  lemma TwinIs(k: nat)
    requires k < |INTERESTING_16|
    ensures Twin(k) < |INTERESTING_16| && -0x8000 <= INTERESTING_16[k] < 0x8000 && INTERESTING_16[Twin(k)] >= 0
    ensures INTERESTING_16[k] < 0 ==> Swap16(INTERESTING_16[Twin(k)] % 0x1_0000) == INTERESTING_16[k] % 0x1_0000
  {
    assert Swap16(128) == 0x8000 && Swap16(32767) == 0xFF7F;
  }

  lemma Caught(m: seq<byte>, k: nat)
    requires |m| == 2 && k < |INTERESTING_16| && Stores16(m, INTERESTING_16[k])
    ensures exists j :: 0 <= j < |INTERESTING_16| && -0x8000 <= INTERESTING_16[j] < 0x8000
                        && Hits16(Word(m[0], m[1]), INTERESTING_16[j])
  {
    var w, v := Word(m[0], m[1]), INTERESTING_16[k];
    TwinIs(k);
    StoresIs16(m, v);
    var t := Twin(k);
    TwinIs(t);
    hide Stores16, Swap16, Word, Twin;
    if v < 0 && w == v % 0x1_0000 {
      assert Hits16(w, INTERESTING_16[t]);
    } else {
      assert Hits16(w, INTERESTING_16[k]);
    }
  }

  method BuiltinTest(m: seq<byte>) returns (r: bool)
    ensures r <==> Builtin(m)
  {
    r := false;
    if |m| == 2 {
      var i := |INTERESTING_16|;
      while i > 0 && !r
        invariant 0 <= i <= |INTERESTING_16|
        invariant r ==> Builtin(m)
        invariant !r ==> forall k :: i <= k < |INTERESTING_16| ==> Missed(m, k)
      {
        i := i - 1;
        TwinIs(i);
        StoresIs16(m, INTERESTING_16[i]);
        if Hits16(Word(m[0], m[1]), INTERESTING_16[i]) {
          r := true;
        }
      }
      if !r {
        NotBuiltin(m);
      }
    }
    if |m| == 4 {
      var i := |INTERESTING_32|;
      while i > 0 && !r
        invariant 0 <= i <= |INTERESTING_32|
        invariant r ==> Builtin(m)
        invariant !r ==> forall k :: i <= k < |INTERESTING_32| ==> !Stores32(m, INTERESTING_32[k])
      {
        i := i - 1;
        StoresIs32(m, INTERESTING_32[i]);
        if Hits32(Number(m), INTERESTING_32[i]) {
          r := true;
        }
      }
    }
  }

  lemma StoresIs32(m: seq<byte>, v: int)
    requires |m| == 4
    ensures Stores32(m, v) <==> Hits32(Number(m), v)
  {
    hide Word, Swap16, Swap32;
    var u := v % 0x1_0000_0000;
    var lo, hi := u % 0x1_0000, u / 0x1_0000;
    SwapIs16(m[0], m[1], hi);
    SwapIs16(m[2], m[3], lo);
    SwapHalves(lo, hi);
    assert u == lo + 0x1_0000 * hi;
  }

  ghost predicate Missed(m: seq<byte>, k: int)
    requires |m| == 2 && 0 <= k < |INTERESTING_16|
  {
    -0x8000 <= INTERESTING_16[k] < 0x8000 && !Hits16(Word(m[0], m[1]), INTERESTING_16[k])
  }

  /** The two negative numbers that the comparison misses are caught as swapped forms of 128 and 32767. */
  lemma NotBuiltin(m: seq<byte>)
    requires |m| == 2 && forall k :: 0 <= k < |INTERESTING_16| ==> Missed(m, k)
    ensures !Builtin(m)
  {
    hide Stores16, Hits16;
    if k :| 0 <= k < |INTERESTING_16| && Stores16(m, INTERESTING_16[k]) {
      Caught(m, k);
      var j :| 0 <= j < |INTERESTING_16| && -0x8000 <= INTERESTING_16[j] < 0x8000
               && Hits16(Word(m[0], m[1]), INTERESTING_16[j]);
      assert Missed(m, j);
    }
  }

  /** Whether a token is not worth learning. */
  ghost predicate Rejected(extras: seq<Token>, m: seq<byte>)
  {
    Uniform(m) || Builtin(m) || exists i :: 0 <= i < |extras| && NoCase(extras[i].data, m)
  }

  ghost predicate Worthy(extras: seq<Token>, t: Token)
  {
    MIN_AUTO_EXTRA < |t.data| <= MAX_AUTO_EXTRA && !Rejected(extras, t.data)
  }

  /** No two tokens agree up to the case of letters. */
  ghost predicate NoTwins(m: multiset<Token>)
  {
    forall t, u :: t in m && u in m && NoCase(t.data, u.data) ==> t == u && m[t] == 1
  }

  ghost predicate Different(ts: seq<Token>)
  {
    forall j, k :: 0 <= j < k < |ts| ==> !NoCase(ts[j].data, ts[k].data)
  }

  lemma DifferentIs(ts: seq<Token>)
    ensures Different(ts) <==> NoTwins(multiset(ts))
  {
    if Different(ts) {
      forall t, u | t in multiset(ts) && u in multiset(ts) && NoCase(t.data, u.data)
        ensures t == u && multiset(ts)[t] == 1
      {
        var j :| 0 <= j < |ts| && ts[j] == t;
        var k :| 0 <= k < |ts| && ts[k] == u;
        assert NoCase(u.data, t.data) && NoCase(t.data, t.data);
        CountOne(ts, t, j);
      }
    }
    if NoTwins(multiset(ts)) {
      forall j, k | 0 <= j < k < |ts|
        ensures !NoCase(ts[j].data, ts[k].data)
      {
        if NoCase(ts[j].data, ts[k].data) {
          assert ts[j] in multiset(ts) && ts[k] in multiset(ts);
          CountTwo(ts, j, k);
        }
      }
    }
  }

  lemma CountTwo(ts: seq<Token>, j: nat, k: nat)
    requires j < k < |ts| && ts[j] == ts[k]
    ensures multiset(ts)[ts[j]] >= 2
  {
    assert ts == ts[..j] + [ts[j]] + ts[j + 1..k] + [ts[k]] + ts[k + 1..];
  }

  /** The tokens that the fuzzer uses come first; they are the most used ones, ordered by length. */
  ghost predicate TopFirst(ts: seq<Token>)
  {
    var m := Min(USE_AUTO_EXTRAS, |ts|);
    ByLength(ts[..m]) && forall j, k :: 0 <= j < m <= k < |ts| ==> ts[j].hits >= ts[k].hits
  }

  method IsUniform(m: seq<byte>) returns (r: bool)
    requires |m| > 0
    ensures r <==> Uniform(m)
  {
    var i := 1;
    while i < |m| && m[0] == m[i]
      invariant i <= |m| && forall k :: 0 <= k < i ==> m[k] == m[0]
    {
      i := i + 1;
    }
    r := i == |m|;
  }

  /** Looks only at the extras of the right length, which are together. */
  method MatchesExtra(extras: seq<Token>, m: seq<byte>) returns (r: bool)
    requires ByLength(extras)
    ensures r <==> exists i :: 0 <= i < |extras| && NoCase(extras[i].data, m)
  {
    var i := 0;
    while i < |extras| && |extras[i].data| < |m|
      invariant i <= |extras| && forall k :: 0 <= k < i ==> |extras[k].data| < |m|
    {
      i := i + 1;
    }
    while i < |extras| && |extras[i].data| == |m|
      invariant i <= |extras| && forall k :: 0 <= k < i ==> !NoCase(extras[k].data, m)
    {
      var same := MemcmpNocase(extras[i].data, m);
      if same {
        return true;
      }
      i := i + 1;
    }
    r := false;
  }

  /** The position of the known token that agrees with a new one, or the number of known tokens. */
  ghost function FirstMatch(ts: seq<Token>, m: seq<byte>): (i: nat)
    ensures i <= |ts| && (i < |ts| ==> NoCase(ts[i].data, m))
    ensures forall k :: 0 <= k < i ==> !NoCase(ts[k].data, m)
  {
    if ts == [] || NoCase(ts[0].data, m) then 0 else 1 + FirstMatch(ts[1..], m)
  }

  /** A known token is counted; a new one is added, if need be in place of one from the lower half. */
  ghost function Learned(ts: seq<Token>, m: seq<byte>, random: nat): seq<Token>
    requires random < (MAX_AUTO_EXTRAS + 1) / 2
  {
    var i := FirstMatch(ts, m);
    if i < |ts| then ts[i := ts[i].(hits := ts[i].hits + 1)]
    else if |ts| < MAX_AUTO_EXTRAS then ts + [Token(m, 0, -1)]
    else ts[MAX_AUTO_EXTRAS / 2 + random := Token(m, 0, -1)]
  }

  lemma LearnedKeeps(extras: seq<Token>, ts: seq<Token>, m: seq<byte>, random: nat)
    requires random < (MAX_AUTO_EXTRAS + 1) / 2 && |ts| <= MAX_AUTO_EXTRAS && Worthy(extras, Token(m, 0, -1))
    requires Different(ts) && forall t :: t in ts ==> Worthy(extras, t)
    ensures var r := Learned(ts, m, random);
            && |r| <= MAX_AUTO_EXTRAS && Different(r) && (forall t :: t in r ==> Worthy(extras, t))
            && exists t :: t in r && NoCase(t.data, m)
  {
    var r, i := Learned(ts, m, random), FirstMatch(ts, m);
    hide Rejected;
    if i < |ts| {
      assert ts[i] in ts && r[i].data == ts[i].data;
    } else {
      Symmetric(ts, m);
      assert r[if |ts| < MAX_AUTO_EXTRAS then |ts| else MAX_AUTO_EXTRAS / 2 + random] == Token(m, 0, -1);
      assert NoCase(m, m);
    }
  }

  lemma Symmetric(ts: seq<Token>, m: seq<byte>)
    requires FirstMatch(ts, m) == |ts|
    ensures forall k :: 0 <= k < |ts| ==> !NoCase(m, ts[k].data) && !NoCase(ts[k].data, m)
  {
    forall k | 0 <= k < |ts|
      ensures !NoCase(m, ts[k].data)
    {
      if NoCase(m, ts[k].data) {
        assert NoCase(ts[k].data, m);
      }
    }
  }

  method FindAuto(ts: seq<Token>, m: seq<byte>) returns (i: nat)
    ensures i == FirstMatch(ts, m)
  {
    i := 0;
    while i < |ts|
      invariant i <= |ts| && i <= FirstMatch(ts, m)
    {
      if |ts[i].data| == |m| {
        var same := MemcmpNocase(ts[i].data, m);
        if same {
          return;
        }
      }
      i := i + 1;
    }
  }

  /** Sort by use, and then the ones to be used by length. */
  method SortAuto(ts: seq<Token>) returns (r: seq<Token>)
    ensures multiset(r) == multiset(ts) && |r| == |ts| && TopFirst(r)
  {
    var s := QSort(ts, (t: Token) => -t.hits);
    var m := Min(USE_AUTO_EXTRAS, |s|);
    var top := QSort(s[..m], (t: Token) => |t.data|);
    r := top + s[m..];
    assert s == s[..m] + s[m..];
    assert r[..m] == top;
    forall j, k | 0 <= j < m <= k < |r|
      ensures r[j].hits >= r[k].hits
    {
      assert r[j] in multiset(s[..m]);
      var i :| 0 <= i < m && s[..m][i] == r[j];
      assert r[k] == s[k];
    }
  }

  class AutoExtras {
    const extras: seq<Token>
    var tokens: seq<Token>
    var autoChanged: bool

    ghost predicate Valid()
      reads this
    {
      && ByLength(extras) && |tokens| <= MAX_AUTO_EXTRAS && TopFirst(tokens)
      && NoTwins(multiset(tokens)) && forall t :: t in multiset(tokens) ==> Worthy(extras, t)
    }

    constructor (given: seq<Token>)
      requires ByLength(given)
      ensures Valid() && extras == given && tokens == []
    {
      extras, tokens, autoChanged := given, [], false;
    }

    /** What is learned stays worthy, free of twins and in order. */
    method MaybeAddAuto(m: seq<byte>, random: nat)
      requires Valid() && MIN_AUTO_EXTRA <= |m| <= MAX_AUTO_EXTRA && random < (MAX_AUTO_EXTRAS + 1) / 2
      modifies `tokens, `autoChanged
      ensures Valid()
      ensures if Rejected(extras, m) then tokens == old(tokens) && autoChanged == old(autoChanged)
              else autoChanged && multiset(tokens) == multiset(Learned(old(tokens), m, random))
                   && exists t :: t in tokens && NoCase(t.data, m)
    {
      var no := IsUniform(m);
      if no {
        return;
      }
      no := BuiltinTest(m);
      if no {
        return;
      }
      no := MatchesExtra(extras, m);
      if no {
        return;
      }
      autoChanged := true;
      Learn(m, random);
    }

    method Learn(m: seq<byte>, random: nat)
      requires Valid() && Worthy(extras, Token(m, 0, -1)) && random < (MAX_AUTO_EXTRAS + 1) / 2
      modifies `tokens
      ensures Valid() && multiset(tokens) == multiset(Learned(old(tokens), m, random))
      ensures exists t :: t in tokens && NoCase(t.data, m)
    {
      assert |tokens| <= MAX_AUTO_EXTRAS;
      hide *;
      ghost var was := tokens;
      var learned := CountOrAdd(tokens, m, random);
      LearnedMultiset(extras, was, m, random);
      tokens := SortAuto(learned);
      assert forall t :: t in tokens <==> t in learned by {
        forall t
          ensures t in tokens <==> t in learned
        {
          assert t in tokens <==> t in multiset(tokens);
          assert t in learned <==> t in multiset(learned);
        }
      }
    }
  }

  method CountOrAdd(ts: seq<Token>, m: seq<byte>, random: nat) returns (r: seq<Token>)
    requires random < (MAX_AUTO_EXTRAS + 1) / 2 && |ts| <= MAX_AUTO_EXTRAS
    ensures r == Learned(ts, m, random)
  {
    var i := FindAuto(ts, m);
    if i < |ts| {
      r := ts[i := ts[i].(hits := ts[i].hits + 1)];
    } else if |ts| < MAX_AUTO_EXTRAS {
      r := ts + [Token(m, 0, -1)];
    } else {
      r := ts[MAX_AUTO_EXTRAS / 2 + random := Token(m, 0, -1)];
    }
  }

  lemma LearnedMultiset(extras: seq<Token>, ts: seq<Token>, m: seq<byte>, random: nat)
    requires random < (MAX_AUTO_EXTRAS + 1) / 2 && |ts| <= MAX_AUTO_EXTRAS && Worthy(extras, Token(m, 0, -1))
    requires NoTwins(multiset(ts)) && forall t :: t in multiset(ts) ==> Worthy(extras, t)
    ensures var r := Learned(ts, m, random);
            && |r| <= MAX_AUTO_EXTRAS && NoTwins(multiset(r)) && (forall t :: t in multiset(r) ==> Worthy(extras, t))
            && exists t :: t in r && NoCase(t.data, m)
  {
    hide Different, NoTwins, Worthy, NoCase, Learned;
    DifferentIs(ts);
    assert forall t :: t in ts ==> t in multiset(ts);
    LearnedKeeps(extras, ts, m, random);
    DifferentIs(Learned(ts, m, random));
  }
}
