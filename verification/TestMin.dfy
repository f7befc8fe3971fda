/** afl-tmin as it runs: one input buffer, one scratch buffer, loops that edit them in place and take the
    short cuts that save executions. Every stage is proved to leave what the plain stage of module Minimize
    leaves. */
module TestMin {
  import opened Bytes
  import opened Blocks
  import opened Minimize

  class Minimizer {
    const target: seq<byte> -> Outcome
    const options: Options
    const inData: array<byte>
    var inLen: nat
    var crashMode: bool
    var origCksum: nat

    ghost predicate Valid()
      reads this`inLen
    {
      inLen <= inData.Length < TMIN_MAX_FILE
    }

    ghost function Contents(): seq<byte>
      requires Valid()
      reads this`inLen, inData
    {
      inData[..inLen]
    }

    ghost function Keeps(): Oracle
      reads this`crashMode, this`origCksum
    {
      var o, mode, sum, run := options, crashMode, origCksum, target;
      (s: seq<byte>) => Accepts(o, mode, sum, run(s))
    }

    ghost predicate Scratch(tmp: array<byte>)
      reads this`inLen
    {
      Valid() && tmp != inData && tmp.Length >= inLen
    }

    constructor (run: seq<byte> -> Outcome, opts: Options, data: array<byte>)
      requires data.Length < TMIN_MAX_FILE
      ensures Valid() && target == run && options == opts && inData == data && inLen == data.Length
      ensures !crashMode
    {
      target, options, inData, inLen := run, opts, data, data.Length;
      crashMode, origCksum := false, 0;
    }

    /** One execution. The first run of all, when it does not time out, makes later verdicts compare the
        candidate with this very run. */
    method RunTarget(mem: array<byte>, len: nat, firstRun: bool) returns (res: bool)
      requires len <= mem.Length
      modifies if firstRun then {this} else {}
      ensures inLen == old(inLen)
      ensures !firstRun ==> res == Keeps()(mem[..len])
      ensures firstRun && target(mem[..len]).timedOut ==> !res
      ensures firstRun && !old(crashMode) && !target(mem[..len]).timedOut ==>
                res && forall s :: Keeps()(s) <==> Alike(options, target(mem[..len]), target(s))
    {
      var o := target(mem[..len]);
      if o.timedOut {
        return false;
      }
      if Crashed(options, o.status) {
        if firstRun {
          crashMode := true;
        }
        if crashMode {
          if !options.exactMode {
            return true;
          }
        } else {
          return false;
        }
      } else if crashMode {
        return false;
      }
      if firstRun {
        origCksum := o.cksum;
      }
      return origCksum == o.cksum;
    }

    /** Try one block of filler, unless the block is filler already. */
    method NormalizeBlock(tmp: array<byte>, p: nat, n: nat)
      requires Scratch(tmp) && p + n <= inLen
      modifies inData, tmp
      ensures Contents() == Try(Keeps(), old(Contents()), Blanked(old(Contents()), p, n))
    {
      var i := 0;
      while i < n && inData[p + i] == ZERO
        invariant i <= n && forall j :: p <= j < p + i ==> inData[j] == ZERO
      {
        i := i + 1;
      }
      if i == n {
        return;
      }
      Copy(tmp, 0, inData, 0, inLen);
      Fill(tmp, p, ZERO, n);
      assert tmp[..inLen] == Blanked(old(Contents()), p, n);
      var res := RunTarget(tmp, inLen, false);
      if res {
        Fill(inData, p, ZERO, n);
        assert Contents() == Blanked(old(Contents()), p, n);
      }
    }

    method BlockNormalization(tmp: array<byte>)
      requires Scratch(tmp)
      modifies inData, tmp
      ensures Contents() == Normalize(Keeps(), old(Contents()), SetLength(inLen), 0)
    {
      hide Blanked, Keeps;
      var setLen := RoundUp(inLen / TMIN_SET_STEPS);
      if setLen < TMIN_SET_MIN_SIZE {
        setLen := TMIN_SET_MIN_SIZE;
      }
      ghost var keep, was := Keeps(), Contents();
      var setPos := 0;
      while setPos < inLen
        invariant Normalize(keep, Contents(), setLen, setPos) == Normalize(keep, was, setLen, 0)
      {
        var useLen := Min(setLen, inLen - setPos);
        NormalizeBlock(tmp, setPos, useLen);
        setPos := setPos + setLen;
      }
    }

    method TryDelete(tmp: array<byte>, p: nat, n: nat) returns (res: bool)
      requires Scratch(tmp) && p < inLen
      modifies inData, tmp, `inLen
      ensures Scratch(tmp) && res == Keeps()(Without(old(Contents()), p, n))
      ensures Contents() == if res then Without(old(Contents()), p, n) else old(Contents())
    {
      var tailLen := Max(inLen - p - n, 0);
      Copy(tmp, 0, inData, 0, p);
      if tailLen > 0 {
        Copy(tmp, p, inData, p + n, tailLen);
      }
      assert tmp[..p + tailLen] == Without(old(Contents()), p, n);
      res := RunTarget(tmp, p + tailLen, false);
      if res {
        Copy(inData, 0, tmp, 0, p + tailLen);
        inLen := p + tailLen;
        assert Contents() == Without(old(Contents()), p, n);
      }
    }

    /** Deletions at one block length. A block equal to the rejected one before it is not tried. */
    method DeleteBlocks(tmp: array<byte>, delLen: nat) returns (changed: bool)
      requires Scratch(tmp) && 0 < delLen
      modifies inData, tmp, `inLen
      ensures Scratch(tmp) && Contents() == Sweep(Keeps(), old(Contents()), delLen, 0)
      ensures if changed then |Contents()| < |old(Contents())| else Contents() == old(Contents())
    {
      ghost var keep, was := Keeps(), Contents();
      var delPos, prevDel := 0, true;
      changed := false;
      hide Without, Keeps;
      while delPos < inLen
        invariant Scratch(tmp)
        invariant if changed then |Contents()| < |was| else Contents() == was
        invariant !prevDel ==> delLen <= delPos &&
                               (delPos - delLen < inLen ==> !keep(Without(Contents(), delPos - delLen, delLen)))
        invariant Sweep(keep, Contents(), delLen, delPos) == Sweep(keep, was, delLen, 0)
        decreases inLen, inLen - delPos
      {
        var same := false;
        if !prevDel && delPos + delLen < inLen {
          same := Equal(inData, delPos - delLen, delPos, delLen);
        }
        if same {
          SameNeighbours(delPos, delLen);
          delPos := delPos + delLen;
          continue;
        }
        prevDel := false;
        var res := TryDelete(tmp, delPos, delLen);
        if res {
          prevDel := true;
          changed := true;
        } else {
          delPos := delPos + delLen;
        }
      }
    }

    lemma SameNeighbours(delPos: nat, delLen: nat)
      requires inLen <= inData.Length && delLen <= delPos && delPos + delLen < inLen
      requires inData[delPos - delLen..delPos - delLen + delLen] == inData[delPos..delPos + delLen]
      ensures Without(inData[..inLen], delPos - delLen, delLen) == Without(inData[..inLen], delPos, delLen)
    {
      var s := inData[..inLen];
      forall i | 0 <= i < delLen
        ensures s[delPos - delLen..][i] == s[delPos..][i]
      {
        assert inData[delPos - delLen..delPos - delLen + delLen][i] == inData[delPos..delPos + delLen][i];
      }
      EqualNeighbours(s, delPos - delLen, delLen);
    }

    method BlockDeletion(tmp: array<byte>) returns (changed: bool)
      requires Scratch(tmp)
      modifies inData, tmp, `inLen
      ensures Scratch(tmp) && Contents() == DeletionStage(Keeps(), old(Contents()))
      ensures if changed then |Contents()| < |old(Contents())| else Contents() == old(Contents())
    {
      ghost var keep, was := Keeps(), Contents();
      var delLen := RoundUp(inLen / TRIM_START_STEPS);
      changed := false;
      while true
        invariant Scratch(tmp) && 0 < delLen && Shrink(keep, Contents(), delLen) == DeletionStage(keep, was)
        invariant if changed then |Contents()| < |was| else Contents() == was
        decreases delLen
      {
        var any := DeleteBlocks(tmp, delLen);
        changed := changed || any;
        if delLen > 1 && inLen >= 1 {
          delLen := delLen / 2;
        } else {
          break;
        }
      }
    }

    /** Count the symbols of the input: an entry is zero exactly when its symbol does not occur. */
    method CountSymbols(alphaMap: array<nat>)
      requires Valid() && alphaMap.Length == 256
      modifies alphaMap
      ensures forall b: byte :: alphaMap[b] == multiset(Contents())[b]
    {
      forall b | 0 <= b < 256 {
        alphaMap[b] := 0;
      }
      for i := 0 to inLen
        invariant forall b: byte :: alphaMap[b] == multiset(inData[..i])[b]
      {
        assert inData[..i + 1] == inData[..i] + [inData[i]];
        alphaMap[inData[i]] := alphaMap[inData[i]] + 1;
      }
    }

    method TrySymbol(tmp: array<byte>, b: byte) returns (res: bool)
      requires Scratch(tmp)
      modifies inData, tmp
      ensures res == Keeps()(Renamed(old(Contents()), b))
      ensures Contents() == if res then Renamed(old(Contents()), b) else old(Contents())
    {
      Copy(tmp, 0, inData, 0, inLen);
      for r := 0 to inLen
        invariant forall j :: 0 <= j < r ==> tmp[j] == Renamed(Contents(), b)[j]
        invariant forall j :: r <= j < inLen ==> tmp[j] == inData[j]
        invariant Contents() == old(Contents())
      {
        if tmp[r] == b {
          tmp[r] := ZERO;
        }
      }
      assert tmp[..inLen] == Renamed(Contents(), b);
      res := RunTarget(tmp, inLen, false);
      if res {
        Copy(inData, 0, tmp, 0, inLen);
        assert Contents() == Renamed(old(Contents()), b);
      }
    }

    /** Symbols that the count did not see, and the filler, are not tried. */
    method AlphabetMinimization(tmp: array<byte>) returns (changed: bool)
      requires Scratch(tmp)
      modifies inData, tmp
      ensures Contents() == Alphabet(Keeps(), old(Contents()), 0)
      ensures if changed then Weight(Contents()) < Weight(old(Contents())) else Contents() == old(Contents())
    {
      hide Keeps, Weight, Alphabet;
      var alphaMap := new nat[256];
      CountSymbols(alphaMap);
      ghost var keep := Keeps();
      ghost var was: seq<byte> := Contents();
      changed := false;
      for i := 0 to 256
        invariant Alphabet(keep, Contents(), i) == Alphabet(keep, was, 0)
        invariant Untried(was, Contents(), i)
        invariant forall b: byte :: alphaMap[b] == multiset(was)[b]
        invariant if changed then Weight(Contents()) < Weight(was) else Contents() == was
      {
        ghost var s := Contents();
        AlphabetStep(keep, was, s, i);
        if i == ZERO || alphaMap[i] == 0 {
          continue;
        }
        var res := TrySymbol(tmp, i);
        if res {
          changed := true;
          PointwiseEmbeds(Renamed(s, i), s);
          EmbeddingIsLighter(Renamed(s, i), s);
        }
      }
      AlphabetEnd(keep, Contents());
    }

    /** Bytes that are the filler already are not tried. */
    method CharacterMinimization(tmp: array<byte>) returns (changed: bool)
      requires Scratch(tmp)
      modifies inData, tmp
      ensures Contents() == Characters(Keeps(), old(Contents()), 0)
      ensures if changed then Weight(Contents()) < Weight(old(Contents())) else Contents() == old(Contents())
    {
      hide Keeps, Weight, Characters;
      ghost var keep, was := Keeps(), Contents();
      changed := false;
      Copy(tmp, 0, inData, 0, inLen);
      assert tmp[..inLen] == Contents();
      for i := 0 to inLen
        invariant Characters(keep, Contents(), i) == Characters(keep, was, 0)
        invariant tmp[..inLen] == Contents()
        invariant if changed then Weight(Contents()) < Weight(was) else Contents() == was
      {
        ghost var s := Contents();
        CharactersStep(keep, s, i);
        var orig := tmp[i];
        assert orig == s[i];
        if orig == ZERO {
          continue;
        }
        tmp[i] := ZERO;
        assert tmp[..inLen] == s[i := ZERO];
        var res := RunTarget(tmp, inLen, false);
        if res {
          inData[i] := ZERO;
          changed := true;
          assert Weight(s[i := ZERO]) < Weight(s) by {
            PointwiseEmbeds(s[i := ZERO], s);
            EmbeddingIsLighter(s[i := ZERO], s);
            assert s[i := ZERO][i] != s[i];
          }
          assert Contents() == s[i := ZERO];
        } else {
          tmp[i] := orig;
          assert tmp[..inLen] == s;
        }
      }
      CharactersEnd(keep, Contents());
    }

    method Minimize()
      requires Valid()
      modifies inData, `inLen
      ensures Valid() && Contents() == Minimized(Keeps(), old(Contents()))
    {
      hide Keeps, Normalize, DeletionStage, Passes, Weight, Alphabet, Characters;
      var tmp := new byte[inLen];
      ghost var keep, was := Keeps(), Contents();
      BlockNormalization(tmp);
      var curPass := 0;
      while true
        invariant Scratch(tmp) && Passes(keep, Contents(), curPass == 0) == Minimized(keep, was)
        decreases Weight(Contents())
      {
        PassesStep(keep, Contents(), curPass == 0);
        curPass := curPass + 1;
        var changedAny := BlockDeletion(tmp);
        if curPass > 1 && !changedAny {
          break;
        }
        var renamed := AlphabetMinimization(tmp);
        var blanked := CharacterMinimization(tmp);
        changedAny := changedAny || renamed || blanked;
        if !changedAny {
          break;
        }
      }
    }

    /** The whole run: the first execution sets the standard, unless it times out, which is fatal; the rest
        shrinks the input. */
    method Run() returns (ok: bool)
      requires Valid() && !crashMode
      modifies this, inData
      ensures Valid()
      ensures var first, was := target(old(Contents())), old(Contents());
              ok == !first.timedOut && if !ok then Contents() == was else
                var keep: Oracle := s => Alike(options, first, target(s));
                Embeds(Contents(), was) && keep(Contents()) &&
                forall p: nat :: p < |Contents()| ==> !keep(Without(Contents(), p, 1))
    {
      ghost var was := Contents();
      ok := RunTarget(inData, inLen, true);
      assert Contents() == was;
      if target(inData[..inLen]).timedOut {
        return false;
      }
      ghost var keep := Keeps();
      assert keep(was);
      Minimize();
      MinimizedEmbeds(keep, was);
      MinimizedIsOneMinimal(keep, was);
    }
  }
}
