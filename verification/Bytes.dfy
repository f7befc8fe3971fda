/** Bytes, and the C library's block operations on byte arrays. */
module Bytes {
  type byte = x: int | 0 <= x < 256

  function Min(a: int, b: int): int { if a < b then a else b }

  function Max(a: int, b: int): int { if a < b then b else a }

  method Copy(dst: array<byte>, d: nat, src: array<byte>, s: nat, n: nat)
    requires dst != src && d + n <= dst.Length && s + n <= src.Length
    modifies dst
    ensures dst[..] == old(dst[..d]) + src[s..s + n] + old(dst[d + n..])
  {
    for i := 0 to n
      invariant dst[..d] == old(dst[..d]) && dst[d..d + i] == src[s..s + i] && dst[d + i..] == old(dst[d + i..])
    {
      assert dst[d + i + 1..] == old(dst[d + i + 1..]) by {
        assert dst[d + i + 1..] == dst[d + i..][1..] && old(dst[d + i + 1..]) == old(dst[d + i..])[1..];
      }
      dst[d + i] := src[s + i];
      assert dst[d..d + i + 1] == dst[d..d + i] + [src[s + i]];
    }
    assert dst[..] == dst[..d] + dst[d..d + n] + dst[d + n..];
  }

  /** Moves bytes down within one array; source and destination may overlap. */
  method Move(a: array<byte>, d: nat, s: nat, n: nat)
    requires d <= s && s + n <= a.Length
    modifies a
    ensures a[..] == old(a[..d]) + old(a[s..s + n]) + old(a[d + n..])
  {
    for i := 0 to n
      invariant a[..d + i] == old(a[..d]) + old(a[s..s + i])
      invariant a[d + i..] == old(a[d + i..])
    {
      assert a[s + i] == a[d + i..][s - d] == old(a[d + i..])[s - d];
      a[d + i] := a[s + i];
    }
    assert a[..] == a[..d + n] + a[d + n..];
  }

  method Fill(dst: array<byte>, d: nat, v: byte, n: nat)
    requires d + n <= dst.Length
    modifies dst
    ensures dst[..] == old(dst[..d]) + seq(n, _ => v) + old(dst[d + n..])
  {
    for i := 0 to n
      invariant dst[..] == old(dst[..d]) + seq(i, _ => v) + old(dst[d + i..])
    {
      dst[d + i] := v;
    }
  }

  method Equal(a: array<byte>, p: nat, q: nat, n: nat) returns (same: bool)
    requires p + n <= a.Length && q + n <= a.Length
    ensures same <==> a[p..p + n] == a[q..q + n]
  {
    for i := 0 to n
      invariant a[p..p + i] == a[q..q + i]
    {
      if a[p + i] != a[q + i] {
        assert a[p..p + n][i] != a[q..q + n][i];
        return false;
      }
    }
    return true;
  }

  // ----- how often something occurs ------------------------------------------------------------

  lemma CountOne<T>(s: seq<T>, x: T, k: nat)
    requires k < |s| && s[k] == x && forall j :: 0 <= j < |s| && j != k ==> s[j] != x
    ensures multiset(s)[x] == 1
  {
    assert s == s[..k] + [s[k]] + s[k + 1..];
  }
}
