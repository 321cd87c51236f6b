/** Texts built up in a buffer of fixed size. */
module Buffers {
  function Take(text: string, n: nat): string {
    if |text| <= n then text else text[..n]
  }

  lemma TakeAll(done: string, rest: string, n: nat)
    requires rest == "" || |done| >= n
    ensures Take(done, n) == Take(done + rest, n)
  {
  }

  /** Copies as much of `part` as leaves room for the terminator. */
  method Append(out: array<char>, n: nat, cap: nat, ghost done: string, part: string) returns (length: nat)
    requires n + 1 < cap <= out.Length && out[..n] == Take(done, cap - 1)
    modifies out
    ensures length < cap && out[..length] == Take(done + part, cap - 1)
    ensures forall k :: cap <= k < out.Length ==> out[k] == old(out[k])
  {
    assert |Take(done, cap - 1)| == n;
    var z := |part|;
    if n + z >= cap {
      z := cap - n - 1;
    }
    for i := 0 to z
      invariant out[..n + i] == done + part[..i]
      invariant forall k :: cap <= k < out.Length ==> out[k] == old(out[k])
    {
      out[n + i] := part[i];
    }
    return n + z;
  }
}
