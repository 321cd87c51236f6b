/** Slices of slices. */
module Slices {
  /** What stands at offset `i` of a part stands at `at + i` of the whole. */
  lemma SubSlice<T>(s: seq<T>, at: nat, whole: seq<T>, i: nat, part: seq<T>)
    requires at + |whole| <= |s| && s[at..at + |whole|] == whole
    requires i + |part| <= |whole| && whole[i..i + |part|] == part
    ensures s[at + i..at + i + |part|] == part
  {
    forall k | 0 <= k < |part| ensures s[at + i + k] == part[k] {
      assert whole[i..i + |part|][k] == whole[i + k] == s[at..at + |whole|][i + k];
    }
  }

  /** A middle part stands after the part before it. */
  lemma Between<T>(before: seq<T>, part: seq<T>, after: seq<T>)
    ensures var s := before + part + after;
            s[|before|..|before| + |part|] == part && s[|before| + |part|..] == after
  {
  }

  /** The last part of a prefix stands in the whole, wherever the whole stands. */
  lemma PrefixPlaced<T>(s: seq<T>, at: nat, whole: seq<T>, before: seq<T>, part: seq<T>)
    requires at + |whole| <= |s| && s[at..at + |whole|] == whole && before + part <= whole
    ensures s[at + |before|..at + |before| + |part|] == part
  {
    var after := whole[|before| + |part|..];
    assert whole == before + part + after;
    Between(before, part, after);
    SubSlice(s, at, whole, |before|, part);
  }

  /** A part, and what follows it. */
  lemma Peel<T>(s: seq<T>, at: nat, whole: seq<T>, first: seq<T>, rest: seq<T>)
    requires at + |whole| <= |s| && s[at..at + |whole|] == whole == first + rest
    ensures s[at..at + |first|] == first
    ensures s[at + |first|..at + |first| + |rest|] == rest
  {
    assert s[at..at + |first|] == whole[..|first|];
    assert s[at + |first|..at + |first| + |rest|] == whole[|first|..];
  }

  lemma Regroup<T>(a: seq<T>, b: seq<T>, c: seq<T>, rest: seq<T>)
    requires rest == b + c
    ensures a + rest == (a + b) + c
  {
  }

  // ----- Element by element -----

  /** The part stands at offset `i`. */
  ghost predicate Stands<T>(s: seq<T>, i: nat, part: seq<T>) {
    i + |part| <= |s| && forall k :: 0 <= k < |part| ==> s[i + k] == part[k]
  }

  lemma StandsAt<T>(s: seq<T>, i: nat, part: seq<T>, k: nat)
    requires Stands(s, i, part) && k < |part|
    ensures s[i + k] == part[k]
  {
  }

  lemma StandsTail<T>(s: seq<T>, i: nat, part: seq<T>)
    requires part != [] && Stands(s, i, part)
    ensures s[i] == part[0] && Stands(s, i + 1, part[1..])
  {
    assert s[i + 0] == part[0];
    forall k | 0 <= k < |part[1..]| ensures s[i + 1 + k] == part[1..][k] {
      assert s[i + (k + 1)] == part[k + 1];
    }
  }

  lemma StandsSlice<T>(s: seq<T>, i: nat, part: seq<T>)
    requires Stands(s, i, part)
    ensures s[i..i + |part|] == part
  {
  }

  lemma StandsMiddle<T>(s: seq<T>, i: nat, a: seq<T>, part: seq<T>, b: seq<T>)
    requires Stands(s, i, a + part + b)
    ensures Stands(s, i, a) && Stands(s, i + |a|, part) && Stands(s, i + |a| + |part|, b)
  {
    var whole := a + part + b;
    forall k | 0 <= k < |a| ensures s[i + k] == a[k] {
      assert whole[k] == a[k];
    }
    forall k | 0 <= k < |part| ensures s[i + |a| + k] == part[k] {
      assert s[i + (|a| + k)] == whole[|a| + k] == part[k];
    }
    forall k | 0 <= k < |b| ensures s[i + |a| + |part| + k] == b[k] {
      assert s[i + (|a| + |part| + k)] == whole[|a| + |part| + k] == b[k];
    }
  }

  lemma AfterPart<T>(s: seq<T>, i: nat, part: seq<T>, rest: seq<T>)
    requires i <= |s| && s[i..] == part + rest
    ensures i + |part| <= |s| && s[i + |part|..] == rest
  {
    assert |s[i..]| == |s| - i;
    assert s[i + |part|..] == s[i..][|part|..];
  }

  lemma SplitAt<T>(s: seq<T>, i: nat, part: seq<T>, rest: seq<T>)
    requires i <= |s| && s[i..] == part + rest
    ensures Stands(s, i, part) && s[i + |part|..] == rest
  {
    assert s == s[..i] + part + rest;
    Between(s[..i], part, rest);
    forall k | 0 <= k < |part| ensures s[i + k] == part[k] {
      assert s[i..][k] == part[k];
    }
  }
}
