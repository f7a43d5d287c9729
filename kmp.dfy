/** Exact substring search by the Knuth-Morris-Pratt method: the failure
    function built by `makeFail` and the linear scan of `findString`. The
    search is generic in the element type; the Type1 extractor uses it on bytes. */
module Kmp {

  /** `p[..k]` equals the last `k` elements of `s[..i]`. */
  ghost predicate EndsWith<T>(s: seq<T>, i: int, p: seq<T>, k: int)
  {
    0 <= k <= i <= |s| && k <= |p| && forall j :: 0 <= j < k ==> s[i - k + j] == p[j]
  }

  /** `p[..k]` is a proper border of `p[..q]`: a shorter prefix that is also a suffix. */
  ghost predicate IsBorder<T>(p: seq<T>, q: int, k: int)
  {
    k < q && EndsWith(p, q, p, k)
  }

  /** `v` is the length of the longest proper border of `p[..q]`, the value
      the failure function holds at `q`. */
  ghost predicate IsLongestBorder<T>(p: seq<T>, q: int, v: int)
  {
    IsBorder(p, q, v) && forall k :: v < k < q ==> !IsBorder(p, q, k)
  }

  /** `p` occurs in `s` starting at index `i`. */
  predicate MatchAt<T(==)>(s: seq<T>, p: seq<T>, i: int)
  {
    0 <= i && i + |p| <= |s| && s[i..i + |p|] == p
  }

  /** Reference search: try every start index from `i` on, in order. */
  function IndexFrom<T(==)>(s: seq<T>, p: seq<T>, i: nat): (r: int)
    ensures r == -1 || (i <= r && r + |p| <= |s|)
    decreases |s| - i
  {
    if i + |p| > |s| then -1
    else if s[i..i + |p|] == p then i
    else IndexFrom(s, p, i + 1)
  }

  /** The first index at which `p` occurs in `s`, or -1 when it does not occur. */
  function IndexOf<T(==)>(s: seq<T>, p: seq<T>): (r: int)
    ensures r == -1 || (0 <= r && r + |p| <= |s|)
  {
    IndexFrom(s, p, 0)
  }

  lemma {:induction false} IndexFromSpec<T>(s: seq<T>, p: seq<T>, i: nat)
    ensures IndexFrom(s, p, i) == -1 <==> forall j :: i <= j ==> !MatchAt(s, p, j)
    ensures IndexFrom(s, p, i) != -1 ==>
              && i <= IndexFrom(s, p, i)
              && MatchAt(s, p, IndexFrom(s, p, i))
              && forall j :: i <= j < IndexFrom(s, p, i) ==> !MatchAt(s, p, j)
    decreases |s| - i
  {
    if i + |p| > |s| {
      assert forall j :: i <= j ==> !MatchAt(s, p, j);
    } else if s[i..i + |p|] == p {
      assert MatchAt(s, p, i);
    } else {
      IndexFromSpec(s, p, i + 1);
      assert !MatchAt(s, p, i);
    }
  }

  /** `IndexOf` is the least match index, and -1 exactly when there is no match. */
  lemma IndexOfSpec<T>(s: seq<T>, p: seq<T>)
    ensures IndexOf(s, p) == -1 <==> forall j :: !MatchAt(s, p, j)
    ensures IndexOf(s, p) != -1 ==>
              && MatchAt(s, p, IndexOf(s, p))
              && forall j :: j < IndexOf(s, p) ==> !MatchAt(s, p, j)
  {
    IndexFromSpec(s, p, 0);
  }

  lemma MatchAtEndsWith<T>(s: seq<T>, p: seq<T>, i: int)
    requires 0 <= i && i + |p| <= |s|
    ensures MatchAt(s, p, i) <==> EndsWith(s, i + |p|, p, |p|)
  {
    if EndsWith(s, i + |p|, p, |p|) {
      assert forall j :: 0 <= j < |p| ==> s[i..i + |p|][j] == p[j];
    }
  }

  lemma EndsWithGrow<T>(s: seq<T>, i: int, p: seq<T>, k: int)
    requires EndsWith(s, i, p, k) && i < |s| && k < |p| && s[i] == p[k]
    ensures EndsWith(s, i + 1, p, k + 1)
  {
  }

  lemma EndsWithShrink<T>(s: seq<T>, i: int, p: seq<T>, k: int)
    requires 0 <= i && EndsWith(s, i + 1, p, k) && k > 0
    ensures EndsWith(s, i, p, k - 1) && s[i] == p[k - 1]
  {
    assert s[i] == s[i + 1 - k + (k - 1)];
  }

  /** A border of a matched prefix is matched too. */
  lemma EndsWithBorder<T>(s: seq<T>, i: int, p: seq<T>, t: int, k: int)
    requires EndsWith(s, i, p, t) && IsBorder(p, t, k)
    ensures EndsWith(s, i, p, k)
  {
    forall j | 0 <= j < k
      ensures s[i - k + j] == p[j]
    {
      assert s[i - t + (t - k + j)] == p[t - k + j];
    }
  }

  /** Two matched prefixes of different lengths: the shorter is a border of the longer. */
  lemma EndsWithBoth<T>(s: seq<T>, i: int, p: seq<T>, k: int, t: int)
    requires EndsWith(s, i, p, k) && EndsWith(s, i, p, t) && k < t
    ensures IsBorder(p, t, k)
  {
    forall j | 0 <= j < k
      ensures p[t - k + j] == p[j]
    {
      assert s[i - t + (t - k + j)] == p[t - k + j];
    }
  }

  /** makefont.cpp `makeFail`: fills `f[1..m]` with the failure function of `target`.
      The source writes `f[1]` unconditionally, so it needs a non-empty target. */
  method MakeFail<T(==)>(target: seq<T>) returns (f: array<int>)
    requires |target| >= 1
    ensures f.Length == |target| + 1
    ensures forall q :: 1 <= q <= |target| ==> IsLongestBorder(target, q, f[q])
  {
    var m := |target|;
    f := new int[m + 1];
    f[1] := 0;
    var t := 0;
    for s := 1 to m
      invariant forall q :: 1 <= q <= s ==> IsLongestBorder(target, q, f[q])
      invariant t == f[s]
    {
      t := FallBack(target, f, s, t);
      if target[t] == target[s] {
        NextBorderHit(target, s, t);
        t := t + 1;
      } else {
        NextBorderMiss(target, s);
        t := 0;
      }
      f[s + 1] := t;
    }
  }

  /** The inner loop of `makeFail`: follow the failure chain from the longest
      border of the first `s` items down to the longest one that the item at
      `s` extends, or to 0. */
  method FallBack<T(==)>(target: seq<T>, f: array<int>, s: int, t0: int) returns (t: int)
    requires 1 <= s < |target| && f.Length == |target| + 1
    requires forall q :: 1 <= q <= s ==> IsLongestBorder(target, q, f[q])
    requires t0 == f[s]
    ensures IsBorder(target, s, t) && (t == 0 || target[s] == target[t])
    ensures forall k :: t < k < s && IsBorder(target, s, k) ==> target[k] != target[s]
  {
    t := t0;
    while t > 0 && target[s] != target[t]
      invariant IsBorder(target, s, t)
      invariant forall k :: t < k < s && IsBorder(target, s, k) ==> target[k] != target[s]
      decreases t
    {
      BorderStep(target, s, t, f[t]);
      t := f[t];
    }
  }

  /** One step down the failure chain keeps every skipped length excluded. */
  lemma BorderStep<T>(p: seq<T>, s: int, t: int, ft: int)
    requires IsBorder(p, s, t) && t > 0 && s < |p| && p[s] != p[t]
    requires IsLongestBorder(p, t, ft)
    requires forall k :: t < k < s && IsBorder(p, s, k) ==> p[k] != p[s]
    ensures IsBorder(p, s, ft)
    ensures forall k :: ft < k < s && IsBorder(p, s, k) ==> p[k] != p[s]
  {
    EndsWithBorder(p, s, p, t, ft);
    forall k | ft < k < t && IsBorder(p, s, k)
      ensures false
    {
      EndsWithBoth(p, s, p, k, t);
    }
  }

  lemma NextBorderHit<T>(p: seq<T>, s: int, t: int)
    requires IsBorder(p, s, t) && s < |p| && p[t] == p[s]
    requires forall k :: t < k < s && IsBorder(p, s, k) ==> p[k] != p[s]
    ensures IsLongestBorder(p, s + 1, t + 1)
  {
    EndsWithGrow(p, s, p, t);
    var q := s + 1;
    forall k | t + 1 < k < q && IsBorder(p, q, k)
      ensures false
    {
      EndsWithShrink(p, s, p, k);
    }
  }

  lemma NextBorderMiss<T>(p: seq<T>, s: int)
    requires 0 < s < |p| && p[0] != p[s]
    requires forall k :: 0 < k < s && IsBorder(p, s, k) ==> p[k] != p[s]
    ensures IsLongestBorder(p, s + 1, 0)
  {
    var q := s + 1;
    forall k | 0 < k < q && IsBorder(p, q, k)
      ensures false
    {
      EndsWithShrink(p, s, p, k);
    }
  }

  /** makefont.cpp `findString`: the first index at which `target` occurs in
      `src`, or -1, given the failure function built by `MakeFail`. */
  method FindString<T(==)>(src: seq<T>, target: seq<T>, f: array<int>) returns (r: int)
    requires |target| >= 1
    requires f.Length == |target| + 1
    requires forall q :: 1 <= q < |target| ==> IsLongestBorder(target, q, f[q])
    ensures r == IndexOf(src, target)
  {
    var m := |target|;
    var s := 0;
    for i := 0 to |src|
      invariant 0 <= s < m
      invariant EndsWith(src, i, target, s)
      invariant forall k :: s < k <= m ==> !EndsWith(src, i, target, k)
      invariant forall e :: e <= i ==> !EndsWith(src, e, target, m)
    {
      while s > 0 && src[i] != target[s]
        invariant 0 <= s < m
        invariant EndsWith(src, i, target, s)
        invariant forall k :: s < k < m && EndsWith(src, i, target, k) ==> src[i] != target[k]
        decreases s
      {
        ScanStep(src, i, target, s, f[s]);
        s := f[s];
      }
      ghost var s0 := s;
      if src[i] == target[s] {
        EndsWithGrow(src, i, target, s);
        s := s + 1;
      }
      ScanLongest(src, i, i + 1, target, s0, s);
      if s == m {
        FirstMatch(src, target, i + 1);
        return i - m + 1;
      }
    }
    NoMatch(src, target);
    return -1;
  }

  /** A match ending at `e`, and none ending earlier: the match starts at the first index. */
  lemma FirstMatch<T>(src: seq<T>, p: seq<T>, e: int)
    requires EndsWith(src, e, p, |p|)
    requires forall e' :: e' < e ==> !EndsWith(src, e', p, |p|)
    ensures IndexOf(src, p) == e - |p|
  {
    IndexOfSpec(src, p);
    MatchAtEndsWith(src, p, e - |p|);
    var r := IndexOf(src, p);
    if r != -1 && r < e - |p| {
      MatchAtEndsWith(src, p, r);
    }
  }

  /** No match ends anywhere in `src`: the search result is -1. */
  lemma NoMatch<T>(src: seq<T>, p: seq<T>)
    requires forall e :: e <= |src| ==> !EndsWith(src, e, p, |p|)
    ensures IndexOf(src, p) == -1
  {
    IndexOfSpec(src, p);
    var r := IndexOf(src, p);
    if r != -1 {
      MatchAtEndsWith(src, p, r);
    }
  }

  lemma ScanStep<T>(src: seq<T>, i: int, p: seq<T>, s: int, fs: int)
    requires EndsWith(src, i, p, s) && 0 < s < |p| && i < |src| && src[i] != p[s]
    requires IsLongestBorder(p, s, fs)
    requires forall k :: s < k < |p| && EndsWith(src, i, p, k) ==> src[i] != p[k]
    ensures EndsWith(src, i, p, fs)
    ensures forall k :: fs < k < |p| && EndsWith(src, i, p, k) ==> src[i] != p[k]
  {
    EndsWithBorder(src, i, p, s, fs);
    forall k | fs < k < s && EndsWith(src, i, p, k)
      ensures false
    {
      EndsWithBoth(src, i, p, k, s);
    }
  }

  /** After the character `src[i]` is consumed, `s1` is the longest matched prefix. */
  lemma ScanLongest<T>(src: seq<T>, i: int, i1: int, p: seq<T>, s0: int, s1: int)
    requires 0 <= s0 < |p| && 0 <= i < |src| && i1 == i + 1
    requires s1 == if src[i] == p[s0] then s0 + 1 else s0
    requires forall k :: s0 < k < |p| && EndsWith(src, i, p, k) ==> src[i] != p[k]
    ensures forall k :: s1 < k <= |p| ==> !EndsWith(src, i1, p, k)
  {
    forall k | s1 < k <= |p| && EndsWith(src, i1, p, k)
      ensures false
    {
      EndsWithShrink(src, i, p, k);
    }
  }
}
