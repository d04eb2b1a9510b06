/** How ReplaceAll acts on the parts of a text: a stretch without matches is copied, a suffix is
    rewritten on its own, and a separator no match touches splits the work in two. */
module Replacing {
  import opened Regexp

  /** What replacing every match by f makes of the text from k on. */
  function Sub(q: Re, f: string, s: string, k: nat): string
    requires !Nullable(q) && k <= |s|
  {
    Join(Cut(q, s, k).gaps, f)
  }

  /** The next match from k on is s[i..j); there is none when i > |s|. */
  ghost predicate NextIs(q: Re, s: string, k: nat, i: nat, j: nat)
    requires k <= |s|
  {
    i == Find(q, s, k) && (i <= |s| ==> i < j <= |s| && j == Ends(q, s, i)[0])
  }

  lemma Next(q: Re, s: string, k: nat) returns (i: nat, j: nat)
    requires !Nullable(q) && k <= |s|
    ensures k <= i && NextIs(q, s, k, i, j) && (i <= |s| ==> Matches(q, s, i, j))
  {
    i, j := Find(q, s, k), 0;
    if i <= |s| {
      FirstEnd(q, s, i);
      j := Ends(q, s, i)[0];
    }
  }

  /** One step of the scan. */
  lemma SubNext(q: Re, f: string, s: string, k: nat, i: nat, j: nat)
    requires !Nullable(q) && k <= |s| && NextIs(q, s, k, i, j)
    ensures i > |s| ==> Sub(q, f, s, k) == s[k..]
    ensures k <= i && (i <= |s| ==> i < j <= |s| && Sub(q, f, s, k) == s[k..i] + f + Sub(q, f, s, j))
  {
    if i <= |s| {
      var j', out, toks := CutStep(q, s, k, f, Join(Cut(q, s, k).gaps, f), Cut(q, s, k).toks);
    }
  }

  lemma {:induction false} FindSkip(q: Re, s: string, k: nat, n: nat)
    requires k <= n <= |s| && forall m :: k <= m < n ==> Ends(q, s, m) == []
    ensures Find(q, s, k) == Find(q, s, n)
    decreases n - k
  {
    hide Ends, EndsEach;
    if k < n {
      assert Ends(q, s, k) == [];
      FindSkip(q, s, k + 1, n);
    }
  }

  /** A stretch in which no match starts is copied. */
  lemma SubSkip(q: Re, f: string, s: string, k: nat, n: nat)
    requires !Nullable(q) && k <= n <= |s| && forall m :: k <= m < n ==> Ends(q, s, m) == []
    ensures Sub(q, f, s, k) == s[k..n] + Sub(q, f, s, n)
  {
    FindSkip(q, s, k, n);
    var i, j := Next(q, s, n);
    SubNext(q, f, s, k, i, j);
    SubNext(q, f, s, n, i, j);
    SplitSlice(s, k, n, if i <= |s| then i else |s|);
    if i <= |s| { Reassociate(s[k..n], s[n..i], f, Sub(q, f, s, j)); }
  }

  lemma SplitSlice(s: string, k: nat, n: nat, i: nat)
    requires k <= n <= i <= |s|
    ensures s[k..i] == s[k..n] + s[n..i]
    ensures s[k..] == s[k..n] + s[n..]
  {
  }

  predicate NonWordEnd(x: string) { x == [] || !IsWord(x[|x| - 1]) }

  /** A suffix is rewritten the same whatever comes before, if its left edge agrees. */
  lemma {:induction false} SubSuffix(q: Re, f: string, x: string, v: string, t: string, k: nat)
    requires !Nullable(q) && k <= |v| && (NoEdge(q) || NonWordEnd(x)) && t == x + v
    ensures Sub(q, f, t, |x| + k) == Sub(q, f, v, k)
    decreases |v| - k
  {
    hide *;
    var i, j := Next(q, v, k);
    SuffixNext(q, x, v, t, k, i, j);
    SubNext(q, f, v, k, i, j);
    SubNext(q, f, t, |x| + k, |x| + i, |x| + j);
    if i <= |v| {
      SuffixSlice(x, v, k, i);
      SubSuffix(q, f, x, v, t, j);
    } else {
      SuffixSlice(x, v, k, |v|);
    }
  }

  lemma SuffixSlice(x: string, v: string, k: nat, i: nat)
    requires k <= i <= |v|
    ensures (x + v)[|x| + k..|x| + i] == v[k..i] && (x + v)[|x| + k..] == v[k..]
  {
  }

  lemma SuffixNext(q: Re, x: string, v: string, t: string, k: nat, i: nat, j: nat)
    requires k <= |v| && (NoEdge(q) || NonWordEnd(x)) && t == x + v
    requires NextIs(q, v, k, i, j)
    ensures NextIs(q, t, |x| + k, |x| + i, |x| + j)
  {
    hide Ends, EndsEach;
    forall m | k <= m <= |v| ensures Shifted(Ends(q, v, m), Ends(q, t, |x| + m), |x|) {
      SuffixWindow(q, x, v, m);
      EndsInWindow(q, v, m, |v|, t, |x| + m);
    }
    FindShifted(q, v, t, |x|, k);
    assert i <= |v| ==> Shifted(Ends(q, v, i), Ends(q, t, |x| + i), |x|);
  }

  lemma SuffixWindow(q: Re, x: string, v: string, m: nat)
    requires m <= |v| && (NoEdge(q) || NonWordEnd(x))
    ensures SameWindow(q, v, m, |v|, x + v, |x| + m)
  {
    var t := x + v;
    assert forall k :: 0 <= k < |v| ==> t[k + |x|] == v[k];
    assert forall k :: m <= k < |v| ==> v[k] == t[k - m + (|x| + m)];
    if !NoEdge(q) {
      assert forall k :: 0 <= k <= |v| ==> Boundary(v, k) == Boundary(t, |x| + k);
    }
  }

  lemma {:induction false} FindShifted(q: Re, v: string, t: string, d: nat, k: nat)
    requires k <= |v| && |t| == d + |v|
    requires forall m :: k <= m <= |v| ==> Shifted(Ends(q, v, m), Ends(q, t, d + m), d)
    ensures Find(q, t, d + k) == d + Find(q, v, k)
    decreases |v| - k
  {
    hide Ends, EndsEach;
    assert Shifted(Ends(q, v, k), Ends(q, t, d + k), d);
    if Ends(q, v, k) == [] && k < |v| {
      assert d + k < |t|;
      FindShifted(q, v, t, d, k + 1);
    }
  }

  /** Where the engine finds in t what it finds in its beginning u, the pass rewrites u on its own
      and goes on behind it. */
  lemma {:induction false} SubPrefix(q: Re, f: string, u: string, t: string, k: nat)
    requires !Nullable(q) && k <= |u| && u <= t
    requires forall m :: 0 <= m < |u| ==> Ends(q, t, m) == Ends(q, u, m)
    ensures Sub(q, f, t, k) == Sub(q, f, u, k) + Sub(q, f, t, |u|)
    decreases |u| - k
  {
    hide Ends, EndsEach, Sub;
    var i, j := Next(q, u, k);
    SubNext(q, f, u, k, i, j);
    if i <= |u| {
      PrefixNext(q, u, t, k, i, j);
      SubNext(q, f, t, k, i, j);
      SubPrefix(q, f, u, t, j);
      PrefixSlice(u, t, k, i);
      AppendSum(u[k..i] + f, Sub(q, f, u, j), Sub(q, f, t, |u|));
    } else {
      NoneBefore(q, u, t, k);
      SubSkip(q, f, t, k, |u|);
      PrefixSlice(u, t, k, |u|);
    }
  }

  lemma NoneBefore(q: Re, u: string, t: string, k: nat)
    requires k <= |u| && u <= t && Find(q, u, k) > |u|
    requires forall m :: 0 <= m < |u| ==> Ends(q, t, m) == Ends(q, u, m)
    ensures forall m :: k <= m < |u| ==> Ends(q, t, m) == []
  {
    hide Ends, EndsEach;
    assert forall m :: k <= m < |u| ==> Ends(q, u, m) == [];
  }

  lemma PrefixNext(q: Re, u: string, t: string, k: nat, i: nat, j: nat)
    requires k <= i <= |u| && u <= t && NextIs(q, u, k, i, j)
    requires forall m :: 0 <= m < |u| ==> Ends(q, t, m) == Ends(q, u, m)
    ensures NextIs(q, t, k, i, j)
  {
    hide Ends, EndsEach;
    assert i < |u| && Ends(q, t, i) == Ends(q, u, i);
    assert forall m :: k <= m < i ==> Ends(q, t, m) == Ends(q, u, m) == [];
    FindSkip(q, t, k, i);
  }

  lemma PrefixSlice(u: string, t: string, k: nat, i: nat)
    requires k <= i <= |u| && u <= t
    ensures t[k..i] == u[k..i] && (i == |u| ==> u[k..i] == u[k..])
  {
  }

  lemma AppendSum(a: string, b: string, c: string)
    ensures a + (b + c) == a + b + c
  {
  }

  /** A separator f that no match reaches from u, and in which none starts, splits the pass. */
  lemma SubSplits(q: Re, g: string, u: string, f: string, v: string, t: string)
    requires !Nullable(q) && t == u + f + v
    requires forall m :: 0 <= m < |u| ==> Ends(q, t, m) == Ends(q, u, m)
    requires forall m :: |u| <= m < |u| + |f| ==> Ends(q, t, m) == []
    requires NoEdge(q) || (f != [] && NonWordEnd(f))
    ensures Sub(q, g, t, 0) == Sub(q, g, u, 0) + f + Sub(q, g, v, 0)
  {
    hide Ends, EndsEach, Sub, NoEdge;
    var n := |u| + |f|;
    assert u <= t;
    SubPrefix(q, g, u, t, 0);
    SubSkip(q, g, t, |u|, n);
    assert t[|u|..n] == f;
    LastOfSum(u, f);
    SubSuffix(q, g, u + f, v, t, 0);
    AppendSum(Sub(q, g, u, 0), f, Sub(q, g, v, 0));
  }

  lemma LastOfSum(x: string, y: string)
    ensures y == [] ==> x + y == x
    ensures y != [] ==> (x + y)[|x + y| - 1] == y[|y| - 1]
  {
  }
}
