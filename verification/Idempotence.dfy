/** Redacting twice when the text holds allow-listed tokens. */
module Idempotence {
  import opened Regexp
  import opened Redaction
  import opened Replacing
  import opened Completeness
  import opened Restoration
  import opened Alignment
  import opened AllowShape
  import opened Harmlessness

  predicate Opens(v: string) { v == "" || !IsWord(v[0]) }

  /** The text is one token. */
  ghost predicate Whole(tok: string) { Matches(ALLOW, tok, 0, |tok|) }

  /** No token starts in g. */
  ghost predicate NoneStarts(g: string, t: string)
    requires |g| <= |t|
  {
    forall m :: 0 <= m < |g| ==> !HitAt(ALLOW, t, m)
  }

  /** Gaps and tokens as the allow-list cuts a text: each token is one, none starts before it in its
      gap, and no word runs on into it or out of it. */
  ghost predicate Proper(gaps: seq<string>, toks: seq<string>)
    requires |gaps| == |toks| + 1
    decreases |toks|
  {
    toks != [] ==>
      var rest := Weave(gaps[1..], toks[1..]);
      && Whole(toks[0]) && NonWordEnd(gaps[0]) && Opens(rest)
      && NoneStarts(gaps[0], gaps[0] + toks[0] + rest)
      && Proper(gaps[1..], toks[1..])
  }

  lemma SuffixHit(x: string, k: nat, m: nat)
    requires k <= |x| && Opens(x[k..]) && HitAt(ALLOW, x[k..], m)
    ensures HitAt(ALLOW, x, k + m)
  {
    hide Matches, ALLOW, STRUCTURAL;
    var t := x[k..];
    var e :| m <= e <= |t| && Matches(ALLOW, t, m, e);
    AllowFacts('a');
    MatchFacts(ALLOW, t, m, e);
    SuffixSame(x, k, m, e);
    MoveMatch(ALLOW, t, m, e, x, k + m);
  }

  lemma SuffixSame(x: string, k: nat, m: nat, e: nat)
    requires k <= |x| && 0 < m < e <= |x| - k
    ensures SameWindow(ALLOW, x[k..], m, e, x, k + m)
  {
    var t := x[k..];
    assert forall n :: 0 <= n < |t| ==> t[n] == x[k + n];
  }

  lemma SliceWindow(x: string, i: nat, j: nat)
    requires i < j <= |x| && IsWord(x[i]) && IsWord(x[j - 1]) && Boundary(x, i) && Boundary(x, j)
    ensures SameWindow(ALLOW, x, i, j, x[i..j], 0)
  {
    var t := x[i..j];
    assert forall n :: 0 <= n < |t| ==> t[n] == x[i + n];
    assert forall n :: i <= n < j ==> x[n] == t[n - i];
    assert Boundary(t, 0) && Boundary(t, |t|);
  }

  lemma TokenIsWhole(x: string, i: nat, j: nat)
    requires i <= j <= |x| && Matches(ALLOW, x, i, j)
    ensures i < j && Whole(x[i..j]) && Opens(x[j..]) && (i == 0 || !IsWord(x[i - 1]))
  {
    hide Matches, ALLOW, STRUCTURAL, First, Last, Nullable, Over;
    AllowFacts('a');
    MatchFacts(ALLOW, x, i, j);
    BoundedMatch(ALLOW, x, i, j);
    SliceWindow(x, i, j);
    MoveMatch(ALLOW, x, i, j, x[i..j], 0);
  }

  lemma {:induction false} CutIsProper(x: string, k: nat)
    requires k <= |x| && (k == 0 || Opens(x[k..]))
    ensures !Nullable(ALLOW) && Proper(Cut(ALLOW, x, k).gaps, Cut(ALLOW, x, k).toks)
    decreases |x| - k
  {
    hide Matches, Ends, EndsEach, ALLOW, STRUCTURAL, HitAt, Whole, NoneStarts;
    TableIsSolid();
    var c := Cut(ALLOW, x, k);
    var i, j := Next(ALLOW, x, k);
    if i <= |x| {
      TokenIsWhole(x, i, j);
      CutIsProper(x, j);
      CutWeaves(ALLOW, x, j);
      var g, rest := x[k..i], Cut(ALLOW, x, j);
      assert c.gaps == [g] + rest.gaps && c.toks == [x[i..j]] + rest.toks;
      NoneStartsInGap(x, k, i);
      GapBefore(x, k, i, j);
      ProperCons(g, x[i..j], rest.gaps, rest.toks);
    }
  }

  lemma GapBefore(x: string, k: nat, i: nat, j: nat)
    requires k <= i < j <= |x| && (i == 0 || !IsWord(x[i - 1]))
    ensures NonWordEnd(x[k..i]) && x[k..] == x[k..i] + x[i..j] + x[j..]
  {
  }

  lemma ProperCons(g: string, tok: string, gaps: seq<string>, toks: seq<string>)
    requires |gaps| == |toks| + 1 && Proper(gaps, toks) && Whole(tok) && NonWordEnd(g) && Opens(Weave(gaps, toks))
    requires NoneStarts(g, g + tok + Weave(gaps, toks))
    ensures Proper([g] + gaps, [tok] + toks)
  {
    hide Whole, NoneStarts;
    assert ([g] + gaps)[1..] == gaps && ([tok] + toks)[1..] == toks;
  }

  lemma NoneStartsInGap(x: string, k: nat, i: nat)
    requires k <= i <= |x| && (k == 0 || Opens(x[k..])) && i == Find(ALLOW, x, k)
    ensures NoneStarts(x[k..i], x[k..])
  {
    hide Ends, EndsEach, ALLOW, HitAt;
    forall m | 0 <= m < i - k ensures !HitAt(ALLOW, x[k..], m) {
      NoEndsNoHit(ALLOW, x, k + m);
      assert k == 0 ==> x[k..] == x;
      if k > 0 && HitAt(ALLOW, x[k..], m) { SuffixHit(x, k, m); }
    }
  }

  // ---------------------------------------------------------------- a token among rewritten gaps

  lemma WholeFacts(tok: string)
    requires Whole(tok)
    ensures Matches(ALLOW, tok, 0, |tok|) && tok != "" && IsWord(tok[0]) && IsWord(tok[|tok| - 1])
  {
    hide Matches, ALLOW, STRUCTURAL;
    AllowFacts('a');
    MatchFacts(ALLOW, tok, 0, |tok|);
  }

  /** Wherever it stands between such neighbours, the scan finds the token whole. */
  lemma TokenStands(u: string, tok: string, v: string)
    requires Whole(tok) && NonWordEnd(u) && Opens(v)
    ensures var es := Ends(ALLOW, u + tok + v, |u|); es != [] && es[0] == |u| + |tok|
  {
    hide *;
    var y, n := u + tok + v, |u| + |tok|;
    TokenMoves(u, tok, v);
    EndsAreMatches(ALLOW, y, |u|, n);
    AllowFacts('a');
    FirstEnd(ALLOW, y, |u|);
    AllowIsToken(y, |u|, n);
    AllowIsToken(y, |u|, Ends(ALLOW, y, |u|)[0]);
    TokenEnd(y, |u|, n, Ends(ALLOW, y, |u|)[0]);
  }

  lemma TokenMoves(u: string, tok: string, v: string)
    requires Whole(tok) && NonWordEnd(u) && Opens(v)
    ensures Matches(ALLOW, u + tok + v, |u|, |u| + |tok|)
  {
    hide *;
    WholeFacts(tok);
    TokenWindow(u, tok, v);
    MoveMatch(ALLOW, tok, 0, |tok|, u + tok + v, |u|);
  }

  lemma TokenWindow(u: string, tok: string, v: string)
    requires tok != "" && IsWord(tok[0]) && IsWord(tok[|tok| - 1]) && NonWordEnd(u) && Opens(v)
    ensures SameWindow(ALLOW, tok, 0, |tok|, u + tok + v, |u|)
  {
    var y := u + tok + v;
    assert forall k :: 0 <= k < |tok| ==> tok[k] == y[k + |u|];
    assert u != "" ==> y[|u| - 1] == u[|u| - 1];
    assert v != "" ==> y[|u| + |tok|] == v[0];
    assert Boundary(tok, 0) && Boundary(tok, |tok|);
    assert Boundary(y, |u|) && Boundary(y, |u| + |tok|);
  }

  // ---------------------------------------------------------------- a gap before a token

  /** Left of |u| the engine finds in t what it finds in u alone. */
  ghost predicate Parted(u: string, t: string)
    requires |u| <= |t|
  {
    forall m :: 0 <= m < |u| ==> Ends(ALLOW, t, m) == Ends(ALLOW, u, m)
  }

  /** The gap is empty or ends in a character that no token contains. */
  predicate Shut(u: string) {
    u == "" || (var c := u[|u| - 1]; !IsWord(c) && c != '.' && c != '-')
  }

  lemma FoldedOver(w: string, c: char)
    requires forall k :: 0 <= k < |w| ==> IsLower(w[k]) || w[k] == '.'
    ensures Over(Word(w, true), c) ==> IsAlNum(c) || c == '.'
  {
    if Over(Word(w, true), c) {
      var k :| 0 <= k < |w| && (w[k] == c || w[k] == Low(c));
    }
  }

  lemma HostOver(c: char)
    ensures Over(EXAMPLE_COM, c) ==> IsAlNum(c) || c == '.' || c == '-'
  {
    var w, more := Word(".example.com", true), Star(Sym(AlNumDash));
    FoldedOver(".example.com", c);
    assert Over(more, c) == In(AlNumDash, c);
    var host := Cat(more, w);
    assert Over(host, c) == (Over(more, c) || Over(w, c));
    assert EXAMPLE_COM == Cat(Sym(Letter), host);
    assert Over(EXAMPLE_COM, c) == (Over(Sym(Letter), c) || Over(host, c));
  }

  lemma ComOver(c: char)
    ensures Over(COM_EXAMPLE, c) ==> IsAlNum(c) || c == '.'
  {
    var more := Star(Sym(AlNum));
    var name := Cat(Sym(Letter), more);
    FoldedOver("com.example.", c);
    assert Over(more, c) == In(AlNum, c);
    assert Over(name, c) == (Over(Sym(Letter), c) || Over(more, c));
  }

  lemma AllowOver(c: char)
    requires Over(ALLOW, c)
    ensures IsAlNum(c) || c == '.' || c == '-'
  {
    ComOver(c);
    HostOver(c);
    FoldedOver("developer.apple.com", c);
    FoldedOver("docs.aws.amazon.com", c);
    hide COM_EXAMPLE, EXAMPLE_COM;
    var hosts := Alt(EXAMPLE_COM, DOCS);
    var apple, amazon := Word("developer.apple.com", true), Word("docs.aws.amazon.com", true);
    assert Over(DOCS, c) == (Over(apple, c) || Over(amazon, c));
    var names := Alt(COM_EXAMPLE, hosts);
    assert Over(names, c) == (Over(COM_EXAMPLE, c) || Over(hosts, c));
    assert Over(Cat(names, Edge), c) == Over(names, c);
  }

  lemma ShutParts(u: string, x: string)
    requires Shut(u)
    ensures Parted(u, u + x)
  {
    hide Ends, EndsEach, Over, ALLOW;
    if u != "" {
      var t, n := u + x, |u| - 1;
      if Over(ALLOW, u[n]) { AllowOver(u[n]); }
      assert forall k :: 0 <= k < |u| ==> t[k] == u[k];
      forall m | 0 <= m < |u| ensures Ends(ALLOW, t, m) == Ends(ALLOW, u, m) {
        assert forall k :: 0 <= k <= n ==> Boundary(u, k) == Boundary(t, k);
        EndsInWindow(ALLOW, u, m, n, t, m);
      }
    }
  }

  lemma FillerParts(u: string, f: string, v: string)
    requires Filler(f)
    ensures Parted(u, u + f + v)
  {
    hide Ends, EndsEach, Over, ALLOW;
    var t, n := u + f + v, |u|;
    assert t[n] == f[0];
    if Over(ALLOW, t[n]) { AllowOver(t[n]); }
    forall m | 0 <= m < |u| ensures Ends(ALLOW, t, m) == Ends(ALLOW, u, m) {
      PrefixWindow(ALLOW, u, f, v, m, n);
      EndsInWindow(ALLOW, u, m, n, t, m);
    }
  }

  /** The sentinel is no token and starts none. */
  lemma NoTokenInSentinel(u: string, v: string, m: nat)
    requires |u| <= m < |u| + |SENTINEL|
    ensures Ends(ALLOW, u + SENTINEL + v, m) == []
  {
    var t, n := u + SENTINEL + v, |u|;
    assert forall k :: n <= k < n + 7 ==> t[k] == SENTINEL[k - n];
    NoEndsNoHit(ALLOW, t, m);
    if HitAt(ALLOW, t, m) {
      var e :| m <= e <= |t| && Matches(ALLOW, t, m, e);
      AllowIsToken(t, m, e);
      AllowFacts('a');
      MatchFacts(ALLOW, t, m, e);
      TokenHasDot(t, m, e, n + 6);
    }
  }

  lemma TokenHasDot(t: string, m: nat, e: nat, z: nat)
    requires Token(t, m, e) && m <= z < |t| && !IsWord(t[z]) && t[z] != '.' && t[z] != '-'
    ensures exists k :: m <= k < z && t[k] == '.'
  {
  }

  /** If no token started in the gap, none does whatever now follows the token behind it: one that
      did would contain that token strictly, or would have been there before. */
  lemma UntouchedParts(g: string, tok: string, v: string, v': string)
    requires Whole(tok) && NonWordEnd(g) && Opens(v) && Opens(v')
    requires NoneStarts(g, g + tok + v)
    ensures NoneStarts(g, g + tok + v') && Parted(g, g + tok + v')
  {
    hide Ends, EndsEach, Matches, ALLOW, STRUCTURAL, NonWordEnd, Opens;
    forall m | 0 <= m < |g|
      ensures !HitAt(ALLOW, g + tok + v', m) && Ends(ALLOW, g + tok + v', m) == Ends(ALLOW, g, m)
    {
      NoEndsNoHit(ALLOW, g + tok + v', m);
      NoEndsNoHit(ALLOW, g, m);
      if HitAt(ALLOW, g + tok + v', m) { HitStays(g, tok, v', v, m); }
      if HitAt(ALLOW, g, m) { HitInGap(g, tok, v, m); }
    }
  }

  lemma HitStays(g: string, tok: string, v': string, v: string, m: nat)
    requires Whole(tok) && NonWordEnd(g) && Opens(v) && Opens(v')
    requires m < |g| && HitAt(ALLOW, g + tok + v', m)
    ensures HitAt(ALLOW, g + tok + v, m)
  {
    hide Ends, EndsEach, Matches, ALLOW, STRUCTURAL, Token;
    var s, t, n := g + tok + v', g + tok + v, |g| + |tok|;
    var e :| m <= e <= |s| && Matches(ALLOW, s, m, e);
    TokenMoves(g, tok, v');
    AllowIsToken(s, m, e);
    AllowIsToken(s, |g|, n);
    NoTokenInside(s, m, e, |g|, n);
    AllowFacts('a');
    MatchFacts(ALLOW, s, m, e);
    MatchFacts(ALLOW, s, |g|, n);
    PrefixesAgree(g + tok, v', v, m, e);
    MoveMatch(ALLOW, s, m, e, t, m);
  }

  lemma PrefixesAgree(u: string, v: string, v': string, m: nat, e: nat)
    requires m < e <= |u| && Opens(v) && Opens(v')
    ensures SameWindow(ALLOW, u + v, m, e, u + v', m)
  {
    var s, t := u + v, u + v';
    assert forall k :: 0 <= k < |u| ==> s[k] == u[k] == t[k];
    assert WordAt(s, e) == WordAt(t, e);
  }

  lemma HitInGap(g: string, tok: string, v: string, m: nat)
    requires NonWordEnd(g) && m < |g| && HitAt(ALLOW, g, m)
    ensures HitAt(ALLOW, g + tok + v, m)
  {
    hide Ends, EndsEach, Matches, ALLOW, STRUCTURAL;
    var e :| m <= e <= |g| && Matches(ALLOW, g, m, e);
    AllowFacts('a');
    MatchFacts(ALLOW, g, m, e);
    assert e < |g|;
    var t := g + tok + v;
    assert forall k :: 0 <= k < |g| ==> t[k] == g[k];
    MoveMatch(ALLOW, g, m, e, t, m);
  }

  // ---------------------------------------------------------------- stashing again

  /** Behind a token the scan goes on as if the text began there. */
  lemma StashAfter(x: string, v: string)
    requires Opens(v)
    ensures !Nullable(ALLOW) && Sub(ALLOW, SENTINEL, x + v, |x|) == Sub(ALLOW, SENTINEL, v, 0)
  {
    hide Ends, EndsEach, Matches, ALLOW, STRUCTURAL, Sub;
    AllowFacts('a');
    var t := x + v;
    if v == "" {
      StashNothing(t);
      StashNothing(v);
    } else {
      NoTokenAtNonWord(t, |x|);
      NoTokenAtNonWord(v, 0);
      assert t[|x|] == v[0];
      SubSkip(ALLOW, SENTINEL, t, |x|, |x| + 1);
      SubSkip(ALLOW, SENTINEL, v, 0, 1);
      var w := v[1..];
      assert t == (x + [v[0]]) + w && v == [v[0]] + w;
      SubSuffix(ALLOW, SENTINEL, x + [v[0]], w, t, 0);
      SubSuffix(ALLOW, SENTINEL, [v[0]], w, v, 0);
      assert t[|x|..|x| + 1] == v[0..1];
    }
  }

  lemma NoTokenAtNonWord(s: string, k: nat)
    requires k < |s| && !IsWord(s[k])
    ensures Ends(ALLOW, s, k) == []
  {
    hide Matches, ALLOW, STRUCTURAL, Ends;
    NoEndsNoHit(ALLOW, s, k);
    if HitAt(ALLOW, s, k) {
      var e :| k <= e <= |s| && Matches(ALLOW, s, k, e);
      MatchFacts(ALLOW, s, k, e);
    }
  }

  lemma StashNothing(s: string)
    ensures !Nullable(ALLOW) && Sub(ALLOW, SENTINEL, s, |s|) == ""
  {
    hide Ends, EndsEach, Matches, ALLOW, STRUCTURAL, Sub;
    AllowFacts('a');
    var i, j := Next(ALLOW, s, |s|);
    SubNext(ALLOW, SENTINEL, s, |s|, i, j);
  }

  lemma StashSplits(u: string, tok: string, v: string)
    requires Whole(tok) && NonWordEnd(u) && Opens(v) && Parted(u, u + tok + v)
    ensures !Nullable(ALLOW)
    ensures Sub(ALLOW, SENTINEL, u + tok + v, 0) == Sub(ALLOW, SENTINEL, u, 0) + SENTINEL + Sub(ALLOW, SENTINEL, v, 0)
  {
    hide Ends, EndsEach, Matches, ALLOW, STRUCTURAL, Sub, SENTINEL, Whole;
    AllowFacts('a');
    var t := u + tok + v;
    assert u <= t;
    SubPrefix(ALLOW, SENTINEL, u, t, 0);
    TokenStands(u, tok, v);
    FirstEnd(ALLOW, t, |u|);
    assert NextIs(ALLOW, t, |u|, |u|, |u| + |tok|);
    SubNext(ALLOW, SENTINEL, t, |u|, |u|, |u| + |tok|);
    assert t == (u + tok) + v;
    StashAfter(u + tok, v);
    assert t[|u|..|u|] == "";
    AppendSum(Sub(ALLOW, SENTINEL, u, 0), SENTINEL, Sub(ALLOW, SENTINEL, v, 0));
  }

  lemma SentinelSplits(u: string, v: string)
    ensures !Nullable(ALLOW)
    ensures Sub(ALLOW, SENTINEL, u + SENTINEL + v, 0) == Sub(ALLOW, SENTINEL, u, 0) + SENTINEL + Sub(ALLOW, SENTINEL, v, 0)
  {
    AllowFacts('a');
    FillersAreFillers();
    FillerParts(u, SENTINEL, v);
    forall m | |u| <= m < |u| + |SENTINEL| ensures Ends(ALLOW, u + SENTINEL + v, m) == [] {
      NoTokenInSentinel(u, v, m);
    }
    hide Ends, EndsEach, Matches, ALLOW, STRUCTURAL, Sub;
    SubSplits(ALLOW, SENTINEL, u, SENTINEL, v, u + SENTINEL + v);
  }

  // ---------------------------------------------------------------- gaps after the passes

  lemma ScrubStarts(p: nat, s: string)
    requires p < 8
    ensures s == "" ==> Scrub(p, s) == ""
    ensures s != "" && !IsWord(s[0]) ==> Scrub(p, s) != "" && Scrub(p, s)[0] == s[0]
  {
    hide Ends, EndsEach, Sub, Matches, First, Last, Over;
    TableFacts(p);
    var q, f := STRUCTURAL[p].re, STRUCTURAL[p].placeholder;
    var i, j := Next(q, s, 0);
    SubNext(q, f, s, 0, i, j);
    if i <= |s| {
      assert Rewriter(q);
      MatchFacts(q, s, i, j);
      if !IsWord(s[0]) { FirstKept(s, i, f + Sub(q, f, s, j)); }
      AppendSum(s[0..i], f, Sub(q, f, s, j));
    }
  }

  lemma FirstKept(s: string, i: nat, more: string)
    requires 0 < i <= |s|
    ensures (s[0..i] + more)[0] == s[0]
  {
  }

  lemma ScrubEnds(p: nat, s: string)
    requires p < 8
    ensures Shut(s) ==> Shut(Scrub(p, s))
    ensures NonWordEnd(s) ==> NonWordEnd(Scrub(p, s))
  {
    hide Ends, EndsEach, Sub, Matches, Filler;
    TableFacts(p);
    FillersAreFillers();
    SubEnd(STRUCTURAL[p].re, STRUCTURAL[p].placeholder, s, 0);
  }

  lemma ScrubEdges(p: nat, s: string)
    requires p < 8
    ensures s == "" ==> Scrub(p, s) == ""
    ensures s != "" && !IsWord(s[0]) ==> Scrub(p, s) != "" && Scrub(p, s)[0] == s[0]
    ensures Shut(s) ==> Shut(Scrub(p, s))
    ensures NonWordEnd(s) ==> NonWordEnd(Scrub(p, s))
  {
    hide Scrub, Shut, NonWordEnd;
    ScrubStarts(p, s);
    ScrubEnds(p, s);
  }

  /** The rewritten text ends as the text does, or with a placeholder. */
  lemma {:induction false} SubEnd(q: Re, f: string, s: string, k: nat)
    requires !Nullable(q) && Filler(f) && k <= |s|
    ensures var r := Sub(q, f, s, k);
      r != "" ==> EdgeChar(r[|r| - 1]) || (k < |s| && r[|r| - 1] == s[|s| - 1])
    decreases |s| - k
  {
    hide Ends, EndsEach, Sub, Matches;
    var i, j := Next(q, s, k);
    SubNext(q, f, s, k, i, j);
    if i <= |s| {
      SubEnd(q, f, s, j);
      LastOfSum(s[k..i], f);
      LastOfSum(s[k..i] + f, Sub(q, f, s, j));
    }
  }

  lemma {:induction false} RewriteEdges(k: nat, s: string)
    requires k <= 8
    ensures s == "" ==> Rewrite(k, s) == ""
    ensures s != "" && !IsWord(s[0]) ==> Rewrite(k, s) != "" && Rewrite(k, s)[0] == s[0]
    ensures Shut(s) ==> Shut(Rewrite(k, s))
    ensures NonWordEnd(s) ==> NonWordEnd(Rewrite(k, s))
    decreases 8 - k
  {
    hide Scrub;
    if k < 8 {
      ScrubEdges(k, s);
      RewriteEdges(k + 1, Scrub(k, s));
    }
  }

  // ---------------------------------------------------------------- tokens between gaps

  /** Every token is one, and no word runs on into it or out of it. */
  ghost predicate Framed(gaps: seq<string>, toks: seq<string>)
    requires |gaps| == |toks| + 1
    decreases |toks|
  {
    toks != [] ==>
      && Whole(toks[0]) && NonWordEnd(gaps[0]) && Opens(Weave(gaps[1..], toks[1..]))
      && Framed(gaps[1..], toks[1..])
  }

  /** No token reaches out of a gap into the next one. */
  ghost predicate AllParted(gaps: seq<string>, toks: seq<string>)
    requires |gaps| == |toks| + 1
    decreases |toks|
  {
    toks != [] ==>
      && Parted(gaps[0], gaps[0] + toks[0] + Weave(gaps[1..], toks[1..]))
      && AllParted(gaps[1..], toks[1..])
  }

  /** Between such gaps the tokens are stashed again, besides what may be uncovered in the gaps. */
  lemma {:induction false} StashAgrees(gaps: seq<string>, toks: seq<string>)
    requires |gaps| == |toks| + 1 && Framed(gaps, toks) && AllParted(gaps, toks)
    ensures Stashed(Weave(gaps, toks)) == Stashed(Join(gaps, SENTINEL))
    decreases |toks|
  {
    hide Ends, EndsEach, Sub, Matches, ALLOW, STRUCTURAL, SENTINEL, Whole, Parted, Stashed;
    if toks != [] {
      var u, v, z := gaps[0], Weave(gaps[1..], toks[1..]), Join(gaps[1..], SENTINEL);
      StashSplits(u, toks[0], v);
      SentinelSplits(u, z);
      StashAgrees(gaps[1..], toks[1..]);
      StashIsSub(u + toks[0] + v);
      StashIsSub(u + SENTINEL + z);
      StashIsSub(v);
      StashIsSub(z);
    }
  }

  lemma StashIsSub(s: string)
    ensures !Nullable(ALLOW) && Stashed(s) == Sub(ALLOW, SENTINEL, s, 0)
  {
    TableIsSolid();
  }

  lemma TokenFirst(gaps: seq<string>, toks: seq<string>)
    requires |gaps| == |toks| + 1 && toks != [] && Whole(toks[0]) && gaps[0] == ""
    ensures !Opens(Weave(gaps, toks))
  {
    hide Matches, ALLOW, STRUCTURAL;
    AllowFacts('a');
    MatchFacts(ALLOW, toks[0], 0, |toks[0]|);
    assert Weave(gaps, toks)[0] == toks[0][0];
  }

  /** No structural pattern matches in the gap, or it ends in a character no token contains. */
  ghost predicate Steady(g: string) { AllClear(g) || Shut(g) }

  lemma GapIsParted(g: string, tok: string, rest: string, v: string)
    requires Steady(g) && Whole(tok) && NonWordEnd(g) && Opens(rest) && Opens(v) && NoneStarts(g, g + tok + rest)
    ensures Parted(Rewrite(0, g), Rewrite(0, g) + tok + v)
  {
    hide Rewrite, Whole, NoneStarts, Parted, AllClear, Shut, Opens, NonWordEnd;
    var u := Rewrite(0, g);
    if Shut(g) {
      RewriteEdges(0, g);
      ShutParts(u, tok + v);
      assert u + (tok + v) == u + tok + v;
    } else {
      ClearRewrite(0, g);
      UntouchedParts(g, tok, rest, v);
    }
  }

  // ---------------------------------------------------------------- the second run

  lemma {:induction false} WeaveNulFree(gaps: seq<string>, toks: seq<string>)
    requires |gaps| == |toks| + 1 && AllNulFree(gaps) && AllNulFree(toks)
    ensures NulFree(Weave(gaps, toks))
    decreases |toks|
  {
    if toks != [] { WeaveNulFree(gaps[1..], toks[1..]); }
  }

  lemma RestashedIsClear(z: string)
    requires AllClear(z)
    ensures AllClear(Stashed(z))
  {
    TableIsSolid();
    FillersAreFillers();
    AllowFacts('a');
    StashIsSub(z);
    var s := Stashed(z);
    assert "" + z[0..] == z && "" + s == s;
    forall p | 0 <= p < 8 ensures NoHit(STRUCTURAL[p].re, s) {
      CutKeeps(p, ALLOW, SENTINEL, z, 0, "");
    }
  }

  /** Gaps that are clear between sentinels pass with the tokens between them. */
  lemma WovenPasses(gaps: seq<string>, toks: seq<string>)
    requires |gaps| == |toks| + 1 && AllNulFree(gaps) && AllNulFree(toks)
    requires Framed(gaps, toks) && AllParted(gaps, toks) && AllClear(Join(gaps, SENTINEL))
    ensures Redacted(PLAIN, Weave(gaps, toks)) == Result(Weave(gaps, toks), [])
  {
    hide Stashed, STRUCTURAL, ALLOW, Redacted, Framed, AllParted;
    StashAgrees(gaps, toks);
    RestashedIsClear(Join(gaps, SENTINEL));
    WeaveNulFree(gaps, toks);
    ClearStashPasses(Weave(gaps, toks));
  }

  /** What the structural passes make of a text is clear. */
  lemma RewriteIsClear(s: string)
    ensures AllClear(Rewrite(0, s))
  {
    hide Rewrite;
    TableIsSolid();
    StructuralPassesAreComplete(s);
    assert STRUCTURAL[0..] == STRUCTURAL;
    RewriteIsPasses(0, Work(s, []));
  }

  /** The passes leave a text alone exactly if none of the patterns matches. */
  lemma UntouchedIffClear(g: string)
    ensures Rewrite(0, g) == g <==> AllClear(g)
  {
    hide Rewrite;
    RewriteIsClear(g);
    if AllClear(g) { ClearRewrite(0, g); }
  }

  lemma TextIsProper(text: string)
    ensures Proper(Gaps(text), Tokens(text))
    ensures NulFree(text) ==> AllNulFree(Gaps(text)) && AllNulFree(Tokens(text))
  {
    hide Matches, Ends, EndsEach, ALLOW, STRUCTURAL;
    TableIsSolid();
    CutIsProper(text, 0);
    if NulFree(text) { CutNulFree(ALLOW, text, 0); }
  }
}
