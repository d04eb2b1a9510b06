/** Whether every stashed token returns to its place. The ARN class swallows a sentinel, so the
    answer depends on the text, and the condition below is exact. */
module Alignment {
  import opened Text
  import opened Regexp
  import opened Redaction
  import opened Replacing
  import opened Completeness
  import opened Restoration

  /** The text after one structural pass. */
  function Scrub(p: nat, s: string): string
    requires p < 8
  {
    TableFacts(p);
    Sub(STRUCTURAL[p].re, STRUCTURAL[p].placeholder, s, 0)
  }

  // ---------------------------------------------------------------- a filler splits a pass

  /** An "arn:aws:" at a, and in u no space or quote behind it. */
  predicate ReachesFrom(u: string, a: nat) {
    LiteralAt("arn:aws:", false, u, a) && forall k :: a + 8 <= k < |u| ==> !IsStop(u[k])
  }

  /** Every "arn:aws:" of u is followed, in u, by a space or a quote. */
  predicate NoArnReaches(u: string) {
    forall a :: 0 <= a <= |u| ==> !ReachesFrom(u, a)
  }

  /** Left of a filler the engine finds what it finds in the left part alone. */
  lemma EndsLeftOfFiller(p: nat, u: string, f: string, v: string, m: nat)
    requires p < 8 && Filler(f) && m <= |u| && (p == 0 ==> NoArnReaches(u))
    ensures Ends(STRUCTURAL[p].re, u + f + v, m) == Ends(STRUCTURAL[p].re, u, m)
  {
    var q, t := STRUCTURAL[p].re, u + f + v;
    assert t[|u|] == f[0];
    var j := |u|;
    if p == 0 {
      if !LiteralAt("arn:aws:", false, u, m) {
        NoArnWithoutLiteral(u, f, v, m);
        return;
      }
      assert !ReachesFrom(u, m);
      j :| m + 8 <= j < |u| && IsStop(u[j]);
      ArnOver(u[j]);
    } else {
      if Over(q, f[0]) { OverFacts(p, f[0]); }
    }
    TableFacts(p);
    PrefixWindow(q, u, f, v, m, j);
    EndsInWindow(q, u, m, j, t, m);
  }

  lemma ArnOver(c: char)
    requires IsStop(c)
    ensures !Over(ARN, c)
  {
    assert !Over(Plus(NotSpaceQuote), c);
  }

  lemma PrefixWindow(q: Re, u: string, f: string, v: string, m: nat, j: nat)
    requires Filler(f) && m <= j <= |u|
    ensures SameWindow(q, u, m, j, u + f + v, m)
  {
    var t := u + f + v;
    assert t[|u|] == f[0];
    assert forall k :: 0 <= k < |u| ==> t[k] == u[k];
    assert forall k :: 0 <= k <= |u| ==> Boundary(u, k) == Boundary(t, k);
  }

  lemma ArnHitHasLiteral(s: string, m: nat)
    requires m <= |s| && !LiteralAt("arn:aws:", false, s, m)
    ensures Ends(ARN, s, m) == []
  {
    NoEndsNoHit(ARN, s, m);
  }

  lemma NoArnWithoutLiteral(u: string, f: string, v: string, m: nat)
    requires Filler(f) && m <= |u| && !LiteralAt("arn:aws:", false, u, m)
    ensures Ends(ARN, u, m) == [] && Ends(ARN, u + f + v, m) == []
  {
    var t, w := u + f + v, "arn:aws:";
    ArnHitHasLiteral(u, m);
    if LiteralAt(w, false, t, m) {
      ArnAvoidsFiller(u, f, v, m);
      forall k | 0 <= k < |w| ensures SameChar(false, w[k], u[m + k]) {
        assert SameChar(false, w[k], t[m + k]);
      }
    }
    ArnHitHasLiteral(t, m);
  }

  /** No match starts inside a filler. */
  lemma NoEndsInFiller(p: nat, u: string, f: string, v: string, m: nat)
    requires p < 8 && Filler(f) && |u| <= m < |u| + |f|
    ensures Ends(STRUCTURAL[p].re, u + f + v, m) == []
  {
    var q, t := STRUCTURAL[p].re, u + f + v;
    NoEndsNoHit(q, t, m);
    if HitAt(q, t, m) {
      var b :| m <= b <= |t| && Matches(q, t, m, b);
      if p == 0 {
        ArnMatch(t, m, b);
        ArnAvoidsFiller(u, f, v, m);
      } else {
        MatchAvoidsFiller(p, u, f, v, m, b);
      }
    }
  }

  lemma ScrubSplits(p: nat, u: string, f: string, v: string)
    requires p < 8 && Filler(f) && (p == 0 ==> NoArnReaches(u))
    ensures Scrub(p, u + f + v) == Scrub(p, u) + f + Scrub(p, v)
  {
    var q, t := STRUCTURAL[p].re, u + f + v;
    forall m | 0 <= m < |u| ensures Ends(q, t, m) == Ends(q, u, m) {
      EndsLeftOfFiller(p, u, f, v, m);
    }
    forall m | |u| <= m < |u| + |f| ensures Ends(q, t, m) == [] {
      NoEndsInFiller(p, u, f, v, m);
    }
    TableFacts(p);
    SubSplits(q, STRUCTURAL[p].placeholder, u, f, v, t);
  }

  /** The text after the passes from the k-th on. */
  function Rewrite(k: nat, s: string): string
    requires k <= 8
    decreases 8 - k
  {
    if k == 8 then s else Rewrite(k + 1, Scrub(k, s))
  }

  lemma {:induction false} RewriteIsPasses(k: nat, w: Work)
    requires k <= 8 && Solid(STRUCTURAL[k..])
    ensures Passes(STRUCTURAL[k..], w).out == Rewrite(k, w.out)
    decreases 8 - k
  {
    if k < 8 {
      var rest := STRUCTURAL[k..];
      assert rest[0] == STRUCTURAL[k] && rest[1..] == STRUCTURAL[k + 1..];
      RewriteIsPasses(k + 1, Pass(STRUCTURAL[k], w));
    }
  }

  lemma {:induction false} RewriteSplits(k: nat, u: string, f: string, v: string)
    requires k <= 8 && Filler(f) && (k == 0 ==> NoArnReaches(u))
    ensures Rewrite(k, u + f + v) == Rewrite(k, u) + f + Rewrite(k, v)
    decreases 8 - k
  {
    if k < 8 {
      ScrubSplits(k, u, f, v);
      RewriteSplits(k + 1, Scrub(k, u), f, Scrub(k, v));
    }
  }

  /** Each gap through the structural passes on its own. */
  function RewriteAll(gaps: seq<string>): (r: seq<string>)
    ensures |r| == |gaps|
  {
    if gaps == [] then [] else [Rewrite(0, gaps[0])] + RewriteAll(gaps[1..])
  }

  lemma {:induction false} RewriteJoin(gaps: seq<string>)
    requires gaps != [] && forall n :: 0 <= n < |gaps| - 1 ==> NoArnReaches(gaps[n])
    ensures Rewrite(0, Join(gaps, SENTINEL)) == Join(RewriteAll(gaps), SENTINEL)
    decreases |gaps|
  {
    if |gaps| > 1 {
      FillersAreFillers();
      RewriteSplits(0, gaps[0], SENTINEL, Join(gaps[1..], SENTINEL));
      RewriteJoin(gaps[1..]);
      assert RewriteAll(gaps)[1..] == RewriteAll(gaps[1..]);
    } else {
      assert RewriteAll(gaps) == [Rewrite(0, gaps[0])];
    }
  }

  lemma {:induction false} RewriteNulFree(k: nat, s: string)
    requires k <= 8 && NulFree(s)
    ensures NulFree(Rewrite(k, s))
    decreases 8 - k
  {
    if k < 8 {
      ScrubNulFree(k, s);
      RewriteNulFree(k + 1, Scrub(k, s));
    }
  }

  lemma ScrubNulFree(p: nat, s: string)
    requires p < 8 && NulFree(s)
    ensures NulFree(Scrub(p, s))
  {
    TableFacts(p);
    TableNulFree();
    CutNulFree(STRUCTURAL[p].re, s, 0);
    JoinNulFree(Cut(STRUCTURAL[p].re, s, 0).gaps, STRUCTURAL[p].placeholder);
  }

  lemma {:induction false} RewriteAllNulFree(gaps: seq<string>)
    requires AllNulFree(gaps)
    ensures AllNulFree(RewriteAll(gaps))
    decreases |gaps|
  {
    if gaps != [] {
      RewriteNulFree(0, gaps[0]);
      RewriteAllNulFree(gaps[1..]);
    }
  }

  // ---------------------------------------------------------------- when an ARN reaches a token

  lemma SymEnds(cls: Class, s: string, i: nat)
    requires i <= |s|
    ensures Ends(Sym(cls), s, i) == if i < |s| && In(cls, s[i]) then [i + 1] else []
  {
  }

  lemma AfterNext(i: nat)
    ensures After([i + 1], i) == [i + 1]
  {
    assert [i + 1][1..] == [];
  }

  lemma AfterNone(i: nat)
    ensures After([], i) == []
  {
  }

  /** The greedy end of a run of one class. */
  lemma {:induction false} StarIsGreedy(cls: Class, s: string, i: nat)
    requires i <= |s|
    ensures Ends(Star(Sym(cls)), s, i) != []
    ensures var e := Ends(Star(Sym(cls)), s, i)[0];
      i <= e <= |s| && (e == |s| || !In(cls, s[e]))
    decreases |s| - i
  {
    hide Ends, EndsEach, After;
    var r := Star(Sym(cls));
    StarEnds(Sym(cls), s, i);
    SymEnds(cls, s, i);
    if i < |s| && In(cls, s[i]) {
      AfterNext(i);
      EndsEachCons(r, s, [i + 1], i + 1);
      StarIsGreedy(cls, s, i + 1);
    } else if i < |s| {
      AfterNone(i);
      NoEndsEach(r, s, i + 1);
    }
  }

  /** Once it has begun, an ARN runs on to the next space or quote. */
  lemma ArnRunsOn(s: string, a: nat)
    requires LiteralAt("arn:aws:", false, s, a) && a + 8 < |s| && !IsStop(s[a + 8])
    ensures Ends(ARN, s, a) != []
    ensures var e := Ends(ARN, s, a)[0]; a + 9 <= e <= |s| && (e == |s| || IsStop(s[e]))
  {
    var more, plus := Star(Sym(NotSpaceQuote)), Plus(NotSpaceQuote);
    CatEnds(Lit("arn:aws:"), plus, s, a);
    assert Ends(Lit("arn:aws:"), s, a) == [a + 8];
    EndsEachCons(plus, s, [a + 8], a);
    CatEnds(Sym(NotSpaceQuote), more, s, a + 8);
    assert Ends(Sym(NotSpaceQuote), s, a + 8) == [a + 9];
    EndsEachCons(more, s, [a + 9], a + 8);
    StarIsGreedy(NotSpaceQuote, s, a + 9);
  }

  lemma LeastReach(u: string) returns (a: nat)
    requires !NoArnReaches(u)
    ensures ReachesFrom(u, a) && forall m :: 0 <= m < a ==> !ReachesFrom(u, m)
  {
    var b: nat :| b <= |u| && ReachesFrom(u, b);
    a := 0;
    while !ReachesFrom(u, a)
      invariant a <= b && forall m :: 0 <= m < a ==> !ReachesFrom(u, m)
      decreases b - a
    {
      a := a + 1;
    }
  }

  /** Two ARN prefixes cannot overlap. */
  lemma ArnLiteralsApart(s: string, m: nat, a: nat)
    requires m < a && LiteralAt("arn:aws:", false, s, m) && LiteralAt("arn:aws:", false, s, a)
    ensures m + 8 <= a
  {
    if a < m + 8 {
      var d := a - m;
      ArnLiteral(s, m, d);
      ArnLiteral(s, a, 0);
      if d == 4 {
        ArnLiteral(s, m, 5);
        ArnLiteral(s, a, 1);
      }
    }
  }

  lemma ArnLiteral(s: string, a: nat, k: nat)
    requires LiteralAt("arn:aws:", false, s, a) && k < 8
    ensures s[a + k] == "arn:aws:"[k]
  {
    var w := "arn:aws:";
    assert SameChar(false, w[k], s[a + k]);
  }

  /** Before the first ARN that reaches the end, the ARN pass does what it does without it. */
  lemma ScrubBeforeReach(g: string, a: nat, s: string)
    requires g <= s && ReachesFrom(g, a) && forall m :: 0 <= m < a ==> !ReachesFrom(g, m)
    ensures !Nullable(ARN)
    ensures Sub(ARN, "<ARN>", s, 0) == Scrub(0, g[..a]) + Sub(ARN, "<ARN>", s, a)
  {
    var u := g[..a];
    TableFacts(0);
    forall m | 0 <= m < |u| ensures Ends(ARN, s, m) == Ends(ARN, u, m) {
      ArnEndsBeforeReach(g, a, s, m);
    }
    SubPrefix(ARN, "<ARN>", u, s, 0);
  }

  lemma ArnEndsBeforeReach(g: string, a: nat, s: string, m: nat)
    requires g <= s && ReachesFrom(g, a) && m < a && !ReachesFrom(g, m)
    ensures Ends(ARN, s, m) == Ends(ARN, g[..a], m)
  {
    var u, w := g[..a], "arn:aws:";
    if LiteralAt(w, false, s, m) {
      LiteralInPrefix(g, s, a);
      ArnLiteralsApart(s, m, a);
      LiteralInPrefix(g, s, m);
      var k :| m + 8 <= k < |g| && IsStop(g[k]);
      assert k < a by { if a <= k < a + 8 { ArnLiteralChar(g, a, k); } }
      ArnOver(g[k]);
      TableFacts(0);
      EndsInWindow(ARN, u, m, k, s, m);
    } else {
      ArnHitHasLiteral(s, m);
      if LiteralAt(w, false, u, m) {
        forall k | 0 <= k < |w| ensures SameChar(false, w[k], s[m + k]) {
          assert SameChar(false, w[k], u[m + k]);
        }
      }
      ArnHitHasLiteral(u, m);
    }
  }

  lemma LiteralInPrefix(g: string, s: string, a: nat)
    requires g <= s && a + 8 <= |g|
    ensures LiteralAt("arn:aws:", false, s, a) <==> LiteralAt("arn:aws:", false, g, a)
  {
    var w := "arn:aws:";
    if LiteralAt(w, false, s, a) {
      forall k | 0 <= k < |w| ensures SameChar(false, w[k], g[a + k]) { assert SameChar(false, w[k], s[a + k]); }
    }
    if LiteralAt(w, false, g, a) {
      forall k | 0 <= k < |w| ensures SameChar(false, w[k], s[a + k]) { assert SameChar(false, w[k], g[a + k]); }
    }
  }

  // ---------------------------------------------------------------- counting what no pass removes

  /** How many characters of s are colons (or, with `stop`, spaces and quotes). */
  function Count(s: string, stop: bool): nat {
    if s == [] then 0
    else (if (if stop then IsStop(s[0]) else s[0] == ':') then 1 else 0) + Count(s[1..], stop)
  }

  lemma {:induction false} CountSum(a: string, b: string, stop: bool)
    ensures Count(a + b, stop) == Count(a, stop) + Count(b, stop)
    decreases |a|
  {
    if a == [] {
      assert a + b == b;
    } else {
      assert (a + b)[1..] == a[1..] + b;
      CountSum(a[1..], b, stop);
    }
  }

  lemma {:induction false} CountNone(s: string, stop: bool)
    requires forall k :: 0 <= k < |s| ==> s[k] != ':' && !IsStop(s[k])
    ensures Count(s, stop) == 0
    decreases |s|
  {
    if s != [] { CountNone(s[1..], stop); }
  }

  lemma {:induction false} SubKeepsCount(p: nat, s: string, k: nat, stop: bool)
    requires 1 <= p < 8 && k <= |s|
    ensures !Nullable(STRUCTURAL[p].re)
    ensures Count(Sub(STRUCTURAL[p].re, STRUCTURAL[p].placeholder, s, k), stop) == Count(s[k..], stop)
    decreases |s| - k
  {
    TableFacts(p);
    var q, f := STRUCTURAL[p].re, STRUCTURAL[p].placeholder;
    hide Ends, EndsEach, Sub, Count, Matches, Over, IsStop;
    var i, j := Next(q, s, k);
    SubNext(q, f, s, k, i, j);
    if i <= |s| {
      SubKeepsCount(p, s, j, stop);
      MatchCountsNothing(p, s, i, j, stop);
      PlaceholderCount(p, stop);
      CountSum3(s[k..i], f, Sub(q, f, s, j), stop);
      CountSum3(s[k..i], s[i..j], s[j..], stop);
      SplitAtMatch(s, k, i, j);
    }
  }

  lemma MatchCountsNothing(p: nat, s: string, i: nat, j: nat, stop: bool)
    requires 1 <= p < 8 && i <= j <= |s| && Matches(STRUCTURAL[p].re, s, i, j)
    ensures Count(s[i..j], stop) == 0
  {
    hide Matches, Over, Count;
    forall m | i <= m < j ensures s[m] != ':' && !IsStop(s[m]) {
      MatchIsOver(STRUCTURAL[p].re, s, i, j, m);
      OverFacts(p, s[m]);
    }
    CountNone(s[i..j], stop);
  }

  lemma PlaceholderCount(p: nat, stop: bool)
    requires p < 8
    ensures Count(STRUCTURAL[p].placeholder, stop) == 0
  {
    FillersAreFillers();
    var f := STRUCTURAL[p].placeholder;
    assert Filler(f);
    forall k | 0 <= k < |f| ensures f[k] != ':' && !IsStop(f[k]) {
      if 0 < k < |f| - 1 { assert IsUpper(f[k]) || f[k] == '_'; }
    }
    CountNone(f, stop);
  }

  lemma CountSum3(a: string, b: string, c: string, stop: bool)
    ensures Count(a + b + c, stop) == Count(a, stop) + Count(b, stop) + Count(c, stop)
  {
    CountSum(a + b, c, stop);
    CountSum(a, b, stop);
  }

  lemma {:induction false} RewriteKeepsCount(k: nat, s: string, stop: bool)
    requires 1 <= k <= 8
    ensures Count(Rewrite(k, s), stop) == Count(s, stop)
    decreases 8 - k
  {
    if k < 8 {
      SubKeepsCount(k, s, 0, stop);
      assert s[0..] == s;
      RewriteKeepsCount(k + 1, Scrub(k, s), stop);
    }
  }

  predicate StopsOrEnds(w: string) { w == [] || IsStop(w[0]) }

  /** No match starts with a space or a quote, so it stays at the front. */
  lemma {:induction false} RewriteKeepsStop(k: nat, w: string)
    requires k <= 8 && StopsOrEnds(w)
    ensures StopsOrEnds(Rewrite(k, w))
    decreases 8 - k
  {
    if k < 8 {
      var q, f := STRUCTURAL[k].re, STRUCTURAL[k].placeholder;
      TableFacts(k);
      var n := if w == [] then 0 else 1;
      forall m | 0 <= m < n ensures Ends(q, w, m) == [] {
        NoEndsNoHit(q, w, m);
        if HitAt(q, w, m) {
          var b :| m <= b <= |w| && Matches(q, w, m, b);
          MatchFacts(q, w, m, b);
        }
      }
      SubSkip(q, f, w, 0, n);
      if w == [] { SubOfNothing(k); }
      RewriteKeepsStop(k + 1, Scrub(k, w));
    }
  }

  lemma SubOfNothing(p: nat)
    requires p < 8
    ensures Scrub(p, "") == ""
  {
    var q := STRUCTURAL[p].re;
    TableFacts(p);
    var i, j := Next(q, "", 0);
    SubNext(q, STRUCTURAL[p].placeholder, "", 0, i, j);
  }

  // ---------------------------------------------------------------- the lost token

  lemma {:induction false} RewriteNothing(k: nat)
    requires k <= 8
    ensures Rewrite(k, "") == ""
    decreases 8 - k
  {
    if k < 8 {
      SubOfNothing(k);
      RewriteNothing(k + 1);
    }
  }

  /** Where an ARN reaches the end of g and s goes on without a space or a quote, it is replaced
      together with what follows, up to the next one. */
  lemma ReachForm(g: string, a: nat, s: string) returns (w: string)
    requires g <= s && ReachesFrom(g, a) && forall m :: 0 <= m < a ==> !ReachesFrom(g, m)
    requires a + 8 < |s| && !IsStop(s[a + 8])
    ensures StopsOrEnds(w) && |w| <= |s| - |g|
    ensures Rewrite(0, s) == Rewrite(1, Scrub(0, g[..a])) + "<ARN>" + Rewrite(1, Scrub(0, w))
  {
    var f := "<ARN>";
    LiteralInPrefix(g, s, a);
    ScrubBeforeReach(g, a, s);
    var e := ArnSwallows(s, a);
    assert e >= |g|;
    w := s[e..];
    AppendSum(Scrub(0, g[..a]), f, Scrub(0, w));
    FillersAreFillers();
    RewriteSplits(1, Scrub(0, g[..a]), f, Scrub(0, w));
  }

  lemma ArnSwallows(s: string, a: nat) returns (e: nat)
    requires LiteralAt("arn:aws:", false, s, a) && a + 8 < |s| && !IsStop(s[a + 8])
    ensures a + 9 <= e <= |s| && (e == |s| || IsStop(s[e]))
    ensures forall k :: a <= k < e ==> !IsStop(s[k])
    ensures !Nullable(ARN) && Sub(ARN, "<ARN>", s, a) == "<ARN>" + Scrub(0, s[e..])
  {
    hide Ends, EndsEach, Sub;
    var f := "<ARN>";
    TableFacts(0);
    ArnRunsOn(s, a);
    e := Ends(ARN, s, a)[0];
    ArnHoldsNoStop(s, a);
    assert NextIs(ARN, s, a, a, e);
    SubNext(ARN, f, s, a, a, e);
    assert s == s[..e] + s[e..] && s[a..a] == "";
    SubSuffix(ARN, f, s[..e], s[e..], s, 0);
    assert Scrub(0, s[e..]) == Sub(ARN, f, s[e..], 0);
  }

  lemma ArnHoldsNoStop(s: string, a: nat)
    requires a <= |s| && Ends(ARN, s, a) != []
    ensures forall k :: a <= k < Ends(ARN, s, a)[0] ==> k < |s| && !IsStop(s[k])
  {
    hide Ends, EndsEach, Matches, Over;
    TableFacts(0);
    FirstEnd(ARN, s, a);
    var e := Ends(ARN, s, a)[0];
    forall k | a <= k < e ensures !IsStop(s[k]) {
      MatchIsOver(ARN, s, a, e, k);
      if IsStop(s[k]) { ArnOver(s[k]); }
    }
  }

  lemma FirstStops(w: string)
    requires StopsOrEnds(w)
    ensures StopsOrEnds(Rewrite(1, Scrub(0, w)))
  {
    RewriteKeepsStop(0, w);
  }

  lemma RestoreKeepsStop(x: string, toks: seq<string>)
    requires StopsOrEnds(x)
    ensures StopsOrEnds(Restore(x, toks))
    decreases |toks|
  {
    if x == [] {
      if toks != [] {
        assert Index(x, SENTINEL, 0) > |x|;
        RestoreKeepsStop(x, toks[1..]);
      }
    } else {
      RestoredChar("", x, toks);
    }
  }

  /** An ARN that begins at the very end of g is not one in g alone. */
  lemma BareArn(g: string, a: nat)
    requires ReachesFrom(g, a) && (forall m :: 0 <= m < a ==> !ReachesFrom(g, m)) && a + 8 == |g|
    ensures Scrub(0, g) == Scrub(0, g[..a]) + "arn:aws:"
  {
    var f := "<ARN>";
    ScrubBeforeReach(g, a, g);
    forall m | a <= m < |g| ensures Ends(ARN, g, m) == [] {
      NoEndsNoHit(ARN, g, m);
      if HitAt(ARN, g, m) {
        var b :| m <= b <= |g| && Matches(ARN, g, m, b);
        ArnMatch(g, m, b);
      }
    }
    SubSkip(ARN, f, g, a, |g|);
    assert g == g + "";
    SubSuffix(ARN, f, g, "", g, 0) by { TableFacts(0); }
    SubOfNothing(0);
    forall k | 0 <= k < 8 ensures g[a..][k] == "arn:aws:"[k] { ArnLiteral(g, a, k); }
    assert g[a..|g|] == "arn:aws:";
  }

  lemma CountsDiffer(x: string, y: string, more: string, w: string)
    requires Count(x, false) == Count(y, false) + 2 && Count(x, true) == Count(y, true) && StopsOrEnds(w)
    ensures x + more != y + "<ARN>" + w
  {
    var yf := y + "<ARN>";
    CountSum(y, "<ARN>", false);
    CountSum(y, "<ARN>", true);
    PlaceholderCount(0, false);
    PlaceholderCount(0, true);
    hide Count;
    if x + more == yf + w {
      var r := TwoSplits(x, more, yf, w);
      if |x| >= |yf| {
        CountSum(yf, r, false);
        CountSum(yf, r, true);
        NoCharacters(false);
        StopCounts(r, more);
      } else {
        CountSum(x, r, false);
      }
    }
  }

  lemma NoCharacters(stop: bool)
    ensures Count("", stop) == 0
  {
  }

  /** Two ways to split one text: the longer left part holds the shorter one. */
  lemma TwoSplits(x: string, more: string, y: string, w: string) returns (r: string)
    requires x + more == y + w
    ensures if |x| >= |y| then x == y + r && w == r + more else y == x + r
  {
    var z := x + more;
    if |x| >= |y| {
      r := x[|y|..];
      assert y == z[..|y|] == x[..|y|] && w == z[|y|..];
    } else {
      r := y[|x|..];
      assert x == z[..|x|] == y[..|x|];
    }
  }

  lemma StopCounts(r: string, more: string)
    requires StopsOrEnds(r + more)
    ensures r != [] ==> Count(r, true) > 0
  {
    assert r != [] ==> (r + more)[0] == r[0];
  }

  /** A token that an ARN reaches does not return to its place. */
  lemma FirstTokenLost(g: string, rest: string, toks: seq<string>, more: string)
    requires !NoArnReaches(g) && NulFree(g) && toks != [] && toks[0] != [] && IsAlNum(toks[0][0])
    ensures Restore(Rewrite(0, g + SENTINEL + rest), toks) != Rewrite(0, g) + toks[0] + more
  {
    hide Ends, EndsEach, Rewrite, Scrub, Sub, Restore, Cut;
    var s, f := g + SENTINEL + rest, "<ARN>";
    var a := LeastReach(g);
    assert s[|g|] == NUL && g <= s;
    assert a + 8 < |g| ==> s[a + 8] == g[a + 8];
    var w := ReachForm(g, a, s);
    FirstStops(w);
    var y, rw := Rewrite(1, Scrub(0, g[..a])), Rewrite(1, Scrub(0, w));
    RestoreKeepsStop(rw, toks);
    ScrubNulFree(0, g[..a]);
    RewriteNulFree(1, Scrub(0, g[..a]));
    RestoreAfterPrefix(y + f, rw, toks);
    if a + 8 < |g| {
      SwallowedInside(g, a, toks[0], more, Restore(rw, toks));
    } else {
      SwallowedBehind(g, a, toks[0], more, Restore(rw, toks));
    }
  }

  lemma SwallowedInside(g: string, a: nat, tok: string, more: string, tail: string)
    requires ReachesFrom(g, a) && (forall m :: 0 <= m < a ==> !ReachesFrom(g, m)) && a + 8 < |g|
    requires tok != [] && IsAlNum(tok[0]) && StopsOrEnds(tail)
    ensures Rewrite(0, g) + tok + more != Rewrite(1, Scrub(0, g[..a])) + "<ARN>" + tail
  {
    hide Ends, EndsEach, Rewrite, Scrub, Sub, Cut, STRUCTURAL;
    var w := ReachForm(g, a, g);
    hide ReachesFrom, IsStop;
    assert w == "";
    SubOfNothing(0);
    RewriteNothing(1);
    var z := Rewrite(1, Scrub(0, g[..a])) + "<ARN>";
    assert Rewrite(0, g) == z + "" == z;
    AppendSum(z, tok, more);
    FirstOfSum(tok, more);
    SuffixDiffers(z, tok + more, tail);
  }

  lemma FirstOfSum(x: string, y: string)
    requires x != []
    ensures (x + y)[0] == x[0]
  {
  }

  lemma SuffixDiffers(z: string, x: string, y: string)
    requires x != [] && (y != [] ==> x[0] != y[0])
    ensures z + x != z + y
  {
    assert (z + x)[|z|] == x[0];
    assert y != [] ==> (z + y)[|z|] == y[0];
  }

  lemma FirstPass(g: string)
    ensures Rewrite(0, g) == Rewrite(1, Scrub(0, g))
  {
  }

  lemma SwallowedBehind(g: string, a: nat, tok: string, more: string, tail: string)
    requires ReachesFrom(g, a) && (forall m :: 0 <= m < a ==> !ReachesFrom(g, m)) && a + 8 == |g|
    requires StopsOrEnds(tail)
    ensures Rewrite(0, g) + tok + more != Rewrite(1, Scrub(0, g[..a])) + "<ARN>" + tail
  {
    hide *;
    BareArn(g, a);
    FirstPass(g);
    var x, lit := Scrub(0, g[..a]), "arn:aws:";
    RewriteKeepsCount(1, x + lit, false);
    RewriteKeepsCount(1, x + lit, true);
    RewriteKeepsCount(1, x, false);
    RewriteKeepsCount(1, x, true);
    CountSum(x, lit, false);
    CountSum(x, lit, true);
    LiteralCount();
    CountsDiffer(Rewrite(0, g), Rewrite(1, x), tok + more, tail);
    AppendSum(Rewrite(0, g), tok, more);
  }

  lemma LiteralCount()
    ensures Count("arn:aws:", false) == 2 && Count("arn:aws:", true) == 0
  {
    assert "arn:aws:" == "arn" + (":" + ("aws" + ":"));
    CountNone("arn", false);
    CountNone("arn", true);
    CountNone("aws", false);
    CountNone("aws", true);
    LiteralCountIf(false);
    LiteralCountIf(true);
  }

  lemma LiteralCountIf(stop: bool)
    ensures Count("arn" + (":" + ("aws" + ":")), stop) == Count("arn", stop) + Count("aws", stop) + (if stop then 0 else 2)
  {
    CountSum("aws", ":", stop);
    CountSum(":", "aws" + ":", stop);
    CountSum("arn", ":" + ("aws" + ":"), stop);
    assert Count(":", stop) == if stop then 0 else 1 by { assert ":"[1..] == ""; }
  }

  predicate Wordlike(toks: seq<string>) {
    forall k :: 0 <= k < |toks| ==> toks[k] != [] && IsAlNum(toks[k][0])
  }

  lemma {:induction false} ReachLosesToken(gaps: seq<string>, toks: seq<string>, n: nat)
    requires |gaps| == |toks| + 1 && AllNulFree(gaps) && AllNulFree(toks) && Wordlike(toks)
    requires n < |toks| && !NoArnReaches(gaps[n])
    ensures Restore(Rewrite(0, Join(gaps, SENTINEL)), toks) != Weave(RewriteAll(gaps), toks)
    decreases |toks|
  {
    hide Ends, EndsEach, Rewrite, RewriteAll, Restore, Weave;
    var g, rest := gaps[0], Join(gaps[1..], SENTINEL);
    var more := Weave(RewriteAll(gaps[1..]), toks[1..]);
    RewriteAllWeave(gaps, toks);
    if NoArnReaches(g) {
      assert gaps[n] == gaps[1..][n - 1];
      ReachLosesToken(gaps[1..], toks[1..], n - 1);
      LaterTokenLost(g, rest, toks, more);
    } else {
      FirstTokenLost(g, rest, toks, more);
    }
  }

  lemma RewriteAllWeave(gaps: seq<string>, toks: seq<string>)
    requires |gaps| == |toks| + 1 && toks != []
    ensures Weave(RewriteAll(gaps), toks) == Rewrite(0, gaps[0]) + toks[0] + Weave(RewriteAll(gaps[1..]), toks[1..])
  {
    assert RewriteAll(gaps)[1..] == RewriteAll(gaps[1..]);
  }

  lemma LaterTokenLost(g: string, rest: string, toks: seq<string>, more: string)
    requires NoArnReaches(g) && NulFree(g) && toks != [] && NulFree(toks[0])
    requires Restore(Rewrite(0, rest), toks[1..]) != more
    ensures Restore(Rewrite(0, g + SENTINEL + rest), toks) != Rewrite(0, g) + toks[0] + more
  {
    FillersAreFillers();
    RewriteSplits(0, g, SENTINEL, rest);
    RewriteNulFree(0, g);
    RestoreToken(Rewrite(0, g), Rewrite(0, rest), toks);
    var pre, z := Rewrite(0, g) + toks[0], Restore(Rewrite(0, rest), toks[1..]);
    assert (pre + z)[|pre|..] == z && (pre + more)[|pre|..] == more;
  }

  lemma {:induction false} TokensAreWordlike(s: string, k: nat)
    requires k <= |s|
    ensures !Nullable(ALLOW) && Wordlike(Cut(ALLOW, s, k).toks)
    decreases |s| - k
  {
    AllowFacts('a');
    var i, j := Next(ALLOW, s, k);
    if i <= |s| {
      MatchFacts(ALLOW, s, i, j);
      TokensAreWordlike(s, j);
    }
  }

  /** Every allow-listed token comes back in its own place, between gaps that were redacted each
      on its own, exactly when no ARN that begins in a gap runs up to the token behind it. */
  lemma AlignedIffNoArnReaches(text: string)
    requires NulFree(text)
    ensures Redacted(PLAIN, text).clean == Weave(RewriteAll(Gaps(text)), Tokens(text))
      <==> forall n :: 0 <= n < |Tokens(text)| ==> NoArnReaches(Gaps(text)[n])
  {
    TableIsSolid();
    var c := Cut(ALLOW, text, 0);
    CutNulFree(ALLOW, text, 0);
    TokensAreWordlike(text, 0);
    assert STRUCTURAL[0..] == STRUCTURAL;
    RewriteIsPasses(0, Work(Stashed(text), []));
    assert Redacted(PLAIN, text).clean == Restore(Rewrite(0, Join(c.gaps, SENTINEL)), c.toks);
    if n :| 0 <= n < |c.toks| && !NoArnReaches(c.gaps[n]) {
      ReachLosesToken(c.gaps, c.toks, n);
    } else {
      RewriteJoin(c.gaps);
      RewriteAllNulFree(c.gaps);
      RestoreJoin(RewriteAll(c.gaps), c.toks);
    }
  }
}
