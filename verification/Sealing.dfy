/** Gaps and tokens when an ARN may swallow sentinels and the tokens move up: what the returned text is
    woven of, for every text, and when redacting it again changes nothing. */
module Sealing {
  import opened Text
  import opened Regexp
  import opened Redaction
  import opened Replacing
  import opened Completeness
  import opened Restoration
  import opened Alignment
  import opened Idempotence

  /** Gaps between sentinels: no word runs on into a sentinel or out of it, and none but the last gap is
      empty behind one. */
  predicate Sealed(gaps: seq<string>)
    decreases |gaps|
  {
    && gaps != [] && NulFree(gaps[0])
    && (|gaps| > 1 ==> NonWordEnd(gaps[0]) && Follows(gaps[1], |gaps| == 2) && Sealed(gaps[1..]))
  }

  predicate Follows(gap: string, last: bool) { Opens(gap) && (gap != "" || last) }

  /** All gaps before sentinels are shut. */
  predicate AllShut(gaps: seq<string>) { forall n :: 0 <= n < |gaps| - 1 ==> Shut(gaps[n]) }

  /** All gaps before sentinels are shut, or an ARN in them runs over the sentinel. */
  predicate AllGoOrShut(gaps: seq<string>) {
    forall n :: 0 <= n < |gaps| - 1 ==> Shut(gaps[n]) || !NoArnReaches(gaps[n])
  }

  function Spaced(gaps: seq<string>): string
    requires gaps != []
  {
    Join(gaps, SENTINEL)
  }

  lemma SpacedCons(g: string, gaps: seq<string>)
    requires gaps != []
    ensures Spaced([g] + gaps) == g + SENTINEL + Spaced(gaps)
    ensures |Spaced(gaps)| < |Spaced([g] + gaps)|
  {
    assert ([g] + gaps)[1..] == gaps;
  }

  lemma SealedCons(g: string, gaps: seq<string>)
    requires gaps != []
    ensures Sealed([g] + gaps) <==> NulFree(g) && NonWordEnd(g) && Follows(gaps[0], |gaps| == 1) && Sealed(gaps)
  {
    assert ([g] + gaps)[1..] == gaps;
  }

  lemma ShutCons(g: string, gaps: seq<string>)
    requires gaps != []
    ensures AllShut([g] + gaps) <==> Shut(g) && AllShut(gaps)
    ensures AllGoOrShut([g] + gaps) <==> (Shut(g) || !NoArnReaches(g)) && AllGoOrShut(gaps)
  {
    hide Shut, NoArnReaches;
    var all := [g] + gaps;
    assert all[0] == g && forall n :: 0 <= n < |gaps| ==> all[n + 1] == gaps[n];
    assert forall n :: 0 < n < |all| ==> all[n] == gaps[n - 1];
  }

  lemma SealedSplit(gaps: seq<string>)
    requires |gaps| > 1
    ensures gaps == [gaps[0]] + gaps[1..]
  {
  }

  // ---------------------------------------------------------------- parts of a sealed text

  /** From a space or a quote on, or nothing. */
  lemma {:induction false} SealedSuffix(gaps: seq<string>, e: nat) returns (rest: seq<string>)
    requires Sealed(gaps) && e <= |Spaced(gaps)| && (e == |Spaced(gaps)| || IsStop(Spaced(gaps)[e]))
    ensures Sealed(rest) && |rest| <= |gaps| && Spaced(rest) == Spaced(gaps)[e..]
    ensures AllGoOrShut(gaps) ==> AllGoOrShut(rest)
    decreases |gaps|
  {
    hide Join, AllGoOrShut, Shut, NoArnReaches;
    var g, s := gaps[0], Spaced(gaps);
    if |gaps| == 1 {
      OneGap(g);
      assert gaps == [g];
      rest := [g[e..]];
      OneGap(g[e..]);
      OneIsShut(g[e..]);
    } else {
      SealedSplit(gaps);
      SpacedCons(g, gaps[1..]);
      SealedCons(g, gaps[1..]);
      ShutCons(g, gaps[1..]);
      var n := |g| + |SENTINEL|;
      if e < |g| {
        rest := [g[e..]] + gaps[1..];
        SealedCons(g[e..], gaps[1..]);
        ShutCons(g[e..], gaps[1..]);
        SpacedCons(g[e..], gaps[1..]);
        StopSuffix(g, e);
        assert s[e..] == g[e..] + SENTINEL + Spaced(gaps[1..]);
      } else {
        assert forall k :: |g| <= k < n ==> s[k] == SENTINEL[k - |g|];
        assert e >= n;
        assert s[e..] == Spaced(gaps[1..])[e - n..];
        assert e < |s| ==> s[e] == Spaced(gaps[1..])[e - n];
        rest := SealedSuffix(gaps[1..], e - n);
      }
    }
  }

  /** From a space or a quote on, a gap ends as it did, and an ARN that reached its end still does. */
  lemma StopSuffix(g: string, e: nat)
    requires e < |g| && IsStop(g[e])
    ensures Shut(g) ==> Shut(g[e..])
    ensures NonWordEnd(g) ==> NonWordEnd(g[e..])
    ensures !NoArnReaches(g) ==> !NoArnReaches(g[e..])
  {
    assert g[e..][|g| - e - 1] == g[|g| - 1];
    if !NoArnReaches(g) {
      var a: nat :| a <= |g| && ReachesFrom(g, a);
      ReachStays(g, e, a);
    }
  }

  lemma ReachStays(g: string, e: nat, a: nat)
    requires e < |g| && IsStop(g[e]) && ReachesFrom(g, a)
    ensures e < a && ReachesFrom(g[e..], a - e)
  {
    var w, t := "arn:aws:", g[e..];
    assert e < a by { if a <= e < a + 8 { ArnLiteralChar(g, a, e); } }
    forall k | 0 <= k < |w| ensures SameChar(false, w[k], t[a - e + k]) { assert SameChar(false, w[k], g[a + k]); }
    assert forall k :: 0 <= k < |t| ==> t[k] == g[e + k];
  }

  lemma OneIsShut(g: string)
    ensures AllShut([g]) && AllGoOrShut([g])
  {
  }

  lemma OneGap(g: string)
    ensures Spaced([g]) == g && (Sealed([g]) <==> NulFree(g))
  {
  }

  /** A NUL-free beginning that ends shut goes to the first gap. */
  lemma SealedPrefix(x: string, gaps: seq<string>)
    requires Sealed(gaps) && NulFree(x) && Shut(x)
    ensures var all := [x + gaps[0]] + gaps[1..];
      && Sealed(all) && Spaced(all) == x + Spaced(gaps) && |all| == |gaps|
      && (AllShut(gaps) ==> AllShut(all))
  {
    SealedIsSome(gaps);
    hide Join, Sealed, Spaced, AllShut;
    var g, more := gaps[0], gaps[1..];
    if |gaps| == 1 {
      assert gaps == [g] && [x + g] + more == [x + g];
      OneGap(g);
      OneGap(x + g);
      OneIsShut(x + g);
      NulFreeSum(x, g);
    } else {
      SealedSplit(gaps);
      SpacedCons(g, more);
      SpacedCons(x + g, more);
      SealedCons(g, more);
      SealedCons(x + g, more);
      ShutCons(g, more);
      ShutCons(x + g, more);
      ShutSum(x, g);
      NulFreeSum(x, g);
      assert x + (g + SENTINEL + Spaced(more)) == x + g + SENTINEL + Spaced(more);
    }
  }

  lemma NulFreeSum(x: string, g: string)
    ensures NulFree(x) && NulFree(g) ==> NulFree(x + g)
  {
  }

  lemma ShutSum(x: string, g: string)
    requires Shut(x)
    ensures Shut(g) ==> Shut(x + g)
    ensures NonWordEnd(g) ==> NonWordEnd(x + g)
  {
    LastOfSum(x, g);
  }

  /** What the first character tells of the first gap. */
  lemma FirstGap(gaps: seq<string>, s: string)
    requires Sealed(gaps)
    requires s == "" ==> Spaced(gaps) == ""
    requires s != "" ==> s[0] != NUL && !IsWord(s[0]) && Spaced(gaps) != "" && Spaced(gaps)[0] == s[0]
    ensures if s == "" then gaps == [""] else Follows(gaps[0], false)
  {
    hide Join;
    if |gaps| == 1 {
      assert gaps == [gaps[0]];
      OneGap(gaps[0]);
    } else {
      SealedSplit(gaps);
      SpacedCons(gaps[0], gaps[1..]);
    }
  }

  lemma SealedIsSome(gaps: seq<string>)
    ensures Sealed(gaps) ==> gaps != []
  {
  }

  lemma SuffixIsShorter(s: string, e: nat)
    requires 0 < e <= |s|
    ensures |s[e..]| < |s|
  {
  }

  // ---------------------------------------------------------------- passes over a sealed text

  /** Rewriting keeps what the text begins with, unless it is a word. */
  predicate KeepsFirst(s: string, t: string) {
    && (s == "" ==> t == "")
    && (s != "" && !IsWord(s[0]) ==> t != "" && t[0] == s[0])
  }

  lemma FirstFollows(gaps: seq<string>, h: seq<string>, last: bool)
    requires Sealed(gaps) && Sealed(h) && KeepsFirst(Spaced(gaps), Spaced(h))
    requires Follows(gaps[0], last) && (last ==> |gaps| == 1) && |h| <= |gaps|
    ensures Follows(h[0], |h| == 1)
  {
    hide Join;
    var s := Spaced(gaps);
    if |gaps| == 1 {
      assert gaps == [gaps[0]];
      OneGap(gaps[0]);
    } else {
      SealedSplit(gaps);
      SpacedCons(gaps[0], gaps[1..]);
    }
    if gaps[0] != "" {
      assert s[0] == gaps[0][0];
      assert NulFree(gaps[0]);
    }
    FirstGap(h, s);
  }

  /** A pass over sealed gaps leaves sealed gaps, fewer if an ARN runs over a sentinel; and shut ones, if
      the ARN pass found them shut but for those whose sentinel it removed. */
  lemma {:induction false} ScrubSealed(p: nat, gaps: seq<string>) returns (h: seq<string>)
    requires p < 8 && Sealed(gaps)
    ensures Sealed(h) && |h| <= |gaps| && Scrub(p, Spaced(gaps)) == Spaced(h)
    ensures AllShut(gaps) || (p == 0 && AllGoOrShut(gaps)) ==> AllShut(h)
    decreases |Spaced(gaps)|, 1
  {
    SealedIsSome(gaps);
    hide Join, Scrub, Sealed, Spaced, Follows, NoArnReaches, AllShut, AllGoOrShut, Shut, NonWordEnd, KeepsFirst;
    var g := gaps[0];
    if |gaps| == 1 {
      assert gaps == [g];
      OneGap(g);
      ScrubNulFree(p, g);
      OneGap(Scrub(p, g));
      OneIsShut(Scrub(p, g));
      h := [Scrub(p, g)];
    } else if p > 0 || NoArnReaches(g) {
      var more := gaps[1..];
      SealedSplit(gaps);
      SealedCons(g, more);
      ShutCons(g, more);
      SpacedCons(g, more);
      FillersAreFillers();
      ScrubSplits(p, g, SENTINEL, Spaced(more));
      var rest := ScrubSealed(p, more);
      SealedIsSome(rest);
      ScrubKeepsFirst(p, Spaced(more));
      FirstFollows(more, rest, |more| == 1);
      ScrubNulFree(p, g);
      ScrubEdges(p, g);
      h := [Scrub(p, g)] + rest;
      SealedCons(Scrub(p, g), rest);
      ShutCons(Scrub(p, g), rest);
      SpacedCons(Scrub(p, g), rest);
    } else {
      ShutIsGoOrShut(gaps);
      h := ArnOverSealed(gaps);
    }
  }

  lemma ShutIsGoOrShut(gaps: seq<string>)
    ensures AllShut(gaps) ==> AllGoOrShut(gaps)
  {
  }

  lemma ScrubKeepsFirst(p: nat, s: string)
    requires p < 8
    ensures KeepsFirst(s, Scrub(p, s))
  {
    hide Scrub;
    ScrubEdges(p, s);
  }

  lemma ArnPassIsSub(s: string)
    ensures !Nullable(ARN) && Scrub(0, s) == Sub(ARN, "<ARN>", s, 0)
  {
    TableFacts(0);
  }

  /** An ARN that reaches a sentinel runs over it, and on to a space or a quote. */
  lemma {:induction false} ArnOverSealed(gaps: seq<string>) returns (h: seq<string>)
    requires Sealed(gaps) && |gaps| > 1 && !NoArnReaches(gaps[0])
    ensures Sealed(h) && |h| <= |gaps| && Scrub(0, Spaced(gaps)) == Spaced(h)
    ensures AllGoOrShut(gaps) ==> AllShut(h)
    decreases |Spaced(gaps)|, 0
  {
    hide Join, Scrub, Sealed, Follows, Sub, AllGoOrShut, AllShut;
    SealedIsSome(gaps);
    var g, s, f := gaps[0], Spaced(gaps), "<ARN>";
    SealedSplit(gaps);
    SpacedCons(g, gaps[1..]);
    SealedCons(g, gaps[1..]);
    hide Spaced;
    var a := LeastReach(g);
    assert s[|g|] == NUL && g <= s;
    assert a + 8 < |g| ==> s[a + 8] == g[a + 8];
    LiteralInPrefix(g, s, a);
    ScrubBeforeReach(g, a, s);
    ArnPassIsSub(s);
    var e := ArnSwallows(s, a);
    var rest := SealedSuffix(gaps, e);
    SealedIsSome(rest);
    SuffixIsShorter(s, e);
    var h0 := ScrubSealed(0, rest);
    SealedIsSome(h0);
    var x := Scrub(0, g[..a]) + f;
    ScrubNulFree(0, g[..a]);
    SealedPrefix(x, h0);
    h := [x + h0[0]] + h0[1..];
    AppendSum(Scrub(0, g[..a]), f, Spaced(h0));
  }

  lemma {:induction false} RewriteSealed(k: nat, gaps: seq<string>) returns (h: seq<string>)
    requires k <= 8 && Sealed(gaps)
    ensures Sealed(h) && |h| <= |gaps| && Rewrite(k, Spaced(gaps)) == Spaced(h)
    ensures AllShut(gaps) || (k == 0 && AllGoOrShut(gaps)) ==> AllShut(h)
    decreases 8 - k
  {
    SealedIsSome(gaps);
    hide Join, Scrub, Sealed, Spaced, AllShut, AllGoOrShut;
    h := gaps;
    if k < 8 {
      var next := ScrubSealed(k, gaps);
      SealedIsSome(next);
      h := RewriteSealed(k + 1, next);
    }
  }

  // ---------------------------------------------------------------- the tokens that are left

  lemma {:induction false} RestoreNone(pre: string, toks: seq<string>)
    requires NulFree(pre)
    ensures Restore(pre, toks) == pre
    decreases |toks|
  {
    if toks != [] {
      ReplaceNone(pre, toks[0]);
      RestoreNone(pre, toks[1..]);
    }
  }

  lemma ReplaceNone(s: string, t: string)
    requires NulFree(s)
    ensures ReplaceFirst(s, SENTINEL, t) == s
  {
    forall m: nat ensures !OccursAt(s, SENTINEL, m) {
      if OccursAt(s, SENTINEL, m) { OccursFirst(s, SENTINEL, m); }
    }
  }

  /** The first tokens take the sentinels there are. */
  lemma {:induction false} RestoreSome(gaps: seq<string>, used: seq<string>, toks: seq<string>)
    requires |gaps| == |used| + 1 && used <= toks && AllNulFree(gaps) && AllNulFree(toks)
    ensures Restore(Spaced(gaps), toks) == Weave(gaps, used)
    decreases |gaps|
  {
    hide Restore;
    var g := gaps[0];
    if |gaps| == 1 {
      assert gaps == [g];
      OneGap(g);
      RestoreNone(g, toks);
    } else {
      SealedSplit(gaps);
      SpacedCons(g, gaps[1..]);
      RestoreToken(g, Spaced(gaps[1..]), toks);
      RestoreSome(gaps[1..], used[1..], toks[1..]);
    }
  }

  ghost predicate AllWhole(toks: seq<string>) { forall n :: 0 <= n < |toks| ==> Whole(toks[n]) }

  /** Whole tokens stand in sealed gaps, and nothing reaches out of these if they are shut. */
  lemma {:induction false} SealedStands(gaps: seq<string>, toks: seq<string>)
    requires Sealed(gaps) && |gaps| == |toks| + 1 && AllWhole(toks)
    ensures Framed(gaps, toks) && AllNulFree(gaps)
    ensures AllShut(gaps) ==> AllParted(gaps, toks)
    ensures Follows(gaps[0], toks == []) ==> Opens(Weave(gaps, toks))
    decreases |toks|
  {
    hide Whole, Parted, Ends, EndsEach, ALLOW, AllShut;
    if toks != [] {
      var v := Weave(gaps[1..], toks[1..]);
      SealedStands(gaps[1..], toks[1..]);
      assert gaps == [gaps[0]] + gaps[1..];
      ShutCons(gaps[0], gaps[1..]);
      if Shut(gaps[0]) { ShutParts(gaps[0], toks[0] + v); }
      assert gaps[0] + (toks[0] + v) == gaps[0] + toks[0] + v;
      FirstOfWoven(gaps, toks);
    } else {
      assert gaps == [gaps[0]];
    }
  }

  lemma FirstOfWoven(gaps: seq<string>, toks: seq<string>)
    requires |gaps| == |toks| + 1 && toks != []
    ensures gaps[0] != "" ==> Weave(gaps, toks) != "" && Weave(gaps, toks)[0] == gaps[0][0]
  {
  }

  /** The gaps of every text are sealed. */
  lemma {:induction false} ProperIsSealed(gaps: seq<string>, toks: seq<string>)
    requires |gaps| == |toks| + 1 && Proper(gaps, toks) && AllNulFree(gaps)
    ensures Sealed(gaps) && AllWhole(toks)
    ensures Opens(Weave(gaps, toks)) ==> Follows(gaps[0], toks == [])
    decreases |toks|
  {
    hide Whole, NoneStarts;
    if toks != [] {
      ProperIsSealed(gaps[1..], toks[1..]);
      if gaps[0] == "" { TokenFirst(gaps, toks); } else { FirstOfWoven(gaps, toks); }
      assert forall n :: 0 < n < |toks| ==> toks[n] == toks[1..][n - 1];
    }
  }

  lemma SpacedIsJoin(gaps: seq<string>)
    requires gaps != []
    ensures Spaced(gaps) == Join(gaps, SENTINEL)
  {
  }

  lemma CleanIsRestored(text: string)
    ensures Redacted(PLAIN, text).clean == Restore(Rewrite(0, Spaced(Gaps(text))), Tokens(text))
  {
    hide Rewrite, Restore;
    TableIsSolid();
    assert STRUCTURAL[0..] == STRUCTURAL;
    RewriteIsPasses(0, Work(Stashed(text), []));
  }

  // ---------------------------------------------------------------- what the returned text is woven of

  /** The first tokens in their order between gaps that are clear, even with sentinels between them. */
  ghost predicate WovenOf(text: string, gaps: seq<string>, toks: seq<string>) {
    && |gaps| == |toks| + 1 && toks <= Tokens(text)
    && Redacted(PLAIN, text).clean == Weave(gaps, toks)
    && Framed(gaps, toks) && AllNulFree(gaps) && AllClear(Join(gaps, SENTINEL))
  }

  /** Passes that leave these gaps leave this woven text. */
  lemma GapsWeave(text: string, h: seq<string>, used: seq<string>)
    requires NulFree(text) && |h| == |used| + 1 && used <= Tokens(text) && AllNulFree(h) && Framed(h, used)
    requires Rewrite(0, Spaced(Gaps(text))) == Spaced(h)
    ensures WovenOf(text, h, used) && AllNulFree(used)
  {
    hide Rewrite, Redacted, Gaps, Tokens, AllClear, Proper, Restore, Framed, Spaced, Weave, STRUCTURAL, ALLOW;
    TextIsProper(text);
    CleanIsRestored(text);
    RestoreSome(h, used, Tokens(text));
    RewriteIsClear(Spaced(Gaps(text)));
    SpacedIsJoin(h);
  }

  /** Every text comes back so. */
  lemma CleanIsWoven(text: string) returns (h: seq<string>, used: seq<string>)
    requires NulFree(text)
    ensures WovenOf(text, h, used)
  {
    hide Rewrite, Redacted, Gaps, Tokens, AllClear, Proper, Restore, Framed, Spaced, Weave, Sealed, Whole, AllParted, WovenOf;
    TextIsProper(text);
    ProperIsSealed(Gaps(text), Tokens(text));
    h := RewriteSealed(0, Gaps(text));
    SealedIsSome(h);
    used := Tokens(text)[..|h| - 1];
    SealedStands(h, used);
    GapsWeave(text, h, used);
  }

  // ---------------------------------------------------------------- redacting twice

  /** The gap before a token that an ARN in it reaches, or that ends in a character no token contains, or
      that holds no match and is reached by no ARN from before. */
  ghost predicate HoldsStill(gaps: seq<string>, n: nat)
    requires n < |gaps|
  {
    || !NoArnReaches(gaps[n])
    || Shut(gaps[n])
    || (AllClear(gaps[n]) && forall m :: 0 <= m < n ==> NoArnReaches(gaps[m]))
  }

  ghost predicate AllHoldStill(gaps: seq<string>) { forall n :: 0 <= n < |gaps| - 1 ==> HoldsStill(gaps, n) }

  /** Before the first ARN that reaches a token every gap is steady; from there on all are shut or gone. */
  lemma StillCases(gaps: seq<string>)
    requires gaps != [] && AllHoldStill(gaps)
    ensures |gaps| > 1 && NoArnReaches(gaps[0]) ==> Steady(gaps[0]) && AllHoldStill(gaps[1..])
    ensures |gaps| > 1 && !NoArnReaches(gaps[0]) ==> AllGoOrShut(gaps)
  {
    hide NoArnReaches, Shut, AllClear;
    if |gaps| > 1 {
      assert HoldsStill(gaps, 0);
      var rest := gaps[1..];
      if NoArnReaches(gaps[0]) {
        forall n | 0 <= n < |rest| - 1 ensures HoldsStill(rest, n) {
          assert HoldsStill(gaps, n + 1);
          assert forall m :: 0 <= m < n ==> rest[m] == gaps[m + 1];
        }
      } else {
        forall n | 0 <= n < |gaps| - 1 ensures Shut(gaps[n]) || !NoArnReaches(gaps[n]) {
          assert HoldsStill(gaps, n);
        }
      }
    }
  }

  /** What the passes and the restoring make of gaps and tokens: the first tokens, framed by gaps that no
      token reaches out of. */
  ghost predicate StandAs(gaps: seq<string>, toks: seq<string>, h: seq<string>, used: seq<string>)
    requires |gaps| == |toks| + 1
  {
    && |h| == |used| + 1 && used <= toks && Rewrite(0, Spaced(gaps)) == Spaced(h)
    && AllNulFree(h) && Framed(h, used) && AllParted(h, used)
    && (Opens(Weave(gaps, toks)) ==> Opens(Weave(h, used)))
  }

  /** Where the tokens end up, nothing reaches out of a gap. */
  lemma {:induction false} StillStands(gaps: seq<string>, toks: seq<string>) returns (h: seq<string>, used: seq<string>)
    requires |gaps| == |toks| + 1 && Proper(gaps, toks) && AllNulFree(gaps) && AllHoldStill(gaps)
    ensures StandAs(gaps, toks, h, used)
    decreases |toks|
  {
    hide Rewrite, Proper, Framed, AllParted, Spaced, Weave, Sealed, Whole, AllHoldStill, NoArnReaches, AllGoOrShut, AllNulFree;
    StillCases(gaps);
    if toks == [] || !NoArnReaches(gaps[0]) {
      h, used := GoneStands(gaps, toks);
    } else {
      ProperTail(gaps, toks);
      var rest, left := StillStands(gaps[1..], toks[1..]);
      StillStep(gaps, toks, rest, left);
      h, used := [Rewrite(0, gaps[0])] + rest, [toks[0]] + left;
    }
  }

  lemma ProperTail(gaps: seq<string>, toks: seq<string>)
    requires |gaps| == |toks| + 1 && toks != [] && Proper(gaps, toks) && AllNulFree(gaps)
    ensures Proper(gaps[1..], toks[1..]) && AllNulFree(gaps[1..])
  {
  }

  /** From an ARN that reaches its token on, or behind the last token. */
  lemma GoneStands(gaps: seq<string>, toks: seq<string>) returns (h: seq<string>, used: seq<string>)
    requires |gaps| == |toks| + 1 && Proper(gaps, toks) && AllNulFree(gaps) && (toks == [] || AllGoOrShut(gaps))
    ensures StandAs(gaps, toks, h, used)
  {
    hide Rewrite, Proper, Framed, AllParted, Spaced, Weave, Sealed, Whole, KeepsFirst, Follows;
    ProperIsSealed(gaps, toks);
    h := RewriteSealed(0, gaps);
    SealedIsSome(h);
    used := toks[..|h| - 1];
    SealedStands(h, used);
    if Follows(gaps[0], toks == []) {
      RewriteKeepsFirst(Spaced(gaps));
      FirstFollows(gaps, h, toks == []);
    }
  }

  lemma RewriteKeepsFirst(s: string)
    ensures KeepsFirst(s, Rewrite(0, s))
  {
    hide Rewrite;
    RewriteEdges(0, s);
  }

  lemma ProperFacts(gaps: seq<string>, toks: seq<string>)
    requires |gaps| == |toks| + 1 && toks != [] && Proper(gaps, toks) && AllNulFree(gaps)
    ensures var rest := Weave(gaps[1..], toks[1..]);
      && Whole(toks[0]) && NonWordEnd(gaps[0]) && Opens(rest) && NoneStarts(gaps[0], gaps[0] + toks[0] + rest)
      && NulFree(gaps[0])
  {
    hide Whole, NoneStarts;
  }

  lemma StepRewrites(g: string, more: seq<string>, rest: seq<string>)
    requires NoArnReaches(g) && more != [] && rest != [] && Rewrite(0, Spaced(more)) == Spaced(rest)
    ensures Rewrite(0, Spaced([g] + more)) == Spaced([Rewrite(0, g)] + rest)
  {
    hide Rewrite, Spaced, NoArnReaches;
    SpacedCons(g, more);
    SpacedCons(Rewrite(0, g), rest);
    FillersAreFillers();
    RewriteSplits(0, g, SENTINEL, Spaced(more));
  }

  lemma StandsCons(u: string, tok: string, rest: seq<string>, left: seq<string>)
    requires |rest| == |left| + 1 && AllNulFree(rest) && Framed(rest, left) && AllParted(rest, left)
    requires NulFree(u) && Whole(tok) && NonWordEnd(u) && Opens(Weave(rest, left))
    requires Parted(u, u + tok + Weave(rest, left))
    ensures AllNulFree([u] + rest) && Framed([u] + rest, [tok] + left) && AllParted([u] + rest, [tok] + left)
  {
    hide Whole, Parted, NulFree;
    assert ([u] + rest)[1..] == rest && ([tok] + left)[1..] == left;
  }

  lemma StepOpens(gaps: seq<string>, toks: seq<string>, u: string, rest: seq<string>, left: seq<string>)
    requires |gaps| == |toks| + 1 && toks != [] && |rest| == |left| + 1 && Whole(toks[0]) && KeepsFirst(gaps[0], u)
    ensures Opens(Weave(gaps, toks)) ==> Opens(Weave([u] + rest, [toks[0]] + left))
  {
    hide Whole;
    if gaps[0] == "" { TokenFirst(gaps, toks); }
    FirstOfWoven(gaps, toks);
    FirstOfWoven([u] + rest, [toks[0]] + left);
  }

  lemma PrefixCons(toks: seq<string>, left: seq<string>)
    requires toks != [] && left <= toks[1..]
    ensures [toks[0]] + left <= toks
  {
    assert toks == [toks[0]] + toks[1..];
  }

  /** One more gap and token in front, the token back in its place. */
  lemma StillStep(gaps: seq<string>, toks: seq<string>, rest: seq<string>, left: seq<string>)
    requires |gaps| == |toks| + 1 && toks != [] && Proper(gaps, toks) && AllNulFree(gaps)
    requires NoArnReaches(gaps[0]) && Steady(gaps[0])
    requires StandAs(gaps[1..], toks[1..], rest, left)
    ensures StandAs(gaps, toks, [Rewrite(0, gaps[0])] + rest, [toks[0]] + left)
  {
    hide Rewrite, Spaced, Proper, Framed, AllParted, Weave, NoArnReaches, Steady, AllNulFree, NulFree, Opens, Whole;
    var g, u, v := gaps[0], Rewrite(0, gaps[0]), Weave(rest, left);
    ProperFacts(gaps, toks);
    PrefixCons(toks, left);
    StepRewrites(g, gaps[1..], rest);
    SealedSplit(gaps);
    RewriteNulFree(0, g);
    RewriteEdges(0, g);
    RewriteKeepsFirst(g);
    GapIsParted(g, toks[0], Weave(gaps[1..], toks[1..]), v);
    StandsCons(u, toks[0], rest, left);
    StepOpens(gaps, toks, u, rest, left);
  }

  /** Redaction is idempotent on every text in which each gap before a token holds still: the second run
      finds nothing and changes nothing. */
  lemma RedactIsIdempotent(text: string)
    requires NulFree(text) && AllHoldStill(Gaps(text))
    ensures var once := Redacted(PLAIN, text).clean; Redacted(PLAIN, once) == Result(once, [])
  {
    hide Rewrite, Redacted, Gaps, Tokens, AllClear, Proper, Framed, AllParted, Spaced, Weave, AllHoldStill;
    TextIsProper(text);
    var h, used := StillStands(Gaps(text), Tokens(text));
    GapsWeave(text, h, used);
    WovenPasses(h, used);
  }
}
