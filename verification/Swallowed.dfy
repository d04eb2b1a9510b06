/** An ARN that runs up to a token swallows the sentinel behind it, and the tokens move up: a family
    of texts on which a second run then finds more, though no gap had anything to redact or ended in
    a character a token contains. */
module Swallowed {
  import opened Regexp
  import opened Redaction
  import opened Replacing
  import opened Completeness
  import opened Restoration
  import opened Alignment
  import opened AllowShape
  import opened Idempotence
  import opened Harmlessness
  import opened Gate
  import opened Sealing
  import opened Uncovered

  const APPLE := "developer.apple.com"
  const GAP := " " + LABEL

  /** The resource of an ARN: nothing in it ends the ARN or could belong to a token. */
  predicate Resource(r: string) {
    (forall k :: 0 <= k < |r| ==> !IsStop(r[k]) && r[k] != NUL && r[k] != '.') && Shut("arn:aws:" + r)
  }

  function Arn(r: string): string { "arn:aws:" + r }

  /** Two tokens; the ARN runs up to the first. */
  function Reaching(r: string): string { Arn(r) + NAME + (GAP + APPLE + REST) }

  lemma AppleIsToken()
    ensures Whole(APPLE)
  {
    var s := APPLE;
    assert LiteralAt("developer.apple.com", true, s, 0);
    BoundedMatches(Alt(COM_EXAMPLE, Alt(EXAMPLE_COM, DOCS)), s, 0, 19);
  }

  // ---------------------------------------------------------------- how the allow-list cuts it

  lemma ReachingChars(r: string)
    requires Resource(r)
    ensures var x, n := Reaching(r), |Arn(r)|;
      && |x| == n + 45 && n >= 8
      && (forall k :: 0 <= k < n ==> x[k] == Arn(r)[k] && x[k] != '.' && !IsStop(x[k]) && x[k] != NUL)
      && (forall k :: n <= k < n + 45 ==> x[k] == (NAME + (GAP + APPLE + REST))[k - n])
  {
    var x, n, a := Reaching(r), |Arn(r)|, "arn:aws:";
    assert forall k :: 0 <= k < 8 ==> !IsStop(a[k]) && a[k] != NUL && a[k] != '.';
    assert forall k :: 0 <= k < n ==> Arn(r)[k] == if k < 8 then a[k] else r[k - 8];
    assert x == Arn(r) + (NAME + (GAP + APPLE + REST));
    assert |NAME + (GAP + APPLE + REST)| == 45;
  }

  lemma RestChars()
    ensures var t := NAME + (GAP + APPLE + REST);
      && |t| == 45 && t[13] == ' '
      && (forall k :: 0 <= k < 45 ==> (t[k] == '.' <==> k in {3, 11, 15, 23, 33, 39, 43}))
      && (forall k :: 0 <= k < 45 && k != 13 && t[k] != '.' ==> IsLower(t[k]))
  {
  }

  ghost predicate Dotted(x: string, n: nat) {
    && |x| == n + 45
    && (forall k :: 0 <= k < n ==> x[k] != '.')
    && x[n + 13] == ' '
    && (forall k :: n <= k < n + 45 ==> (x[k] == '.' <==> k - n in {3, 11, 15, 23, 33, 39, 43}))
    && (forall k :: n <= k < n + 45 && k != n + 13 && x[k] != '.' ==> IsLower(x[k]))
  }

  lemma NoTokenEarly(x: string, n: nat, m: nat, e: nat)
    requires Dotted(x, n) && m < n
    ensures !Token(x, m, e)
  {
  }

  lemma NoTokenBetween(x: string, n: nat, m: nat, e: nat)
    requires Dotted(x, n) && n + 13 <= m < n + 24
    ensures !Token(x, m, e)
  {
  }

  lemma ReachingDotted(r: string)
    requires Resource(r)
    ensures Dotted(Reaching(r), |Arn(r)|)
  {
    hide Resource, NAME, GAP, APPLE, REST, Reaching, Arn;
    ReachingChars(r);
    RestChars();
  }

  /** Where the engine finds nothing from k to i, and takes x[i..j) then. */
  lemma CutNext(x: string, k: nat, i: nat, j: nat)
    requires k <= i < j <= |x| && forall m :: k <= m < i ==> Ends(ALLOW, x, m) == []
    requires Ends(ALLOW, x, i) != [] && Ends(ALLOW, x, i)[0] == j
    ensures !Nullable(ALLOW)
    ensures var c, rest := Cut(ALLOW, x, k), Cut(ALLOW, x, j);
      c.gaps == [x[k..i]] + rest.gaps && c.toks == [x[i..j]] + rest.toks
  {
    hide Ends, EndsEach, Matches, ALLOW;
    AllowFacts('a');
    FindSkip(ALLOW, x, k, i);
  }

  lemma NoneFrom(x: string, k: nat, i: nat)
    requires k <= i <= |x| && forall m: nat, e: nat :: k <= m < i ==> !Token(x, m, e)
    ensures forall m :: k <= m < i ==> Ends(ALLOW, x, m) == []
  {
    hide Ends, EndsEach, Matches, ALLOW, Token;
    forall m | k <= m < i ensures Ends(ALLOW, x, m) == [] {
      NoEndsNoHit(ALLOW, x, m);
      if HitAt(ALLOW, x, m) {
        var e :| m <= e <= |x| && Matches(ALLOW, x, m, e);
        AllowIsToken(x, m, e);
      }
    }
  }

  lemma NoTokensThere(x: string, n: nat)
    requires Dotted(x, n)
    ensures forall m: nat, e: nat :: m < n || n + 13 <= m < n + 24 ==> !Token(x, m, e)
  {
    hide Token, Dotted;
    forall m: nat, e: nat | m < n ensures !Token(x, m, e) { NoTokenEarly(x, n, m, e); }
    forall m: nat, e: nat | n + 13 <= m < n + 24 ensures !Token(x, m, e) { NoTokenBetween(x, n, m, e); }
  }

  lemma CutIsGaps(x: string)
    ensures !Nullable(ALLOW) && Gaps(x) == Cut(ALLOW, x, 0).gaps && Tokens(x) == Cut(ALLOW, x, 0).toks
  {
    TableIsSolid();
  }

  lemma ReachingCut(r: string)
    requires Resource(r)
    ensures Gaps(Reaching(r)) == [Arn(r), GAP, REST] && Tokens(Reaching(r)) == [NAME, APPLE]
  {
    hide *;
    var x, n := Reaching(r), |Arn(r)|;
    ReachingDotted(r);
    NameIsToken();
    AppleIsToken();
    ReachingSlices(r);
    NoTokensThere(x, n);
    NoneFrom(x, 0, n);
    NoneFrom(x, n + 13, n + 24);
    TokenStands(Arn(r), NAME, GAP + APPLE + REST);
    TokenStands(Arn(r) + NAME + GAP, APPLE, REST);
    CutNext(x, 0, n, n + 13);
    CutNext(x, n + 13, n + 24, n + 43);
    ShortHasNoToken(x, n + 43);
    CutIsGaps(x);
  }

  lemma ReachingSlices(r: string)
    requires Resource(r)
    ensures var x, n := Reaching(r), |Arn(r)|;
      && |x| == n + 45 && |NAME| == 13 && |GAP| == 11 && |APPLE| == 19
      && NonWordEnd(Arn(r)) && Opens(GAP + APPLE + REST) && NonWordEnd(Arn(r) + NAME + GAP) && Opens(REST)
      && |Arn(r) + NAME + GAP| == n + 24
      && x == Arn(r) + NAME + (GAP + APPLE + REST) && x == (Arn(r) + NAME + GAP) + APPLE + REST
      && x[0..n] == Arn(r) && x[n..n + 13] == NAME && x[n + 13..n + 24] == GAP && x[n + 24..n + 43] == APPLE
      && x[n + 43..] == REST
  {
    var x, a, u := Reaching(r), Arn(r), Arn(r) + NAME + GAP;
    assert x == u + APPLE + REST;
    assert u[|u| - 1] == '.';
    assert (GAP + APPLE + REST)[0] == ' ';
  }

  // ---------------------------------------------------------------- the two runs

  lemma ArnTaken(r: string)
    requires Resource(r)
    ensures Scrub(0, Arn(r) + SENTINEL + (GAP + SENTINEL + REST)) == "<ARN>" + (GAP + SENTINEL + REST)
  {
    var s, w := Arn(r) + SENTINEL + (GAP + SENTINEL + REST), GAP + SENTINEL + REST;
    StashedArnChars(r);
    GapsAreHarmless();
    hide Resource, Scrub, Sub, GAP, REST, Arn, SENTINEL;
    var e := ArnSwallows(s, 0);
    assert e == |Arn(r)| + |SENTINEL|;
    ArnPassIsSub(s);
    NoColonNoArn(w);
  }

  lemma GapsAreClear()
    ensures AllClear("") && AllClear(GAP) && AllClear(REST)
  {
    GapsAreHarmless();
    hide Harmless, AllClear, GAP, REST;
    HarmlessIsClear("");
    HarmlessIsClear(GAP);
    HarmlessIsClear(REST);
  }

  lemma LaterPasses(f: string, g: string, h: string)
    requires Filler(f) && AllClear("") && AllClear(g) && AllClear(h)
    ensures Rewrite(1, f + (g + SENTINEL + h)) == f + (g + SENTINEL + h)
  {
    FillersAreFillers();
    hide Rewrite, AllClear, Filler, NoArnReaches;
    var w := g + SENTINEL + h;
    assert f + w == "" + f + w;
    RewriteSplits(1, "", f, w);
    RewriteSplits(1, g, SENTINEL, h);
    ClearRewrite(1, "");
    ClearRewrite(1, g);
    ClearRewrite(1, h);
  }

  lemma RewriteFirst(s: string)
    ensures Rewrite(0, s) == Rewrite(1, Scrub(0, s))
  {
  }

  lemma GapsAreHarmless()
    ensures Harmless("") && Harmless(GAP) && Harmless(REST)
    ensures var w := GAP + SENTINEL + REST; forall k :: 0 <= k < |w| ==> w[k] != ':'
  {
  }

  lemma StashedArnChars(r: string)
    requires Resource(r)
    ensures var s, n := Arn(r) + SENTINEL + (GAP + SENTINEL + REST), |Arn(r)| + 7;
      && LiteralAt("arn:aws:", false, s, 0) && 8 < n < |s| && s[n..] == GAP + SENTINEL + REST
      && (forall k :: 0 <= k < n ==> !IsStop(s[k])) && IsStop(s[n])
  {
    var a, s, m := "arn:aws:", Arn(r) + SENTINEL + (GAP + SENTINEL + REST), |Arn(r)|;
    assert forall k :: 0 <= k < 8 ==> !IsStop(a[k]);
    assert forall k :: 0 <= k < 7 ==> !IsStop(SENTINEL[k]);
    assert forall k :: 0 <= k < 8 ==> s[k] == a[k];
    assert forall k :: 8 <= k < m ==> s[k] == r[k - 8];
    assert forall k :: m <= k < m + 7 ==> s[k] == SENTINEL[k - m];
    assert s[m + 7] == GAP[0] == ' ';
  }

  /** What the first run makes of it. */
  lemma ReachingRedacted(r: string)
    requires Resource(r)
    ensures Redacted(PLAIN, Reaching(r)).clean == "<ARN> " + (HOST + TAIL)
  {
    hide *;
    var g, s := "<ARN>" + GAP, Arn(r) + SENTINEL + (GAP + SENTINEL + REST);
    ReachingCut(r);
    ReachingSpaced(r);
    ArnTaken(r);
    GapsAreClear();
    ShortFillers();
    TextsNulFree();
    CleanIsRestored(Reaching(r));
    RewriteFirst(s);
    LaterPasses("<ARN>", GAP, REST);
    AppendSum("<ARN>" + GAP, SENTINEL, REST);
    assert "<ARN>" + (GAP + SENTINEL + REST) == g + SENTINEL + REST;
    Moved(g, REST, NAME, APPLE);
    ReachingJoined();
  }

  lemma TextsNulFree()
    ensures NulFree("<ARN>" + GAP) && NulFree(NAME) && NulFree(REST)
  {
  }

  lemma ReachingJoined()
    ensures "<ARN>" + GAP + NAME + REST == "<ARN> " + (HOST + TAIL)
  {
  }

  lemma ReachingSpaced(r: string)
    ensures Spaced([Arn(r), GAP, REST]) == Arn(r) + SENTINEL + (GAP + SENTINEL + REST)
  {
    SpacedCons(Arn(r), [GAP, REST]);
    SpacedCons(GAP, [REST]);
    OneGap(REST);
    hide Arn, GAP, REST, Spaced;
    assert [Arn(r)] + [GAP, REST] == [Arn(r), GAP, REST] && [GAP] + [REST] == [GAP, REST];
  }

  /** With one sentinel left the first token takes it, and the second is dropped. */
  lemma Moved(g: string, h: string, tok: string, last: string)
    requires NulFree(g) && NulFree(h) && NulFree(tok)
    ensures Restore(g + SENTINEL + h, [tok, last]) == g + tok + h
  {
    var toks, more := [tok, last], [last];
    RestoreToken(g, h, toks);
    RestoreNone(h, more);
    assert toks[1..] == more;
  }

  /** No gap has anything to redact but the ARN's, all but one end in a character no token contains,
      and yet a second run finds a bundle identifier: the token that moved up made one. */
  lemma ReachingIsNotIdempotent(r: string)
    requires Resource(r)
    ensures NulFree(Reaching(r)) && forall n :: 0 <= n < |Tokens(Reaching(r))| ==> Steady(Gaps(Reaching(r))[n])
    ensures var once := Redacted(PLAIN, Reaching(r)).clean;
      Redacted(PLAIN, once).clean != once && !VerdictOf(Redacted(PLAIN, once).hits).safe
  {
    ReachingCut(r);
    ReachingRedacted(r);
    SecondRunFinds("<ARN> ");
    GapsAreHarmless();
    HarmlessIsClear(GAP);
    ReachingNulFree(r);
  }

  lemma ReachingNulFree(r: string)
    requires Resource(r)
    ensures NulFree(Reaching(r))
  {
    hide Resource, NAME, GAP, APPLE, REST, Reaching, Arn;
    ReachingChars(r);
    RestChars();
  }
}
