/** The text redaction returns, tokens and all: a pattern can match in it only where it meets an
    allow-listed token, and such matches there are. */
module FinalText {
  import opened Regexp
  import opened Redaction
  import opened Replacing
  import opened Completeness
  import opened Restoration
  import opened AllowShape
  import opened Idempotence
  import opened Sealing
  import opened Harmlessness
  import opened Emit
  import opened Descriptions

  /** Position k of the woven text lies in a token. */
  predicate InToken(gaps: seq<string>, toks: seq<string>, k: int)
    requires |gaps| == |toks| + 1
    decreases |toks|
  {
    toks != [] && k >= |gaps[0]| &&
      (var m := k - |gaps[0]| - |toks[0]|; m < 0 || InToken(gaps[1..], toks[1..], m))
  }

  ghost predicate Meets(gaps: seq<string>, toks: seq<string>, a: nat, b: nat)
    requires |gaps| == |toks| + 1
  {
    exists k :: a <= k < b && InToken(gaps, toks, k)
  }

  // ---------------------------------------------------------------- matches away from tokens

  lemma WeaveCons(gaps: seq<string>, toks: seq<string>)
    requires |gaps| == |toks| + 1 && toks != []
    ensures Weave(gaps, toks) == gaps[0] + toks[0] + Weave(gaps[1..], toks[1..])
    ensures Join(gaps, SENTINEL) == gaps[0] + SENTINEL + Join(gaps[1..], SENTINEL)
  {
  }

  /** A match that meets no token is there in the gaps between sentinels. */
  lemma {:induction false} MatchInGaps(p: nat, gaps: seq<string>, toks: seq<string>, a: nat, b: nat)
    requires p < 8 && |gaps| == |toks| + 1 && Framed(gaps, toks)
    requires a <= b <= |Weave(gaps, toks)| && Matches(STRUCTURAL[p].re, Weave(gaps, toks), a, b)
    requires !Meets(gaps, toks, a, b)
    ensures !AllClear(Join(gaps, SENTINEL))
    decreases |toks|
  {
    assert |STRUCTURAL| == 8;
    hide *;
    var g := gaps[0];
    MatchIsSome(p, Weave(gaps, toks), a, b);
    if toks == [] {
      OneGapOnly(gaps);
      HitUnclear(p, g, a, b);
    } else {
      var tok, rest, z := toks[0], Weave(gaps[1..], toks[1..]), Join(gaps[1..], SENTINEL);
      WeaveCons(gaps, toks);
      FramedParts(gaps, toks);
      if a < |g| {
        GapBeforeToken(p, g, tok, rest, a, b, gaps, toks);
        UnclearBefore(p, g, a, b, z);
      } else {
        BehindToken(p, gaps, toks, a, b);
        var n := |g| + |tok|;
        MatchInGaps(p, gaps[1..], toks[1..], a - n, b - n);
        UnclearBehind(g + SENTINEL, z);
      }
    }
  }

  lemma FramedParts(gaps: seq<string>, toks: seq<string>)
    requires |gaps| == |toks| + 1 && toks != [] && Framed(gaps, toks)
    ensures toks[0] != "" && NonWordEnd(gaps[0]) && NonWordEnd(gaps[0] + SENTINEL) && Framed(gaps[1..], toks[1..])
  {
    hide Whole, Opens;
    WholeFacts(toks[0]);
  }

  lemma MatchIsSome(p: nat, y: string, a: nat, b: nat)
    requires p < 8 && a <= b <= |y| && Matches(STRUCTURAL[p].re, y, a, b)
    ensures a < b
  {
    assert |STRUCTURAL| == 8;
    hide Matches, STRUCTURAL, First, Last, Over;
    assert Rewriter(STRUCTURAL[p].re);
    MatchFacts(STRUCTURAL[p].re, y, a, b);
  }

  lemma OneGapOnly(gaps: seq<string>)
    requires |gaps| == 1
    ensures Weave(gaps, []) == gaps[0] == Join(gaps, SENTINEL)
  {
  }

  lemma HitIsUnclear(p: nat, s: string, a: nat)
    requires p < 8 && HitAt(STRUCTURAL[p].re, s, a)
    ensures !AllClear(s)
  {
  }

  lemma HitUnclear(p: nat, s: string, a: nat, b: nat)
    requires p < 8 && a <= b <= |s| && Matches(STRUCTURAL[p].re, s, a, b)
    ensures !AllClear(s)
  {
    hide Matches;
    HitIsUnclear(p, s, a);
  }

  /** What is not clear stays so behind the end of a sentinel. */
  lemma UnclearBehind(x: string, z: string)
    requires NonWordEnd(x) && !AllClear(z)
    ensures !AllClear(x + z)
  {
    assert |STRUCTURAL| == 8;
    hide Matches, STRUCTURAL;
    var p :| 0 <= p < 8 && !NoHit(STRUCTURAL[p].re, z);
    var a :| 0 <= a <= |z| && HitAt(STRUCTURAL[p].re, z, a);
    HitRight(STRUCTURAL[p].re, x, z, a);
    HitIsUnclear(p, x + z, |x| + a);
  }

  /** A match before a sentinel is there in the whole. */
  lemma UnclearBefore(p: nat, g: string, a: nat, b: nat, z: string)
    requires p < 8 && a <= b <= |g| && Matches(STRUCTURAL[p].re, g, a, b)
    ensures !AllClear(g + SENTINEL + z)
  {
    assert |STRUCTURAL| == 8;
    hide Matches, STRUCTURAL;
    var q := STRUCTURAL[p].re;
    assert Rewriter(q);
    assert Opens(SENTINEL + z) by { assert (SENTINEL + z)[0] == NUL; }
    assert HitAt(q, g, a);
    HitLeft(q, g, SENTINEL + z, a);
    assert g + (SENTINEL + z) == g + SENTINEL + z;
    HitIsUnclear(p, g + SENTINEL + z, a);
  }

  /** Before a token a match ends in the gap. */
  lemma GapBeforeToken(p: nat, g: string, tok: string, rest: string, a: nat, b: nat, gaps: seq<string>, toks: seq<string>)
    requires |gaps| == |toks| + 1 && toks != [] && g == gaps[0] && tok == toks[0] && tok != "" && NonWordEnd(g)
    requires p < 8 && a < |g| && a < b <= |g + tok + rest| && Matches(STRUCTURAL[p].re, g + tok + rest, a, b)
    requires !Meets(gaps, toks, a, b)
    ensures b <= |g| && Matches(STRUCTURAL[p].re, g, a, b)
  {
    hide Matches, First, Last, Over;
    var q, y := STRUCTURAL[p].re, g + tok + rest;
    assert InToken(gaps, toks, |g|);
    assert b <= |g|;
    assert forall k :: 0 <= k < |g| ==> y[k] == g[k];
    TableFacts(p);
    MatchFacts(q, y, a, b);
    if !NoEdge(q) {
      assert b < |g|;
      assert forall k :: 0 <= k <= b ==> Boundary(y, k) == Boundary(g, k);
    }
    MoveMatch(q, y, a, b, g, a);
  }

  /** Behind a token the text is read as if it began there. */
  lemma BehindToken(p: nat, gaps: seq<string>, toks: seq<string>, a: nat, b: nat)
    requires |gaps| == |toks| + 1 && toks != [] && Framed(gaps, toks) && p < 8
    requires |gaps[0]| <= a < b <= |Weave(gaps, toks)| && Matches(STRUCTURAL[p].re, Weave(gaps, toks), a, b)
    requires !Meets(gaps, toks, a, b)
    ensures var n, rest := |gaps[0]| + |toks[0]|, Weave(gaps[1..], toks[1..]);
      n <= a && b - n <= |rest| && Matches(STRUCTURAL[p].re, rest, a - n, b - n) && !Meets(gaps[1..], toks[1..], a - n, b - n)
  {
    hide Matches, First, Last, Over, Whole, Framed;
    var q, y, x, n := STRUCTURAL[p].re, Weave(gaps, toks), gaps[0] + toks[0], |gaps[0]| + |toks[0]|;
    var rest := Weave(gaps[1..], toks[1..]);
    WeaveCons(gaps, toks);
    hide Weave;
    assert y == x + rest;
    assert n <= a by { assert !InToken(gaps, toks, a); }
    forall k | a - n <= k < b - n ensures !InToken(gaps[1..], toks[1..], k) {
      assert !InToken(gaps, toks, k + n);
    }
    MatchFacts(q, y, a, b);
    FramedRest(gaps, toks);
    SuffixPlace(q, x, rest, a - n, b - n);
    MoveMatch(q, y, a, b, rest, a - n);
  }

  lemma FramedRest(gaps: seq<string>, toks: seq<string>)
    requires |gaps| == |toks| + 1 && toks != [] && Framed(gaps, toks)
    ensures Opens(Weave(gaps[1..], toks[1..]))
  {
  }

  /** A match in the right part begins with a word, so it begins behind the left one. */
  lemma SuffixPlace(q: Re, x: string, v: string, a: nat, b: nat)
    requires Opens(v) && a < b <= |v| && IsWord(v[a])
    ensures SameWindow(q, x + v, |x| + a, |x| + b, v, a)
  {
    var t := x + v;
    assert a > 0;
    assert forall k :: 0 <= k < |v| ==> t[|x| + k] == v[k];
    assert forall k :: |x| <= k < |t| ==> t[k] == v[k - |x|];
  }

  /** A structural pattern matches here in the text redaction returns. */
  ghost predicate Remains(text: string, p: nat, a: nat, b: nat) {
    var clean := Redacted(PLAIN, text).clean;
    p < 8 && a <= b <= |clean| && Matches(STRUCTURAL[p].re, clean, a, b)
  }

  /** The returned text is woven of the first tokens and of gaps, and a structural pattern matches in it
      only where it meets one of these tokens. */
  lemma MatchesMeetTokens(text: string) returns (gaps: seq<string>, toks: seq<string>)
    requires NulFree(text)
    ensures WovenOf(text, gaps, toks)
    ensures forall p: nat, a: nat, b: nat :: Remains(text, p, a, b) ==> Meets(gaps, toks, a, b)
  {
    gaps, toks := CleanIsWoven(text);
    hide Redacted, Tokens, STRUCTURAL, AllClear, Matches, Framed, Meets, AllNulFree, Remains;
    forall p: nat, a: nat, b: nat | Remains(text, p, a, b) ensures Meets(gaps, toks, a, b) {
      RemainderMeets(text, p, a, b, gaps, toks);
    }
  }

  lemma RemainderMeets(text: string, p: nat, a: nat, b: nat, gaps: seq<string>, toks: seq<string>)
    requires WovenOf(text, gaps, toks) && Remains(text, p, a, b)
    ensures Meets(gaps, toks, a, b)
  {
    assert |STRUCTURAL| == 8;
    hide Redacted, Tokens, STRUCTURAL, AllClear, Matches, Framed, Meets, AllNulFree, Weave, Join;
    if !Meets(gaps, toks, a, b) { MatchInGaps(p, gaps, toks, a, b); }
  }

  // ---------------------------------------------------------------- matches made of one word

  lemma EdgeChars(g: string, tok: string, rest: string)
    ensures var y := g + tok + rest;
      && (g != "" ==> y[|g| - 1] == g[|g| - 1])
      && (rest != "" ==> y[|g| + |tok|] == rest[0])
  {
  }

  lemma {:induction false} TokenSpreads(gaps: seq<string>, toks: seq<string>, k: nat)
    requires |gaps| == |toks| + 1 && Framed(gaps, toks) && k + 1 < |Weave(gaps, toks)|
    requires IsWord(Weave(gaps, toks)[k]) && IsWord(Weave(gaps, toks)[k + 1])
    ensures InToken(gaps, toks, k) <==> InToken(gaps, toks, k + 1)
    decreases |toks|
  {
    hide Whole;
    if toks != [] {
      WeaveCons(gaps, toks);
      var g, n, rest := gaps[0], |gaps[0]| + |toks[0]|, Weave(gaps[1..], toks[1..]);
      var y := g + toks[0] + rest;
      WholeFacts(toks[0]);
      EdgeChars(g, toks[0], rest);
      if k >= n {
        assert y[k] == rest[k - n] && y[k + 1] == rest[k - n + 1];
        TokenSpreads(gaps[1..], toks[1..], k - n);
      }
    }
  }

  lemma {:induction false} TokenSpreadsOver(gaps: seq<string>, toks: seq<string>, a: nat, b: nat, k: nat)
    requires |gaps| == |toks| + 1 && Framed(gaps, toks) && a <= k < b <= |Weave(gaps, toks)|
    requires forall m :: a <= m < b ==> IsWord(Weave(gaps, toks)[m])
    requires InToken(gaps, toks, k)
    ensures InToken(gaps, toks, a)
    decreases k - a
  {
    hide Framed, InToken, Weave;
    if a < k {
      TokenSpreads(gaps, toks, k - 1);
      TokenSpreadsOver(gaps, toks, a, b, k - 1);
    }
  }

  lemma {:induction false} TokenSpreadsOn(gaps: seq<string>, toks: seq<string>, a: nat, b: nat, k: nat)
    requires |gaps| == |toks| + 1 && Framed(gaps, toks) && a <= k < b <= |Weave(gaps, toks)|
    requires forall m :: a <= m < b ==> IsWord(Weave(gaps, toks)[m])
    requires InToken(gaps, toks, a)
    ensures InToken(gaps, toks, k)
    decreases k - a
  {
    hide Framed, InToken, Weave;
    if a < k {
      TokenSpreadsOn(gaps, toks, a, b, k - 1);
      TokenSpreads(gaps, toks, k - 1);
    }
  }

  /** The patterns whose matches are one word. */
  lemma WordOver(p: nat, c: char)
    requires p in {1, 2, 3, 7} && Over(STRUCTURAL[p].re, c)
    ensures IsWord(c)
  {
    PatOver(c);
    AccountFacts(c);
    assert Over(ACCESS_KEY, c) ==> IsWord(c);
    assert Over(GITHUB_TOKEN, c) ==> IsWord(c);
    hide ACCESS_KEY, GITHUB_TOKEN, GITHUB_PAT, ACCOUNT_ID, Over;
  }

  lemma {:induction false} TokenChar(gaps: seq<string>, toks: seq<string>, k: nat)
    requires |gaps| == |toks| + 1 && Framed(gaps, toks) && k < |Weave(gaps, toks)| && InToken(gaps, toks, k)
    ensures Weave(gaps, toks)[k] != '_'
    decreases |toks|
  {
    hide Over, Matches, ALLOW;
    WeaveCons(gaps, toks);
    var g, tok, rest := gaps[0], toks[0], Weave(gaps[1..], toks[1..]);
    var y, n := g + tok + rest, |g| + |tok|;
    if k < n {
      MatchIsOver(ALLOW, tok, 0, |tok|, k - |g|);
      AllowOver(tok[k - |g|]);
      assert y[k] == tok[k - |g|];
    } else {
      assert y[k] == rest[k - n];
      TokenChar(gaps[1..], toks[1..], k - n);
    }
  }

  /** GitHub's tokens hold an underscore, allow-listed ones do not. */
  lemma NoUnderscore(p: nat, gaps: seq<string>, toks: seq<string>, a: nat, b: nat)
    requires |gaps| == |toks| + 1 && Framed(gaps, toks) && p in {1, 2, 3, 7}
    requires a <= b <= |Weave(gaps, toks)| && Matches(STRUCTURAL[p].re, Weave(gaps, toks), a, b)
    requires forall m :: a <= m < b ==> InToken(gaps, toks, m)
    ensures p in {1, 7}
  {
    hide Matches, Framed, InToken, Weave;
    if p in {2, 3} {
      UnderscoreIn(p, Weave(gaps, toks), a, b);
      TokenChar(gaps, toks, if p == 2 then a + 3 else a + 6);
    }
  }

  ghost predicate Inside(gaps: seq<string>, toks: seq<string>, a: nat, b: nat)
    requires |gaps| == |toks| + 1
  {
    forall k :: a <= k < b ==> InToken(gaps, toks, k)
  }

  /** An access key or an account number that is left lies in a token; GitHub's tokens are never left. */
  lemma WordMatchesAreTokens(text: string) returns (gaps: seq<string>, toks: seq<string>)
    requires NulFree(text)
    ensures WovenOf(text, gaps, toks)
    ensures forall p: nat, a: nat, b: nat :: p in {1, 2, 3, 7} && Remains(text, p, a, b) ==>
      p in {1, 7} && Inside(gaps, toks, a, b)
  {
    gaps, toks := CleanIsWoven(text);
    hide Redacted, Tokens, STRUCTURAL, AllClear, Matches, Framed, Inside, AllNulFree, Remains;
    forall p: nat, a: nat, b: nat | p in {1, 2, 3, 7} && Remains(text, p, a, b)
      ensures p in {1, 7} && Inside(gaps, toks, a, b)
    {
      RemainderInside(text, p, a, b, gaps, toks);
    }
  }

  lemma RemainderInside(text: string, p: nat, a: nat, b: nat, gaps: seq<string>, toks: seq<string>)
    requires WovenOf(text, gaps, toks) && Remains(text, p, a, b) && p in {1, 2, 3, 7}
    ensures p in {1, 7} && Inside(gaps, toks, a, b)
  {
    assert |STRUCTURAL| == 8;
    RemainderMeets(text, p, a, b, gaps, toks);
    hide Redacted, Tokens, STRUCTURAL, AllClear, Matches, Framed, InToken, AllNulFree, Weave, Join;
    var k :| a <= k < b && InToken(gaps, toks, k);
    WordMatchInToken(p, gaps, toks, a, b, k);
    NoUnderscore(p, gaps, toks, a, b);
  }

  lemma WordMatchInToken(p: nat, gaps: seq<string>, toks: seq<string>, a: nat, b: nat, k: nat)
    requires |gaps| == |toks| + 1 && Framed(gaps, toks) && p in {1, 2, 3, 7}
    requires a <= k < b <= |Weave(gaps, toks)| && Matches(STRUCTURAL[p].re, Weave(gaps, toks), a, b)
    requires InToken(gaps, toks, k)
    ensures forall m :: a <= m < b ==> InToken(gaps, toks, m)
  {
    var y := Weave(gaps, toks);
    hide Matches, Framed, InToken, Over, Weave;
    forall m | a <= m < b ensures IsWord(y[m]) {
      MatchIsOver(STRUCTURAL[p].re, y, a, b, m);
      WordOver(p, y[m]);
    }
    TokenSpreadsOver(gaps, toks, a, b, k);
    forall m | a <= m < b ensures InToken(gaps, toks, m) { TokenSpreadsOn(gaps, toks, a, b, m); }
  }

  lemma UnderscoreIn(p: nat, s: string, a: nat, b: nat)
    requires p in {2, 3} && a <= b <= |s| && Matches(STRUCTURAL[p].re, s, a, b)
    ensures var k := if p == 2 then a + 3 else a + 6; k < b && s[k] == '_'
  {
    if p == 2 {
      var m := CatMatch(GITHUB_TOKEN, s, a, b);
      LiteralFirst("ghp_", Run(AlNum, 36), s, a, b);
    } else {
      var tail := Cat(Run(AlNumUnder, 22), Star(Sym(AlNumUnder)));
      var m := CatMatch(GITHUB_PAT, s, a, b);
      LiteralFirst("github_pat_", tail, s, a, b);
    }
  }

  // ---------------------------------------------------------------- and such matches there are

  predicate HostLabel(x: string) { x != "" && forall k :: 0 <= k < |x| ==> In(AlNumDash, x[k]) }

  /** A key in the place of a host's name. */
  function KeyHost(x: string): string { "sk-ant-" + x + ".example.com" }

  lemma KeyHostChars(x: string)
    requires HostLabel(x)
    ensures var s, n := KeyHost(x), 7 + |x|;
      && |s| == n + 12 && s[0] == 's' && IsWord(s[|s| - 1]) && NulFree(s)
      && LiteralAt("sk-ant-", false, s, 0) && LiteralAt(".example.com", true, s, n)
      && forall k :: 1 <= k < n ==> In(AlNumDash, s[k])
  {
    var s, n, h, t := KeyHost(x), 7 + |x|, "sk-ant-", ".example.com";
    assert forall k :: 0 <= k < 7 ==> s[k] == h[k];
    assert forall k :: 7 <= k < n ==> s[k] == x[k - 7];
    assert forall k :: 0 <= k < 12 ==> s[n + k] == t[k];
    assert forall k :: n <= k < n + 12 ==> s[k] == t[k - n];
    assert forall k :: 1 <= k < 7 ==> In(AlNumDash, h[k]);
  }

  lemma KeyHostMatches(s: string, n: nat)
    requires 1 <= n && |s| == n + 12 && s[0] == 's' && LiteralAt(".example.com", true, s, n)
    requires forall k :: 1 <= k < n ==> In(AlNumDash, s[k])
    ensures Matches(EXAMPLE_COM, s, 0, n + 12)
  {
    var host := Cat(Star(Sym(AlNumDash)), Word(".example.com", true));
    StarRun(AlNumDash, s, 1, n);
    CatMatches(host, s, 1, n, n + 12);
    CatMatches(EXAMPLE_COM, s, 0, 1, n + 12);
  }

  lemma KeyHostIsToken(x: string)
    requires HostLabel(x)
    ensures Whole(KeyHost(x))
  {
    hide Matches, ALLOW, COM_EXAMPLE, DOCS;
    var s, n := KeyHost(x), 7 + |x|;
    KeyHostChars(x);
    assert Boundary(s, 0) && Boundary(s, n + 12);
    KeyHostMatches(s, n);
    AllowMatches(s, 0, n + 12);
  }

  lemma KeyHostHoldsKey(x: string)
    requires HostLabel(x)
    ensures HitAt(ANTHROPIC_KEY, KeyHost(x), 0)
  {
    var s, n := KeyHost(x), 7 + |x|;
    KeyHostChars(x);
    assert s[7] == x[0];
    StarRun(AlNumDash, s, 8, n);
    CatMatches(Plus(AlNumDash), s, 7, 8, n);
    CatMatches(ANTHROPIC_KEY, s, 0, 7, n);
  }

  /** An allow-listed host name hides a key: the text is one token, comes back as it is without a hit,
      and is safe, though the key's pattern matches it. */
  lemma HostHidesKey(x: string)
    requires HostLabel(x)
    ensures HitAt(ANTHROPIC_KEY, KeyHost(x), 0)
    ensures Redacted(PLAIN, KeyHost(x)) == Result(KeyHost(x), []) && PassesGate(PLAIN, KeyHost(x))
  {
    var s := KeyHost(x);
    KeyHostHoldsKey(x);
    KeyHostIsToken(x);
    KeyHostChars(x);
    OnlyToken(s);
    SentinelIsClear();
    hide Redacted, Stashed, STRUCTURAL, ALLOW, AllClear, KeyHost;
    ClearStashPasses(s);
    PlainGate(s);
  }

  lemma OnlyToken(s: string)
    requires Whole(s)
    ensures Stashed(s) == SENTINEL
  {
    hide Whole, ALLOW, STRUCTURAL;
    ShutParts("", s);
    assert "" + s + "" == s && "" + s == s;
    StashSplits("", s, "");
    StashNothing("");
    StashIsSub(s);
  }

  lemma SentinelIsHarmless()
    ensures Harmless(SENTINEL)
  {
    var s := SENTINEL;
    assert forall k :: 0 <= k < 7 ==> s[k] == NUL || IsUpper(s[k]);
    assert s[1] == 'A' && s[2] == 'L' && s[3] == 'L';
    assert forall k :: 1 <= k < 7 ==> s[k] != 'K';
  }

  lemma SentinelIsClear()
    ensures AllClear(SENTINEL)
  {
    SentinelIsHarmless();
    hide Harmless, AllClear;
    HarmlessIsClear(SENTINEL);
  }
}
