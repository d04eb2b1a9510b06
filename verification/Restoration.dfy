/** Stashing and restoring: which texts come back unchanged, and when a hit shows in the result. */
module Restoration {
  import opened Text
  import opened Regexp
  import opened Redaction
  import opened Completeness

  predicate NulFree(s: string) { forall k :: 0 <= k < |s| ==> s[k] != NUL }

  predicate AllNulFree(ss: seq<string>) { forall k :: 0 <= k < |ss| ==> NulFree(ss[k]) }

  // ---------------------------------------------------------------- restoring

  /** Whatever follows a sentinel-free beginning, the sentinels are those of the rest. */
  lemma SentinelsAfterPrefix(pre: string, x: string, m: nat)
    requires NulFree(pre)
    ensures OccursAt(pre + x, SENTINEL, m) <==> m >= |pre| && OccursAt(x, SENTINEL, m - |pre|)
  {
    var s := pre + x;
    if m < |pre| {
      assert s[m] == pre[m];
      if OccursAt(s, SENTINEL, m) { OccursFirst(s, SENTINEL, m); }
    } else if m + |SENTINEL| <= |s| {
      assert s[m..m + |SENTINEL|] == x[m - |pre|..m - |pre| + |SENTINEL|];
    }
  }

  lemma IndexAfterPrefix(pre: string, x: string)
    requires NulFree(pre)
    ensures Index(pre + x, SENTINEL, 0) == |pre| + Index(x, SENTINEL, 0)
  {
    var s, i := pre + x, Index(x, SENTINEL, 0);
    hide OccursAt;
    forall m: nat ensures OccursAt(s, SENTINEL, m) <==> m >= |pre| && OccursAt(x, SENTINEL, m - |pre|) {
      SentinelsAfterPrefix(pre, x, m);
    }
    if i <= |x| {
      OccursUnique(s, SENTINEL, |pre| + i);
    } else {
      var j := Index(s, SENTINEL, 0);
      assert j > |s|;
    }
  }

  lemma ReplaceAfterPrefix(pre: string, x: string, t: string)
    requires NulFree(pre)
    ensures ReplaceFirst(pre + x, SENTINEL, t) == pre + ReplaceFirst(x, SENTINEL, t)
  {
    var i := Index(x, SENTINEL, 0);
    IndexAfterPrefix(pre, x);
    hide Index, OccursAt;
    if i <= |x| { SliceAfterPrefix(pre, x, i, i + |SENTINEL|); }
  }

  lemma SliceAfterPrefix(pre: string, x: string, i: nat, j: nat)
    requires i <= j <= |x|
    ensures (pre + x)[..|pre| + i] == pre + x[..i] && (pre + x)[|pre| + j..] == x[j..]
  {
  }

  /** Restoring leaves a sentinel-free beginning alone. */
  lemma {:induction false} RestoreAfterPrefix(pre: string, x: string, toks: seq<string>)
    requires NulFree(pre)
    ensures Restore(pre + x, toks) == pre + Restore(x, toks)
    decreases |toks|
  {
    if toks != [] {
      ReplaceAfterPrefix(pre, x, toks[0]);
      RestoreAfterPrefix(pre, ReplaceFirst(x, SENTINEL, toks[0]), toks[1..]);
    }
  }

  /** The first token goes where the first sentinel is. */
  lemma RestoreToken(g: string, rest: string, toks: seq<string>)
    requires NulFree(g) && toks != [] && NulFree(toks[0])
    ensures Restore(g + SENTINEL + rest, toks) == g + toks[0] + Restore(rest, toks[1..])
  {
    var t := toks[0];
    var x := SENTINEL + rest;
    assert g + SENTINEL + rest == g + x;
    assert OccursAt(x, SENTINEL, 0);
    assert x[|SENTINEL|..] == rest;
    ReplaceAfterPrefix(g, x, t);
    assert ReplaceFirst(x, SENTINEL, t) == t + rest;
    assert g + (t + rest) == (g + t) + rest;
    RestoreAfterPrefix(g + t, rest, toks[1..]);
  }

  /** With one sentinel for each token, every token returns to its own place. */
  lemma {:induction false} RestoreJoin(gaps: seq<string>, toks: seq<string>)
    requires |gaps| == |toks| + 1 && AllNulFree(gaps) && AllNulFree(toks)
    ensures Restore(Join(gaps, SENTINEL), toks) == Weave(gaps, toks)
    decreases |toks|
  {
    if toks != [] {
      RestoreToken(gaps[0], Join(gaps[1..], SENTINEL), toks);
      RestoreJoin(gaps[1..], toks[1..]);
    }
  }

  // ---------------------------------------------------------------- NUL-free text

  lemma {:induction false} CutNulFree(r: Re, s: string, k: nat)
    requires !Nullable(r) && k <= |s| && NulFree(s)
    ensures AllNulFree(Cut(r, s, k).gaps) && AllNulFree(Cut(r, s, k).toks)
    decreases |s| - k
  {
    hide Ends, EndsEach, Find, Matches;
    var i := Find(r, s, k);
    if i <= |s| {
      FirstEnd(r, s, i);
      var j := Ends(r, s, i)[0];
      CutNulFree(r, s, j);
      assert NulFree(s[k..i]) && NulFree(s[i..j]);
    }
  }

  lemma {:induction false} JoinNulFree(gaps: seq<string>, sep: string)
    requires gaps != [] && AllNulFree(gaps) && NulFree(sep)
    ensures NulFree(Join(gaps, sep))
    decreases |gaps|
  {
    if |gaps| > 1 { JoinNulFree(gaps[1..], sep); }
  }

  lemma {:induction false} PassesNulFree(rules: seq<Rule>, w: Work)
    requires Solid(rules) && NulFree(w.out)
    requires forall k :: 0 <= k < |rules| ==> NulFree(rules[k].placeholder)
    ensures NulFree(Passes(rules, w).out)
    decreases |rules|
  {
    if rules != [] {
      var c := Cut(rules[0].re, w.out, 0);
      CutNulFree(rules[0].re, w.out, 0);
      JoinNulFree(c.gaps, rules[0].placeholder);
      PassesNulFree(rules[1..], Pass(rules[0], w));
    }
  }

  lemma PlaceholdersNulFree()
    ensures NulFree("<ARN>") && NulFree("<AWS_ACCESS_KEY>") && NulFree("<GITHUB_TOKEN>") && NulFree("<SLACK_TOKEN>")
    ensures NulFree("<ANTHROPIC_KEY>") && NulFree("<BUNDLE_ID>") && NulFree("<AWS_ACCOUNT_ID>")
  {
  }

  lemma TableNulFree()
    ensures Solid(STRUCTURAL) && forall k :: 0 <= k < |STRUCTURAL| ==> NulFree(STRUCTURAL[k].placeholder)
  {
    hide NulFree;
    TableIsSolid();
    PlaceholdersNulFree();
  }

  // ---------------------------------------------------------------- passes that find nothing

  lemma {:induction false} PassesOnlyAddHits(rules: seq<Rule>, w: Work)
    requires Solid(rules)
    ensures w.hits <= Passes(rules, w).hits
    ensures Passes(rules, w).hits == w.hits ==> Passes(rules, w).out == w.out
    decreases |rules|
  {
    if rules != [] {
      var w' := Pass(rules[0], w);
      PassesOnlyAddHits(rules[1..], w');
      if w'.hits == w.hits { NoTokensNoChange(rules[0].re, w.out, rules[0].placeholder); }
    }
  }

  lemma {:induction false} NoHitNoPass(k: nat, w: Work)
    requires k <= 8 && Solid(STRUCTURAL[k..])
    requires forall p :: 0 <= p < 8 ==> NoHit(STRUCTURAL[p].re, w.out)
    ensures Passes(STRUCTURAL[k..], w) == w
    decreases 8 - k
  {
    if k < 8 {
      var q, rest := STRUCTURAL[k].re, STRUCTURAL[k..];
      TableFacts(k);
      assert NoHit(q, w.out);
      forall i | 0 <= i <= |w.out| ensures Ends(q, w.out, i) == [] {
        assert !HitAt(q, w.out, i);
        NoEndsNoHit(q, w.out, i);
      }
      assert Find(q, w.out, 0) > |w.out|;
      NoTokensNoChange(q, w.out, STRUCTURAL[k].placeholder);
      assert rest[0] == STRUCTURAL[k] && rest[1..] == STRUCTURAL[k + 1..];
      assert Pass(rest[0], w) == w;
      NoHitNoPass(k + 1, w);
    }
  }

  // ---------------------------------------------------------------- the leftmost replacement shows

  /** A structural match can start at i. */
  predicate StartChar(s: string, i: nat)
    requires i < |s|
  {
    IsLower(s[i]) || IsDigit(s[i]) || (s[i] == 'A' && i + 1 < |s| && s[i + 1] == 'K')
  }

  /** The two texts agree up to i, where a match began and a placeholder stands now. */
  ghost predicate DivergeAt(s: string, t: string, i: nat) {
    i < |s| && i < |t| && s[..i] == t[..i] && StartChar(s, i) && t[i] == '<'
  }

  ghost predicate Diverge(s: string, t: string) {
    exists i: nat :: DivergeAt(s, t, i)
  }

  lemma DivergeTransitive(s: string, r: string, t: string)
    requires Diverge(s, r) && Diverge(r, t)
    ensures Diverge(s, t)
  {
    var i: nat :| DivergeAt(s, r, i);
    var j: nat :| DivergeAt(r, t, j);
    if i < j {
      assert t[i] == t[..j][i] == r[..j][i];
      assert s[..i] == r[..i] == r[..j][..i] == t[..i];
      assert DivergeAt(s, t, i);
    } else {
      assert i != j;
      assert s[j] == s[..i][j] == r[j];
      assert s[..j] == s[..i][..j] == r[..j];
      assert j + 1 < i ==> s[j + 1] == s[..i][j + 1] == r[..i][j + 1];
      assert DivergeAt(s, t, j);
    }
  }

  lemma PassDiverges(p: nat, w: Work)
    requires p < 8
    ensures !Nullable(STRUCTURAL[p].re)
    ensures Pass(STRUCTURAL[p], w).hits != w.hits ==> Diverge(w.out, Pass(STRUCTURAL[p], w).out)
    ensures Pass(STRUCTURAL[p], w).hits == w.hits ==> Pass(STRUCTURAL[p], w).out == w.out
  {
    var q, f, s := STRUCTURAL[p].re, STRUCTURAL[p].placeholder, w.out;
    TableFacts(p);
    if Pass(STRUCTURAL[p], w).hits == w.hits {
      NoTokensNoChange(q, s, f);
    } else {
      var i := Find(q, s, 0);
      var j, rest, toks := CutStep(q, s, 0, f, Join(Cut(q, s, 0).gaps, f), Cut(q, s, 0).toks);
      MatchStartChar(p, s, i, j);
      StartsWithFiller(s, i, f, rest);
      assert DivergeAt(s, Pass(STRUCTURAL[p], w).out, i);
    }
  }

  lemma MatchStartChar(p: nat, s: string, i: nat, j: nat)
    requires p < 8 && i <= j <= |s| && Matches(STRUCTURAL[p].re, s, i, j)
    ensures i < |s| && StartChar(s, i)
    ensures STRUCTURAL[p].placeholder[0] == '<'
  {
    MatchFacts(STRUCTURAL[p].re, s, i, j);
    MatchFirst(STRUCTURAL[p].re, s, i, j);
    FirstFacts(p, s[i]);
    if p == 1 { AccessKeyMatch(s, i, j); }
  }

  lemma StartsWithFiller(s: string, i: nat, f: string, rest: string)
    requires i <= |s| && f != []
    ensures var t := s[0..i] + f + rest; t[..i] == s[..i] && t[i] == f[0]
  {
  }

  lemma {:induction false} PassesDiverge(k: nat, w: Work)
    requires k <= 8 && Solid(STRUCTURAL[k..])
    ensures Passes(STRUCTURAL[k..], w).hits != w.hits ==> Diverge(w.out, Passes(STRUCTURAL[k..], w).out)
    decreases 8 - k
  {
    if k < 8 {
      var rest, w' := STRUCTURAL[k..], Pass(STRUCTURAL[k], w);
      assert rest[0] == STRUCTURAL[k] && rest[1..] == STRUCTURAL[k + 1..];
      PassDiverges(k, w);
      PassesOnlyAddHits(STRUCTURAL[k + 1..], w');
      PassesDiverge(k + 1, w');
      var w'' := Passes(STRUCTURAL[k + 1..], w');
      if w'.hits != w.hits && w''.hits != w'.hits { DivergeTransitive(w.out, w'.out, w''.out); }
    }
  }

  /** Restoring the tokens does not hide the place where the texts part. */
  lemma {:induction false} RestoreKeepsDiverging(gaps: seq<string>, toks: seq<string>, t: string)
    requires |gaps| == |toks| + 1 && AllNulFree(gaps) && AllNulFree(toks)
    requires Diverge(Join(gaps, SENTINEL), t)
    ensures Restore(t, toks) != Weave(gaps, toks)
    decreases |toks|
  {
    var s, g := Join(gaps, SENTINEL), gaps[0];
    var i: nat :| DivergeAt(s, t, i);
    if i < |g| {
      RestoreJoin(gaps, toks);
      GapStart(gaps, i);
      RestoredDiffers(s, t, i, toks);
    } else if toks != [] {
      var t' := DivergeAfterSentinel(g, Join(gaps[1..], SENTINEL), t, i);
      RestoreToken(g, t', toks);
      RestoreKeepsDiverging(gaps[1..], toks[1..], t');
      var pre, a, b := g + toks[0], Restore(t', toks[1..]), Weave(gaps[1..], toks[1..]);
      assert (pre + a)[|pre|..] == a && (pre + b)[|pre|..] == b;
    }
  }

  /** No match starts inside a sentinel. */
  lemma DivergeAfterSentinel(g: string, rest: string, t: string, i: nat) returns (t': string)
    requires i >= |g| && DivergeAt(g + SENTINEL + rest, t, i)
    ensures t == g + SENTINEL + t' && Diverge(rest, t')
  {
    var s, n := g + SENTINEL + rest, |g| + |SENTINEL|;
    assert forall k :: |g| <= k < n ==> s[k] == SENTINEL[k - |g|];
    assert i >= n;
    t' := t[n..];
    assert t[..n] == t[..i][..n] == s[..i][..n] == g + SENTINEL;
    assert t == t[..n] + t[n..];
    assert rest == s[n..];
    assert rest[..i - n] == s[..i][n..] == t[..i][n..] == t'[..i - n];
    assert StartChar(rest, i - n);
    assert DivergeAt(rest, t', i - n);
  }

  lemma GapStart(gaps: seq<string>, i: nat)
    requires gaps != [] && i < |gaps[0]| && NulFree(gaps[0])
    ensures var s := Join(gaps, SENTINEL); i < |s| && NulFree(s[..i]) && s[i] != NUL
  {
    var s := Join(gaps, SENTINEL);
    assert forall k :: 0 <= k <= i ==> s[k] == gaps[0][k];
  }

  lemma RestoredDiffers(s: string, t: string, i: nat, toks: seq<string>)
    requires DivergeAt(s, t, i) && NulFree(s[..i]) && s[i] != NUL
    ensures Restore(s, toks) != Restore(t, toks)
  {
    RestoredChar(s[..i], s, toks);
    RestoredChar(t[..i], t, toks);
  }

  lemma RestoredChar(pre: string, s: string, toks: seq<string>)
    requires |pre| < |s| && pre == s[..|pre|] && NulFree(pre) && s[|pre|] != NUL
    ensures |Restore(s, toks)| > |pre| && Restore(s, toks)[|pre|] == s[|pre|]
  {
    var more := pre + [s[|pre|]];
    assert s == more + s[|pre| + 1..];
    RestoreAfterPrefix(more, s[|pre| + 1..], toks);
  }

  // ---------------------------------------------------------------- the theorems

  const PLAIN := Redactor(None)  // New with the wired, empty deny-list

  /** No hits means nothing changed, and any hit changes the text. */
  lemma NoHitsIffUnchanged(text: string)
    requires NulFree(text)
    ensures Redacted(PLAIN, text).hits == [] <==> Redacted(PLAIN, text).clean == text
  {
    TableIsSolid();
    var c := Cut(ALLOW, text, 0);
    var start := Work(Stashed(text), []);
    var w := Passes(STRUCTURAL, start);
    assert STRUCTURAL[0..] == STRUCTURAL && text[0..] == text;
    CutWeaves(ALLOW, text, 0);
    CutNulFree(ALLOW, text, 0);
    RestoreJoin(c.gaps, c.toks);
    PassesOnlyAddHits(STRUCTURAL, start);
    PassesDiverge(0, start);
    if w.hits != [] { RestoreKeepsDiverging(c.gaps, c.toks, w.out); }
  }

  /** What the structural passes made of a text with no allow-listed token passes a second run
      unchanged, even when that run finds tokens the replacements uncovered. */
  lemma RedactIsFixpoint(text: string)
    requires NulFree(text) && Tokens(text) == []
    ensures var once := Redacted(PLAIN, text).clean; Redacted(PLAIN, once) == Result(once, [])
  {
    TableIsSolid();
    TableNulFree();
    NoTokensNoChange(ALLOW, text, SENTINEL);
    var w := Passes(STRUCTURAL, Work(text, []));
    assert Restore(w.out, []) == w.out;
    StructuralPassesAreComplete(text);
    PassesNulFree(STRUCTURAL, Work(text, []));
    ClearTextPasses(w.out);
  }

  /** A NUL-free text that no pattern matches is passed, whatever tokens are stashed from it. */
  lemma ClearTextPasses(y: string)
    requires NulFree(y) && forall p :: 0 <= p < 8 ==> NoHit(STRUCTURAL[p].re, y)
    ensures Redacted(PLAIN, y) == Result(y, [])
  {
    TableIsSolid();
    FillersAreFillers();
    AllowFacts('a');
    var s := Stashed(y);
    assert "" + y[0..] == y && "" + s == s;
    forall p | 0 <= p < 8 ensures NoHit(STRUCTURAL[p].re, s) {
      CutKeeps(p, ALLOW, SENTINEL, y, 0, "");
    }
    ClearStashPasses(y);
  }

  /** A NUL-free text is passed if no pattern matches it with its tokens stashed. */
  lemma ClearStashPasses(y: string)
    requires NulFree(y) && forall p :: 0 <= p < 8 ==> NoHit(STRUCTURAL[p].re, Stashed(y))
    ensures Redacted(PLAIN, y) == Result(y, [])
  {
    TableIsSolid();
    var c := Cut(ALLOW, y, 0);
    assert y[0..] == y && STRUCTURAL[0..] == STRUCTURAL;
    NoHitNoPass(0, Work(Stashed(y), []));
    CutNulFree(ALLOW, y, 0);
    RestoreJoin(c.gaps, c.toks);
    CutWeaves(ALLOW, y, 0);
  }
}
