/** After the structural passes, none of the eight patterns matches anywhere: no replacement, and
    no word boundary it shifts, brings an earlier pattern back. */
module Completeness {
  import opened Text
  import opened Regexp
  import opened Redaction
  import opened Replacing

  /** The characters at either end of a placeholder or of the sentinel. */
  predicate EdgeChar(c: char) { c == '<' || c == '>' || c == NUL }

  /** What replaces a match or stands in for a token. */
  predicate Filler(f: string) {
    && 2 <= |f| <= 16
    && EdgeChar(f[0]) && EdgeChar(f[|f| - 1])
    && forall k :: 0 < k < |f| - 1 ==> IsUpper(f[k]) || f[k] == '_'
  }

  lemma ShortFillers()
    ensures Filler(SENTINEL) && Filler("<ARN>") && Filler("<BUNDLE_ID>")
  {
  }

  lemma TokenFillers()
    ensures Filler("<GITHUB_TOKEN>") && Filler("<SLACK_TOKEN>")
  {
  }

  lemma KeyFillers()
    ensures Filler("<AWS_ACCESS_KEY>") && Filler("<ANTHROPIC_KEY>") && Filler("<AWS_ACCOUNT_ID>")
  {
  }

  lemma FillersAreFillers()
    ensures Filler(SENTINEL)
    ensures forall p :: 0 <= p < 8 ==> Filler(STRUCTURAL[p].placeholder)
  {
    hide Filler;
    ShortFillers();
    TokenFillers();
    KeyFillers();
  }

  /** The patterns that carry a word boundary at both ends. */
  predicate BoundedRe(r: Re) { r.Cat? && r.a == Edge && r.b.Cat? && r.b.b == Edge }

  lemma SegmentFacts(c: char)
    ensures Over(SEGMENT, c) == (IsLower(c) || IsDigit(c))
    ensures Over(DOT_SEGMENT, c) == (c == '.' || IsLower(c) || IsDigit(c))
    ensures First(SEGMENT, c) == IsLower(c)
    ensures Last(SEGMENT, c) == (IsLower(c) || IsDigit(c))
    ensures Last(DOT_SEGMENT, c) == (IsLower(c) || IsDigit(c))
    ensures !Nullable(SEGMENT) && !Nullable(DOT_SEGMENT)
  {
    var more := Star(Sym(LowerNum));
    assert Over(more, c) == Last(more, c) == In(LowerNum, c) && Nullable(more);
    assert SEGMENT == Cat(Sym(Lower), more);
    assert !Nullable(Sym(Lower)) && Last(Sym(Lower), c) == IsLower(c);
    assert !Nullable(SEGMENT);
  }

  lemma BundleFacts(c: char)
    ensures Over(BUNDLE_ID, c) == (c == '.' || IsLower(c) || IsDigit(c))
    ensures First(BUNDLE_ID, c) == IsLower(c)
    ensures Last(BUNDLE_ID, c) == (IsLower(c) || IsDigit(c))
  {
    SegmentFacts(c);
    var tail2 := Cat(DOT_SEGMENT, Star(DOT_SEGMENT));
    var tail := Cat(DOT_SEGMENT, tail2);
    var more := Star(DOT_SEGMENT);
    assert Over(more, c) == Over(DOT_SEGMENT, c) && Last(more, c) == Last(DOT_SEGMENT, c) && Nullable(more);
    assert Over(tail2, c) == Over(DOT_SEGMENT, c) && Last(tail2, c) == Last(DOT_SEGMENT, c);
    assert Over(tail, c) == Over(DOT_SEGMENT, c) && Last(tail, c) == Last(DOT_SEGMENT, c);
    assert !Nullable(tail2) && !Nullable(tail) && BUNDLE == Cat(SEGMENT, tail);
    assert Over(BUNDLE, c) == Over(DOT_SEGMENT, c) && First(BUNDLE, c) == IsLower(c) && Last(BUNDLE, c) == Last(tail, c);
    var closed := Cat(BUNDLE, Edge);
    assert Nullable(Edge) && !Nullable(BUNDLE) && !First(Edge, c) && !Last(Edge, c) && !Over(Edge, c);
    assert Over(closed, c) == Over(BUNDLE, c) && First(closed, c) == First(BUNDLE, c) && Last(closed, c) == Last(BUNDLE, c);
    assert BUNDLE_ID == Cat(Edge, closed) && !Nullable(closed);
  }

  lemma DashOver(c: char)
    ensures Over(Plus(AlNumDash), c) ==> IsWord(c) || c == '-'
  {
    var more := Star(Sym(AlNumDash));
    assert Over(more, c) == In(AlNumDash, c);
    assert Over(Plus(AlNumDash), c) == (Over(Sym(AlNumDash), c) || Over(more, c));
  }

  lemma PatOver(c: char)
    ensures Over(GITHUB_PAT, c) ==> IsWord(c)
  {
    var more := Star(Sym(AlNumUnder));
    var tail := Cat(Run(AlNumUnder, 22), more);
    assert Over(more, c) == In(AlNumUnder, c);
    assert Over(tail, c) == (Over(Run(AlNumUnder, 22), c) || Over(more, c));
    assert Over(Lit("github_pat_"), c) ==> IsWord(c);
    assert GITHUB_PAT == Cat(Lit("github_pat_"), tail);
  }

  lemma SlackOver(c: char)
    ensures Over(SLACK_TOKEN, c) ==> IsWord(c) || c == '-'
  {
    DashOver(c);
    hide Plus;
    var dashed := Cat(Lit("-"), Plus(AlNumDash));
    assert Over(Lit("-"), c) ==> c == '-';
    assert Over(dashed, c) ==> IsWord(c) || c == '-';
    assert Over(Sym(SlackKind), c) ==> IsLower(c);
    var kind := Cat(Sym(SlackKind), dashed);
    assert Over(kind, c) == (Over(Sym(SlackKind), c) || Over(dashed, c));
    assert Over(Lit("xox"), c) ==> IsWord(c);
    assert SLACK_TOKEN == Cat(Lit("xox"), kind);
  }

  lemma AnthropicOver(c: char)
    ensures Over(ANTHROPIC_KEY, c) ==> IsWord(c) || c == '-'
  {
    DashOver(c);
    hide Plus;
    assert Over(Lit("sk-ant-"), c) ==> IsWord(c) || c == '-';
    assert ANTHROPIC_KEY == Cat(Lit("sk-ant-"), Plus(AlNumDash));
  }

  /** The characters the secret-shaped tokens are made of. */
  lemma TokenOver(p: nat, c: char)
    requires 1 <= p < 6 && Over(STRUCTURAL[p].re, c)
    ensures IsWord(c) || c == '-'
  {
    PatOver(c);
    SlackOver(c);
    AnthropicOver(c);
    assert Over(ACCESS_KEY, c) ==> IsWord(c);
    assert Over(GITHUB_TOKEN, c) ==> IsWord(c);
    hide ACCESS_KEY, GITHUB_TOKEN, GITHUB_PAT, SLACK_TOKEN, ANTHROPIC_KEY, Over;
  }

  lemma AccountFacts(c: char)
    ensures Over(ACCOUNT_ID, c) ==> IsDigit(c)
  {
    assert ACCOUNT_ID == Cat(Edge, Cat(Run(Digit, 12), Edge));
    assert Over(Cat(Run(Digit, 12), Edge), c) == IsDigit(c);
  }

  /** No pattern but the ARN's can match an edge character, a colon, a space or a quote. */
  lemma OverFacts(p: nat, c: char)
    requires 1 <= p < 8 && Over(STRUCTURAL[p].re, c)
    ensures !EdgeChar(c) && c != ':' && !IsStop(c)
  {
    hide Over, BUNDLE_ID, ACCOUNT_ID;
    if p < 6 { TokenOver(p, c); }
    else if p == 6 { BundleFacts(c); }
    else { AccountFacts(c); }
  }

  lemma LiteralStarts(w: string, r: Re, c: char)
    requires w != ""
    ensures First(Cat(Lit(w), r), c) ==> c == w[0]
  {
    assert !Nullable(Lit(w));
    assert First(Cat(Lit(w), r), c) == First(Lit(w), c);
  }

  lemma AccountStarts(c: char)
    ensures First(ACCOUNT_ID, c) ==> IsDigit(c)
  {
    var digits := Cat(Run(Digit, 12), Edge);
    assert First(Run(Digit, 12), c) == IsDigit(c) && !Nullable(Run(Digit, 12));
    assert First(digits, c) == First(Run(Digit, 12), c);
    assert ACCOUNT_ID == Cat(Edge, digits) && !First(Edge, c);
    assert First(ACCOUNT_ID, c) == (First(Edge, c) || First(digits, c));
  }

  /** Where a match can start. */
  lemma FirstFacts(p: nat, c: char)
    requires p < 8 && First(STRUCTURAL[p].re, c)
    ensures if p == 1 then c == 'A' else IsLower(c) || IsDigit(c)
    ensures p == 0 ==> c == 'a'
  {
    LiteralStarts("arn:aws:", Plus(NotSpaceQuote), c);
    LiteralStarts("AKIA", Run(UpperNum, 16), c);
    LiteralStarts("ghp_", Run(AlNum, 36), c);
    LiteralStarts("github_pat_", Cat(Run(AlNumUnder, 22), Star(Sym(AlNumUnder))), c);
    LiteralStarts("xox", Cat(Sym(SlackKind), Cat(Lit("-"), Plus(AlNumDash))), c);
    LiteralStarts("sk-ant-", Plus(AlNumDash), c);
    BundleFacts(c);
    AccountStarts(c);
    hide First, BUNDLE_ID, ACCOUNT_ID;
  }

  lemma TableFacts(p: nat)
    requires p < 8
    ensures !Nullable(STRUCTURAL[p].re)
    ensures p < 6 ==> NoEdge(STRUCTURAL[p].re)
    ensures p >= 6 ==> BoundedRe(STRUCTURAL[p].re)
  {
    TableIsSolid();
    if p == 3 { assert NoEdge(Cat(Run(AlNumUnder, 22), Star(Sym(AlNumUnder)))); }
    if p == 4 { assert NoEdge(Plus(AlNumDash)); assert NoEdge(Cat(Lit("-"), Plus(AlNumDash))); }
  }

  lemma FoldedWord(w: string, c: char)
    requires |w| > 0
    ensures IsLower(w[0]) && First(Word(w, true), c) ==> In(Letter, c)
    ensures IsLower(w[|w| - 1]) && Last(Word(w, true), c) ==> In(Letter, c)
  {
  }

  lemma AllowPartFacts(c: char)
    ensures !Nullable(COM_EXAMPLE) && !Nullable(EXAMPLE_COM) && !Nullable(DOCS)
    ensures First(COM_EXAMPLE, c) || First(EXAMPLE_COM, c) || First(DOCS, c) ==> In(Letter, c)
    ensures Last(COM_EXAMPLE, c) || Last(EXAMPLE_COM, c) || Last(DOCS, c) ==> IsAlNum(c)
  {
    var more, name := Star(Sym(AlNum)), Cat(Sym(Letter), Star(Sym(AlNum)));
    assert Last(more, c) == In(AlNum, c) && Nullable(more);
    assert Last(Sym(Letter), c) == First(Sym(Letter), c) == In(Letter, c) && !Nullable(Sym(Letter));
    assert Last(name, c) ==> IsAlNum(c);
    var com := Word("com.example.", true);
    FoldedWord("com.example.", c);
    assert !Nullable(name) && COM_EXAMPLE == Cat(com, name) && !Nullable(com);
    var dot, host := Word(".example.com", true), Cat(Star(Sym(AlNumDash)), Word(".example.com", true));
    FoldedWord(".example.com", c);
    assert !Nullable(dot) && Last(host, c) == Last(dot, c);
    assert !Nullable(host) && EXAMPLE_COM == Cat(Sym(Letter), host);
    FoldedWord("developer.apple.com", c);
    FoldedWord("docs.aws.amazon.com", c);
  }

  lemma AllowFacts(c: char)
    ensures BoundedRe(ALLOW) && !Nullable(ALLOW)
    ensures First(ALLOW, c) ==> IsUpper(c) || IsLower(c)
    ensures Last(ALLOW, c) ==> IsWord(c)
  {
    TableIsSolid();
    var alts1 := Alt(EXAMPLE_COM, DOCS);
    var alts := Alt(COM_EXAMPLE, alts1);
    AllowPartFacts(c);
    assert !Nullable(alts1) && !Nullable(alts);
    assert First(alts1, c) ==> In(Letter, c);
    assert First(alts, c) ==> In(Letter, c);
    assert Last(alts1, c) ==> IsAlNum(c);
    assert Last(alts, c) ==> IsAlNum(c);
    var closed := Cat(alts, Edge);
    assert Nullable(Edge) && !First(Edge, c) && !Last(Edge, c);
    assert First(closed, c) == First(alts, c) && Last(closed, c) == Last(alts, c);
    assert ALLOW == Cat(Edge, closed) && !Nullable(closed);
  }

  /** A rule that may be the next to rewrite the text: a structural one or the allow-list. */
  predicate Rewriter(q: Re) {
    q == ALLOW || exists p :: 0 <= p < 8 && q == STRUCTURAL[p].re
  }

  ghost predicate HitAt(r: Re, s: string, a: nat) {
    a <= |s| && exists b :: a <= b <= |s| && Matches(r, s, a, b)
  }

  ghost predicate NoHit(r: Re, s: string) {
    forall a :: 0 <= a <= |s| ==> !HitAt(r, s, a)
  }

  /** No structural pattern matches anywhere. */
  ghost predicate AllClear(s: string) { forall p :: 0 <= p < 8 ==> NoHit(STRUCTURAL[p].re, s) }

  /** The edges of a bounded match. */
  lemma BoundedMatch(r: Re, s: string, i: nat, j: nat)
    requires BoundedRe(r) && i <= j <= |s| && Matches(r, s, i, j)
    ensures Boundary(s, i) && Boundary(s, j)
  {
    var m := CatMatch(r, s, i, j);
    var n := CatMatch(r.b, s, m, j);
  }

  lemma RewriterFacts(q: Re, c: char)
    requires Rewriter(q)
    ensures !Nullable(q)
    ensures First(q, c) ==> IsAlNum(c)
    ensures BoundedRe(q) && Last(q, c) ==> IsWord(c)
  {
    TableIsSolid();
    if q == ALLOW { AllowFacts(c); }
    else {
      var p :| 0 <= p < 8 && q == STRUCTURAL[p].re;
      if First(q, c) { FirstFacts(p, c); }
      LastFacts(p, c);
    }
  }

  lemma LastFacts(p: nat, c: char)
    requires p < 8
    ensures BoundedRe(STRUCTURAL[p].re) && Last(STRUCTURAL[p].re, c) ==> IsWord(c)
  {
    TableFacts(p);
    if p == 6 { BundleFacts(c); }
    if p == 7 { assert Last(Cat(Run(Digit, 12), Edge), c) == IsDigit(c); }
  }

  /** What a match looks like from outside. */
  lemma MatchFacts(q: Re, s: string, i: nat, j: nat)
    requires Rewriter(q) && i <= j <= |s| && Matches(q, s, i, j)
    ensures i < j
    ensures IsAlNum(s[i])
    ensures BoundedRe(q) ==> (i == 0 || !IsWord(s[i - 1])) && (j == |s| || !IsWord(s[j])) && IsWord(s[j - 1])
  {
    hide Matches, First, Last, Nullable, Rewriter;
    RewriterFacts(q, 'a');
    if i == j { EmptyMatchIsNullable(q, s, i); }
    MatchFirst(q, s, i, j);
    MatchLast(q, s, i, j);
    RewriterFacts(q, s[i]);
    RewriterFacts(q, s[j - 1]);
    if BoundedRe(q) { BoundedMatch(q, s, i, j); }
  }

  lemma ArnMatch(s: string, i: nat, j: nat)
    requires i <= j <= |s|
    ensures Matches(ARN, s, i, j) ==> i + 9 <= j && LiteralAt("arn:aws:", false, s, i) && !IsStop(s[i + 8])
    ensures j == i + 9 && LiteralAt("arn:aws:", false, s, i) && !IsStop(s[i + 8]) ==> Matches(ARN, s, i, j)
  {
    var plus := Plus(NotSpaceQuote);
    if Matches(ARN, s, i, j) {
      var m := CatMatch(ARN, s, i, j);
      var n := CatMatch(plus, s, m, j);
    }
    if j == i + 9 && LiteralAt("arn:aws:", false, s, i) && !IsStop(s[i + 8]) {
      CatMatches(plus, s, i + 8, j, j);
      CatMatches(ARN, s, i, i + 8, j);
    }
  }

  lemma AccessKeyMatch(s: string, i: nat, j: nat)
    requires i <= j <= |s| && Matches(ACCESS_KEY, s, i, j)
    ensures j == i + 20 && s[i] == 'A' && s[i + 1] == 'K'
  {
    var m := CatMatch(ACCESS_KEY, s, i, j);
    assert SameChar(false, "AKIA"[0], s[i + 0]) && SameChar(false, "AKIA"[1], s[i + 1]);
  }

  // ---------------------------------------------------------------- one splice

  /** A match of any pattern but the ARN's stays clear of a filler. */
  lemma MatchAvoidsFiller(p: nat, u: string, f: string, v: string, a: nat, b: nat)
    requires 1 <= p < 8 && Filler(f) && a <= b <= |u + f + v| && Matches(STRUCTURAL[p].re, u + f + v, a, b)
    ensures a < b <= |u| || |u| + |f| <= a < b
  {
    var t, r := u + f + v, STRUCTURAL[p].re;
    MatchFacts(r, t, a, b);
    var first, last := |u|, |u| + |f| - 1;
    assert t[first] == f[0] && t[last] == f[|f| - 1];
    if a <= first < b {
      MatchIsOver(r, t, a, b, first);
      OverFacts(p, t[first]);
    } else if a <= last < b {
      MatchIsOver(r, t, a, b, last);
      OverFacts(p, t[last]);
    } else if first < a < last {
      assert t[a] == f[a - |u|];
      MatchFirst(r, t, a, b);
      FirstFacts(p, t[a]);
      AccessKeyMatch(t, a, b);
    }
  }

  lemma ArnLiteralChar(t: string, a: nat, k: nat)
    requires LiteralAt("arn:aws:", false, t, a) && a <= k < a + 8
    ensures IsLower(t[k]) || t[k] == ':'
  {
    var w := "arn:aws:";
    assert SameChar(false, w[k - a], t[a + (k - a)]);
  }

  /** An ARN that starts in u + f + v starts in u or in v. */
  lemma ArnAvoidsFiller(u: string, f: string, v: string, a: nat)
    requires Filler(f) && LiteralAt("arn:aws:", false, u + f + v, a)
    ensures a + 8 <= |u| || |u| + |f| <= a
  {
    var t := u + f + v;
    assert t[|u|] == f[0];
    if a <= |u| < a + 8 {
      ArnLiteralChar(t, a, |u|);
    } else if |u| < a < |u| + |f| {
      assert t[a] == f[a - |u|];
      ArnLiteralChar(t, a, a);
    }
  }

  /** An ARN needs only its literal and one more character. */
  lemma ArnMoves(t: string, a: nat, s: string, a': nat)
    requires LiteralAt("arn:aws:", false, t, a) && a' + 8 < |s|
    requires forall k :: a' <= k < a' + 8 ==> t[k - a' + a] == s[k]
    requires !IsStop(s[a' + 8])
    ensures HitAt(ARN, s, a')
  {
    var w := "arn:aws:";
    forall k | 0 <= k < |w| ensures SameChar(false, w[k], s[a' + k]) {
      assert SameChar(false, w[k], t[a + k]);
      assert s[a' + k] == t[a' + k - a' + a];
    }
    ArnMatch(s, a', a' + 9);
  }

  /** No ARN that the replaced text ended begins right before it. */
  predicate ArnApart(u: string, m: string)
    requires m != []
  {
    IsStop(m[0]) ==> |u| < 8 || !LiteralAt("arn:aws:", false, u, |u| - 8)
  }

  /** No word runs on into the replaced text or out of it. */
  predicate WordsApart(u: string, m: string, v: string)
    requires m != []
  {
    && (u != [] && IsWord(u[|u| - 1]) ==> !IsWord(m[0]))
    && (v != [] && IsWord(v[0]) ==> !IsWord(m[|m| - 1]))
  }

  /** Replacing m by a filler makes no new match: every match after it was there before. */
  lemma Splice(p: nat, u: string, m: string, f: string, v: string, a: nat)
    requires p < 8 && Filler(f) && m != []
    requires p == 0 ==> ArnApart(u, m)
    requires p >= 6 ==> WordsApart(u, m, v)
    requires HitAt(STRUCTURAL[p].re, u + f + v, a)
    ensures (a < |u| && HitAt(STRUCTURAL[p].re, u + m + v, a))
         || (a >= |u| + |f| && HitAt(STRUCTURAL[p].re, u + m + v, a - |f| + |m|))
  {
    var r, t := STRUCTURAL[p].re, u + f + v;
    var b :| a <= b <= |t| && Matches(r, t, a, b);
    if p == 0 {
      SpliceArn(u, m, f, v, a, b);
    } else {
      MatchAvoidsFiller(p, u, f, v, a, b);
      TableFacts(p);
      if b <= |u| { SpliceLeft(p, u, m, f, v, a, b); } else { SpliceRight(p, u, m, f, v, a, b); }
    }
  }

  lemma SpliceArn(u: string, m: string, f: string, v: string, a: nat, b: nat)
    requires Filler(f) && m != [] && ArnApart(u, m)
    requires a <= b <= |u + f + v| && Matches(ARN, u + f + v, a, b)
    ensures (a < |u| && HitAt(ARN, u + m + v, a))
         || (a >= |u| + |f| && HitAt(ARN, u + m + v, a - |f| + |m|))
  {
    var t, s := u + f + v, u + m + v;
    ArnMatch(t, a, b);
    ArnAvoidsFiller(u, f, v, a);
    if a + 8 <= |u| {
      assert a + 8 < |u| ==> s[a + 8] == t[a + 8];
      if a + 8 == |u| {
        assert s[a + 8] == m[0];
        LiteralAtEnd(t, u, a);
      }
      ArnMoves(t, a, s, a);
    } else {
      TailAligned(u, m, f, v);
      ArnMoves(t, a, s, a - |f| + |m|);
    }
  }

  lemma LiteralAtEnd(t: string, u: string, a: nat)
    requires u <= t && a + 8 == |u| && LiteralAt("arn:aws:", false, t, a)
    ensures LiteralAt("arn:aws:", false, u, |u| - 8)
  {
    var w := "arn:aws:";
    forall k | 0 <= k < |w| ensures SameChar(false, w[k], u[a + k]) { assert SameChar(false, w[k], t[a + k]); }
  }

  lemma TailAligned(u: string, m: string, f: string, v: string)
    ensures forall k :: |u| + |f| <= k < |u + f + v| ==> (u + f + v)[k] == (u + m + v)[k - |f| + |m|]
    ensures forall k :: |u| + |m| <= k < |u + m + v| ==> (u + m + v)[k] == (u + f + v)[k - |m| + |f|]
  {
  }

  lemma SpliceLeft(p: nat, u: string, m: string, f: string, v: string, a: nat, b: nat)
    requires p < 8 && Filler(f) && m != []
    requires p >= 6 ==> WordsApart(u, m, v)
    requires a < b <= |u| && Matches(STRUCTURAL[p].re, u + f + v, a, b)
    ensures HitAt(STRUCTURAL[p].re, u + m + v, a)
  {
    var r, t, s := STRUCTURAL[p].re, u + f + v, u + m + v;
    TableFacts(p);
    MatchFacts(r, t, a, b);
    assert t[|u|] == f[0] && s[|u|] == m[0];
    assert forall k :: 0 <= k < |u| ==> t[k] == s[k];
    assert p >= 6 ==> Boundary(s, b);
    assert SameWindow(r, t, a, b, s, a);
    MoveMatch(r, t, a, b, s, a);
  }

  /** A match inside a common suffix is there whatever comes before, if its left edge agrees. */
  lemma SuffixMove(r: Re, x: string, y: string, v: string, a: nat, b: nat)
    requires |x| <= a <= b <= |x + v| && Matches(r, x + v, a, b)
    requires NoEdge(r) || a > |x| || Boundary(x + v, a) == Boundary(y + v, |y|)
    ensures Matches(r, y + v, a - |x| + |y|, b - |x| + |y|)
  {
    var t, s, a' := x + v, y + v, a - |x| + |y|;
    assert forall k :: |x| <= k < |t| ==> t[k] == s[k - |x| + |y|];
    assert forall k :: |x| < k <= |t| ==> Boundary(t, k) == Boundary(s, k - |x| + |y|);
    MoveMatch(r, t, a, b, s, a');
  }

  lemma SpliceRight(p: nat, u: string, m: string, f: string, v: string, a: nat, b: nat)
    requires p < 8 && Filler(f) && m != []
    requires p >= 6 ==> WordsApart(u, m, v)
    requires |u| + |f| <= a < b <= |u + f + v| && Matches(STRUCTURAL[p].re, u + f + v, a, b)
    ensures HitAt(STRUCTURAL[p].re, u + m + v, a - |f| + |m|)
  {
    var r, x, y := STRUCTURAL[p].re, u + f, u + m;
    TableFacts(p);
    MatchFacts(r, x + v, a, b);
    if a == |x| {
      assert (x + v)[a] == v[0] && (x + v)[a - 1] == f[|f| - 1] && (y + v)[|y|] == v[0] && (y + v)[|y| - 1] == m[|m| - 1];
    }
    SuffixMove(r, x, y, v, a, b);
  }

  // ---------------------------------------------------------------- one pass

  lemma NoEndsNoHit(r: Re, s: string, i: nat)
    requires i <= |s|
    ensures Ends(r, s, i) == [] <==> !HitAt(r, s, i)
  {
    if HitAt(r, s, i) {
      var b :| i <= b <= |s| && Matches(r, s, i, b);
      EndsAreMatches(r, s, i, b);
    } else if Ends(r, s, i) != [] {
      var b := Ends(r, s, i)[0];
      EndsAreMatches(r, s, i, b);
    }
  }

  lemma FillerEnds(f: string)
    requires Filler(f)
    ensures f != [] && NonWordEnd(f)
  {
  }

  /** The step shared by the two lemmas below: the text around the next match of q. */
  lemma NextMatch(q: Re, s: string, k: nat, x: string, f: string) returns (j: nat, u: string, m: string, v: string)
    requires Rewriter(q) && Filler(f) && k <= |s| && !Nullable(q) && Find(q, s, k) <= |s|
    requires NonWordEnd(x)
    ensures Find(q, s, k) < j <= |s|
    ensures u == x + s[k..Find(q, s, k)] && m == s[Find(q, s, k)..j] && v == s[j..]
    ensures x + s[k..] == u + m + v
    ensures m != [] && IsAlNum(m[0])
    ensures BoundedRe(q) ==> NonWordEnd(u) && (v == [] || !IsWord(v[0]))
    ensures NonWordEnd(u + f)
    ensures x + Join(Cut(q, s, k).gaps, f) == u + f + Join(Cut(q, s, j).gaps, f)
  {
    hide Matches, Ends, EndsEach, Rewriter, BoundedRe, Filler;
    FillerEnds(f);
    var i := Find(q, s, k);
    var out, toks;
    j, out, toks := CutStep(q, s, k, f, Join(Cut(q, s, k).gaps, f), Cut(q, s, k).toks);
    MatchFacts(q, s, i, j);
    u, m, v := x + s[k..i], s[i..j], s[j..];
    Surroundings(x, s, k, i, j, f, out);
  }

  /** The slices around s[i..j], with x in front. */
  lemma Surroundings(x: string, s: string, k: nat, i: nat, j: nat, f: string, out: string)
    requires k <= i < j <= |s| && NonWordEnd(x)
    ensures x + s[k..] == (x + s[k..i]) + s[i..j] + s[j..]
    ensures x + (s[k..i] + f + out) == (x + s[k..i]) + f + out
    ensures s[i..j] != [] && s[i..j][0] == s[i]
    ensures i == 0 || !IsWord(s[i - 1]) ==> NonWordEnd(x + s[k..i])
    ensures j == |s| || !IsWord(s[j]) ==> s[j..] == [] || !IsWord(s[j..][0])
    ensures f != [] && NonWordEnd(f) ==> NonWordEnd(x + s[k..i] + f)
  {
    SplitAtMatch(s, k, i, j);
    Reassociate(x, s[k..i], s[i..j], s[j..]);
    Reassociate(x, s[k..i], f, out);
    LastOfSum(x, s[k..i]);
    LastOfSum(x + s[k..i], f);
  }

  lemma SplitAtMatch(s: string, k: nat, i: nat, j: nat)
    requires k <= i < j <= |s|
    ensures s[k..] == s[k..i] + s[i..j] + s[j..]
    ensures s[i..j] != [] && s[i..j][0] == s[i]
    ensures k < i ==> s[k..i] != [] && s[k..i][|s[k..i]| - 1] == s[i - 1]
    ensures j < |s| ==> s[j..][0] == s[j]
  {
  }

  /** A pass leaves a pattern that does not match without a match. */
  lemma {:induction false} CutKeeps(p: nat, q: Re, f: string, s: string, k: nat, x: string)
    requires p < 8 && Rewriter(q) && Filler(f) && k <= |s| && !Nullable(q)
    requires p >= 6 ==> BoundedRe(q)
    requires NonWordEnd(x)
    requires NoHit(STRUCTURAL[p].re, x + s[k..])
    ensures NoHit(STRUCTURAL[p].re, x + Join(Cut(q, s, k).gaps, f))
    decreases |s| - k
  {
    if Find(q, s, k) <= |s| {
      var j, u, m, v := NextMatch(q, s, k, x, f);
      forall a | 0 <= a <= |u + f + v| ensures !HitAt(STRUCTURAL[p].re, u + f + v, a) {
        if HitAt(STRUCTURAL[p].re, u + f + v, a) { Splice(p, u, m, f, v, a); }
      }
      CutKeeps(p, q, f, s, j, u + f);
    }
  }

  /** No match of the pattern starts before the next one the engine finds. */
  lemma HitBeforeNext(p: nat, s: string, k: nat, x: string, a: nat)
    requires p < 8 && k <= |s| && |x| <= a && HitAt(STRUCTURAL[p].re, x + s[k..], a)
    requires BoundedRe(STRUCTURAL[p].re) ==> (k == 0 && x == []) || k == |s| || !IsWord(s[k])
    ensures a - |x| + k >= Find(STRUCTURAL[p].re, s, k)
  {
    hide Matches, Ends, EndsEach;
    HitInSuffix(p, s, k, x, a);
    NoEndsNoHit(STRUCTURAL[p].re, s, a - |x| + k);
  }

  /** A pass clears its own pattern. */
  lemma {:induction false} CutClears(p: nat, f: string, s: string, k: nat, x: string)
    requires p < 8 && Filler(f) && k <= |s|
    requires NonWordEnd(x)
    requires BoundedRe(STRUCTURAL[p].re) ==> (k == 0 && x == []) || k == |s| || !IsWord(s[k])
    requires forall a :: 0 <= a < |x| ==> !HitAt(STRUCTURAL[p].re, x + s[k..], a)
    ensures !Nullable(STRUCTURAL[p].re)
    ensures NoHit(STRUCTURAL[p].re, x + Join(Cut(STRUCTURAL[p].re, s, k).gaps, f))
    decreases |s| - k
  {
    TableFacts(p);
    hide Matches, Ends, EndsEach, HitAt, Filler;
    var q := STRUCTURAL[p].re;
    var i := Find(q, s, k);
    forall a | 0 <= a < |x| + (i - k) && a <= |x + s[k..]| ensures !HitAt(q, x + s[k..], a) {
      if a >= |x| && HitAt(q, x + s[k..], a) { HitBeforeNext(p, s, k, x, a); }
    }
    if i <= |s| {
      var j, u, m, v := NextMatch(q, s, k, x, f);
      forall a | 0 <= a < |u + f| ensures !HitAt(q, (u + f) + v, a) {
        if HitAt(q, (u + f) + v, a) { Splice(p, u, m, f, v, a); }
      }
      CutClears(p, f, s, j, u + f);
    }
  }

  lemma HitInSuffix(p: nat, s: string, k: nat, x: string, a: nat)
    requires p < 8 && k <= |s| && |x| <= a && HitAt(STRUCTURAL[p].re, x + s[k..], a)
    requires BoundedRe(STRUCTURAL[p].re) ==> (k == 0 && x == []) || k == |s| || !IsWord(s[k])
    ensures HitAt(STRUCTURAL[p].re, s, a - |x| + k)
  {
    var q, t := STRUCTURAL[p].re, x + s[k..];
    var b :| a <= b <= |t| && Matches(q, t, a, b);
    TableFacts(p);
    MatchFacts(q, t, a, b);
    assert s[..k] + s[k..] == s;
    if a == |x| {
      assert t[a] == s[k];
      if p >= 6 { assert t == s; }
    }
    SuffixMove(q, x, s[..k], s[k..], a, b);
  }

  // ---------------------------------------------------------------- all the passes

  /** The k-th pass clears its pattern and keeps those before it clear. */
  lemma PassClears(k: nat, w: Work)
    requires k < 8 && !Nullable(STRUCTURAL[k].re)
    requires forall p :: 0 <= p < k ==> NoHit(STRUCTURAL[p].re, w.out)
    ensures forall p :: 0 <= p < k + 1 ==> NoHit(STRUCTURAL[p].re, Pass(STRUCTURAL[k], w).out)
  {
    assert |STRUCTURAL| == 8;
    hide STRUCTURAL, NoHit;
    var q, f := STRUCTURAL[k].re, STRUCTURAL[k].placeholder;
    TableFacts(k);
    FillersAreFillers();
    var w' := Pass(STRUCTURAL[k], w);
    assert "" + w.out[0..] == w.out && "" + w'.out == w'.out;
    CutClears(k, f, w.out, 0, "");
    forall p | 0 <= p < k ensures NoHit(STRUCTURAL[p].re, w'.out) {
      TableFacts(p);
      CutKeeps(p, q, f, w.out, 0, "");
    }
  }

  /** From the k-th pass on: what is clear stays clear, and each pass clears one more pattern. */
  lemma {:induction false} PassesClear(k: nat, w: Work)
    requires k <= 8 && Solid(STRUCTURAL[k..])
    requires forall p :: 0 <= p < k ==> NoHit(STRUCTURAL[p].re, w.out)
    ensures forall p :: 0 <= p < 8 ==> NoHit(STRUCTURAL[p].re, Passes(STRUCTURAL[k..], w).out)
    decreases 8 - k
  {
    if k < 8 {
      assert |STRUCTURAL| == 8;
      hide NoHit, Pass, STRUCTURAL, Nullable;
      var rest := STRUCTURAL[k..];
      assert rest[0] == STRUCTURAL[k] && rest[1..] == STRUCTURAL[k + 1..];
      PassClears(k, w);
      PassesClear(k + 1, Pass(STRUCTURAL[k], w));
    }
  }

  /** After the structural loop none of the eight patterns matches anywhere in the text, whatever
      the text was. */
  lemma StructuralPassesAreComplete(text: string)
    ensures Solid(STRUCTURAL)
    ensures forall p :: 0 <= p < |STRUCTURAL| ==> NoHit(STRUCTURAL[p].re, Passes(STRUCTURAL, Work(text, [])).out)
  {
    TableIsSolid();
    assert STRUCTURAL[0..] == STRUCTURAL;
    PassesClear(0, Work(text, []));
  }
}
