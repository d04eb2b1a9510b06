/** What a text must hold to hold a secret: how each pattern's matches begin, and two simple reasons
    for a text to have none. */
module Harmlessness {
  import opened Text
  import opened Regexp
  import opened Redaction
  import opened Completeness
  import opened Restoration
  import opened Alignment

  // ---------------------------------------------------------------- how matches begin

  /** A match of a literal and more begins with the literal. */
  lemma LiteralFirst(w: string, r: Re, s: string, i: nat, j: nat)
    requires i <= j <= |s| && Matches(Cat(Lit(w), r), s, i, j)
    ensures i + |w| <= |s| && forall k :: i <= k < i + |w| ==> s[k] == w[k - i]
  {
    var m := CatMatch(Cat(Lit(w), r), s, i, j);
    forall k | i <= k < i + |w| ensures s[k] == w[k - i] { assert SameChar(false, w[k - i], s[i + (k - i)]); }
  }

  /** A bundle identifier has two dots inside. */
  lemma BundleHasDots(s: string, i: nat, j: nat)
    requires i <= j <= |s| && Matches(BUNDLE_ID, s, i, j)
    ensures exists d, e :: i < d < e < j - 1 && s[d] == '.' && s[e] == '.'
  {
    var more := Cat(DOT_SEGMENT, Star(DOT_SEGMENT));
    var tail := Cat(DOT_SEGMENT, more);
    var m := CatMatch(BUNDLE_ID, s, i, j);
    var n := CatMatch(Cat(BUNDLE, Edge), s, m, j);
    var d := CatMatch(Cat(SEGMENT, tail), s, m, n);
    var x := CatMatch(SEGMENT, s, m, d);
    var e := CatMatch(tail, s, d, n);
    var f := CatMatch(more, s, e, n);
    DotFirst(s, d, e);
    DotFirst(s, e, f);
  }

  lemma DotFirst(s: string, i: nat, j: nat)
    requires i <= j <= |s| && Matches(DOT_SEGMENT, s, i, j)
    ensures i + 1 < j && s[i] == '.'
  {
    var m := CatMatch(DOT_SEGMENT, s, i, j);
    var n := CatMatch(SEGMENT, s, m, j);
    assert SameChar(false, "."[0], s[i + 0]);
  }

  lemma AccountMatch(s: string, i: nat, j: nat)
    requires i <= j <= |s| && Matches(ACCOUNT_ID, s, i, j)
    ensures j == i + 12 && forall k :: i <= k < j ==> IsDigit(s[k])
  {
    var m := CatMatch(ACCOUNT_ID, s, i, j);
    var n := CatMatch(Cat(Run(Digit, 12), Edge), s, m, j);
    assert forall k :: i <= k < j ==> In(Digit, s[k]);
  }

  /** The first two characters of a token that needs no word boundary. */
  predicate TokenPair(a: char, b: char) {
    (a == 'A' && b == 'K') || (a == 'g' && (b == 'h' || b == 'i')) || (a == 'x' && b == 'o') || (a == 's' && b == 'k')
  }

  lemma TokenFirstTwo(p: nat, s: string, i: nat, j: nat)
    requires 1 <= p < 6 && i <= j <= |s| && Matches(STRUCTURAL[p].re, s, i, j)
    ensures i + 1 < |s| && TokenPair(s[i], s[i + 1])
  {
    if p == 1 { LiteralFirst("AKIA", Run(UpperNum, 16), s, i, j); }
    else if p == 2 { LiteralFirst("ghp_", Run(AlNum, 36), s, i, j); }
    else if p == 3 { LiteralFirst("github_pat_", Cat(Run(AlNumUnder, 22), Star(Sym(AlNumUnder))), s, i, j); }
    else if p == 4 { LiteralFirst("xox", Cat(Sym(SlackKind), Cat(Lit("-"), Plus(AlNumDash))), s, i, j); }
    else { LiteralFirst("sk-ant-", Plus(AlNumDash), s, i, j); }
  }

  lemma ArnFirstTwo(s: string, i: nat, j: nat)
    requires i <= j <= |s| && Matches(ARN, s, i, j)
    ensures i + 8 < j && s[i] == 'a' && s[i + 1] == 'r' && s[i + 3] == ':'
  {
    ArnMatch(s, i, j);
    ArnLiteral(s, i, 0);
    ArnLiteral(s, i, 1);
    ArnLiteral(s, i, 3);
  }

  // ---------------------------------------------------------------- texts that hold no secret

  /** No colon, no digit, no beginning of a token, and no two dots with something behind and before. */
  predicate Harmless(s: string) {
    && (forall k :: 0 <= k < |s| ==> s[k] != ':' && !IsDigit(s[k]))
    && (forall k :: 0 <= k < |s| - 1 ==> !TokenPair(s[k], s[k + 1]))
    && (forall d, e :: 0 < d < e < |s| - 1 ==> s[d] != '.' || s[e] != '.')
  }

  lemma HarmlessIsClear(s: string)
    requires Harmless(s)
    ensures AllClear(s)
  {
    forall p, i | 0 <= p < 8 && 0 <= i <= |s| ensures !HitAt(STRUCTURAL[p].re, s, i) {
      if HitAt(STRUCTURAL[p].re, s, i) {
        var j :| i <= j <= |s| && Matches(STRUCTURAL[p].re, s, i, j);
        HarmlessHit(p, s, i, j);
      }
    }
  }

  lemma HarmlessHit(p: nat, s: string, i: nat, j: nat)
    requires p < 8 && i <= j <= |s| && Matches(STRUCTURAL[p].re, s, i, j)
    ensures !Harmless(s)
  {
    if p == 0 { ArnFirstTwo(s, i, j); }
    else if p < 6 { TokenFirstTwo(p, s, i, j); }
    else if p == 6 { BundleHasDots(s, i, j); }
    else { AccountMatch(s, i, j); }
  }

  lemma ClearRewrite(k: nat, s: string)
    requires k <= 8 && AllClear(s)
    ensures Rewrite(k, s) == s
  {
    SolidFrom(k);
    NoHitNoPass(k, Work(s, []));
    RewriteIsPasses(k, Work(s, []));
  }

  lemma SolidFrom(k: nat)
    requires k <= 8
    ensures Solid(STRUCTURAL[k..])
  {
    TableIsSolid();
  }

  // ---------------------------------------------------------------- texts between two others

  /** Begins with white space or a quote, ends in a character that no pattern but the ARN's contains,
      and no match starts in it. */
  predicate Quiet(sep: string) {
    && sep != "" && IsStop(sep[0])
    && (var c := sep[|sep| - 1]; !IsWord(c) && c != '-')
    && (forall k :: 0 <= k < |sep| ==> sep[k] != '.' && !IsDigit(sep[k]))
    && (forall k :: 0 <= k < |sep| - 1 ==> !TokenPair(sep[k], sep[k + 1]) && (sep[k] != 'a' || sep[k + 1] != 'r'))
  }

  /** No match starts in a quiet text. */
  lemma QuietHit(p: nat, u: string, sep: string, v: string, i: nat, j: nat)
    requires p < 8 && i <= j <= |u + sep + v| && Matches(STRUCTURAL[p].re, u + sep + v, i, j)
    requires |u| <= i < |u| + |sep|
    ensures !Quiet(sep)
  {
    var t, n := u + sep + v, |u| + |sep|;
    hide Matches, First, Over;
    assert forall k :: |u| <= k < n ==> t[k] == sep[k - |u|];
    MatchFacts(STRUCTURAL[p].re, t, i, j);
    if i < n - 1 {
      assert t[i + 1] == sep[i + 1 - |u|];
      if p == 0 { ArnFirstTwo(t, i, j); }
      else if p < 6 { TokenFirstTwo(p, t, i, j); }
      else if p == 6 { QuietBundle(t, i, j, n); }
      else { AccountMatch(t, i, j); }
    }
  }

  lemma QuietBundle(t: string, i: nat, j: nat, n: nat)
    requires i <= j <= |t| && Matches(BUNDLE_ID, t, i, j) && i < n <= |t|
    ensures (exists k :: i <= k < n && t[k] == '.') || (var c := t[n - 1]; IsWord(c) || c == '.')
  {
    BundleHasDots(t, i, j);
    var d, e :| i < d < e < j - 1 && t[d] == '.' && t[e] == '.';
    if d >= n {
      MatchIsOver(BUNDLE_ID, t, i, j, n - 1);
      BundleFacts(t[n - 1]);
    }
  }
}
