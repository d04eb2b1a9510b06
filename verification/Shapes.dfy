/** The forms of the secrets and of the allow-listed names, said with slices, lengths and characters;
    and that these are what the patterns match. */
module Shapes {
  import opened Regexp
  import opened Redaction
  import opened AllowShape

  // ---------------------------------------------------------------- the forms

  predicate Figure(c: char) { '0' <= c <= '9' }
  predicate Capital(c: char) { 'A' <= c <= 'Z' }
  predicate Small(c: char) { 'a' <= c <= 'z' }
  predicate LetterOrFigure(c: char) { Figure(c) || Capital(c) || Small(c) }
  predicate OfWord(c: char) { LetterOrFigure(c) || c == '_' }
  predicate WhiteOrQuote(c: char) { c in {'\t', '\n', '\r', ' ', '\"', '\''} || c as int == 0x0C }

  predicate Starts(s: string, i: nat, w: string) { i + |w| <= |s| && s[i..i + |w|] == w }

  /** w stands here, in lower or upper case. */
  predicate Spells(s: string, i: nat, w: string) {
    i + |w| <= |s| && forall k :: i <= k < i + |w| ==>
      s[k] == w[k - i] || (Small(w[k - i]) && s[k] as int == w[k - i] as int - 32)
  }

  /** No word runs on at either end. */
  predicate Alone(s: string, i: nat, j: nat)
    requires i < j <= |s|
  {
    (i > 0 ==> !OfWord(s[i - 1])) && (j < |s| ==> !OfWord(s[j]))
  }

  predicate ArnForm(s: string, i: nat, j: nat) {
    i + 8 < j <= |s| && s[i..i + 8] == "arn:aws:" && forall k :: i + 8 <= k < j ==> !WhiteOrQuote(s[k])
  }

  predicate AccessKeyForm(s: string, i: nat, j: nat) {
    j == i + 20 <= |s| && s[i..i + 4] == "AKIA" && forall k :: i + 4 <= k < j ==> Figure(s[k]) || Capital(s[k])
  }

  predicate TokenForm(s: string, i: nat, j: nat) {
    j == i + 40 <= |s| && s[i..i + 4] == "ghp_" && forall k :: i + 4 <= k < j ==> LetterOrFigure(s[k])
  }

  predicate PatForm(s: string, i: nat, j: nat) {
    i + 33 <= j <= |s| && s[i..i + 11] == "github_pat_" && forall k :: i + 11 <= k < j ==> OfWord(s[k])
  }

  predicate SlackForm(s: string, i: nat, j: nat) {
    && i + 6 <= j <= |s| && s[i..i + 3] == "xox" && s[i + 3] in {'b', 'a', 'p', 'r', 's'} && s[i + 4] == '-'
    && forall k :: i + 5 <= k < j ==> LetterOrFigure(s[k]) || s[k] == '-'
  }

  predicate AnthropicForm(s: string, i: nat, j: nat) {
    && i + 8 <= j <= |s| && s[i..i + 7] == "sk-ant-"
    && forall k :: i + 7 <= k < j ==> LetterOrFigure(s[k]) || s[k] == '-'
  }

  /** A small letter, a figure, or a dot with a small letter behind it. */
  predicate DotOrSmall(s: string, k: nat, j: nat)
    requires k < j <= |s|
  {
    Small(s[k]) || Figure(s[k]) || (s[k] == '.' && k + 1 < j && Small(s[k + 1]))
  }

  /** Small letters, figures and dots, a small letter first and behind each dot. */
  predicate Dotted(s: string, i: nat, j: nat) {
    i < j <= |s| && Small(s[i]) && forall k :: i <= k < j ==> DotOrSmall(s, k, j)
  }

  /** At least three segments, no word running on. */
  predicate BundleForm(s: string, i: nat, j: nat) {
    Dotted(s, i, j) && Alone(s, i, j) && exists d, e :: i <= d < e < j && s[d] == '.' == s[e]
  }

  predicate AccountForm(s: string, i: nat, j: nat) {
    j == i + 12 <= |s| && Alone(s, i, j) && forall k :: i <= k < j ==> Figure(s[k])
  }

  /** s[i..j] is a secret of the p-th kind. */
  predicate Secret(p: nat, s: string, i: nat, j: nat) {
    match p
    case 0 => ArnForm(s, i, j)
    case 1 => AccessKeyForm(s, i, j)
    case 2 => TokenForm(s, i, j)
    case 3 => PatForm(s, i, j)
    case 4 => SlackForm(s, i, j)
    case 5 => AnthropicForm(s, i, j)
    case 6 => BundleForm(s, i, j)
    case 7 => AccountForm(s, i, j)
    case _ => false
  }

  predicate HoldsSecret(s: string) { exists p, i, j :: 0 <= p < 8 && 0 <= i <= j <= |s| && Secret(p, s, i, j) }

  /** com.example.<name> */
  predicate ComName(s: string, i: nat, j: nat) {
    && i + 13 <= j <= |s| && Spells(s, i, "com.example.") && (Capital(s[i + 12]) || Small(s[i + 12]))
    && forall k :: i + 13 <= k < j ==> LetterOrFigure(s[k])
  }

  /** <name>.example.com */
  predicate HostName(s: string, i: nat, j: nat) {
    && i + 13 <= j <= |s| && Spells(s, j - 12, ".example.com") && (Capital(s[i]) || Small(s[i]))
    && forall k :: i < k < j - 12 ==> LetterOrFigure(s[k]) || s[k] == '-'
  }

  predicate DocsName(s: string, i: nat, j: nat) {
    j == i + 19 <= |s| && (Spells(s, i, "developer.apple.com") || Spells(s, i, "docs.aws.amazon.com"))
  }

  /** An allow-listed name, in any case. */
  predicate NameForm(s: string, i: nat, j: nat) {
    i < j <= |s| && Alone(s, i, j) && (ComName(s, i, j) || HostName(s, i, j) || DocsName(s, i, j))
  }

  // ---------------------------------------------------------------- pieces of patterns

  lemma LitIs(w: string, s: string, i: nat)
    ensures LiteralAt(w, false, s, i) <==> Starts(s, i, w)
  {
    if LiteralAt(w, false, s, i) {
      forall k | 0 <= k < |w| ensures s[i..i + |w|][k] == w[k] { assert SameChar(false, w[k], s[i + k]); }
    }
    if Starts(s, i, w) {
      forall k | 0 <= k < |w| ensures SameChar(false, w[k], s[i + k]) { assert s[i..i + |w|][k] == s[i + k]; }
    }
  }

  lemma LitThen(w: string, r: Re, s: string, i: nat, j: nat)
    requires i <= j <= |s|
    ensures Matches(Cat(Lit(w), r), s, i, j) <==> Starts(s, i, w) && i + |w| <= j && Matches(r, s, i + |w|, j)
  {
    LitIs(w, s, i);
    if Matches(Cat(Lit(w), r), s, i, j) { var m := CatMatch(Cat(Lit(w), r), s, i, j); }
    if Starts(s, i, w) && i + |w| <= j && Matches(r, s, i + |w|, j) { CatMatches(Cat(Lit(w), r), s, i, i + |w|, j); }
  }

  lemma SymThen(cls: Class, r: Re, s: string, i: nat, j: nat)
    requires i <= j <= |s|
    ensures Matches(Cat(Sym(cls), r), s, i, j) <==> i < j && In(cls, s[i]) && Matches(r, s, i + 1, j)
  {
    if Matches(Cat(Sym(cls), r), s, i, j) { var m := CatMatch(Cat(Sym(cls), r), s, i, j); }
    if i < j && In(cls, s[i]) && Matches(r, s, i + 1, j) { CatMatches(Cat(Sym(cls), r), s, i, i + 1, j); }
  }

  lemma RunThen(cls: Class, n: nat, r: Re, s: string, i: nat, j: nat)
    requires i <= j <= |s|
    ensures Matches(Cat(Run(cls, n), r), s, i, j) <==> i + n <= j && RunAt(cls, n, s, i) && Matches(r, s, i + n, j)
  {
    if Matches(Cat(Run(cls, n), r), s, i, j) { var m := CatMatch(Cat(Run(cls, n), r), s, i, j); }
    if i + n <= j && RunAt(cls, n, s, i) && Matches(r, s, i + n, j) { CatMatches(Cat(Run(cls, n), r), s, i, i + n, j); }
  }

  ghost predicate AllIn(cls: Class, s: string, i: nat, j: nat)
    requires j <= |s|
  {
    forall k :: i <= k < j ==> In(cls, s[k])
  }

  lemma StarIs(cls: Class, s: string, i: nat, j: nat)
    requires i <= j <= |s|
    ensures Matches(Star(Sym(cls)), s, i, j) <==> AllIn(cls, s, i, j)
  {
    if Matches(Star(Sym(cls)), s, i, j) {
      forall k | i <= k < j ensures In(cls, s[k]) { MatchIsOver(Star(Sym(cls)), s, i, j, k); }
    }
    if AllIn(cls, s, i, j) { StarRun(cls, s, i, j); }
  }

  lemma PlusIs(cls: Class, s: string, i: nat, j: nat)
    requires i <= j <= |s|
    ensures Matches(Plus(cls), s, i, j) <==> i < j && AllIn(cls, s, i, j)
  {
    SymThen(cls, Star(Sym(cls)), s, i, j);
    if i < j { StarIs(cls, s, i + 1, j); }
  }

  lemma BoundedIs(r: Re, s: string, i: nat, j: nat)
    requires i <= j <= |s|
    ensures Matches(Bounded(r), s, i, j) <==> Boundary(s, i) && Boundary(s, j) && Matches(r, s, i, j)
  {
    var tail := Cat(r, Edge);
    if Matches(Bounded(r), s, i, j) {
      var m := CatMatch(Bounded(r), s, i, j);
      var n := CatMatch(tail, s, m, j);
    }
    if Boundary(s, i) && Boundary(s, j) && Matches(r, s, i, j) {
      CatMatches(tail, s, i, j, j);
      CatMatches(Bounded(r), s, i, i, j);
    }
  }

  lemma AloneIs(s: string, i: nat, j: nat)
    requires i < j <= |s| && OfWord(s[i]) && OfWord(s[j - 1])
    ensures Boundary(s, i) && Boundary(s, j) <==> Alone(s, i, j)
  {
  }

  // ---------------------------------------------------------------- the table

  lemma ArnIs(s: string, i: nat, j: nat)
    requires i <= j <= |s|
    ensures Matches(ARN, s, i, j) <==> ArnForm(s, i, j)
  {
    LitThen("arn:aws:", Plus(NotSpaceQuote), s, i, j);
    if i + 8 <= j { PlusIs(NotSpaceQuote, s, i + 8, j); }
    hide Matches;
  }

  lemma AccessKeyIs(s: string, i: nat, j: nat)
    requires i <= j <= |s|
    ensures Matches(ACCESS_KEY, s, i, j) <==> AccessKeyForm(s, i, j)
  {
    LitThen("AKIA", Run(UpperNum, 16), s, i, j);
  }

  lemma TokenIs(s: string, i: nat, j: nat)
    requires i <= j <= |s|
    ensures Matches(GITHUB_TOKEN, s, i, j) <==> TokenForm(s, i, j)
  {
    LitThen("ghp_", Run(AlNum, 36), s, i, j);
  }

  lemma PatIs(s: string, i: nat, j: nat)
    requires i <= j <= |s|
    ensures Matches(GITHUB_PAT, s, i, j) <==> PatForm(s, i, j)
  {
    var more := Star(Sym(AlNumUnder));
    LitThen("github_pat_", Cat(Run(AlNumUnder, 22), more), s, i, j);
    if i + 11 <= j { RunThen(AlNumUnder, 22, more, s, i + 11, j); }
    if i + 33 <= j { StarIs(AlNumUnder, s, i + 33, j); }
    hide Matches;
  }

  lemma SlackIs(s: string, i: nat, j: nat)
    requires i <= j <= |s|
    ensures Matches(SLACK_TOKEN, s, i, j) <==> SlackForm(s, i, j)
  {
    var dashed := Cat(Lit("-"), Plus(AlNumDash));
    LitThen("xox", Cat(Sym(SlackKind), dashed), s, i, j);
    if i + 3 <= j { SymThen(SlackKind, dashed, s, i + 3, j); }
    if i + 4 <= j { LitThen("-", Plus(AlNumDash), s, i + 4, j); }
    if i + 5 <= j { PlusIs(AlNumDash, s, i + 5, j); }
    hide Matches;
    assert i + 4 < |s| ==> (Starts(s, i + 4, "-") <==> s[i + 4] == '-');
  }

  lemma AnthropicIs(s: string, i: nat, j: nat)
    requires i <= j <= |s|
    ensures Matches(ANTHROPIC_KEY, s, i, j) <==> AnthropicForm(s, i, j)
  {
    LitThen("sk-ant-", Plus(AlNumDash), s, i, j);
    if i + 7 <= j { PlusIs(AlNumDash, s, i + 7, j); }
    hide Matches;
  }

  lemma AccountIs(s: string, i: nat, j: nat)
    requires i <= j <= |s|
    ensures Matches(ACCOUNT_ID, s, i, j) <==> AccountForm(s, i, j)
  {
    BoundedIs(Run(Digit, 12), s, i, j);
    if Matches(Run(Digit, 12), s, i, j) || AccountForm(s, i, j) {
      assert forall k :: i <= k < j ==> In(Digit, s[k]);
      AloneIs(s, i, j);
    }
  }

  // ---------------------------------------------------------------- bundle identifiers

  /** One segment: a small letter, then small letters and figures. */
  predicate SegmentForm(s: string, i: nat, j: nat) {
    i < j <= |s| && Small(s[i]) && forall k :: i < k < j ==> Small(s[k]) || Figure(s[k])
  }

  /** Nothing, or segments with a dot before each. */
  predicate DotsForm(s: string, i: nat, j: nat) {
    i <= j <= |s| && (i < j ==> s[i] == '.') && forall k :: i <= k < j ==> DotOrSmall(s, k, j)
  }

  lemma SegmentIs(s: string, i: nat, j: nat)
    requires i <= j <= |s|
    ensures Matches(SEGMENT, s, i, j) <==> SegmentForm(s, i, j)
  {
    SymThen(Lower, Star(Sym(LowerNum)), s, i, j);
    if i < j { StarIs(LowerNum, s, i + 1, j); }
    hide Matches;
  }

  lemma DotSegmentIs(s: string, i: nat, j: nat)
    requires i <= j <= |s|
    ensures Matches(DOT_SEGMENT, s, i, j) <==> i < j && s[i] == '.' && SegmentForm(s, i + 1, j)
  {
    LitThen(".", SEGMENT, s, i, j);
    if i + 1 <= j { SegmentIs(s, i + 1, j); }
    hide Matches;
    assert i < |s| ==> (Starts(s, i, ".") <==> s[i] == '.');
  }

  /** The first dot at or after k, or j. */
  function NextDot(s: string, k: nat, j: nat): (d: nat)
    requires k <= j <= |s|
    ensures k <= d <= j && (d < j ==> s[d] == '.') && forall m :: k <= m < d ==> s[m] != '.'
    decreases j - k
  {
    if k < j && s[k] != '.' then NextDot(s, k + 1, j) else k
  }

  /** A segment behind a dot, and the dots after it. */
  lemma DotsAfter(s: string, i: nat, m: nat, j: nat)
    requires i < m && i < |s| && s[i] == '.' && SegmentForm(s, i + 1, m) && DotsForm(s, m, j)
    ensures DotsForm(s, i, j)
  {
    forall k | i <= k < j ensures DotOrSmall(s, k, j) { assert k >= m ==> DotOrSmall(s, k, j); }
  }

  lemma FirstSegment(s: string, i: nat, j: nat) returns (m: nat)
    requires i < j && DotsForm(s, i, j)
    ensures m == NextDot(s, i + 1, j) && SegmentForm(s, i + 1, m) && DotsForm(s, m, j)
  {
    assert DotOrSmall(s, i, j);
    m := NextDot(s, i + 1, j);
    forall k | i + 1 < k < m ensures Small(s[k]) || Figure(s[k]) { assert DotOrSmall(s, k, j); }
  }

  lemma StarStep(r: Re, s: string, i: nat, j: nat) returns (m: nat)
    requires r.Star? && i < j <= |s| && Matches(r, s, i, j)
    ensures i < m <= j && Matches(r.a, s, i, m) && Matches(r, s, m, j)
  {
    match r
    case Star(a) => m :| i < m <= j && Matches(a, s, i, m) && Matches(r, s, m, j);
  }

  lemma StarMore(r: Re, s: string, i: nat, m: nat, j: nat)
    requires r.Star? && i < m <= j <= |s| && Matches(r.a, s, i, m) && Matches(r, s, m, j)
    ensures Matches(r, s, i, j)
  {
  }

  lemma {:induction false} StarDotsIs(s: string, i: nat, j: nat)
    requires i <= j <= |s|
    ensures Matches(Star(DOT_SEGMENT), s, i, j) <==> DotsForm(s, i, j)
    decreases j - i
  {
    var r := Star(DOT_SEGMENT);
    if i < j {
      if Matches(r, s, i, j) {
        var m := StarStep(r, s, i, j);
        hide Matches, DOT_SEGMENT;
        DotSegmentIs(s, i, m);
        StarDotsIs(s, m, j);
        DotsAfter(s, i, m, j);
      }
      hide Matches, DOT_SEGMENT;
      if DotsForm(s, i, j) {
        var m := FirstSegment(s, i, j);
        DotSegmentIs(s, i, m);
        StarDotsIs(s, m, j);
        StarMore(r, s, i, m, j);
      }
    }
  }

  lemma BundleParts(s: string, i: nat, d: nat, e: nat, f: nat, j: nat)
    requires i <= d <= e <= f <= j <= |s|
    requires Matches(SEGMENT, s, i, d) && Matches(DOT_SEGMENT, s, d, e) && Matches(DOT_SEGMENT, s, e, f)
    requires Matches(Star(DOT_SEGMENT), s, f, j)
    ensures Matches(BUNDLE, s, i, j)
  {
    hide Matches, SEGMENT, DOT_SEGMENT;
    var more := Cat(DOT_SEGMENT, Star(DOT_SEGMENT));
    CatMatches(more, s, e, f, j);
    CatMatches(Cat(DOT_SEGMENT, more), s, d, e, j);
    CatMatches(BUNDLE, s, i, d, j);
  }

  /** What BUNDLE, without its word boundaries, matches. */
  predicate Segments(s: string, i: nat, j: nat) {
    Dotted(s, i, j) && exists d, e :: i <= d < e < j && s[d] == '.' == s[e]
  }

  lemma BundleBody(s: string, i: nat, j: nat)
    requires i <= j <= |s|
    ensures Matches(BUNDLE, s, i, j) <==> Segments(s, i, j)
  {
    if Matches(BUNDLE, s, i, j) {
      var more := Cat(DOT_SEGMENT, Star(DOT_SEGMENT));
      var d := CatMatch(BUNDLE, s, i, j);
      var e := CatMatch(Cat(DOT_SEGMENT, more), s, d, j);
      var f := CatMatch(more, s, e, j);
      hide Matches;
      SegmentIs(s, i, d);
      DotSegmentIs(s, d, e);
      DotSegmentIs(s, e, f);
      StarDotsIs(s, f, j);
      SegmentsOf(s, i, d, e, f, j);
    }
    if Segments(s, i, j) {
      var d := NextDot(s, i, j);
      SegmentsFirst(s, i, j);
      var e := FirstSegment(s, d, j);
      var f := FirstSegment(s, e, j);
      hide Matches;
      SegmentIs(s, i, d);
      DotSegmentIs(s, d, e);
      DotSegmentIs(s, e, f);
      StarDotsIs(s, f, j);
      BundleParts(s, i, d, e, f, j);
    }
  }

  lemma SegmentsFirst(s: string, i: nat, j: nat)
    requires Segments(s, i, j)
    ensures var d := NextDot(s, i, j);
      && SegmentForm(s, i, d) && d < j && DotsForm(s, d, j) && NextDot(s, d + 1, j) < j
  {
    var d := NextDot(s, i, j);
    forall k | i < k < d ensures Small(s[k]) || Figure(s[k]) { assert DotOrSmall(s, k, j); }
    var d0, e0 :| i <= d0 < e0 < j && s[d0] == '.' == s[e0];
  }

  lemma SegmentsOf(s: string, i: nat, d: nat, e: nat, f: nat, j: nat)
    requires SegmentForm(s, i, d) && d < |s| && s[d] == '.' && SegmentForm(s, d + 1, e)
    requires e < |s| && s[e] == '.' && SegmentForm(s, e + 1, f) && DotsForm(s, f, j)
    ensures Segments(s, i, j)
  {
    DotsAfter(s, e, f, j);
    DotsAfter(s, d, e, j);
    forall k | i <= k < j ensures DotOrSmall(s, k, j) { assert k >= d ==> DotOrSmall(s, k, j); }
  }

  lemma BundleIs(s: string, i: nat, j: nat)
    requires i <= j <= |s|
    ensures Matches(BUNDLE_ID, s, i, j) <==> BundleForm(s, i, j)
  {
    hide Matches, BUNDLE;
    BoundedIs(BUNDLE, s, i, j);
    BundleBody(s, i, j);
    if Dotted(s, i, j) {
      assert DotOrSmall(s, j - 1, j);
      AloneIs(s, i, j);
    }
  }

  /** Each pattern of the table matches exactly the secrets of its kind. */
  lemma SecretIs(p: nat, s: string, i: nat, j: nat)
    requires p < 8 && i <= j <= |s|
    ensures Matches(STRUCTURAL[p].re, s, i, j) <==> Secret(p, s, i, j)
  {
    ArnIs(s, i, j);
    AccessKeyIs(s, i, j);
    TokenIs(s, i, j);
    PatIs(s, i, j);
    SlackIs(s, i, j);
    AnthropicIs(s, i, j);
    BundleIs(s, i, j);
    AccountIs(s, i, j);
    hide Matches, ArnForm, AccessKeyForm, TokenForm, PatForm, SlackForm, AnthropicForm, BundleForm, AccountForm;
    hide ARN, ACCESS_KEY, GITHUB_TOKEN, GITHUB_PAT, SLACK_TOKEN, ANTHROPIC_KEY, BUNDLE_ID, ACCOUNT_ID;
  }

  // ---------------------------------------------------------------- the allow-list

  lemma SpellsIs(w: string, s: string, i: nat)
    requires forall k :: 0 <= k < |w| ==> Small(w[k]) || w[k] == '.'
    ensures LiteralAt(w, true, s, i) <==> Spells(s, i, w)
  {
    if LiteralAt(w, true, s, i) {
      forall k | i <= k < i + |w| ensures s[k] == w[k - i] || (Small(w[k - i]) && s[k] as int == w[k - i] as int - 32) {
        assert SameChar(true, w[k - i], s[i + (k - i)]);
      }
    }
    if Spells(s, i, w) {
      forall k | 0 <= k < |w| ensures SameChar(true, w[k], s[i + k]) { assert s[i + k] == s[i + k]; }
    }
  }

  lemma NamesAre(s: string, i: nat, j: nat)
    ensures ComWords(s, i, j) <==> ComName(s, i, j)
    ensures HostWords(s, i, j) <==> HostName(s, i, j)
    ensures DocsWords(s, i, j) <==> DocsName(s, i, j)
  {
    hide LiteralAt, Spells;
    SpellsIs("com.example.", s, i);
    if j >= 12 { SpellsIs(".example.com", s, j - 12); }
    SpellsIs("developer.apple.com", s, i);
    SpellsIs("docs.aws.amazon.com", s, i);
  }

  lemma SpelledEdges(s: string, i: nat, w: string)
    requires w != "" && Spells(s, i, w)
    ensures Small(w[0]) ==> OfWord(s[i])
    ensures Small(w[|w| - 1]) ==> OfWord(s[i + |w| - 1])
  {
    var last := i + |w| - 1;
    assert s[last] == w[last - i] || (Small(w[last - i]) && s[last] as int == w[last - i] as int - 32);
    assert s[i] == w[i - i] || (Small(w[i - i]) && s[i] as int == w[i - i] as int - 32);
  }

  lemma NameEdges(s: string, i: nat, j: nat)
    requires ComName(s, i, j) || HostName(s, i, j) || DocsName(s, i, j)
    ensures i < j <= |s| && OfWord(s[i]) && OfWord(s[j - 1])
  {
    hide Spells;
    if ComName(s, i, j) { SpelledEdges(s, i, "com.example."); }
    else if HostName(s, i, j) { SpelledEdges(s, j - 12, ".example.com"); }
    else if Spells(s, i, "developer.apple.com") { SpelledEdges(s, i, "developer.apple.com"); }
    else { SpelledEdges(s, i, "docs.aws.amazon.com"); }
  }

  /** The allow-list matches exactly its names. */
  lemma NameIs(s: string, i: nat, j: nat)
    requires i <= j <= |s|
    ensures Matches(ALLOW, s, i, j) <==> NameForm(s, i, j)
  {
    hide *;
    AllowIsWords(s, i, j);
    NamesAre(s, i, j);
    if ComName(s, i, j) || HostName(s, i, j) || DocsName(s, i, j) {
      NameEdges(s, i, j);
      AloneIs(s, i, j);
    }
    NameMeans(s, i, j);
  }

  lemma NameMeans(s: string, i: nat, j: nat)
    requires i <= j <= |s|
    ensures NameForm(s, i, j) <==>
      i < j && Alone(s, i, j) && (ComName(s, i, j) || HostName(s, i, j) || DocsName(s, i, j))
  {
  }
}
