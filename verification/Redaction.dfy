/** internal/redact/redact.go: the pre-flight redaction pass. */
module Redaction {
  import opened Text
  import opened Regexp

  datatype Hit = Hit(kind: string, placeholder: string)

  datatype Result = Result(clean: string, hits: seq<Hit>)

  /** A structural pattern with the kind and the placeholder it maps to. */
  datatype Rule = Rule(re: Re, kind: string, placeholder: string)

  function Lit(w: string): Re { Word(w, false) }

  /** cls+ */
  function Plus(cls: Class): Re { Cat(Sym(cls), Star(Sym(cls))) }

  /** \b(?:r)\b */
  function Bounded(r: Re): Re { Cat(Edge, Cat(r, Edge)) }

  // [a-z][a-z0-9]* and \.[a-z][a-z0-9]*
  const SEGMENT := Cat(Sym(Lower), Star(Sym(LowerNum)))
  const DOT_SEGMENT := Cat(Lit("."), SEGMENT)

  const ARN := Cat(Lit("arn:aws:"), Plus(NotSpaceQuote))
  const ACCESS_KEY := Cat(Lit("AKIA"), Run(UpperNum, 16))
  const GITHUB_TOKEN := Cat(Lit("ghp_"), Run(AlNum, 36))
  const GITHUB_PAT := Cat(Lit("github_pat_"), Cat(Run(AlNumUnder, 22), Star(Sym(AlNumUnder))))
  const SLACK_TOKEN := Cat(Lit("xox"), Cat(Sym(SlackKind), Cat(Lit("-"), Plus(AlNumDash))))
  const ANTHROPIC_KEY := Cat(Lit("sk-ant-"), Plus(AlNumDash))
  const BUNDLE := Cat(SEGMENT, Cat(DOT_SEGMENT, Cat(DOT_SEGMENT, Star(DOT_SEGMENT))))
  const BUNDLE_ID := Bounded(BUNDLE)
  const ACCOUNT_ID := Bounded(Run(Digit, 12))

  /** The structural table, in its declared order. */
  const STRUCTURAL: seq<Rule> := [
    Rule(ARN, "arn", "<ARN>"),
    Rule(ACCESS_KEY, "aws-access-key", "<AWS_ACCESS_KEY>"),
    Rule(GITHUB_TOKEN, "github-pat", "<GITHUB_TOKEN>"),
    Rule(GITHUB_PAT, "github-pat", "<GITHUB_TOKEN>"),
    Rule(SLACK_TOKEN, "slack-token", "<SLACK_TOKEN>"),
    Rule(ANTHROPIC_KEY, "anthropic-key", "<ANTHROPIC_KEY>"),
    Rule(BUNDLE_ID, "bundle-id", "<BUNDLE_ID>"),
    Rule(ACCOUNT_ID, "aws-account-id", "<AWS_ACCOUNT_ID>")
  ]

  // The allow-list; every literal of it is under (?i).
  const COM_EXAMPLE := Cat(Word("com.example.", true), Cat(Sym(Letter), Star(Sym(AlNum))))
  const EXAMPLE_COM := Cat(Sym(Letter), Cat(Star(Sym(AlNumDash)), Word(".example.com", true)))
  const DOCS := Alt(Word("developer.apple.com", true), Word("docs.aws.amazon.com", true))
  const ALLOW := Bounded(Alt(COM_EXAMPLE, Alt(EXAMPLE_COM, DOCS)))

  const NUL := '\0'
  const SENTINEL := "\0ALLOW\0"

  predicate NonEmpty(terms: seq<string>) { forall k :: 0 <= k < |terms| ==> |terms[k]| > 0 }

  /** The case-insensitive alternation of the literal deny-list terms. */
  function DenyRe(terms: seq<string>): (r: Re)
    requires terms != [] && NonEmpty(terms)
    ensures !Nullable(r)
  {
    var head := Word(LowWord(terms[0]), true);
    if |terms| == 1 then head else Alt(head, DenyRe(terms[1..]))
  }

  function LowWord(w: string): (r: string)
    ensures |r| == |w|
  {
    seq(|w|, k requires 0 <= k < |w| => Low(w[k]))
  }

  datatype Redactor = Redactor(deny: Option<Re>)
  {
    predicate Valid() { deny.Some? ==> !Nullable(deny.value) }
  }

  function New(denyList: seq<string>): (r: Redactor)
    requires NonEmpty(denyList)
    ensures r.Valid()
  {
    if denyList == [] then Redactor(None) else Redactor(Some(DenyRe(denyList)))
  }

  // ---------------------------------------------------------------- specification

  /** The text being rewritten, and the hits recorded so far. */
  datatype Work = Work(out: string, hits: seq<Hit>)

  function Copies(h: Hit, n: nat): seq<Hit> { seq(n, _ => h) }

  /** One pass: every match replaced, one hit for each. */
  function Pass(rule: Rule, w: Work): Work
    requires !Nullable(rule.re)
  {
    var c := Cut(rule.re, w.out, 0);
    Work(Join(c.gaps, rule.placeholder), w.hits + Copies(Hit(rule.kind, rule.placeholder), |c.toks|))
  }

  predicate Solid(rules: seq<Rule>) { forall k :: 0 <= k < |rules| ==> !Nullable(rules[k].re) }

  function Passes(rules: seq<Rule>, w: Work): Work
    requires Solid(rules)
    decreases |rules|
  {
    if rules == [] then w else Passes(rules[1..], Pass(rules[0], w))
  }

  /** Each stashed token replaces the first sentinel left, in order. */
  function Restore(out: string, stash: seq<string>): string
    decreases |stash|
  {
    if stash == [] then out else Restore(ReplaceFirst(out, SENTINEL, stash[0]), stash[1..])
  }

  function DenyPass(deny: Option<Re>, w: Work): Work
    requires deny.Some? ==> !Nullable(deny.value)
  {
    if deny.None? then w else Pass(Rule(deny.value, "deny-list", "<REDACTED>"), w)
  }

  lemma TableIsSolid()
    ensures Solid(STRUCTURAL) && !Nullable(ALLOW)
  {
  }

  /** The text with its allow-listed tokens stashed behind sentinels. */
  function Stashed(text: string): string {
    TableIsSolid();
    Join(Cut(ALLOW, text, 0).gaps, SENTINEL)
  }

  function Tokens(text: string): seq<string> {
    TableIsSolid();
    Cut(ALLOW, text, 0).toks
  }

  /** What stands before, between and behind the tokens. */
  function Gaps(text: string): (gaps: seq<string>)
    ensures |gaps| == |Tokens(text)| + 1
  {
    TableIsSolid();
    Cut(ALLOW, text, 0).gaps
  }

  function Redacted(r: Redactor, text: string): Result
    requires r.Valid()
  {
    TableIsSolid();
    var w := DenyPass(r.deny, Passes(STRUCTURAL, Work(Stashed(text), [])));
    Result(Restore(w.out, Tokens(text)), w.hits)
  }

  // ---------------------------------------------------------------- the code

  lemma NoTokensNoChange(r: Re, s: string, repl: string)
    requires !Nullable(r) && Cut(r, s, 0).toks == []
    ensures Join(Cut(r, s, 0).gaps, repl) == s
  {
    assert Find(r, s, 0) > |s|;
    assert s[0..] == s;
  }

  lemma PassesSnoc(rules: seq<Rule>, n: nat, w: Work)
    requires Solid(rules) && n < |rules|
    ensures Passes(rules[..n + 1], w) == Pass(rules[n], Passes(rules[..n], w))
    decreases n
  {
    var a, b := rules[..n + 1], rules[..n];
    if n > 0 {
      var rest := rules[1..];
      assert a[1..] == rest[..n] && b[1..] == rest[..n - 1];
      PassesSnoc(rest, n - 1, Pass(rules[0], w));
    } else {
      assert a == [rules[0]];
    }
  }

  lemma RestoreSnoc(out: string, stash: seq<string>, n: nat)
    requires n < |stash|
    ensures Restore(out, stash[..n + 1]) == ReplaceFirst(Restore(out, stash[..n]), SENTINEL, stash[n])
    decreases n
  {
    var a, b := stash[..n + 1], stash[..n];
    if n > 0 {
      var rest := stash[1..];
      assert a[1..] == rest[..n] && b[1..] == rest[..n - 1];
      RestoreSnoc(ReplaceFirst(out, SENTINEL, stash[0]), rest, n - 1);
    } else {
      assert a == [stash[0]];
    }
  }

  method Redact(r: Redactor, text: string) returns (res: Result)
    requires r.Valid()
    ensures res == Redacted(r, text)
  {
    TableIsSolid();
    var hits: seq<Hit> := [];

    // Stash the allow-listed tokens.
    var out, stash := ReplaceAll(ALLOW, text, SENTINEL);
    ghost var start := Work(out, []);

    // Structural patterns first, in declared order.
    for n := 0 to |STRUCTURAL|
      invariant Work(out, hits) == Passes(STRUCTURAL[..n], start)
    {
      var p := STRUCTURAL[n];
      PassesSnoc(STRUCTURAL, n, start);
      NoTokensNoChangeIf(p.re, out, p.placeholder);
      if Find(p.re, out, 0) <= |out| {
        var found;
        out, found := ReplaceAll(p.re, out, p.placeholder);
        hits := hits + Copies(Hit(p.kind, p.placeholder), |found|);
      }
    }
    assert STRUCTURAL[..|STRUCTURAL|] == STRUCTURAL;

    // Literal deny-list.
    if r.deny.Some? {
      NoTokensNoChangeIf(r.deny.value, out, "<REDACTED>");
      if Find(r.deny.value, out, 0) <= |out| {
        var found;
        out, found := ReplaceAll(r.deny.value, out, "<REDACTED>");
        hits := hits + Copies(Hit("deny-list", "<REDACTED>"), |found|);
      }
    }
    ghost var full := out;

    // Restore the stashed tokens, in order.
    for n := 0 to |stash|
      invariant out == Restore(full, stash[..n])
    {
      RestoreSnoc(full, stash, n);
      out := ReplaceFirst(out, SENTINEL, stash[n]);
    }
    assert stash[..|stash|] == stash;
    res := Result(out, hits);
  }

  /** MatchString guards a pass that would change nothing. */
  lemma NoTokensNoChangeIf(r: Re, s: string, repl: string)
    requires !Nullable(r)
    ensures Find(r, s, 0) > |s| ==> Join(Cut(r, s, 0).gaps, repl) == s && Cut(r, s, 0).toks == []
  {
    if Find(r, s, 0) > |s| { NoTokensNoChange(r, s, repl); }
  }
}
