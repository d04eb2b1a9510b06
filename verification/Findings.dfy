/** Redaction and the gate said without patterns and engines: which texts they find something in, what
    they put in its place and what they report. */
module Findings {
  import opened Regexp
  import opened Redaction
  import opened Completeness
  import opened Restoration
  import opened Harmlessness
  import opened Gate
  import opened Shapes
  import opened Longest

  // ---------------------------------------------------------------- what is looked for

  /** What one pass over the text looks for. */
  datatype Search = ForName | ForSecret(p: nat) | ForTerm(terms: seq<string>)
  {
    predicate Valid() {
      match this
      case ForName => true
      case ForSecret(p) => p < 8
      case ForTerm(terms) => terms != [] && NonEmpty(terms)
    }

    predicate Finds(s: string, i: nat, j: nat) {
      match this
      case ForName => NameForm(s, i, j)
      case ForSecret(p) => Secret(p, s, i, j)
      case ForTerm(terms) => FirstTerm(terms, s, i, j)
    }
  }

  function KindOf(p: nat): string
    requires p < 8
  {
    ["arn", "aws-access-key", "github-pat", "github-pat", "slack-token", "anthropic-key", "bundle-id", "aws-account-id"][p]
  }

  function MaskOf(p: nat): string
    requires p < 8
  {
    ["<ARN>", "<AWS_ACCESS_KEY>", "<GITHUB_TOKEN>", "<GITHUB_TOKEN>",
     "<SLACK_TOKEN>", "<ANTHROPIC_KEY>", "<BUNDLE_ID>", "<AWS_ACCOUNT_ID>"][p]
  }

  function StandIn(q: Search): string
    requires q.Valid()
  {
    match q
    case ForName => "\0ALLOW\0"
    case ForSecret(p) => MaskOf(p)
    case ForTerm(_) => "<REDACTED>"
  }

  /** Nothing begins before i, and nothing longer begins at i. */
  ghost predicate Leftmost(q: Search, s: string, k: nat, i: nat, j: nat) {
    && k <= i < j <= |s| && q.Finds(s, i, j)
    && (forall m: nat, n: nat :: k <= m < i ==> !q.Finds(s, m, n))
    && (forall n: nat :: q.Finds(s, i, n) ==> n <= j)
  }

  ghost predicate NothingFrom(q: Search, s: string, k: nat) {
    forall m: nat, n: nat :: k <= m <= |s| ==> !q.Finds(s, m, n)
  }

  /** t is s from k on, the texts of `found`, each the leftmost and longest from where the last one ended,
      replaced. */
  ghost predicate Replaced(q: Search, s: string, k: nat, t: string, found: seq<string>)
    requires q.Valid() && k <= |s|
    decreases |found|
  {
    if found == [] then t == s[k..] && NothingFrom(q, s, k)
    else exists i: nat, j: nat, t' ::
      (Leftmost(q, s, k, i, j) && found[0] == s[i..j]
       && t == s[k..i] + StandIn(q) + t' && Replaced(q, s, j, t', found[1..]))
  }

  // ---------------------------------------------------------------- one pass

  function Engine(q: Search): (r: Re)
    requires q.Valid()
    ensures !Nullable(r)
  {
    TableIsSolid();
    match q
    case ForName => ALLOW
    case ForSecret(p) => STRUCTURAL[p].re
    case ForTerm(terms) => DenyRe(terms)
  }

  lemma EngineFinds(q: Search, s: string, i: nat)
    requires q.Valid() && i <= |s|
    ensures var es := Ends(Engine(q), s, i);
      if es == [] then forall j: nat :: !q.Finds(s, i, j)
      else i < es[0] <= |s| && q.Finds(s, i, es[0]) && forall j: nat :: q.Finds(s, i, j) ==> j <= es[0]
  {
    var es := Ends(Engine(q), s, i);
    if es != [] { FirstEnd(Engine(q), s, i); }
    hide Ends, Secret, NameForm, FirstTerm;
    match q
    case ForName => NameIsFound(s, i);
    case ForSecret(p) => FirstIsLongest(p, s, i);
    case ForTerm(terms) => FirstTermIsFound(terms, s, i);
  }

  lemma FindIsLeftmost(q: Search, s: string, k: nat)
    requires q.Valid() && k <= |s|
    ensures var i := Find(Engine(q), s, k);
      if i > |s| then NothingFrom(q, s, k) else Ends(Engine(q), s, i) != [] && Leftmost(q, s, k, i, Ends(Engine(q), s, i)[0])
  {
    hide Ends, Engine, Search.Finds;
    var i := Find(Engine(q), s, k);
    forall m: nat, n: nat | k <= m < i && m <= |s| ensures !q.Finds(s, m, n) { EngineFinds(q, s, m); }
    if i <= |s| { EngineFinds(q, s, i); }
  }

  lemma {:induction false} CutReplaces(q: Search, s: string, k: nat)
    requires q.Valid() && k <= |s|
    ensures var c := Cut(Engine(q), s, k); Replaced(q, s, k, Join(c.gaps, StandIn(q)), c.toks)
    decreases |s| - k
  {
    hide Ends, Engine, Search.Finds, NothingFrom, Leftmost, StandIn;
    var i := Find(Engine(q), s, k);
    FindIsLeftmost(q, s, k);
    if i <= |s| {
      FirstEnd(Engine(q), s, i);
      var j := Ends(Engine(q), s, i)[0];
      CutReplaces(q, s, j);
      var c, rest := Cut(Engine(q), s, k), Cut(Engine(q), s, j);
      assert c.gaps[1..] == rest.gaps && c.toks[1..] == rest.toks;
      var t' := Join(rest.gaps, StandIn(q));
      assert Leftmost(q, s, k, i, j) && c.toks[0] == s[i..j];
      assert Join(c.gaps, StandIn(q)) == s[k..i] + StandIn(q) + t';
    }
  }

  // ---------------------------------------------------------------- the whole redaction

  /** One hit for each secret found, kind by kind. */
  function HitsOf(found: seq<seq<string>>): seq<Hit>
    requires |found| <= 8
  {
    if found == [] then []
    else
      var p := |found| - 1;
      HitsOf(found[..p]) + seq(|found[p]|, _ => Hit(KindOf(p), MaskOf(p)))
  }

  lemma TableIs(p: nat)
    requires p < 8
    ensures STRUCTURAL[p].kind == KindOf(p) && STRUCTURAL[p].placeholder == MaskOf(p)
  {
  }

  /** The texts between the passes, from the one with the names set aside on. */
  ghost predicate SecretsReplaced(ts: seq<string>, found: seq<seq<string>>) {
    && |ts| == |found| + 1 && |found| <= 8
    && forall p :: 0 <= p < |found| ==> Replaced(ForSecret(p), ts[p], 0, ts[p + 1], found[p])
  }

  lemma {:induction false} PassesReplace(n: nat, s: string) returns (ts: seq<string>, found: seq<seq<string>>)
    requires n <= 8 && Solid(STRUCTURAL[..n])
    ensures |found| == n && |ts| == n + 1 && SecretsReplaced(ts, found) && ts[0] == s
    ensures Passes(STRUCTURAL[..n], Work(s, [])) == Work(ts[n], HitsOf(found))
    decreases n
  {
    if n == 0 {
      ts, found := [s], [];
    } else {
      assert |STRUCTURAL| == 8;
      TableIsSolid();
      assert Solid(STRUCTURAL[..n - 1]);
      hide Replaced, STRUCTURAL, Nullable, SecretsReplaced, HitsOf, Pass;
      ts, found := PassesReplace(n - 1, s);
      PassesSnoc(STRUCTURAL, n - 1, Work(s, []));
      var t, f := OnePass(n - 1, Work(ts[n - 1], HitsOf(found)));
      OneMorePass(ts, found, t, f);
      ts, found := ts + [t], found + [f];
    }
  }

  lemma OneMorePass(ts: seq<string>, found: seq<seq<string>>, t: string, f: seq<string>)
    requires |found| < 8 && SecretsReplaced(ts, found)
    requires Replaced(ForSecret(|found|), ts[|found|], 0, t, f)
    ensures SecretsReplaced(ts + [t], found + [f])
    ensures HitsOf(found + [f]) == HitsOf(found) + seq(|f|, _ => Hit(KindOf(|found|), MaskOf(|found|)))
  {
    hide Replaced, KindOf, MaskOf;
    var n, found' := |found|, found + [f];
    assert found'[..n] == found;
    forall p | 0 <= p < n + 1 ensures Replaced(ForSecret(p), (ts + [t])[p], 0, (ts + [t])[p + 1], found'[p]) {
      if p < n { assert Replaced(ForSecret(p), ts[p], 0, ts[p + 1], found[p]); }
    }
  }

  lemma OnePass(p: nat, w: Work) returns (t: string, f: seq<string>)
    requires p < 8 && !Nullable(STRUCTURAL[p].re)
    ensures Replaced(ForSecret(p), w.out, 0, t, f)
    ensures Pass(STRUCTURAL[p], w) == Work(t, w.hits + seq(|f|, _ => Hit(KindOf(p), MaskOf(p))))
  {
    TableIs(p);
    hide STRUCTURAL, KindOf, MaskOf, Replaced;
    var c := Cut(STRUCTURAL[p].re, w.out, 0);
    CutReplaces(ForSecret(p), w.out, 0);
    t, f := Join(c.gaps, MaskOf(p)), c.toks;
    assert Copies(Hit(KindOf(p), MaskOf(p)), |f|) == seq(|f|, _ => Hit(KindOf(p), MaskOf(p)));
  }

  /** Redaction sets the allow-listed names aside, replaces the secrets kind by kind, then the deny-listed
      terms, each time the leftmost longest ones, puts the names back and reports a hit for each text it
      replaced. */
  lemma RedactIsExact(terms: seq<string>, text: string)
      returns (names: seq<string>, ts: seq<string>, found: seq<seq<string>>, last: string, denied: seq<string>)
    requires NonEmpty(terms)
    ensures |found| == 8 && SecretsReplaced(ts, found)
    ensures Replaced(ForName, text, 0, ts[0], names)
    ensures if terms == [] then last == ts[8] && denied == [] else Replaced(ForTerm(terms), ts[8], 0, last, denied)
    ensures Redacted(New(terms), text)
         == Result(Restore(last, names), HitsOf(found) + seq(|denied|, _ => Hit("deny-list", "<REDACTED>")))
  {
    RedactedUnfolds(terms, text);
    NameTokens(text);
    hide *;
    names := Tokens(text);
    ts, found := PassesReplace(8, Stashed(text));
    var w := Work(ts[8], HitsOf(found));
    if terms == [] {
      last, denied := ts[8], [];
      NoTermPass(w);
    } else {
      last, denied := TermPass(terms, w);
    }
  }

  lemma RedactedUnfolds(terms: seq<string>, text: string)
    requires NonEmpty(terms)
    ensures Solid(STRUCTURAL[..8])
    ensures var w := DenyPass(New(terms).deny, Passes(STRUCTURAL[..8], Work(Stashed(text), [])));
      Redacted(New(terms), text) == Result(Restore(w.out, Tokens(text)), w.hits)
  {
    TableIsSolid();
    assert STRUCTURAL[..8] == STRUCTURAL;
  }

  lemma NameTokens(text: string)
    ensures Replaced(ForName, text, 0, Stashed(text), Tokens(text))
  {
    TableIsSolid();
    CutReplaces(ForName, text, 0);
  }

  lemma NoTermPass(w: Work)
    ensures DenyPass(New([]).deny, w) == w
    ensures w.hits + seq(0, _ => Hit("deny-list", "<REDACTED>")) == w.hits
  {
  }

  lemma TermPass(terms: seq<string>, w: Work) returns (t: string, f: seq<string>)
    requires terms != [] && NonEmpty(terms)
    ensures Replaced(ForTerm(terms), w.out, 0, t, f)
    ensures DenyPass(New(terms).deny, w) == Work(t, w.hits + seq(|f|, _ => Hit("deny-list", "<REDACTED>")))
  {
    hide Replaced, DenyRe;
    var c := Cut(DenyRe(terms), w.out, 0);
    CutReplaces(ForTerm(terms), w.out, 0);
    t, f := Join(c.gaps, "<REDACTED>"), c.toks;
    assert Copies(Hit("deny-list", "<REDACTED>"), |f|) == seq(|f|, _ => Hit("deny-list", "<REDACTED>"));
  }

  // ---------------------------------------------------------------- what is safe

  ghost predicate HoldsName(s: string) { exists i: nat, j: nat :: NameForm(s, i, j) }

  ghost predicate TermStands(terms: seq<string>, s: string, i: nat) {
    exists n: nat :: n < |terms| && TermAt(terms[n], s, i)
  }

  ghost predicate HoldsTerm(terms: seq<string>, s: string) { exists i: nat :: TermStands(terms, s, i) }

  /** A pattern of the table hits at a exactly if a secret of its kind begins there. */
  lemma HitIsSecret(p: nat, s: string, a: nat)
    requires p < 8 && a <= |s|
    ensures HitAt(STRUCTURAL[p].re, s, a) <==> exists b: nat :: Secret(p, s, a, b)
  {
    var re := STRUCTURAL[p].re;
    hide STRUCTURAL, Matches, Secret;
    forall b: nat | a <= b <= |s| ensures Matches(re, s, a, b) <==> Secret(p, s, a, b) { SecretIs(p, s, a, b); }
    forall b: nat | Secret(p, s, a, b) ensures a <= b <= |s| { SecretInside(p, s, a, b); }
  }

  lemma ClearIsSecretFree(s: string)
    ensures AllClear(s) <==> !HoldsSecret(s)
  {
    assert |STRUCTURAL| == 8;
    hide STRUCTURAL, HitAt, Secret;
    if !AllClear(s) {
      var p :| 0 <= p < 8 && !NoHit(STRUCTURAL[p].re, s);
      var a :| 0 <= a <= |s| && HitAt(STRUCTURAL[p].re, s, a);
      HitIsSecret(p, s, a);
      var b: nat :| Secret(p, s, a, b);
      SecretInside(p, s, a, b);
    }
    if HoldsSecret(s) {
      var p, i, j :| 0 <= p < 8 && 0 <= i <= j <= |s| && Secret(p, s, i, j);
      HitIsSecret(p, s, i);
      assert !NoHit(STRUCTURAL[p].re, s);
    }
  }

  lemma FirstOrLater(terms: seq<string>, s: string, i: nat)
    requires terms != []
    ensures TermStands(terms, s, i) <==> TermAt(terms[0], s, i) || TermStands(terms[1..], s, i)
  {
    hide TermAt;
    assert forall n: nat :: n < |terms| - 1 ==> terms[1..][n] == terms[n + 1];
    if n: nat :| n < |terms| && TermAt(terms[n], s, i) {
      if n > 0 { assert TermAt(terms[1..][n - 1], s, i); }
    }
    if n: nat :| n < |terms| - 1 && TermAt(terms[1..][n], s, i) { assert TermAt(terms[n + 1], s, i); }
  }

  lemma {:induction false} FirstTermStands(terms: seq<string>, s: string, i: nat, j: nat)
    requires FirstTerm(terms, s, i, j)
    ensures TermStands(terms, s, i)
    decreases |terms|
  {
    FirstOrLater(terms, s, i);
    hide TermStands;
    if !TermAt(terms[0], s, i) { FirstTermStands(terms[1..], s, i, j); }
  }

  lemma {:induction false} SomeTermIsFirst(terms: seq<string>, s: string, i: nat) returns (j: nat)
    requires TermStands(terms, s, i)
    ensures FirstTerm(terms, s, i, j)
    decreases |terms|
  {
    FirstOrLater(terms, s, i);
    hide TermStands;
    if TermAt(terms[0], s, i) { j := i + |terms[0]|; } else { j := SomeTermIsFirst(terms[1..], s, i); }
  }

  /** The deny-list hits exactly the texts in which one of its terms stands. */
  lemma DenyFreeMeans(terms: seq<string>, s: string)
    requires terms != [] && NonEmpty(terms)
    ensures NoHit(DenyRe(terms), s) <==> !HoldsTerm(terms, s)
  {
    hide Ends, DenyRe, FirstTerm, TermStands, HitAt;
    forall i: nat | i <= |s| ensures HitAt(DenyRe(terms), s, i) <==> TermStands(terms, s, i) {
      NoEndsNoHit(DenyRe(terms), s, i);
      FirstTermIsFound(terms, s, i);
      if Ends(DenyRe(terms), s, i) != [] { FirstTermStands(terms, s, i, Ends(DenyRe(terms), s, i)[0]); }
      if TermStands(terms, s, i) { var j := SomeTermIsFirst(terms, s, i); }
    }
    forall i: nat | TermStands(terms, s, i) ensures i <= |s| { TermInside(terms, s, i); }
  }

  lemma TermInside(terms: seq<string>, s: string, i: nat)
    requires TermStands(terms, s, i)
    ensures i <= |s|
  {
  }

  /** For every deny-list and text: safe exactly if, with its allow-listed names set aside, the text
      holds neither a secret nor a term. */
  lemma SafeMeansNothingHeld(terms: seq<string>, text: string)
    requires NonEmpty(terms)
    ensures VerdictOf(Redacted(New(terms), text).hits).safe
       <==> !HoldsSecret(Stashed(text)) && !HoldsTerm(terms, Stashed(text))
  {
    assert |STRUCTURAL| == 8;
    SafeMeansClear(New(terms), text);
    ClearIsSecretFree(Stashed(text));
    if terms != [] { DenyFreeMeans(terms, Stashed(text)); }
    hide Redacted, STRUCTURAL, DenyRe, Stashed, HoldsSecret, TermStands;
  }

  /** Without a name in it nothing is set aside. */
  lemma NothingSetAside(text: string)
    ensures Tokens(text) == [] <==> !HoldsName(text)
    ensures !HoldsName(text) ==> Stashed(text) == text
  {
    NameTokens(text);
    hide Stashed, Tokens, NameForm;
    assert forall i: nat, j: nat :: ForName.Finds(text, i, j) <==> NameForm(text, i, j);
    forall i: nat, j: nat | NameForm(text, i, j) ensures i <= |text| { NameInside(text, i, j); }
    assert text[0..] == text;
  }

  /** A text without an allow-listed name is safe exactly if it holds no secret, and what redaction makes
      of it holds none. */
  lemma SecretsAreFound(text: string)
    requires !HoldsName(text)
    ensures VerdictOf(Redacted(PLAIN, text).hits).safe <==> !HoldsSecret(text)
    ensures !HoldsSecret(Redacted(PLAIN, text).clean)
  {
    NothingSetAside(text);
    SafeMeansNothingHeld([], text);
    TableIsSolid();
    StructuralPassesAreComplete(text);
    hide STRUCTURAL, HoldsSecret, Stashed, Cut;
    var out := Passes(STRUCTURAL, Work(text, [])).out;
    assert Redacted(PLAIN, text).clean == out;
    assert |STRUCTURAL| == 8 by { TableSize(); }
    ClearIsSecretFree(out);
  }

  lemma TableSize()
    ensures |STRUCTURAL| == 8
  {
  }

  // ---------------------------------------------------------------- a secret alone

  lemma NoKeyInMask(p: nat, k: nat)
    requires p < 8 && k + 1 < |MaskOf(p)|
    ensures MaskOf(p)[k] == 'A' ==> MaskOf(p)[k + 1] != 'K'
  {
  }

  /** The masks hold no secret. */
  lemma MasksAreClear(p: nat)
    requires p < 8
    ensures AllClear(MaskOf(p))
  {
    FillersAreFillers();
    TableIs(p);
    hide STRUCTURAL, MaskOf;
    var m := MaskOf(p);
    forall k | 0 <= k < |m| ensures IsUpper(m[k]) || m[k] == '_' || EdgeChar(m[k]) { }
    forall k | 0 <= k < |m| - 1 ensures !TokenPair(m[k], m[k + 1]) { NoKeyInMask(p, k); }
    HarmlessIsClear(m);
  }

  lemma PassKeeps(p: nat, w: Work)
    requires p < 8 && !Nullable(STRUCTURAL[p].re) && NoHit(STRUCTURAL[p].re, w.out)
    ensures Pass(STRUCTURAL[p], w) == w
  {
    FoundOrClear(STRUCTURAL[p].re, w.out);
    NoTokensNoChange(STRUCTURAL[p].re, w.out, STRUCTURAL[p].placeholder);
  }

  lemma {:induction false} EarlierPassesKeep(n: nat, w: Work)
    requires n <= 8 && Solid(STRUCTURAL[..n]) && forall q :: 0 <= q < n ==> NoHit(STRUCTURAL[q].re, w.out)
    ensures Passes(STRUCTURAL[..n], w) == w
    decreases n
  {
    if n > 0 {
      assert |STRUCTURAL| == 8;
      TableIsSolid();
      hide NoHit, STRUCTURAL, Nullable, Pass;
      assert Solid(STRUCTURAL[..n - 1]);
      EarlierPassesKeep(n - 1, w);
      PassesSnoc(STRUCTURAL, n - 1, w);
      PassKeeps(n - 1, w);
    }
  }

  lemma {:induction false} LaterPassesKeep(p: nat, n: nat, start: Work, w: Work)
    requires p <= n <= 8 && Solid(STRUCTURAL[..p]) && Solid(STRUCTURAL[..n])
    requires Passes(STRUCTURAL[..p], start) == w && forall q :: p <= q < n ==> NoHit(STRUCTURAL[q].re, w.out)
    ensures Passes(STRUCTURAL[..n], start) == w
    decreases n
  {
    if n > p {
      assert |STRUCTURAL| == 8;
      TableIsSolid();
      hide NoHit, STRUCTURAL, Nullable, Pass;
      assert Solid(STRUCTURAL[..n - 1]);
      LaterPassesKeep(p, n - 1, start, w);
      PassesSnoc(STRUCTURAL, n - 1, start);
      PassKeeps(n - 1, w);
    }
  }

  /** Nothing but a secret: the pass of its kind replaces all of it. */
  lemma AloneIsReplaced(p: nat, text: string)
    requires p < 8 && !Nullable(STRUCTURAL[p].re) && Secret(p, text, 0, |text|)
    ensures Pass(STRUCTURAL[p], Work(text, [])) == Work(MaskOf(p), [Hit(KindOf(p), MaskOf(p))])
  {
    var q, re := ForSecret(p), STRUCTURAL[p].re;
    SecretInside(p, text, 0, |text|);
    TableIs(p);
    hide Ends, STRUCTURAL, KindOf, MaskOf, Secret;
    EngineFinds(q, text, 0);
    EngineFinds(q, text, |text|);
    assert q.Finds(text, 0, |text|);
    assert Find(re, text, 0) == 0 && Ends(re, text, 0)[0] == |text|;
    assert Find(re, text, |text|) > |text|;
    var rest := Cut(re, text, |text|);
    assert rest == Pieces([text[|text|..]], []);
    assert text[0..0] == "" == text[|text|..] && text[0..|text|] == text;
    var c := Cut(re, text, 0);
    assert c == Pieces(["", ""], [text]);
    assert c.gaps[1..] == [""];
    assert Join([""], MaskOf(p)) == "" && Join(c.gaps, MaskOf(p)) == "" + MaskOf(p) + "" == MaskOf(p);
  }

  /** A text that is one secret, holds none of an earlier kind and no allow-listed name becomes that
      kind's placeholder, with one hit: an ARN is an ARN, whatever account number it holds. */
  lemma SecretAlone(p: nat, text: string)
    requires p < 8 && Secret(p, text, 0, |text|) && !HoldsName(text)
    requires forall q: nat, i: nat, j: nat :: q < p ==> !Secret(q, text, i, j)
    ensures Redacted(PLAIN, text) == Result(MaskOf(p), [Hit(KindOf(p), MaskOf(p))])
  {
    var start, w := Work(text, []), Work(MaskOf(p), [Hit(KindOf(p), MaskOf(p))]);
    TableSize();
    TableIsSolid();
    hide STRUCTURAL, Nullable, Secret, KindOf, MaskOf, HitAt, Pass;
    forall q | 0 <= q < p ensures NoHit(STRUCTURAL[q].re, text) {
      forall i | 0 <= i <= |text| ensures !HitAt(STRUCTURAL[q].re, text, i) { HitIsSecret(q, text, i); }
    }
    assert Solid(STRUCTURAL[..p]) && Solid(STRUCTURAL[..p + 1]) && Solid(STRUCTURAL[..8]);
    EarlierPassesKeep(p, start);
    PassesSnoc(STRUCTURAL, p, start);
    AloneIsReplaced(p, text);
    MasksAreClear(p);
    LaterPassesKeep(p + 1, 8, start, w);
    assert STRUCTURAL[..8] == STRUCTURAL;
    NothingSetAside(text);
    hide Stashed, HoldsName, Passes;
    assert Restore(MaskOf(p), []) == MaskOf(p);
  }

  // ---------------------------------------------------------------- the verdict

  /** The placeholder of every secret found, kind by kind. */
  function MasksOf(found: seq<seq<string>>): seq<string>
    requires |found| <= 8
  {
    if found == [] then []
    else
      var p := |found| - 1;
      MasksOf(found[..p]) + seq(|found[p]|, _ => MaskOf(p))
  }

  /** The kinds of which something was found, each once, in the order of the table. */
  function KindsOf(found: seq<seq<string>>): (ks: seq<string>)
    requires |found| <= 8
    ensures forall k :: 0 <= k < |ks| ==> exists p :: 0 <= p < |found| && ks[k] == KindOf(p)
  {
    if found == [] then []
    else
      var p := |found| - 1;
      var before := KindsOf(found[..p]);
      if found[p] == [] || KindOf(p) in before then before else before + [KindOf(p)]
  }

  lemma OneMoreHit(hits: seq<Hit>, h: Hit)
    ensures Novel(hits + [h]) == Novel(hits) + if h.kind == "deny-list" then [] else [h.placeholder]
    ensures Kinds(hits + [h]) == if h.kind in Kinds(hits) then Kinds(hits) else Kinds(hits) + [h.kind]
  {
    assert (hits + [h])[..|hits|] == hits;
  }

  lemma LastOfMany(hits: seq<Hit>, h: Hit, n: nat)
    requires n > 0
    ensures hits + seq(n, _ => h) == (hits + seq(n - 1, _ => h)) + [h]
    ensures seq(n, _ => h.placeholder) == seq(n - 1, _ => h.placeholder) + [h.placeholder]
  {
  }

  lemma {:induction false} NovelOfMore(hits: seq<Hit>, h: Hit, n: nat)
    ensures Novel(hits + seq(n, _ => h)) == Novel(hits) + if h.kind == "deny-list" then [] else seq(n, _ => h.placeholder)
    decreases n
  {
    if n > 0 {
      hide Novel, Kinds;
      LastOfMany(hits, h, n);
      OneMoreHit(hits + seq(n - 1, _ => h), h);
      NovelOfMore(hits, h, n - 1);
    } else {
      assert hits + seq(n, _ => h) == hits;
    }
  }

  lemma {:induction false} KindsOfMore(hits: seq<Hit>, h: Hit, n: nat)
    ensures Kinds(hits + seq(n, _ => h))
         == if n == 0 || h.kind in Kinds(hits) then Kinds(hits) else Kinds(hits) + [h.kind]
    decreases n
  {
    if n > 0 {
      hide Novel, Kinds;
      LastOfMany(hits, h, n);
      OneMoreHit(hits + seq(n - 1, _ => h), h);
      KindsOfMore(hits, h, n - 1);
    } else {
      assert hits + seq(n, _ => h) == hits;
    }
  }

  lemma NoKindIsDenied(p: nat)
    requires p < 8
    ensures KindOf(p) != "deny-list"
  {
    assert KindOf(p)[0] != "deny-list"[0];
  }

  lemma {:induction false} NovelSays(found: seq<seq<string>>)
    requires |found| <= 8
    ensures Novel(HitsOf(found)) == MasksOf(found)
    decreases |found|
  {
    if found != [] {
      var p := |found| - 1;
      NoKindIsDenied(p);
      hide KindOf, MaskOf, Novel;
      NovelSays(found[..p]);
      NovelOfMore(HitsOf(found[..p]), Hit(KindOf(p), MaskOf(p)), |found[p]|);
    }
  }

  lemma {:induction false} KindsSay(found: seq<seq<string>>)
    requires |found| <= 8
    ensures Kinds(HitsOf(found)) == KindsOf(found)
    decreases |found|
  {
    if found != [] {
      var p := |found| - 1;
      hide KindOf, MaskOf, Kinds;
      KindsSay(found[..p]);
      KindsOfMore(HitsOf(found[..p]), Hit(KindOf(p), MaskOf(p)), |found[p]|);
    }
  }

  ghost predicate NoneFound(found: seq<seq<string>>) { forall p :: 0 <= p < |found| ==> found[p] == [] }

  lemma {:induction false} NoHitsSay(found: seq<seq<string>>)
    requires |found| <= 8
    ensures HitsOf(found) == [] <==> NoneFound(found)
    decreases |found|
  {
    if found != [] {
      var p := |found| - 1;
      hide KindOf, MaskOf;
      NoHitsSay(found[..p]);
      assert NoneFound(found) <==> NoneFound(found[..p]) && found[p] == [];
    }
  }

  /** The verdict on a text: safe if nothing was found; the placeholders of the secrets, but not of the
      deny-listed terms; the kinds in the order of the table, the deny-list last. */
  lemma VerdictIsExact(terms: seq<string>, text: string)
      returns (names: seq<string>, ts: seq<string>, found: seq<seq<string>>, last: string, denied: seq<string>)
    requires NonEmpty(terms)
    ensures |found| == 8 && SecretsReplaced(ts, found)
    ensures Replaced(ForName, text, 0, ts[0], names)
    ensures if terms == [] then denied == [] else Replaced(ForTerm(terms), ts[8], 0, last, denied)
    ensures VerdictOf(Redacted(New(terms), text).hits)
         == Verdict(NoneFound(found) && denied == [],
                    MasksOf(found), KindsOf(found) + if denied == [] then [] else ["deny-list"])
  {
    hide *;
    names, ts, found, last, denied := RedactIsExact(terms, text);
    VerdictSays(found, denied);
  }

  lemma VerdictSays(found: seq<seq<string>>, denied: seq<string>)
    requires |found| == 8
    ensures VerdictOf(HitsOf(found) + seq(|denied|, _ => Hit("deny-list", "<REDACTED>")))
         == Verdict(NoneFound(found) && denied == [],
                    MasksOf(found), KindsOf(found) + if denied == [] then [] else ["deny-list"])
  {
    NovelSays(found);
    KindsSay(found);
    NoHitsSay(found);
    forall k | 0 <= k < |KindsOf(found)| ensures KindsOf(found)[k] != "deny-list" {
      var p :| 0 <= p < |found| && KindsOf(found)[k] == KindOf(p);
      NoKindIsDenied(p);
    }
    hide KindsOf, MasksOf, HitsOf, Novel, Kinds, NoneFound;
    NovelOfMore(HitsOf(found), Hit("deny-list", "<REDACTED>"), |denied|);
    KindsOfMore(HitsOf(found), Hit("deny-list", "<REDACTED>"), |denied|);
  }
}
