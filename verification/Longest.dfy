/** Which of several matches the engine takes: the leftmost one, and of those that start there the
    longest secret, the one allow-listed name there is, the first deny-listed term. */
module Longest {
  import opened Regexp
  import opened Redaction
  import opened Alignment
  import opened AllowShape
  import opened Shapes

  ghost predicate Descending(es: seq<nat>) { forall p, q :: 0 <= p < q < |es| ==> es[p] > es[q] }

  /** The first end is the largest. */
  ghost predicate Tops(es: seq<nat>) { forall k :: 0 <= k < |es| ==> es[k] <= es[0] }

  // ---------------------------------------------------------------- pieces with one end

  lemma EndsEachOne(r: Re, s: string, m: nat, lo: nat)
    requires lo <= m <= |s|
    ensures EndsEach(r, s, [m], lo) == Ends(r, s, m)
  {
    hide Ends, EndsEach;
    EndsEachCons(r, s, [m], lo);
    NoEndsEach(r, s, lo);
    assert [m][1..] == [];
  }

  lemma ThenTops(a: Re, b: Re, s: string, i: nat)
    requires i <= |s| && (a.Word? || a.Run? || a.Sym? || a.Edge?)
    requires forall m :: i <= m <= |s| ==> Tops(Ends(b, s, m))
    ensures Tops(Ends(Cat(a, b), s, i))
  {
    var ms := Ends(a, s, i);
    assert |ms| <= 1;
    hide Ends, EndsEach, Tops;
    CatEnds(a, b, s, i);
    if ms == [] {
      NoEndsEach(b, s, i);
      assert Tops([]) by { NothingTops(); }
    } else {
      assert ms == [ms[0]];
      EndsEachOne(b, s, ms[0], i);
    }
  }

  lemma NothingTops()
    ensures Tops([])
  {
  }

  lemma OneTops(r: Re, s: string, i: nat)
    requires i <= |s| && (r.Word? || r.Run? || r.Sym?)
    ensures Tops(Ends(r, s, i))
  {
  }

  lemma DescendingTops(es: seq<nat>)
    requires Descending(es)
    ensures Tops(es)
  {
  }

  lemma {:induction false} StarDescends(cls: Class, s: string, i: nat)
    requires i <= |s|
    ensures Descending(Ends(Star(Sym(cls)), s, i))
    decreases |s| - i
  {
    var r := Star(Sym(cls));
    SymEnds(cls, s, i);
    hide Ends, EndsEach, After;
    StarEnds(Sym(cls), s, i);
    if i < |s| && In(cls, s[i]) {
      AfterNext(i);
      EndsEachOne(r, s, i + 1, i + 1);
      StarDescends(cls, s, i + 1);
      DescendingSum(Ends(r, s, i + 1), [i], i + 1);
    } else if i < |s| {
      AfterNone(i);
      NoEndsEach(r, s, i + 1);
    }
  }

  lemma PlusTops(cls: Class, s: string, i: nat)
    requires i <= |s|
    ensures Tops(Ends(Plus(cls), s, i))
  {
    StarsTop(cls, s);
    hide Ends, EndsEach;
    ThenTops(Sym(cls), Star(Sym(cls)), s, i);
  }

  lemma StarsTop(cls: Class, s: string)
    ensures forall m :: 0 <= m <= |s| ==> Tops(Ends(Star(Sym(cls)), s, m))
  {
    hide Ends;
    forall m | 0 <= m <= |s| ensures Tops(Ends(Star(Sym(cls)), s, m)) {
      StarDescends(cls, s, m);
      DescendingTops(Ends(Star(Sym(cls)), s, m));
    }
  }

  // ---------------------------------------------------------------- bundle identifiers

  lemma DescendingSum(a: seq<nat>, b: seq<nat>, m: nat)
    requires Descending(a) && Descending(b)
    requires (forall k :: 0 <= k < |a| ==> a[k] >= m) && forall k :: 0 <= k < |b| ==> b[k] < m
    ensures Descending(a + b)
  {
  }

  lemma EndBelow(r: Re, s: string, ms: seq<nat>, lo: nat, e: nat)
    requires lo <= |s| && ms != [] && Within(ms, lo, |s|) && Descending(ms)
    requires forall q :: 0 < q < |ms| ==> Ends(r, s, ms[q]) == [] || Ends(r, s, ms[q]) == [ms[q]]
    requires e in EndsEach(r, s, ms[1..], lo)
    ensures e < ms[0]
  {
    hide Ends, EndsEach;
    EndsEachMember(r, s, ms[1..], lo, e);
    var m :| m in ms[1..] && e in Ends(r, s, m);
    var q :| 0 <= q < |ms| - 1 && ms[1..][q] == m;
    assert m == ms[q + 1];
  }

  /** From all but the first of descending starts a pattern leads at most to where it starts. */
  lemma {:induction false} EachDescends(r: Re, s: string, ms: seq<nat>, lo: nat)
    requires lo <= |s| && Within(ms, lo, |s|) && Descending(ms)
    requires ms != [] ==> Descending(Ends(r, s, ms[0]))
    requires forall q :: 0 < q < |ms| ==> Ends(r, s, ms[q]) == [] || Ends(r, s, ms[q]) == [ms[q]]
    ensures Descending(EndsEach(r, s, ms, lo))
    decreases |ms|
  {
    if ms != [] {
      var rest := ms[1..];
      hide Ends, EndsEach;
      EndsEachCons(r, s, ms, lo);
      EachDescends(r, s, rest, lo);
      forall k | 0 <= k < |EndsEach(r, s, rest, lo)| ensures EndsEach(r, s, rest, lo)[k] < ms[0] {
        EndBelow(r, s, ms, lo, EndsEach(r, s, rest, lo)[k]);
      }
      DescendingSum(Ends(r, s, ms[0]), EndsEach(r, s, rest, lo), ms[0]);
    } else {
      NoEndsEach(r, s, lo);
    }
  }

  /** Inside a segment there is no dot. */
  lemma SegmentEnds(s: string, i: nat)
    requires i <= |s|
    ensures var es := Ends(SEGMENT, s, i);
      && Descending(es)
      && (forall k :: 0 <= k < |es| ==> i < es[k])
      && forall k :: 0 < k < |es| && es[k] < |s| ==> s[es[k]] != '.'
  {
    var es := Ends(SEGMENT, s, i);
    var more := Star(Sym(LowerNum));
    CatEnds(Sym(Lower), more, s, i);
    SymEnds(Lower, s, i);
    hide Ends, EndsEach;
    if i < |s| && In(Lower, s[i]) {
      EndsEachOne(more, s, i + 1, i);
      StarDescends(LowerNum, s, i + 1);
      forall k | 0 < k < |es| && es[k] < |s| ensures s[es[k]] != '.' {
        assert es[0] in es;
        EndsAreMatches(SEGMENT, s, i, es[0]);
        SegmentIs(s, i, es[0]);
      }
    } else {
      NoEndsEach(more, s, i);
    }
  }

  lemma DotSegmentEnds(s: string, i: nat)
    requires i <= |s|
    ensures var es := Ends(DOT_SEGMENT, s, i);
      && Descending(es)
      && (forall k :: 0 <= k < |es| ==> i < es[k])
      && (forall k :: 0 < k < |es| && es[k] < |s| ==> s[es[k]] != '.')
      && (es != [] ==> i < |s| && s[i] == '.')
  {
    LitIs(".", s, i);
    assert Ends(Lit("."), s, i) == if Starts(s, i, ".") then [i + 1] else [];
    hide Ends, EndsEach;
    CatEnds(Lit("."), SEGMENT, s, i);
    if Starts(s, i, ".") {
      assert s[i..i + 1][0] == s[i];
      EndsEachOne(SEGMENT, s, i + 1, i);
      SegmentEnds(s, i + 1);
    } else {
      NoEndsEach(SEGMENT, s, i);
    }
  }

  lemma {:induction false} AfterAll(es: seq<nat>, i: nat)
    requires forall k :: 0 <= k < |es| ==> i < es[k]
    ensures After(es, i) == es
  {
    if es != [] {
      AfterAll(es[1..], i);
      assert es == [es[0]] + es[1..];
    }
  }

  /** Where there is no dot, the repetition is empty. */
  lemma NoDotNoMore(s: string, i: nat)
    requires i <= |s| && (i < |s| ==> s[i] != '.')
    ensures Ends(Star(DOT_SEGMENT), s, i) == [i] && Ends(DOT_SEGMENT, s, i) == []
  {
    hide Ends, EndsEach, After, DOT_SEGMENT;
    DotSegmentEnds(s, i);
    StarEnds(DOT_SEGMENT, s, i);
    if i < |s| {
      AfterNone(i);
      NoEndsEach(Star(DOT_SEGMENT), s, i + 1);
    }
  }

  lemma {:induction false} StarDotsDescend(s: string, i: nat)
    requires i <= |s|
    ensures Descending(Ends(Star(DOT_SEGMENT), s, i))
    decreases |s| - i
  {
    hide Ends, EndsEach, After, DOT_SEGMENT;
    var r, ms := Star(DOT_SEGMENT), Ends(DOT_SEGMENT, s, i);
    DotSegmentEnds(s, i);
    StarEnds(DOT_SEGMENT, s, i);
    AfterAll(ms, i);
    if i < |s| {
      forall q | 0 < q < |ms| ensures Ends(r, s, ms[q]) == [ms[q]] { NoDotNoMore(s, ms[q]); }
      if ms != [] { StarDotsDescend(s, ms[0]); }
      EachDescends(r, s, ms, i + 1);
      DescendingSum(EndsEach(r, s, ms, i + 1), [i], i + 1);
    }
  }

  /** A dotted segment and then `r`, which begins with a dot or is the repetition. */
  lemma DotThenDescends(r: Re, s: string, i: nat)
    requires i <= |s|
    requires forall m :: i <= m <= |s| ==> Descending(Ends(r, s, m))
    requires forall m :: i <= m <= |s| && (m < |s| ==> s[m] != '.') ==> Ends(r, s, m) == [] || Ends(r, s, m) == [m]
    ensures Descending(Ends(Cat(DOT_SEGMENT, r), s, i))
    ensures (i < |s| ==> s[i] != '.') ==> Ends(Cat(DOT_SEGMENT, r), s, i) == []
  {
    hide Ends, EndsEach, DOT_SEGMENT;
    CatEnds(DOT_SEGMENT, r, s, i);
    DotSegmentEnds(s, i);
    EachDescends(r, s, Ends(DOT_SEGMENT, s, i), i);
    NoEndsEach(r, s, i);
  }

  lemma BundleDescends(s: string, i: nat)
    requires i <= |s|
    ensures Descending(Ends(BUNDLE, s, i))
  {
    hide Ends, EndsEach, DOT_SEGMENT, SEGMENT;
    var more := Star(DOT_SEGMENT);
    var two := Cat(DOT_SEGMENT, more);
    var tail := Cat(DOT_SEGMENT, two);
    forall m | i <= m <= |s| ensures Descending(Ends(more, s, m)) { StarDotsDescend(s, m); }
    forall m | i <= m <= |s| && (m < |s| ==> s[m] != '.') ensures Ends(more, s, m) == [m] { NoDotNoMore(s, m); }
    forall m | i <= m <= |s|
      ensures Descending(Ends(two, s, m)) && ((m < |s| ==> s[m] != '.') ==> Ends(two, s, m) == [])
    {
      DotThenDescends(more, s, m);
    }
    forall m | i <= m <= |s|
      ensures Descending(Ends(tail, s, m)) && ((m < |s| ==> s[m] != '.') ==> Ends(tail, s, m) == [])
    {
      DotThenDescends(two, s, m);
    }
    assert BUNDLE == Cat(SEGMENT, tail);
    CatEnds(SEGMENT, tail, s, i);
    SegmentEnds(s, i);
    EachDescends(tail, s, Ends(SEGMENT, s, i), i);
  }

  lemma EdgeEnds(s: string, i: nat)
    requires i <= |s|
    ensures Ends(Edge, s, i) == [] || Ends(Edge, s, i) == [i]
  {
  }

  lemma BundleTops(s: string, i: nat)
    requires i <= |s|
    ensures Tops(Ends(BUNDLE_ID, s, i))
  {
    hide Ends, EndsEach, BUNDLE;
    var closed := Cat(BUNDLE, Edge);
    forall m | i <= m <= |s| ensures Tops(Ends(closed, s, m)) {
      CatEnds(BUNDLE, Edge, s, m);
      BundleDescends(s, m);
      var ms := Ends(BUNDLE, s, m);
      forall q | 0 <= q < |ms| ensures Ends(Edge, s, ms[q]) == [] || Ends(Edge, s, ms[q]) == [ms[q]] { EdgeEnds(s, ms[q]); }
      EachDescends(Edge, s, ms, m);
      DescendingTops(Ends(closed, s, m));
    }
    ThenTops(Edge, closed, s, i);
  }

  // ---------------------------------------------------------------- the table

  lemma AccountTops(s: string, i: nat)
    requires i <= |s|
    ensures Tops(Ends(ACCOUNT_ID, s, i))
  {
    var closed := Cat(Run(Digit, 12), Edge);
    forall m | i <= m <= |s| ensures Tops(Ends(Edge, s, m)) { EdgeEnds(s, m); }
    hide Ends, EndsEach;
    forall m | i <= m <= |s| ensures Tops(Ends(closed, s, m)) { ThenTops(Run(Digit, 12), Edge, s, m); }
    ThenTops(Edge, closed, s, i);
  }

  lemma PatTops(s: string, i: nat)
    requires i <= |s|
    ensures Tops(Ends(GITHUB_PAT, s, i))
  {
    hide Ends, EndsEach;
    var more := Star(Sym(AlNumUnder));
    StarsTop(AlNumUnder, s);
    forall m | i <= m <= |s| ensures Tops(Ends(Cat(Run(AlNumUnder, 22), more), s, m)) {
      ThenTops(Run(AlNumUnder, 22), more, s, m);
    }
    ThenTops(Lit("github_pat_"), Cat(Run(AlNumUnder, 22), more), s, i);
  }

  lemma SlackTops(s: string, i: nat)
    requires i <= |s|
    ensures Tops(Ends(SLACK_TOKEN, s, i))
  {
    hide Ends, EndsEach;
    var plus := Plus(AlNumDash);
    var dashed := Cat(Lit("-"), plus);
    forall m | i <= m <= |s| ensures Tops(Ends(plus, s, m)) { PlusTops(AlNumDash, s, m); }
    forall m | i <= m <= |s| ensures Tops(Ends(dashed, s, m)) { ThenTops(Lit("-"), plus, s, m); }
    forall m | i <= m <= |s| ensures Tops(Ends(Cat(Sym(SlackKind), dashed), s, m)) {
      ThenTops(Sym(SlackKind), dashed, s, m);
    }
    ThenTops(Lit("xox"), Cat(Sym(SlackKind), dashed), s, i);
  }

  lemma LitPlusTops(w: string, cls: Class, s: string, i: nat)
    requires i <= |s|
    ensures Tops(Ends(Cat(Lit(w), Plus(cls)), s, i))
  {
    hide Ends, EndsEach;
    forall m | i <= m <= |s| ensures Tops(Ends(Plus(cls), s, m)) { PlusTops(cls, s, m); }
    ThenTops(Lit(w), Plus(cls), s, i);
  }

  lemma LitRunTops(w: string, cls: Class, n: nat, s: string, i: nat)
    requires i <= |s|
    ensures Tops(Ends(Cat(Lit(w), Run(cls, n)), s, i))
  {
    hide Ends, EndsEach;
    forall m | i <= m <= |s| ensures Tops(Ends(Run(cls, n), s, m)) { OneTops(Run(cls, n), s, m); }
    ThenTops(Lit(w), Run(cls, n), s, i);
  }

  lemma TableTops(p: nat, s: string, i: nat)
    requires p < 8 && i <= |s|
    ensures Tops(Ends(STRUCTURAL[p].re, s, i))
  {
    hide Ends, Tops, Plus;
    if p == 0 { LitPlusTops("arn:aws:", NotSpaceQuote, s, i); }
    else if p == 1 { LitRunTops("AKIA", UpperNum, 16, s, i); }
    else if p == 2 { LitRunTops("ghp_", AlNum, 36, s, i); }
    else if p == 3 { PatTops(s, i); }
    else if p == 4 { SlackTops(s, i); }
    else if p == 5 { LitPlusTops("sk-ant-", AlNumDash, s, i); }
    else if p == 6 { BundleTops(s, i); }
    else { AccountTops(s, i); }
  }

  /** Of the secrets of one kind that begin at i the engine takes the longest, and it takes one if
      there is one. */
  lemma FirstIsLongest(p: nat, s: string, i: nat)
    requires p < 8 && i <= |s|
    ensures var es := Ends(STRUCTURAL[p].re, s, i);
      if es == [] then forall j :: !Secret(p, s, i, j)
      else Secret(p, s, i, es[0]) && forall j :: Secret(p, s, i, j) ==> j <= es[0]
  {
    var re := STRUCTURAL[p].re;
    var es := Ends(re, s, i);
    TableTops(p, s, i);
    hide Ends, STRUCTURAL, Matches;
    forall j: nat | Secret(p, s, i, j) ensures j in es && j <= es[0] {
      SecretInside(p, s, i, j);
      SecretIs(p, s, i, j);
      EndsAreMatches(re, s, i, j);
    }
    if es != [] {
      assert es[0] in es;
      EndsAreMatches(re, s, i, es[0]);
      SecretIs(p, s, i, es[0]);
    }
  }

  lemma SecretInside(p: nat, s: string, i: nat, j: nat)
    requires Secret(p, s, i, j)
    ensures i < j <= |s| && p < 8
  {
  }

  // ---------------------------------------------------------------- names and terms

  /** Of the allow-listed names at most one begins at i, and the engine finds it. */
  lemma NameIsFound(s: string, i: nat)
    requires i <= |s|
    ensures var es := Ends(ALLOW, s, i);
      if es == [] then forall j :: !NameForm(s, i, j)
      else NameForm(s, i, es[0]) && forall j :: NameForm(s, i, j) ==> j == es[0]
  {
    var es := Ends(ALLOW, s, i);
    hide Ends, ALLOW, Matches, NameForm, Token;
    forall j: nat | NameForm(s, i, j) ensures i < j <= |s| && j in es && Token(s, i, j) {
      assert i < j <= |s| by { NameInside(s, i, j); }
      NameIs(s, i, j);
      EndsAreMatches(ALLOW, s, i, j);
      AllowIsToken(s, i, j);
    }
    if es != [] {
      assert es[0] in es;
      EndsAreMatches(ALLOW, s, i, es[0]);
      NameIs(s, i, es[0]);
      forall j: nat | NameForm(s, i, j) ensures j == es[0] { TokenEnd(s, i, j, es[0]); }
    }
  }

  lemma NameInside(s: string, i: nat, j: nat)
    requires NameForm(s, i, j)
    ensures i < j <= |s|
  {
  }

  function Plainly(c: char): char { if Capital(c) then (c as int + 32) as char else c }

  /** The term stands at i, up to case. */
  predicate TermAt(w: string, s: string, i: nat) {
    i + |w| <= |s| && forall k :: i <= k < i + |w| ==> Plainly(s[k]) == Plainly(w[k - i])
  }

  /** s[i..j] is the first listed term that stands at i. */
  predicate FirstTerm(terms: seq<string>, s: string, i: nat, j: nat) {
    if terms == [] then false
    else if TermAt(terms[0], s, i) then j == i + |terms[0]|
    else FirstTerm(terms[1..], s, i, j)
  }

  lemma TermIs(w: string, s: string, i: nat)
    requires i <= |s|
    ensures Ends(Word(LowWord(w), true), s, i) == if TermAt(w, s, i) then [i + |w|] else []
  {
    var low := LowWord(w);
    assert forall c :: Low(c) == Plainly(c);
    if LiteralAt(low, true, s, i) {
      forall k | i <= k < i + |w| ensures Plainly(s[k]) == Plainly(w[k - i]) {
        assert SameChar(true, low[k - i], s[i + (k - i)]);
      }
    }
    if TermAt(w, s, i) {
      forall k | 0 <= k < |w| ensures SameChar(true, low[k], s[i + k]) {
        assert Plainly(s[i + k]) == Plainly(w[i + k - i]);
      }
    }
  }

  /** Of the deny-listed terms that stand at i the engine takes the one listed first. */
  lemma {:induction false} FirstTermIsFound(terms: seq<string>, s: string, i: nat)
    requires terms != [] && NonEmpty(terms) && i <= |s|
    ensures var es := Ends(DenyRe(terms), s, i);
      if es == [] then forall j :: !FirstTerm(terms, s, i, j)
      else i < es[0] && forall j: nat :: FirstTerm(terms, s, i, j) <==> j == es[0]
    decreases |terms|
  {
    var head := Word(LowWord(terms[0]), true);
    TermIs(terms[0], s, i);
    hide Ends;
    if |terms| > 1 {
      AltEnds(head, DenyRe(terms[1..]), s, i);
      FirstTermIsFound(terms[1..], s, i);
    }
  }
}
