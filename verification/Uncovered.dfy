/** Where idempotence ends, with texts that show it: a second run can find what the first one
    uncovered. */
module Uncovered {
  import opened Text
  import opened Regexp
  import opened Redaction
  import opened Replacing
  import opened Completeness
  import opened Restoration
  import opened Alignment
  import opened AllowShape
  import opened Idempotence
  import opened Harmlessness
  import opened Gate
  import opened Descriptions

  // ---------------------------------------------------------------- a second run that finds more

  const KEY_MARK := "<AWS_ACCESS_KEY>"
  const LABEL := "f.example."
  const NAME := "com.example.a"
  const REST := ".b"

  /** An AWS access key. */
  predicate Key(key: string) {
    |key| == 20 && LiteralAt("AKIA", false, key, 0) && RunAt(UpperNum, 16, key, 4)
  }

  function Before(key: string): string { "_" + key + LABEL }

  /** The key keeps `f` from starting a token, so the scan takes com.example.a; with the key gone it
      takes f.example.com, and example.a.b is left. */
  function Covered(key: string): string { Before(key) + NAME + REST }

  lemma KeyChars(key: string, k: nat)
    requires Key(key) && k < 20
    ensures IsUpper(key[k]) || IsDigit(key[k])
  {
    if k < 4 { assert SameChar(false, "AKIA"[k], key[0 + k]); } else { assert In(UpperNum, key[k]); }
  }

  lemma BeforeChars(key: string)
    requires Key(key)
    ensures var g := Before(key);
      && |g| == 31 && g[0] == '_' && g[22] == '.' && g[30] == '.'
      && (forall k :: 1 <= k < 21 ==> IsUpper(g[k]) || IsDigit(g[k]))
      && (forall k :: 21 <= k < 31 && k != 22 && k != 30 ==> IsLower(g[k]))
  {
    forall k | 0 <= k < 20 ensures IsUpper(key[k]) || IsDigit(key[k]) { KeyChars(key, k); }
    var g, l := Before(key), LABEL;
    assert forall k :: 1 <= k < 21 ==> g[k] == key[k - 1];
    assert forall k :: 21 <= k < 31 ==> g[k] == l[k - 21];
    assert forall k :: 0 <= k < 10 && k != 1 && k != 9 ==> IsLower(l[k]);
  }

  /** The match of the access key. */
  lemma KeyIsNext(key: string, w: string)
    requires Key(key)
    ensures NextIs(ACCESS_KEY, "_" + key + w, 0, 1, 21)
  {
    var s := "_" + key + w;
    assert forall k :: 0 <= k < 20 ==> s[k + 1] == key[k];
    forall k | 0 <= k < 4 ensures SameChar(false, "AKIA"[k], s[1 + k]) { assert SameChar(false, "AKIA"[k], key[0 + k]); }
    assert LiteralAt("AKIA", false, s, 1) && RunAt(UpperNum, 16, s, 5);
    CatMatches(ACCESS_KEY, s, 1, 5, 21);
    NoEndsNoHit(ACCESS_KEY, s, 1);
    NoKeyAt(s, 0);
    FirstEnd(ACCESS_KEY, s, 1);
    AccessKeyMatch(s, 1, Ends(ACCESS_KEY, s, 1)[0]);
  }

  lemma NoKeyAt(s: string, k: nat)
    requires k <= |s| && (k + 1 < |s| ==> s[k] != 'A' || s[k + 1] != 'K')
    ensures Ends(ACCESS_KEY, s, k) == []
  {
    NoEndsNoHit(ACCESS_KEY, s, k);
    if HitAt(ACCESS_KEY, s, k) {
      var j :| k <= j <= |s| && Matches(ACCESS_KEY, s, k, j);
      AccessKeyMatch(s, k, j);
    }
  }

  lemma KeyPass(key: string, w: string)
    requires Key(key) && Harmless(w)
    ensures Scrub(1, "_" + key + w) == "_" + KEY_MARK + w
  {
    assert |key| == 20;
    hide Ends, EndsEach, Sub, Matches, Key;
    var s := "_" + key + w;
    TableFacts(1);
    KeyIsNext(key, w);
    SubNext(ACCESS_KEY, KEY_MARK, s, 0, 1, 21);
    assert s[21..] == w && s[0..1] == "_";
    forall m | 21 <= m <= |s| ensures Ends(ACCESS_KEY, s, m) == [] {
      assert m < |s| ==> s[m] == w[m - 21];
      assert m + 1 < |s| ==> s[m + 1] == w[m + 1 - 21];
      NoKeyAt(s, m);
    }
    SubSkip(ACCESS_KEY, KEY_MARK, s, 21, |s|);
    var i, j := Next(ACCESS_KEY, s, |s|);
    SubNext(ACCESS_KEY, KEY_MARK, s, |s|, i, j);
  }

  lemma NoColonNoArn(s: string)
    requires forall k :: 0 <= k < |s| ==> s[k] != ':'
    ensures Scrub(0, s) == s && NoArnReaches(s)
  {
    TableFacts(0);
    var i, j := Next(ARN, s, 0);
    if i <= |s| { ArnMatch(s, i, j); ArnLiteral(s, i, 3); }
    SubNext(ARN, "<ARN>", s, 0, i, j);
    assert s[0..] == s;
    forall a | 0 <= a <= |s| ensures !ReachesFrom(s, a) { if ReachesFrom(s, a) { ArnLiteral(s, a, 3); } }
  }

  lemma BeforeRewritten(key: string)
    requires Key(key)
    ensures NoArnReaches(Before(key))
    ensures Rewrite(0, Before(key)) == "_" + KEY_MARK + LABEL
  {
    BeforeChars(key);
    NoColonNoArn(Before(key));
    hide Key, Scrub;
    assert Harmless(LABEL) && Harmless("_");
    KeyPass(key, LABEL);
    FillersAreFillers();
    assert STRUCTURAL[1].placeholder == KEY_MARK;
    RewriteSplits(2, "_", KEY_MARK, LABEL);
    HarmlessIsClear(LABEL);
    HarmlessIsClear("_");
    ClearRewrite(2, LABEL);
    ClearRewrite(2, "_");
  }

  // the two tokens

  lemma BoundedMatches(r: Re, s: string, i: nat, j: nat)
    requires i <= j <= |s| && Matches(r, s, i, j) && Boundary(s, i) && Boundary(s, j)
    ensures Matches(Bounded(r), s, i, j)
  {
    CatMatches(Cat(r, Edge), s, i, j, j);
    CatMatches(Bounded(r), s, i, i, j);
  }

  lemma NameIsToken()
    ensures Whole(NAME)
  {
    var s := NAME;
    var name := Cat(Sym(Letter), Star(Sym(AlNum)));
    assert LiteralAt("com.example.", true, s, 0);
    CatMatches(name, s, 12, 13, 13);
    CatMatches(COM_EXAMPLE, s, 0, 12, 13);
    BoundedMatches(Alt(COM_EXAMPLE, Alt(EXAMPLE_COM, DOCS)), s, 0, 13);
  }

  const HOST := "f.example.com"

  lemma HostIsToken()
    ensures Whole(HOST)
  {
    var s := HOST;
    var host := Cat(Star(Sym(AlNumDash)), Word(".example.com", true));
    assert LiteralAt(".example.com", true, s, 1);
    StarRun(AlNumDash, s, 1, 1);
    CatMatches(host, s, 1, 1, 13);
    CatMatches(EXAMPLE_COM, s, 0, 1, 13);
    BoundedMatches(Alt(COM_EXAMPLE, Alt(EXAMPLE_COM, DOCS)), s, 0, 13);
  }

  /** A token has at least thirteen characters. */
  lemma ShortHasNoToken(s: string, k: nat)
    requires k <= |s| < k + 13
    ensures !Nullable(ALLOW) && Cut(ALLOW, s, k) == Pieces([s[k..]], [])
  {
    AllowFacts('a');
    var i, j := Next(ALLOW, s, k);
    if i <= |s| { AllowIsToken(s, i, j); }
  }

  /** In the covered text no token starts before com.example.a. */
  lemma NoneBeforeName(key: string, m: nat, e: nat)
    requires Key(key) && m < 31 && m <= e <= |Covered(key)|
    ensures !Token(Covered(key), m, e)
  {
    BeforeChars(key);
    var x, g, t := Covered(key), Before(key), NAME + REST;
    assert forall k :: 0 <= k < 31 ==> x[k] == g[k];
    assert forall k :: 31 <= k < 46 ==> x[k] == t[k - 31];
    assert t[7] != '.' && t[1] != '.';
  }

  lemma CoveredCut(key: string)
    requires Key(key)
    ensures !Nullable(ALLOW) && Cut(ALLOW, Covered(key), 0) == Pieces([Before(key), REST], [NAME])
  {
    var x, g := Covered(key), Before(key);
    AllowFacts('a');
    BeforeChars(key);
    NameIsToken();
    TokenStands(g, NAME, REST);
    forall m | 0 <= m < 31 ensures Ends(ALLOW, x, m) == [] {
      NoEndsNoHit(ALLOW, x, m);
      if HitAt(ALLOW, x, m) {
        var e :| m <= e <= |x| && Matches(ALLOW, x, m, e);
        AllowIsToken(x, m, e);
        NoneBeforeName(key, m, e);
      }
    }
    hide Ends, EndsEach, Matches, ALLOW, Key;
    FindSkip(ALLOW, x, 0, 31);
    ShortHasNoToken(x, 44);
    assert x[0..31] == g && x[31..44] == NAME && x[44..] == REST;
  }

  // the second run

  const UNCOVERED := "_" + KEY_MARK + (HOST + TAIL)

  lemma CoveredNulFree(key: string)
    requires Key(key)
    ensures NulFree(Covered(key))
  {
    BeforeChars(key);
    var x, g, t := Covered(key), Before(key), NAME + REST;
    assert forall k :: 0 <= k < 31 ==> x[k] == g[k];
    assert forall k :: 31 <= k < 46 ==> x[k] == t[k - 31];
  }

  lemma RewrittenGaps(key: string)
    requires Key(key)
    ensures RewriteAll([Before(key), REST]) == ["_" + KEY_MARK + LABEL, REST]
  {
    BeforeRewritten(key);
    HarmlessIsClear(REST);
    ClearRewrite(0, REST);
    hide Rewrite, Key, Before, STRUCTURAL;
    RewriteBoth(Before(key), REST);
  }

  lemma RewriteBoth(g: string, h: string)
    ensures RewriteAll([g, h]) == [Rewrite(0, g), Rewrite(0, h)]
  {
    hide Rewrite;
    assert [g, h][1..] == [h] && [h][1..] == [];
    assert RewriteAll([h]) == [Rewrite(0, h)];
  }

  lemma WovenAgain()
    ensures Weave(["_" + KEY_MARK + LABEL, REST], [NAME]) == UNCOVERED
  {
    var a := "_" + KEY_MARK + LABEL;
    assert [a, REST][1..] == [REST] && [NAME][1..] == [];
    assert Weave([REST], []) == REST;
    assert LABEL + NAME + REST == HOST + TAIL;
    assert a + NAME + REST == "_" + KEY_MARK + (LABEL + NAME + REST);
  }

  lemma CoveredRedacted(key: string)
    requires Key(key)
    ensures Redacted(PLAIN, Covered(key)).clean == UNCOVERED
  {
    CoveredNulFree(key);
    CoveredCut(key);
    BeforeRewritten(key);
    RewrittenGaps(key);
    WovenAgain();
    hide Key, Redacted, Rewrite, RewriteAll, Weave, ALLOW, Covered, Before;
    AlignedIffNoArnReaches(Covered(key));
  }

  const TAIL := ".example.a.b"

  lemma TailChars(u: string)
    ensures var s, n := u + TAIL, |u|;
      && |s| == n + 12 && s[n] == s[n + 8] == s[n + 10] == '.'
      && (forall k :: n + 1 <= k < n + 12 && k != n + 8 && k != n + 10 ==> IsLower(s[k]))
      && Boundary(s, n + 1) && Boundary(s, n + 12)
  {
    var s, n := u + TAIL, |u|;
    assert forall k :: 0 <= k < 12 ==> s[n + k] == TAIL[k];
    assert forall k :: 1 <= k < 12 && k != 8 && k != 10 ==> IsLower(TAIL[k]);
    assert forall k :: n <= k < n + 12 ==> s[k] == TAIL[k - n];
  }

  lemma BundleUncovered(u: string)
    ensures HitAt(BUNDLE_ID, u + TAIL, |u| + 1)
  {
    var s, n := u + TAIL, |u|;
    TailChars(u);
    hide TAIL, IsLower, SEGMENT, Boundary;
    var more := Cat(DOT_SEGMENT, Star(DOT_SEGMENT));
    SegmentAt(s, n + 1, n + 8);
    DotSegmentAt(s, n + 8, n + 10);
    DotSegmentAt(s, n + 10, n + 12);
    NoneMore(DOT_SEGMENT, s, n + 12);
    hide DOT_SEGMENT, Matches;
    CatMatches(more, s, n + 10, n + 12, n + 12);
    CatMatches(Cat(DOT_SEGMENT, more), s, n + 8, n + 10, n + 12);
    CatMatches(BUNDLE, s, n + 1, n + 8, n + 12);
    BoundedMatches(BUNDLE, s, n + 1, n + 12);
  }

  lemma NoneMore(r: Re, s: string, i: nat)
    requires i <= |s|
    ensures Matches(Star(r), s, i, i)
  {
  }

  lemma DotSegmentAt(s: string, i: nat, j: nat)
    requires i + 1 < j <= |s| && s[i] == '.' && forall k :: i < k < j ==> IsLower(s[k])
    ensures Matches(DOT_SEGMENT, s, i, j)
  {
    SegmentAt(s, i + 1, j);
    hide SEGMENT;
    CatMatches(DOT_SEGMENT, s, i, i + 1, j);
  }

  lemma SegmentAt(s: string, i: nat, j: nat)
    requires i < j <= |s| && forall k :: i <= k < j ==> IsLower(s[k])
    ensures Matches(SEGMENT, s, i, j)
  {
    StarRun(LowerNum, s, i + 1, j);
    CatMatches(SEGMENT, s, i, i + 1, j);
  }

  /** Behind a gap that no token reaches out of, the host name is taken and the bundle identifier
      is left. */
  lemma UncoveredStash(u: string)
    requires Shut(u)
    ensures !Nullable(ALLOW)
    ensures Stashed(u + (HOST + TAIL)) == Sub(ALLOW, SENTINEL, u, 0) + SENTINEL + TAIL
  {
    var v := TAIL;
    HostIsToken();
    ShutParts(u, HOST + v);
    assert u + (HOST + v) == u + HOST + v;
    StashSplits(u, HOST, v);
    ShortHasNoToken(v, 0);
    assert v[0..] == v;
  }

  lemma StashedHit(u: string)
    requires Shut(u)
    ensures !AllClear(Stashed(u + (HOST + TAIL)))
  {
    hide ALLOW, TAIL, BUNDLE_ID, HOST, Sub, Stashed;
    UncoveredStash(u);
    BundleUncovered(Sub(ALLOW, SENTINEL, u, 0) + SENTINEL);
    assert STRUCTURAL[6].re == BUNDLE_ID;
  }

  /** What the second run makes of such a text. */
  lemma SecondRunFinds(u: string)
    requires Shut(u) && NulFree(u)
    ensures var once := u + (HOST + TAIL);
      Redacted(PLAIN, once).clean != once && !VerdictOf(Redacted(PLAIN, once).hits).safe
  {
    var once := u + (HOST + TAIL);
    assert NulFree(once);
    StashedHit(u);
    hide Redacted, ALLOW, STRUCTURAL, AllClear, HOST, TAIL;
    PlainGate(once);
    SafeMeansClear(PLAIN, once);
    NoHitsIffUnchanged(once);
  }

  /** Redaction is not idempotent: for each access key there is a text that, once redacted, the
      redactor finds something in and changes again, and that the gate refuses. */
  lemma NotIdempotent(key: string)
    requires Key(key)
    ensures NulFree(Covered(key))
    ensures var once := Redacted(PLAIN, Covered(key)).clean;
      Redacted(PLAIN, once).clean != once && !VerdictOf(Redacted(PLAIN, once).hits).safe
  {
    CoveredNulFree(key);
    CoveredRedacted(key);
    SecondRunFinds("_" + KEY_MARK);
  }
}
