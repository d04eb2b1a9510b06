/** The description a draft is published with: the gated text, and the marker that is added after the
    gate. */
module Descriptions {
  import opened Text
  import opened Regexp
  import opened Redaction
  import opened Replacing
  import opened Completeness
  import opened Restoration
  import opened Alignment
  import opened AllowShape
  import opened Idempotence
  import opened Harmlessness
  import opened Gate
  import opened Emit
  import opened Markers

  // ---------------------------------------------------------------- a quiet text between two others

  /** The left part with two different continuations, neither of them with a word first. */
  lemma PrefixSame(q: Re, u: string, x: string, y: string, a: nat, b: nat)
    requires a <= b <= |u| && Opens(x) && Opens(y)
    ensures SameWindow(q, u + x, a, b, u + y, a)
  {
    var s, t := u + x, u + y;
    assert forall k :: 0 <= k < |u| ==> s[k] == u[k] == t[k];
    assert WordAt(s, a) == WordAt(t, a) && WordAt(s, b) == WordAt(t, b);
  }

  lemma HitLeft(q: Re, u: string, x: string, a: nat)
    requires Opens(x) && HitAt(q, u, a)
    ensures HitAt(q, u + x, a)
  {
    var b :| a <= b <= |u| && Matches(q, u, a, b);
    hide Matches;
    assert u + "" == u;
    PrefixSame(q, u, "", x, a, b);
    MoveMatch(q, u, a, b, u + x, a);
  }

  lemma HitEnd(q: Re, s: string, a: nat) returns (b: nat)
    requires HitAt(q, s, a)
    ensures a <= b <= |s| && Matches(q, s, a, b)
  {
    hide Matches;
    b :| a <= b <= |s| && Matches(q, s, a, b);
  }

  lemma MatchIsHit(q: Re, s: string, a: nat, b: nat)
    requires a <= b <= |s| && Matches(q, s, a, b)
    ensures HitAt(q, s, a)
  {
    hide Matches;
  }

  lemma HitMovesRight(q: Re, x: string, v: string, a: nat)
    requires NonWordEnd(x) && a <= |v| && HitAt(q, v, a)
    ensures HitAt(q, x + v, |x| + a)
  {
    hide *;
    var b := HitEnd(q, v, a);
    SuffixPart(q, x, v, a, b);
    MoveMatch(q, v, a, b, x + v, |x| + a);
    MatchIsHit(q, x + v, |x| + a, |x| + b);
  }

  lemma HitMovesLeft(q: Re, x: string, v: string, a: nat)
    requires NonWordEnd(x) && a <= |v| && HitAt(q, x + v, |x| + a)
    ensures HitAt(q, v, a)
  {
    hide *;
    var b := HitEnd(q, x + v, |x| + a);
    SuffixPart(q, x, v, a, b - |x|);
    MoveMatch(q, x + v, |x| + a, b, v, a);
    MatchIsHit(q, v, a, b - |x|);
  }

  lemma HitRight(q: Re, x: string, v: string, a: nat)
    requires NonWordEnd(x)
    ensures a <= |v| ==> (HitAt(q, v, a) <==> HitAt(q, x + v, |x| + a))
  {
    hide *;
    if a <= |v| {
      if HitAt(q, v, a) { HitMovesRight(q, x, v, a); }
      if HitAt(q, x + v, |x| + a) { HitMovesLeft(q, x, v, a); }
    }
  }

  /** The window in the right part, read both ways. */
  lemma SuffixPart(q: Re, x: string, v: string, a: nat, b: nat)
    requires NonWordEnd(x) && a <= b <= |v|
    ensures SameWindow(q, v, a, b, x + v, |x| + a) && SameWindow(q, x + v, |x| + a, |x| + b, v, a)
  {
    var t := x + v;
    assert forall k :: 0 <= k < |v| ==> t[|x| + k] == v[k];
    assert forall k :: |x| <= k < |t| ==> t[k] == v[k - |x|];
    assert forall k :: 0 <= k <= |v| ==> Boundary(v, k) == Boundary(t, |x| + k);
  }

  lemma SepEnds(sep: string)
    requires Quiet(sep)
    ensures sep != "" && NonWordEnd(sep)
    ensures forall u :: NonWordEnd(u + sep) && Opens(sep + u)
  {
    forall u: string ensures NonWordEnd(u + sep) && Opens(sep + u) {
      assert (u + sep)[|u + sep| - 1] == sep[|sep| - 1];
      assert (sep + u)[0] == sep[0];
    }
  }

  /** A match that starts left of a quiet text ends there. */
  lemma LeftStaysLeft(p: nat, u: string, sep: string, v: string, a: nat)
    requires p < 8 && Quiet(sep) && a < |u| && HitAt(STRUCTURAL[p].re, u + sep + v, a)
    ensures HitAt(STRUCTURAL[p].re, u, a)
  {
    hide Matches, Over;
    var q, t := STRUCTURAL[p].re, u + sep + v;
    var b :| a <= b <= |t| && Matches(q, t, a, b);
    assert t[|u|] == sep[0];
    if b > |u| {
      MatchIsOver(q, t, a, b, |u|);
      if p == 0 { ArnOver(sep[0]); } else { OverFacts(p, sep[0]); }
    }
    assert t == u + (sep + v) && u + "" == u && Opens(sep + v);
    PrefixSame(q, u, sep + v, "", a, b);
    MoveMatch(q, t, a, b, u, a);
  }

  /** A quiet text keeps its two sides apart. */
  lemma ClearApart(u: string, sep: string, v: string)
    requires Quiet(sep)
    ensures AllClear(u + sep + v) <==> AllClear(u) && AllClear(v)
  {
    hide Quiet;
    var t, n := u + sep + v, |u| + |sep|;
    SepEnds(sep);
    forall p: nat | p < 8 ensures NoHit(STRUCTURAL[p].re, t) <==> NoHit(STRUCTURAL[p].re, u) && NoHit(STRUCTURAL[p].re, v) {
      HitsApart(p, u, sep, v);
    }
  }

  lemma HitsApart(p: nat, u: string, sep: string, v: string)
    requires p < 8 && Quiet(sep)
    ensures NoHit(STRUCTURAL[p].re, u + sep + v) <==> NoHit(STRUCTURAL[p].re, u) && NoHit(STRUCTURAL[p].re, v)
  {
    assert |STRUCTURAL| == 8;
    hide HitAt, Quiet, STRUCTURAL;
    var q, t, n := STRUCTURAL[p].re, u + sep + v, |u| + |sep|;
    SepEnds(sep);
    assert t == u + (sep + v) && t == (u + sep) + v;
    forall a | 0 <= a <= |u| ensures HitAt(q, u, a) ==> HitAt(q, t, a) {
      if HitAt(q, u, a) { HitLeft(q, u, sep + v, a); }
    }
    forall a | 0 <= a <= |v| ensures HitAt(q, v, a) <==> HitAt(q, t, n + a) { HitRight(q, u + sep, v, a); }
    forall a | 0 <= a <= |t| && HitAt(q, t, a) ensures (a <= |u| && HitAt(q, u, a)) || (a >= n && HitAt(q, v, a - n)) {
      if a < |u| { LeftStaysLeft(p, u, sep, v, a); }
      else if a < n { NoHitInQuiet(p, u, sep, v, a); }
      else { assert n + (a - n) == a; }
    }
  }

  lemma NoHitInQuiet(p: nat, u: string, sep: string, v: string, a: nat)
    requires p < 8 && Quiet(sep) && |u| <= a < |u| + |sep|
    ensures !HitAt(STRUCTURAL[p].re, u + sep + v, a)
  {
    assert |STRUCTURAL| == 8;
    hide Matches, Quiet, STRUCTURAL;
    var q, t := STRUCTURAL[p].re, u + sep + v;
    if HitAt(q, t, a) {
      var b :| a <= b <= |t| && Matches(q, t, a, b);
      QuietHit(p, u, sep, v, a, b);
    }
  }

  // ---------------------------------------------------------------- stashing beside it

  lemma TokensApart(u: string, sep: string, v: string)
    requires Quiet(sep)
    ensures Stashed(u + sep + v) == Stashed(u) + sep + Stashed(v)
  {
    hide Ends, EndsEach, Matches, ALLOW, STRUCTURAL, Over, Sub, Token;
    var t, n := u + sep + v, |u| + |sep|;
    AllowFacts('a');
    SepEnds(sep);
    assert t[|u|] == sep[0];
    forall m | 0 <= m < |u| ensures Ends(ALLOW, t, m) == Ends(ALLOW, u, m) {
      if Over(ALLOW, sep[0]) { AllowOver(sep[0]); }
      assert t == u + (sep + v) && u + "" == u;
      PrefixSame(ALLOW, u, "", sep + v, m, |u|);
      EndsInWindow(ALLOW, u, m, |u|, t, m);
    }
    forall m | |u| <= m < n ensures Ends(ALLOW, t, m) == [] {
      NoEndsNoHit(ALLOW, t, m);
      if HitAt(ALLOW, t, m) {
        var e :| m <= e <= |t| && Matches(ALLOW, t, m, e);
        AllowIsToken(t, m, e);
        assert forall k :: |u| <= k < n ==> t[k] == sep[k - |u|];
        TokenHasDot(t, m, e, n - 1);
      }
    }
    SubSplits(ALLOW, SENTINEL, u, sep, v, t);
    StashIsSub(t);
    StashIsSub(u);
    StashIsSub(v);
  }

  // ---------------------------------------------------------------- the description

  /** What the gate looks at when there is no deny-list. */
  lemma PlainGate(s: string)
    ensures PassesGate(PLAIN, s) <==> AllClear(Stashed(s))
    ensures Clear(PLAIN, Stashed(s)) <==> AllClear(Stashed(s))
  {
    hide Redacted, NoHit, Stashed;
    SafeMeansClear(PLAIN, s);
  }

  const MARK := "\n\n" + MARKER_HEAD

  lemma MarkChars()
    ensures |MARK| == 21 && MARK[0] == '\n' && MARK[20] == '=' && |MARKER_TAIL| == 4 && MARKER_TAIL[0] == ' ' && MARKER_TAIL[3] == '>'
    ensures forall k :: 0 <= k < 21 ==> MARK[k] != '.' && !IsDigit(MARK[k]) && MARK[k] != 'A' && MARK[k] != 'x' && MARK[k] != 'r'
    ensures forall k :: 0 < k < 21 ==> MARK[k] != 'h' && MARK[k] != 'i' && MARK[k] != 'k'
    ensures forall k :: 0 <= k < 4 ==> !IsWord(MARKER_TAIL[k]) && MARKER_TAIL[k] != '.'
  {
  }

  lemma MarksAreQuiet()
    ensures Quiet(MARK) && Quiet(MARKER_TAIL)
  {
    MarkChars();
    hide MARK, MARKER_HEAD, MARKER_TAIL;
  }

  lemma NothingIsClear()
    ensures AllClear(Stashed(""))
  {
    TableIsSolid();
    var i, j := Next(ALLOW, "", 0);
    HarmlessIsClear("");
  }

  lemma FullBodyParts(summary: string, fp: string)
    ensures FullBody(summary, fp) == summary + MARK + (fp + MARKER_TAIL + "")
  {
  }

  /** A published description holds nothing the redactor would find exactly if both the summary and
      the fingerprint pass the gate. */
  lemma DescriptionIsCleanIff(summary: string, fp: string)
    ensures PassesGate(PLAIN, FullBody(summary, fp)) <==> PassesGate(PLAIN, summary) && PassesGate(PLAIN, fp)
  {
    hide *;
    var tail := fp + MARKER_TAIL + "";
    MarksAreQuiet();
    NothingIsClear();
    FullBodyParts(summary, fp);
    TokensApart(summary, MARK, tail);
    ClearApart(Stashed(summary), MARK, Stashed(tail));
    TokensApart(fp, MARKER_TAIL, "");
    ClearApart(Stashed(fp), MARKER_TAIL, Stashed(""));
    PlainGate(summary);
    PlainGate(fp);
    PlainGate(FullBody(summary, fp));
  }
}
