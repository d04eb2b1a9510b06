/** The deny-list pass, which comes after the structural ones: when it leaves the text clear, and which
    terms can undo what the structural passes did. */
module DenyList {
  import opened Text
  import opened Regexp
  import opened Redaction
  import opened Replacing
  import opened Completeness

  const MASK := "<REDACTED>"

  lemma MaskIsFiller()
    ensures Filler(MASK)
  {
  }

  // ---------------------------------------------------------------- a pass that keeps the text clear

  /** From k on, no replaced match that begins with white space or a quote stands right behind
      "arn:aws:", and no word runs on into a replaced match or out of it. */
  ghost predicate Gentle(q: Re, s: string, k: nat)
    requires !Nullable(q) && k <= |s|
    decreases |s| - k
  {
    var i := Find(q, s, k);
    i <= |s| ==>
      (FirstEnd(q, s, i);
       var j := Ends(q, s, i)[0];
       var u, m, v := s[k..i], s[i..j], s[j..];
       ArnApart(u, m) && WordsApart(u, m, v) && Gentle(q, s, j))
  }

  predicate Edged(x: string) { x == "" || EdgeChar(x[|x| - 1]) }

  /** What stands before makes no difference if it ends like a filler. */
  lemma ApartBehind(x: string, g: string, m: string, v: string)
    requires Edged(x) && m != [] && ArnApart(g, m) && WordsApart(g, m, v)
    ensures ArnApart(x + g, m) && WordsApart(x + g, m, v)
  {
    var u := x + g;
    LastOfSum(x, g);
    if |u| >= 8 && LiteralAt("arn:aws:", false, u, |u| - 8) {
      if |g| < 8 && x != "" {
        assert u[|x| - 1] == x[|x| - 1];
        ArnLiteralChar(u, |u| - 8, |x| - 1);
      }
      assert |g| >= 8;
      var w := "arn:aws:";
      forall k | 0 <= k < |w| ensures SameChar(false, w[k], g[|g| - 8 + k]) {
        assert SameChar(false, w[k], u[|u| - 8 + k]);
      }
    }
  }

  lemma GentleNext(q: Re, s: string, k: nat, i: nat, j: nat)
    requires !Nullable(q) && k <= i < j <= |s| && NextIs(q, s, k, i, j) && Gentle(q, s, k)
    ensures ArnApart(s[k..i], s[i..j]) && WordsApart(s[k..i], s[i..j], s[j..]) && Gentle(q, s, j)
  {
    hide Ends, Find, ArnApart, WordsApart;
  }

  lemma {:induction false} GentleKeepsClear(q: Re, s: string, k: nat, x: string)
    requires !Nullable(q) && k <= |s| && Gentle(q, s, k) && Edged(x) && AllClear(x + s[k..])
    ensures AllClear(x + Sub(q, MASK, s, k))
    decreases |s| - k
  {
    hide *;
    var i, j := Next(q, s, k);
    SubNext(q, MASK, s, k, i, j);
    if i <= |s| {
      var g, m, v := s[k..i], s[i..j], s[j..];
      GentleNext(q, s, k, i, j);
      ApartBehind(x, g, m, v);
      SplitAtMatch(s, k, i, j);
      assert x + s[k..] == (x + g) + m + v;
      MaskIsFiller();
      SpliceClear(x + g, m, MASK, v);
      EdgedMask(x + g);
      GentleKeepsClear(q, s, j, x + g + MASK);
      assert (x + g + MASK) + Sub(q, MASK, s, j) == x + (g + MASK + Sub(q, MASK, s, j));
    }
  }

  lemma EdgedMask(u: string)
    ensures Edged(u + MASK)
  {
  }

  lemma SpliceClear(u: string, m: string, f: string, v: string)
    requires Filler(f) && m != [] && ArnApart(u, m) && WordsApart(u, m, v) && AllClear(u + m + v)
    ensures AllClear(u + f + v)
  {
    hide HitAt, ArnApart, WordsApart, Filler;
    forall p, a | 0 <= p < 8 && 0 <= a <= |u + f + v| ensures !HitAt(STRUCTURAL[p].re, u + f + v, a) {
      if HitAt(STRUCTURAL[p].re, u + f + v, a) { SpliceUnclear(p, u, m, f, v, a); }
    }
  }

  lemma SpliceUnclear(p: nat, u: string, m: string, f: string, v: string, a: nat)
    requires p < 8 && Filler(f) && m != [] && ArnApart(u, m) && WordsApart(u, m, v)
    requires a <= |u + f + v| && HitAt(STRUCTURAL[p].re, u + f + v, a)
    ensures !AllClear(u + m + v)
  {
    hide Matches;
    Splice(p, u, m, f, v, a);
  }

  /** After the deny-list pass no structural pattern matches anywhere, for every deny-list and text, if
      the pass is gentle. */
  lemma GentlePassIsComplete(r: Redactor, text: string)
    requires r.Valid() && r.deny.Some? && Solid(STRUCTURAL)
    requires Gentle(r.deny.value, Passes(STRUCTURAL, Work(text, [])).out, 0)
    ensures AllClear(DenyPass(r.deny, Passes(STRUCTURAL, Work(text, []))).out)
  {
    var w := Passes(STRUCTURAL, Work(text, []));
    hide Passes, Gentle;
    StructuralPassesAreComplete(text);
    assert "" + w.out[0..] == w.out;
    GentleKeepsClear(r.deny.value, w.out, 0, "");
    assert "" + DenyPass(r.deny, w).out == DenyPass(r.deny, w).out;
  }

  // ---------------------------------------------------------------- terms that are always gentle

  /** Begins with a character that is no part of a word, no white space and no quote, and ends in one
      that is no part of a word. */
  predicate GentleTerm(w: string)
    requires w != ""
  {
    !IsWord(w[0]) && !IsStop(w[0]) && !IsWord(w[|w| - 1])
  }

  lemma SameCharKind(want: char, c: char)
    requires SameChar(true, Low(want), c)
    ensures IsWord(c) == IsWord(want) && IsStop(c) == IsStop(want) && IsDigit(c) == IsDigit(want) && Low(c) == Low(want)
  {
  }

  /** What a deny-list matches is one of its terms, up to case. */
  lemma {:induction false} TermMatch(terms: seq<string>, s: string, i: nat, j: nat) returns (n: nat)
    requires terms != [] && NonEmpty(terms) && i <= j <= |s| && Matches(DenyRe(terms), s, i, j)
    ensures n < |terms| && j == i + |terms[n]| && forall k :: 0 <= k < |terms[n]| ==> SameChar(true, Low(terms[n][k]), s[i + k])
    decreases |terms|
  {
    var head := LowWord(terms[0]);
    if Matches(Word(head, true), s, i, j) {
      n := 0;
      forall k | 0 <= k < |terms[0]| ensures SameChar(true, Low(terms[0][k]), s[i + k]) {
        assert SameChar(true, head[k], s[i + k]);
      }
    } else {
      var m := TermMatch(terms[1..], s, i, j);
      n := m + 1;
    }
  }

  lemma GentleMatch(t: string, m: string)
    requires t != "" && GentleTerm(t) && |m| == |t| && forall k :: 0 <= k < |t| ==> SameChar(true, Low(t[k]), m[k])
    ensures m != "" && !IsWord(m[0]) && !IsStop(m[0]) && !IsWord(m[|m| - 1])
  {
    SameCharKind(t[0], m[0]);
    SameCharKind(t[|t| - 1], m[|t| - 1]);
  }

  lemma {:induction false} GentleTermsAreGentle(terms: seq<string>, s: string, k: nat)
    requires terms != [] && NonEmpty(terms) && k <= |s| && forall n :: 0 <= n < |terms| ==> GentleTerm(terms[n])
    ensures Gentle(DenyRe(terms), s, k)
    decreases |s| - k
  {
    var q := DenyRe(terms);
    hide Ends, EndsEach, Matches, DenyRe;
    var i, j := Next(q, s, k);
    if i <= |s| {
      var n := TermMatch(terms, s, i, j);
      GentleMatch(terms[n], s[i..j]);
      GentleTermsAreGentle(terms, s, j);
    }
  }

  /** Terms with such ends never undo a structural pass, whatever the text. */
  lemma GentleTermsKeepClear(terms: seq<string>, s: string)
    requires terms != [] && NonEmpty(terms) && forall n :: 0 <= n < |terms| ==> GentleTerm(terms[n])
    requires AllClear(s)
    ensures AllClear(Sub(DenyRe(terms), MASK, s, 0))
  {
    hide Gentle, DenyRe, Sub, AllClear, GentleTerm, MASK;
    GentleTermsAreGentle(terms, s, 0);
    var q := DenyRe(terms);
    assert "" + s[0..] == s && "" + Sub(q, MASK, s, 0) == Sub(q, MASK, s, 0);
    GentleKeepsClear(q, s, 0, "");
  }
}
