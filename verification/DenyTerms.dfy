/** Which single terms of a deny-list can undo a structural pass: exactly those with a word at one end,
    or white space or a quote at the front, that a clear text can hold at all. */
module DenyTerms {
  import opened Text
  import opened Regexp
  import opened Redaction
  import opened Replacing
  import opened Completeness
  import opened Restoration
  import opened AllowShape
  import opened Harmlessness
  import opened Uncovered
  import opened DenyList

  /** With words on both sides of it, the term holds no account number, so a clear text can hold it. */
  ghost predicate Usable(w: string) { NoHit(ACCOUNT_ID, "_" + w + "_") }

  // ---------------------------------------------------------------- a spelling no pattern matches

  function Up(c: char): char {
    if IsLower(c) then (c as int - 32) as char else c
  }

  function DisguiseAt(w: string, k: nat): char
    requires k < |w|
  {
    if Low(w[k]) == 'k' && k > 0 && Low(w[k - 1]) == 'a' then 'k' else Up(w[k])
  }

  /** Upper case, but for a k behind an A. */
  function Disguise(w: string): (d: string)
    ensures |d| == |w| && forall k :: 0 <= k < |w| ==> d[k] == DisguiseAt(w, k)
  {
    seq(|w|, k requires 0 <= k < |w| => DisguiseAt(w, k))
  }

  lemma DisguiseChar(w: string, k: nat)
    requires k < |w|
    ensures var c := DisguiseAt(w, k);
      && Low(c) == Low(w[k]) && SameChar(true, Low(w[k]), c)
      && IsWord(c) == IsWord(w[k]) && IsStop(c) == IsStop(w[k]) && IsDigit(c) == IsDigit(w[k])
      && (IsLower(c) ==> c == 'k' && k > 0 && DisguiseAt(w, k - 1) == 'A')
      && (c == 'K' ==> k == 0 || DisguiseAt(w, k - 1) != 'A')
  {
  }

  predicate OpenArn(t: string) { |t| > 8 && t[..8] == "arn:aws:" && IsStop(t[8]) }

  /** Lower case only in a k behind an A, or in the beginning of an ARN that is none. */
  predicate Camouflaged(t: string) {
    && (forall k :: 0 <= k < |t| && IsLower(t[k]) ==> (t[k] == 'k' && k > 0 && t[k - 1] == 'A') || (OpenArn(t) && k < 8))
    && (forall k :: 0 < k < |t| && t[k] == 'K' ==> t[k - 1] != 'A')
  }

  lemma OpenArnChars(t: string)
    requires OpenArn(t)
    ensures t[0] == 'a' && t[1] == 'r' && t[2] == 'n' && t[3] == ':' && t[4] == 'a' && t[5] == 'w' && t[6] == 's' && t[7] == ':'
  {
    var h := t[..8];
    assert forall k :: 0 <= k < 8 ==> t[k] == h[k];
  }

  lemma CamouflagedHit(p: nat, t: string, i: nat, j: nat)
    requires p < 7 && i <= j <= |t| && Matches(STRUCTURAL[p].re, t, i, j)
    ensures !Camouflaged(t)
  {
    hide Matches, First, Over;
    if OpenArn(t) { OpenArnChars(t); }
    if p == 0 {
      ArnFirstTwo(t, i, j);
      ArnMatch(t, i, j);
    } else if p < 6 {
      TokenFirstTwo(p, t, i, j);
    } else {
      CamouflagedBundle(t, i, j);
    }
  }

  lemma CamouflagedBundle(t: string, i: nat, j: nat)
    requires i <= j <= |t| && Matches(BUNDLE_ID, t, i, j)
    ensures !Camouflaged(t)
  {
    hide Matches, First, Over, BUNDLE_ID;
    assert STRUCTURAL[6].re == BUNDLE_ID;
    BundleHasDots(t, i, j);
    MatchFacts(BUNDLE_ID, t, i, j);
    MatchFirst(BUNDLE_ID, t, i, j);
    BundleFacts(t[i]);
    TableFacts(6);
    if OpenArn(t) && i < 8 {
      OpenArnChars(t);
      var c := if i < 4 then 3 else 7;
      MatchIsOver(BUNDLE_ID, t, i, j, c);
      BundleFacts(t[c]);
    }
  }

  lemma CamouflagedIsClear(t: string)
    requires Camouflaged(t) && NoHit(ACCOUNT_ID, t)
    ensures AllClear(t)
  {
    hide Matches, Camouflaged;
    forall p, i | 0 <= p < 8 && 0 <= i <= |t| ensures !HitAt(STRUCTURAL[p].re, t, i) {
      if HitAt(STRUCTURAL[p].re, t, i) {
        var j :| i <= j <= |t| && Matches(STRUCTURAL[p].re, t, i, j);
        if p < 7 { CamouflagedHit(p, t, i, j); }
      }
    }
  }

  // ---------------------------------------------------------------- account numbers in it

  lemma AccountHit(t: string, a: nat)
    requires a <= |t|
    ensures HitAt(ACCOUNT_ID, t, a) <==>
      && a + 12 <= |t| && (forall k :: a <= k < a + 12 ==> IsDigit(t[k]))
      && (a > 0 ==> !IsWord(t[a - 1])) && (a + 12 < |t| ==> !IsWord(t[a + 12]))
  {
    if HitAt(ACCOUNT_ID, t, a) {
      var b :| a <= b <= |t| && Matches(ACCOUNT_ID, t, a, b);
      AccountMatch(t, a, b);
      assert STRUCTURAL[7].re == ACCOUNT_ID;
      TableFacts(7);
      MatchFacts(ACCOUNT_ID, t, a, b);
    }
    if a + 12 <= |t| && (forall k :: a <= k < a + 12 ==> IsDigit(t[k]))
      && (a > 0 ==> !IsWord(t[a - 1])) && (a + 12 < |t| ==> !IsWord(t[a + 12]))
    {
      AccountStands(t, a);
    }
  }

  lemma AccountStands(t: string, a: nat)
    requires a + 12 <= |t| && (forall k :: a <= k < a + 12 ==> IsDigit(t[k]))
    requires (a > 0 ==> !IsWord(t[a - 1])) && (a + 12 < |t| ==> !IsWord(t[a + 12]))
    ensures HitAt(ACCOUNT_ID, t, a)
  {
    assert RunAt(Digit, 12, t, a);
    BoundedMatches(Run(Digit, 12), t, a, a + 12);
  }

  /** u + d + v spells the term between words or other ends. */
  ghost predicate Spells(w: string, d: string, u: string, t: string) {
    |d| == |w| && |u| + |w| <= |t|
    && (forall k :: 0 <= k < |w| ==> t[|u| + k] == d[k] && IsWord(d[k]) == IsWord(w[k]) && IsDigit(d[k]) == IsDigit(w[k]))
  }

  lemma SpellsLength(w: string, d: string, u: string, t: string)
    requires Spells(w, d, u, t)
    ensures |u| + |w| <= |t|
  {
  }

  lemma SpelledChar(w: string, d: string, u: string, t: string, k: nat)
    requires Spells(w, d, u, t) && 0 < k <= |w|
    ensures var c, x := t[|u| + k - 1], ("_" + w + "_")[k]; IsWord(x) == IsWord(c) && IsDigit(x) == IsDigit(c)
  {
    assert t[|u| + (k - 1)] == d[k - 1];
    assert ("_" + w + "_")[k] == w[k - 1];
  }

  /** An account number inside the spelled term is one inside the term. */
  lemma InsideHit(w: string, d: string, u: string, t: string, a: nat)
    requires Spells(w, d, u, t) && |u| < a && a + 12 < |u| + |w| && HitAt(ACCOUNT_ID, t, a)
    ensures !Usable(w)
  {
    hide HitAt, Spells, IsWord, IsDigit;
    assert |u| + |w| <= |t| by { SpellsLength(w, d, u, t); }
    AccountHit(t, a);
    var x, b := "_" + w + "_", a - |u| + 1;
    forall k | b <= k < b + 12 ensures IsDigit(x[k]) { SpelledChar(w, d, u, t, k); }
    SpelledChar(w, d, u, t, b - 1);
    SpelledChar(w, d, u, t, b + 12);
    AccountHit(x, b);
    assert !NoHit(ACCOUNT_ID, x);
  }

  lemma DisguiseSpells(w: string, u: string, v: string)
    ensures Spells(w, Disguise(w), u, u + Disguise(w) + v)
  {
    var d, t := Disguise(w), u + Disguise(w) + v;
    forall k | 0 <= k < |w|
      ensures t[|u| + k] == d[k] && IsWord(d[k]) == IsWord(w[k]) && IsDigit(d[k]) == IsDigit(w[k])
    {
      DisguiseChar(w, k);
    }
  }

  /** Twelve digits that the term does not begin with. */
  function Twelve(w: string): (ds: string)
    requires w != ""
    ensures |ds| == 12 && forall k :: 0 <= k < 12 ==> IsDigit(ds[k]) && ds[k] != Low(w[0])
  {
    if w[0] == '1' then "222222222222" else "111111111111"
  }

  // ---------------------------------------------------------------- the texts

  /** The text a term undoes: an account number on its left, an ARN cut short, or an account number on
      its right. */
  function Undone(w: string): string
    requires w != ""
  {
    if IsWord(w[0]) then Twelve(w) + Disguise(w) + "_"
    else if IsStop(w[0]) then "arn:aws:" + Disguise(w) + "_"
    else "" + Disguise(w) + Twelve(w)
  }

  /** Lower case only in a k behind an A, and no AK. */
  predicate Veiled(d: string) {
    && (forall k :: 0 <= k < |d| && IsLower(d[k]) ==> d[k] == 'k' && k > 0 && d[k - 1] == 'A')
    && (forall k :: 0 < k < |d| && d[k] == 'K' ==> d[k - 1] != 'A')
  }

  lemma DisguiseVeils(w: string)
    ensures Veiled(Disguise(w))
  {
    var d := Disguise(w);
    forall k | 0 <= k < |d|
      ensures IsLower(d[k]) ==> d[k] == 'k' && k > 0 && d[k - 1] == 'A'
      ensures d[k] == 'K' ==> k == 0 || d[k - 1] != 'A'
    {
      DisguiseChar(w, k);
    }
  }

  lemma SumChar(u: string, d: string, v: string, k: nat)
    requires k < |u + d + v|
    ensures var t, n := u + d + v, |u|;
      t[k] == if k < n then u[k] else if k < n + |d| then d[k - n] else v[k - n - |d|]
  {
  }

  lemma PlainEdges(u: string, w: string, v: string)
    requires w != ""
    requires forall k :: 0 <= k < |u| ==> !IsLower(u[k]) && u[k] != 'A'
    requires forall k :: 0 <= k < |v| ==> !IsLower(v[k]) && v[k] != 'K'
    ensures Camouflaged(u + Disguise(w) + v)
  {
    var d, n := Disguise(w), |u|;
    var t := u + d + v;
    DisguiseVeils(w);
    hide Disguise, IsLower;
    forall k | 0 <= k < |t|
      ensures IsLower(t[k]) ==> t[k] == 'k' && k > 0 && t[k - 1] == 'A'
      ensures t[k] == 'K' ==> k == 0 || t[k - 1] != 'A'
    {
      SumChar(u, d, v, k);
      if k > 0 { SumChar(u, d, v, k - 1); }
    }
  }

  lemma ArnBefore(u: string, d: string, v: string)
    requires |u| == 8 && OpenArn(u + d + v) && Veiled(d)
    requires forall k :: 0 <= k < 8 ==> u[k] != 'K' && u[k] != 'A'
    requires forall k :: 0 <= k < |v| ==> !IsLower(v[k]) && v[k] != 'K'
    ensures Camouflaged(u + d + v)
  {
    hide IsLower, OpenArn;
    var t := u + d + v;
    forall k | 0 <= k < |t|
      ensures IsLower(t[k]) ==> k < 8 || (t[k] == 'k' && k > 0 && t[k - 1] == 'A')
      ensures t[k] == 'K' ==> k == 0 || t[k - 1] != 'A'
    {
      SumChar(u, d, v, k);
      if k > 0 { SumChar(u, d, v, k - 1); }
    }
  }

  lemma ArnEdges(w: string)
    requires w != "" && IsStop(w[0])
    ensures Camouflaged("arn:aws:" + Disguise(w) + "_")
  {
    var u, d := "arn:aws:", Disguise(w);
    var t := u + d + "_";
    DisguiseVeils(w);
    DisguiseChar(w, 0);
    assert t[..8] == u && t[8] == d[0];
    assert forall k :: 0 <= k < 8 ==> u[k] != 'K' && u[k] != 'A';
    ArnBefore(u, d, "_");
  }

  /** A text around the term in which an account number could only lie inside the term. */
  lemma NoAccount(w: string, u: string, v: string)
    requires w != "" && Usable(w)
    requires var t := u + Disguise(w) + v;
      forall a :: 0 <= a <= |t| && HitAt(ACCOUNT_ID, t, a) ==> |u| < a && a + 12 < |u| + |w|
    ensures NoHit(ACCOUNT_ID, u + Disguise(w) + v)
  {
    hide HitAt, Spells, Usable;
    var t := u + Disguise(w) + v;
    DisguiseSpells(w, u, v);
    forall a | 0 <= a <= |t| ensures !HitAt(ACCOUNT_ID, t, a) {
      if HitAt(ACCOUNT_ID, t, a) { InsideHit(w, Disguise(w), u, t, a); }
    }
  }

  lemma LeftText(w: string)
    requires w != "" && IsWord(w[0]) && Usable(w)
    ensures AllClear(Twelve(w) + Disguise(w) + "_")
  {
    var u, d := Twelve(w), Disguise(w);
    var t := u + d + "_";
    PlainEdges(u, w, "_");
    DisguiseChar(w, 0);
    assert forall k :: 0 <= k < 12 ==> t[k] == u[k];
    assert t[12] == d[0] && t[12 + |w|] == '_';
    forall a | 0 <= a <= |t| && HitAt(ACCOUNT_ID, t, a) ensures 12 < a && a + 12 < 12 + |w| {
      AccountHit(t, a);
      assert a == 0 || a > 12;
      assert a + 12 <= 12 + |w|;
    }
    NoAccount(w, u, "_");
    CamouflagedIsClear(t);
  }

  lemma StopText(w: string)
    requires w != "" && IsStop(w[0]) && Usable(w)
    ensures AllClear("arn:aws:" + Disguise(w) + "_")
  {
    var u, d := "arn:aws:", Disguise(w);
    var t := u + d + "_";
    ArnEdges(w);
    DisguiseChar(w, 0);
    assert forall k :: 0 <= k < 8 ==> t[k] == u[k] && !IsDigit(u[k]);
    assert t[8] == d[0] && t[8 + |w|] == '_';
    forall a | 0 <= a <= |t| && HitAt(ACCOUNT_ID, t, a) ensures 8 < a && a + 12 < 8 + |w| {
      AccountHit(t, a);
      assert IsDigit(t[a]);
      assert a + 12 <= 8 + |w|;
    }
    NoAccount(w, u, "_");
    CamouflagedIsClear(t);
  }

  lemma RightText(w: string)
    requires w != "" && !IsWord(w[0]) && IsWord(w[|w| - 1]) && Usable(w)
    ensures AllClear("" + Disguise(w) + Twelve(w))
  {
    var v, d, n := Twelve(w), Disguise(w), |w|;
    var t := "" + d + v;
    PlainEdges("", w, v);
    DisguiseChar(w, 0);
    DisguiseChar(w, n - 1);
    assert forall k :: n <= k < n + 12 ==> t[k] == v[k - n] && IsWord(t[k]);
    assert t[0] == d[0] && t[n - 1] == d[n - 1];
    forall a | 0 <= a <= |t| && HitAt(ACCOUNT_ID, t, a) ensures 0 < a && a + 12 < n {
      AccountHit(t, a);
      assert IsDigit(t[a]) && a != 0;
      assert a < n;
      assert a + 12 < n;
    }
    NoAccount(w, "", v);
    CamouflagedIsClear(t);
  }

  // ---------------------------------------------------------------- the pass over them

  /** A single term as a pattern. */
  function Term(w: string): Re
    requires w != ""
  {
    DenyRe([w])
  }

  lemma TermEnds(w: string, t: string, i: nat)
    requires w != "" && i <= |t|
    ensures !Nullable(Term(w))
    ensures Ends(Term(w), t, i) == if LiteralAt(LowWord(w), true, t, i) then [i + |w|] else []
  {
    assert Term(w) == Word(LowWord(w), true);
  }

  lemma LiteralBegins(w: string, t: string, m: nat)
    requires w != "" && LiteralAt(LowWord(w), true, t, m)
    ensures Low(t[m]) == Low(w[0])
  {
    assert SameChar(true, LowWord(w)[0], t[m + 0]);
  }

  /** Where the first character cannot be the term's, nothing is replaced. */
  lemma NoTermFrom(w: string, t: string, k: nat, n: nat)
    requires w != "" && k <= n <= |t| && forall m :: k <= m < n ==> Low(t[m]) != Low(w[0])
    ensures forall m :: k <= m < n ==> Ends(Term(w), t, m) == []
  {
    forall m | k <= m < n ensures Ends(Term(w), t, m) == [] {
      TermEnds(w, t, m);
      if LiteralAt(LowWord(w), true, t, m) { LiteralBegins(w, t, m); }
    }
  }

  /** The spelled term is the first thing replaced. */
  lemma TermReplaced(w: string, u: string, v: string)
    requires w != "" && forall k :: 0 <= k < |u| ==> Low(u[k]) != Low(w[0])
    ensures !Nullable(Term(w))
    ensures var t, n := u + Disguise(w) + v, |u| + |w|;
      n <= |t| && Sub(Term(w), MASK, t, 0) == u + MASK + Sub(Term(w), MASK, t, n)
  {
    hide *;
    TermEnds(w, "", 0);
    var d, q := Disguise(w), Term(w);
    TermInPlace(w, u, v);
    NoTermBefore(w, u, d, v);
    FirstReplaced(q, u, d, v);
  }

  lemma NoTermBefore(w: string, u: string, d: string, v: string)
    requires w != "" && forall k :: 0 <= k < |u| ==> Low(u[k]) != Low(w[0])
    ensures forall m :: 0 <= m < |u| ==> Ends(Term(w), u + d + v, m) == []
  {
    var t := u + d + v;
    assert forall k :: 0 <= k < |u| ==> t[k] == u[k];
    NoTermFrom(w, t, 0, |u|);
  }

  lemma FirstReplaced(q: Re, u: string, d: string, v: string)
    requires !Nullable(q) && d != ""
    requires forall m :: 0 <= m < |u| ==> Ends(q, u + d + v, m) == []
    requires Ends(q, u + d + v, |u|) == [|u| + |d|]
    ensures Sub(q, MASK, u + d + v, 0) == u + MASK + Sub(q, MASK, u + d + v, |u| + |d|)
  {
    hide Ends, EndsEach, Sub;
    var t, i := u + d + v, |u|;
    FindSkip(q, t, 0, i);
    assert NextIs(q, t, 0, i, i + |d|);
    SubNext(q, MASK, t, 0, i, i + |d|);
    assert t[0..i] == u;
  }

  lemma TermInPlace(w: string, u: string, v: string)
    requires w != ""
    ensures !Nullable(Term(w)) && Ends(Term(w), u + Disguise(w) + v, |u|) == [|u| + |w|]
  {
    var d, t, i := Disguise(w), u + Disguise(w) + v, |u|;
    TermEnds(w, t, i);
    hide Ends, Term;
    forall k | 0 <= k < |w| ensures SameChar(true, LowWord(w)[k], t[i + k]) {
      DisguiseChar(w, k);
      assert t[i + k] == d[k];
    }
    assert LiteralAt(LowWord(w), true, t, i);
  }

  lemma DigitsStay(w: string, u: string)
    requires w != "" && !IsWord(w[0])
    ensures !Nullable(Term(w))
    ensures Sub(Term(w), MASK, u + Twelve(w), |u|) == Twelve(w)
  {
    var v := Twelve(w);
    var t := u + v;
    TermEnds(w, t, 0);
    assert forall k :: |u| <= k < |t| ==> t[k] == v[k - |u|];
    NoTermFrom(w, t, |u|, |t|);
    hide Term, Twelve, Ends, Sub;
    SubSkip(Term(w), MASK, t, |u|, |t|);
    assert Ends(Term(w), t, |t|) == [] by { TermAtEnd(w, t); }
    var i, j := Next(Term(w), t, |t|);
    SubNext(Term(w), MASK, t, |t|, i, j);
    assert t[|u|..|t|] == v;
  }

  lemma TermAtEnd(w: string, t: string)
    requires w != ""
    ensures Ends(Term(w), t, |t|) == []
  {
    TermEnds(w, t, |t|);
  }

  /** What the pass uncovers. */
  lemma UndoneHit(w: string)
    requires w != "" && !GentleTerm(w)
    ensures !Nullable(Term(w)) && !AllClear(Sub(Term(w), MASK, Undone(w), 0))
  {
    TermEnds(w, "", 0);
    hide Term, Sub, AllClear, Disguise, Twelve;
    if IsWord(w[0]) { LeftUndone(w); } else if IsStop(w[0]) { StopUndone(w); } else { RightUndone(w); }
  }

  lemma LeftUndone(w: string)
    requires w != "" && IsWord(w[0])
    ensures !Nullable(Term(w)) && !AllClear(Sub(Term(w), MASK, Twelve(w) + Disguise(w) + "_", 0))
  {
    TermEnds(w, "", 0);
    var u, t := Twelve(w), Twelve(w) + Disguise(w) + "_";
    assert forall k :: 0 <= k < 12 ==> Low(u[k]) == u[k];
    TermReplaced(w, u, "_");
    hide Term, Sub, AllClear, Disguise, Twelve;
    var rest := Sub(Term(w), MASK, t, 12 + |w|);
    LeftAccount(u, rest);
    HitUnclear7(u + MASK + rest, 0);
  }

  lemma StopUndone(w: string)
    requires w != "" && IsStop(w[0])
    ensures !Nullable(Term(w)) && !AllClear(Sub(Term(w), MASK, "arn:aws:" + Disguise(w) + "_", 0))
  {
    TermEnds(w, "", 0);
    var u, t := "arn:aws:", "arn:aws:" + Disguise(w) + "_";
    assert forall k :: 0 <= k < 8 ==> Low(u[k]) == u[k] && !IsStop(u[k]);
    assert Low(w[0]) == w[0];
    TermReplaced(w, u, "_");
    hide Term, Sub, AllClear, Disguise;
    MaskedArn(Sub(Term(w), MASK, t, 8 + |w|));
  }

  lemma RightUndone(w: string)
    requires w != "" && !IsWord(w[0])
    ensures !Nullable(Term(w)) && !AllClear(Sub(Term(w), MASK, "" + Disguise(w) + Twelve(w), 0))
  {
    TermEnds(w, "", 0);
    hide Term, Sub, AllClear, Disguise, Twelve;
    TermReplaced(w, "", Twelve(w));
    DigitsStay(w, "" + Disguise(w));
    assert "" + MASK + Twelve(w) == MASK + Twelve(w);
    RightAccount(Twelve(w));
    HitUnclear7(MASK + Twelve(w), 10);
  }

  lemma HitUnclear7(s: string, a: nat)
    requires HitAt(ACCOUNT_ID, s, a)
    ensures !AllClear(s)
  {
    assert STRUCTURAL[7].re == ACCOUNT_ID;
  }

  lemma LeftAccount(ds: string, rest: string)
    requires |ds| == 12 && forall k :: 0 <= k < 12 ==> IsDigit(ds[k])
    ensures HitAt(ACCOUNT_ID, ds + MASK + rest, 0)
  {
    var t := ds + MASK + rest;
    assert forall k :: 0 <= k < 12 ==> t[k] == ds[k];
    assert t[12] == '<';
    AccountStands(t, 0);
  }

  lemma RightAccount(ds: string)
    requires |ds| == 12 && forall k :: 0 <= k < 12 ==> IsDigit(ds[k])
    ensures HitAt(ACCOUNT_ID, MASK + ds, 10)
  {
    var t := MASK + ds;
    assert forall k :: 10 <= k < 22 ==> t[k] == ds[k - 10];
    assert t[9] == '>';
    AccountStands(t, 10);
  }

  lemma MaskedArn(rest: string)
    ensures !AllClear("arn:aws:" + MASK + rest)
  {
    var u := "arn:aws:";
    var t := u + MASK + rest;
    assert forall k :: 0 <= k < 8 ==> t[k] == u[k];
    assert t[8] == '<';
    assert LiteralAt(u, false, t, 0);
    ArnMatch(t, 0, 9);
    assert HitAt(ARN, t, 0);
    assert STRUCTURAL[0].re == ARN;
  }

  lemma UndoneIsClear(w: string)
    requires w != "" && !GentleTerm(w) && Usable(w)
    ensures AllClear(Undone(w))
  {
    if IsWord(w[0]) { LeftText(w); } else if IsStop(w[0]) { StopText(w); } else { RightText(w); }
  }

  // ---------------------------------------------------------------- terms no clear text holds

  /** A term with an account number of its own inside matches nowhere in a clear text. */
  lemma UnusableMatchesNowhere(w: string, s: string, i: nat)
    requires w != "" && !Usable(w) && AllClear(s) && i <= |s|
    ensures Ends(Term(w), s, i) == []
  {
    TermEnds(w, s, i);
    if LiteralAt(LowWord(w), true, s, i) {
      var x := "_" + w + "_";
      var a: nat :| a <= |x| && HitAt(ACCOUNT_ID, x, a);
      AccountHit(x, a);
      AccountCarries(w, s, i, a);
      HitUnclear7(s, i + a - 1);
    }
  }

  lemma AccountCarries(w: string, s: string, i: nat, a: nat)
    requires LiteralAt(LowWord(w), true, s, i)
    requires var x := "_" + w + "_";
      && a + 12 <= |x| && (forall k :: a <= k < a + 12 ==> IsDigit(x[k]))
      && (a > 0 ==> !IsWord(x[a - 1])) && (a + 12 < |x| ==> !IsWord(x[a + 12]))
    ensures a > 1 && HitAt(ACCOUNT_ID, s, i + a - 1)
  {
    var x := "_" + w + "_";
    assert x[0] == '_' && x[|w| + 1] == '_';
    assert forall k :: 0 < k <= |w| ==> x[k] == w[k - 1];
    forall k | 0 < k <= |w| ensures IsDigit(s[i + k - 1]) == IsDigit(x[k]) && IsWord(s[i + k - 1]) == IsWord(x[k]) {
      assert SameChar(true, LowWord(w)[k - 1], s[i + (k - 1)]);
      SameCharKind(w[k - 1], s[i + (k - 1)]);
    }
    assert a > 1 && a + 12 <= |w|;
    var b := i + a - 1;
    forall k | b <= k < b + 12 ensures IsDigit(s[k]) { assert IsDigit(x[k - i + 1]); }
    assert !IsWord(s[i + (a - 1) - 1]);
    assert !IsWord(s[i + (a + 12) - 1]);
    AccountStands(s, b);
  }

  lemma UnusableChangesNothing(w: string, s: string)
    requires w != "" && !Usable(w) && AllClear(s)
    ensures !Nullable(Term(w)) && Sub(Term(w), MASK, s, 0) == s
  {
    TermEnds(w, s, 0);
    forall m | 0 <= m <= |s| ensures Ends(Term(w), s, m) == [] { UnusableMatchesNowhere(w, s, m); }
    hide Term, Ends, Sub, AllClear, Usable;
    var i, j := Next(Term(w), s, 0);
    SubNext(Term(w), MASK, s, 0, i, j);
    assert s[0..] == s;
  }

  // ---------------------------------------------------------------- the theorem

  ghost predicate KeepsClear(w: string)
    requires w != ""
  {
    TermEnds(w, "", 0);
    forall s :: AllClear(s) ==> AllClear(Sub(Term(w), MASK, s, 0))
  }

  /** A deny-list of one term never undoes what the structural passes did, whatever the text, exactly if
      the term begins with neither a word, white space nor a quote and does not end in a word, or no
      clear text can hold it. */
  lemma TermKeepsClearIff(w: string)
    requires w != ""
    ensures KeepsClear(w) <==> GentleTerm(w) || !Usable(w)
  {
    TermEnds(w, "", 0);
    hide AllClear, Sub, Term, Usable, Undone;
    if GentleTerm(w) {
      forall s | AllClear(s) ensures AllClear(Sub(Term(w), MASK, s, 0)) { OneGentleTerm(w, s); }
    } else if !Usable(w) {
      forall s | AllClear(s) ensures AllClear(Sub(Term(w), MASK, s, 0)) { UnusableChangesNothing(w, s); }
    } else {
      UndoneIsClear(w);
      UndoneHit(w);
      assert !AllClear(Sub(Term(w), MASK, Undone(w), 0));
    }
  }

  lemma OneGentleTerm(w: string, s: string)
    requires w != "" && GentleTerm(w) && AllClear(s)
    ensures !Nullable(Term(w)) && AllClear(Sub(Term(w), MASK, s, 0))
  {
    hide AllClear, Sub, GentleTerm;
    assert [w][0] == w;
    GentleTermsKeepClear([w], s);
  }

  /** So with any such term in the deny-list redaction can return a secret: here is the text, if the term
      has no dot (with one it might be part of an allow-listed token). */
  lemma DenyListUncovers(w: string)
    requires w != "" && !GentleTerm(w) && Usable(w) && forall k :: 0 <= k < |w| ==> w[k] != '.'
    ensures NonEmpty([w]) && New([w]).Valid()
    ensures !AllClear(Redacted(New([w]), Undone(w)).clean)
  {
    var t := Undone(w);
    UndoneIsClear(w);
    UndoneHit(w);
    UndoneHasNoDot(w);
    hide Undone, GentleTerm, Usable, Sub;
    NoDotNoToken(t);
    DenyRun(w, t);
  }

  lemma UndoneHasNoDot(w: string)
    requires w != "" && forall k :: 0 <= k < |w| ==> w[k] != '.'
    ensures forall k :: 0 <= k < |Undone(w)| ==> Undone(w)[k] != '.'
  {
    forall k | 0 <= k < |w| ensures Disguise(w)[k] != '.' { DisguiseChar(w, k); }
  }

  lemma NoDotNoToken(s: string)
    requires forall k :: 0 <= k < |s| ==> s[k] != '.'
    ensures Tokens(s) == [] && Stashed(s) == s
  {
    hide Matches, ALLOW, Token, Ends, EndsEach, Sub;
    AllowFacts('a');
    var i, j := Next(ALLOW, s, 0);
    if i <= |s| {
      AllowIsToken(s, i, j);
      TokenDotted(s, i, j);
    }
    NoTokensNoChange(ALLOW, s, SENTINEL);
  }

  lemma TokenDotted(s: string, i: nat, j: nat)
    requires Token(s, i, j)
    ensures exists k :: i <= k < j && s[k] == '.'
  {
  }

  /** Redaction of a clear text without tokens is the deny-list pass. */
  lemma DenyRun(w: string, t: string)
    requires w != "" && AllClear(t) && Tokens(t) == [] && Stashed(t) == t
    ensures NonEmpty([w]) && New([w]).Valid() && !Nullable(Term(w))
    ensures Redacted(New([w]), t).clean == Sub(Term(w), MASK, t, 0)
  {
    TermEnds(w, t, 0);
    TableIsSolid();
    assert STRUCTURAL[0..] == STRUCTURAL;
    NoHitNoPass(0, Work(t, []));
  }
}
