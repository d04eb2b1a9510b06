/** The form of the allow-listed tokens: where their dots are, that a token's end is determined by
    its start, and that no token lies strictly inside another. */
module AllowShape {
  import opened Regexp
  import opened Redaction
  import opened Completeness

  predicate Dot(s: string, k: nat)
    requires k < |s|
  {
    s[k] == '.'
  }

  /** com.example.<name> */
  predicate ComShape(s: string, i: nat, j: nat) {
    i + 13 <= j <= |s| && Dot(s, i + 3) && Dot(s, i + 11)
    && forall k :: i <= k < j && k != i + 3 && k != i + 11 ==> IsAlNum(s[k])
  }

  /** <name>.example.com, its first dot at d */
  predicate HostShape(s: string, i: nat, d: nat, j: nat) {
    i < d && j == d + 12 <= |s| && Dot(s, d) && Dot(s, d + 8)
    && (forall k :: i <= k < d ==> IsAlNum(s[k]) || s[k] == '-')
    && (forall k :: d < k < j && k != d + 8 ==> IsAlNum(s[k]))
  }

  /** developer.apple.com */
  predicate AppleShape(s: string, i: nat, j: nat) {
    j == i + 19 <= |s| && Dot(s, i + 9) && Dot(s, i + 15)
    && forall k :: i <= k < j && k != i + 9 && k != i + 15 ==> IsAlNum(s[k])
  }

  /** docs.aws.amazon.com */
  predicate AmazonShape(s: string, i: nat, j: nat) {
    j == i + 19 <= |s| && Dot(s, i + 4) && Dot(s, i + 8) && Dot(s, i + 15)
    && forall k :: i <= k < j && k != i + 4 && k != i + 8 && k != i + 15 ==> IsAlNum(s[k])
  }

  /** Word boundaries at both ends, seen from outside. */
  predicate Apart(s: string, i: nat, j: nat)
    requires i < j <= |s|
  {
    (i > 0 ==> !IsWord(s[i - 1])) && (j < |s| ==> !IsWord(s[j]))
  }

  ghost predicate Token(s: string, i: nat, j: nat) {
    && i < j <= |s| && Apart(s, i, j)
    && (ComShape(s, i, j) || (exists d: nat :: HostShape(s, i, d, j)) || AppleShape(s, i, j) || AmazonShape(s, i, j))
  }

  lemma FoldedLiteral(w: string, s: string, i: nat)
    requires LiteralAt(w, true, s, i)
    requires forall k :: 0 <= k < |w| ==> IsLower(w[k]) || w[k] == '.'
    ensures forall k :: i <= k < i + |w| ==> if w[k - i] == '.' then s[k] == '.' else IsAlNum(s[k])
  {
    forall k | i <= k < i + |w| ensures if w[k - i] == '.' then s[k] == '.' else IsAlNum(s[k]) {
      assert SameChar(true, w[k - i], s[i + (k - i)]);
    }
  }

  lemma ComIsShape(s: string, i: nat, j: nat)
    requires i <= j <= |s| && Matches(COM_EXAMPLE, s, i, j)
    ensures ComShape(s, i, j)
  {
    var w, name := "com.example.", Cat(Sym(Letter), Star(Sym(AlNum)));
    var m := CatMatch(COM_EXAMPLE, s, i, j);
    var n := CatMatch(name, s, m, j);
    FoldedLiteral(w, s, i);
    assert w[3] == '.' && w[11] == '.';
    forall k | n <= k < j ensures IsAlNum(s[k]) { MatchIsOver(Star(Sym(AlNum)), s, n, j, k); }
  }

  lemma HostIsShape(s: string, i: nat, j: nat)
    requires i <= j <= |s| && Matches(EXAMPLE_COM, s, i, j)
    ensures j >= 12 && HostShape(s, i, j - 12, j)
  {
    var more := Star(Sym(AlNumDash));
    var m := CatMatch(EXAMPLE_COM, s, i, j);
    var d := CatMatch(Cat(more, Word(".example.com", true)), s, m, j);
    hide Matches, IsAlNum;
    HostTail(s, d, j);
    forall k | m <= k < d ensures IsAlNum(s[k]) || s[k] == '-' { MatchIsOver(more, s, m, d, k); RunOver(s[k]); }
    LetterMatch(s, i, m);
  }

  lemma HostTail(s: string, d: nat, j: nat)
    requires d <= j <= |s| && Matches(Word(".example.com", true), s, d, j)
    ensures j == d + 12 && Dot(s, d) && Dot(s, d + 8) && forall k :: d < k < j && k != d + 8 ==> IsAlNum(s[k])
  {
    var w := ".example.com";
    FoldedLiteral(w, s, d);
    assert w[0] == '.' && w[8] == '.';
  }

  lemma RunOver(c: char)
    requires Over(Star(Sym(AlNumDash)), c)
    ensures IsAlNum(c) || c == '-'
  {
  }

  lemma LetterMatch(s: string, i: nat, m: nat)
    requires i <= m <= |s| && Matches(Sym(Letter), s, i, m)
    ensures m == i + 1 && IsAlNum(s[i])
  {
  }

  lemma AppleLiteral(s: string, i: nat)
    requires LiteralAt("developer.apple.com", true, s, i)
    ensures AppleShape(s, i, i + 19)
  {
    var w := "developer.apple.com";
    FoldedLiteral(w, s, i);
    assert w[9] == '.' && w[15] == '.';
  }

  lemma AmazonLiteral(s: string, i: nat)
    requires LiteralAt("docs.aws.amazon.com", true, s, i)
    ensures AmazonShape(s, i, i + 19)
  {
    var w := "docs.aws.amazon.com";
    FoldedLiteral(w, s, i);
    assert w[4] == '.' && w[8] == '.' && w[15] == '.';
  }

  lemma DocsIsShape(s: string, i: nat, j: nat)
    requires i <= j <= |s| && Matches(DOCS, s, i, j)
    ensures AppleShape(s, i, j) || AmazonShape(s, i, j)
  {
    hide LiteralAt, AppleShape, AmazonShape;
    if Matches(Word("developer.apple.com", true), s, i, j) { AppleLiteral(s, i); } else { AmazonLiteral(s, i); }
  }

  /** Every match of the allow-list has one of these forms. */
  lemma AllowIsToken(s: string, i: nat, j: nat)
    requires i <= j <= |s| && Matches(ALLOW, s, i, j)
    ensures Token(s, i, j)
  {
    AllowFacts('a');
    MatchFacts(ALLOW, s, i, j);
    var hosts := Alt(EXAMPLE_COM, DOCS);
    var names := Alt(COM_EXAMPLE, hosts);
    var m := CatMatch(ALLOW, s, i, j);
    var n := CatMatch(Cat(names, Edge), s, m, j);
    assert m == i && n == j;
    if Matches(COM_EXAMPLE, s, i, j) { ComIsShape(s, i, j); }
    else if Matches(EXAMPLE_COM, s, i, j) { HostIsShape(s, i, j); }
    else { DocsIsShape(s, i, j); }
  }

  /** Conversely, one of the four between word boundaries is a match. */
  lemma AllowMatches(s: string, i: nat, j: nat)
    requires i <= j <= |s| && Boundary(s, i) && Boundary(s, j)
    requires Matches(COM_EXAMPLE, s, i, j) || Matches(EXAMPLE_COM, s, i, j) || Matches(DOCS, s, i, j)
    ensures Matches(ALLOW, s, i, j)
  {
    hide COM_EXAMPLE, EXAMPLE_COM, DOCS;
    var hosts := Alt(EXAMPLE_COM, DOCS);
    var names := Alt(COM_EXAMPLE, hosts);
    assert Matches(hosts, s, i, j) || Matches(COM_EXAMPLE, s, i, j);
    assert Matches(names, s, i, j);
    CatMatches(Cat(names, Edge), s, i, j, j);
    CatMatches(ALLOW, s, i, i, j);
  }

  lemma {:induction false} StarRun(cls: Class, s: string, i: nat, j: nat)
    requires i <= j <= |s| && forall k :: i <= k < j ==> In(cls, s[k])
    ensures Matches(Star(Sym(cls)), s, i, j)
    decreases j - i
  {
    if i < j {
      StarRun(cls, s, i + 1, j);
      assert Matches(Sym(cls), s, i, i + 1);
    }
  }

  // ---------------------------------------------------------------- the exact words

  predicate ComWords(s: string, i: nat, j: nat) {
    i + 13 <= j <= |s| && LiteralAt("com.example.", true, s, i) && In(Letter, s[i + 12])
    && forall k :: i + 13 <= k < j ==> In(AlNum, s[k])
  }

  predicate HostWords(s: string, i: nat, j: nat) {
    i + 13 <= j <= |s| && In(Letter, s[i]) && LiteralAt(".example.com", true, s, j - 12)
    && forall k :: i + 1 <= k < j - 12 ==> In(AlNumDash, s[k])
  }

  predicate DocsWords(s: string, i: nat, j: nat) {
    j == i + 19 <= |s| && (LiteralAt("developer.apple.com", true, s, i) || LiteralAt("docs.aws.amazon.com", true, s, i))
  }

  lemma ComIsWords(s: string, i: nat, j: nat)
    requires i <= j <= |s|
    ensures Matches(COM_EXAMPLE, s, i, j) <==> ComWords(s, i, j)
  {
    var more, name := Star(Sym(AlNum)), Cat(Sym(Letter), Star(Sym(AlNum)));
    if Matches(COM_EXAMPLE, s, i, j) {
      var m := CatMatch(COM_EXAMPLE, s, i, j);
      var n := CatMatch(name, s, m, j);
      forall k | n <= k < j ensures In(AlNum, s[k]) { MatchIsOver(more, s, n, j, k); }
    }
    if ComWords(s, i, j) {
      StarRun(AlNum, s, i + 13, j);
      CatMatches(name, s, i + 12, i + 13, j);
      CatMatches(COM_EXAMPLE, s, i, i + 12, j);
    }
  }

  lemma HostIsWords(s: string, i: nat, j: nat)
    requires i <= j <= |s|
    ensures Matches(EXAMPLE_COM, s, i, j) <==> HostWords(s, i, j)
  {
    var more := Star(Sym(AlNumDash));
    var host := Cat(more, Word(".example.com", true));
    if Matches(EXAMPLE_COM, s, i, j) {
      var m := CatMatch(EXAMPLE_COM, s, i, j);
      var d := CatMatch(host, s, m, j);
      forall k | m <= k < d ensures In(AlNumDash, s[k]) { MatchIsOver(more, s, m, d, k); }
    }
    if HostWords(s, i, j) {
      StarRun(AlNumDash, s, i + 1, j - 12);
      CatMatches(host, s, i + 1, j - 12, j);
      CatMatches(EXAMPLE_COM, s, i, i + 1, j);
    }
  }

  lemma NamesOfAllow(s: string, i: nat, j: nat)
    requires i <= j <= |s| && Matches(ALLOW, s, i, j)
    ensures Matches(COM_EXAMPLE, s, i, j) || Matches(EXAMPLE_COM, s, i, j) || Matches(DOCS, s, i, j)
    ensures Boundary(s, i) && Boundary(s, j)
  {
    var names := Alt(COM_EXAMPLE, Alt(EXAMPLE_COM, DOCS));
    var m := CatMatch(ALLOW, s, i, j);
    var n := CatMatch(Cat(names, Edge), s, m, j);
  }

  /** The allow-list matches exactly its four kinds of names, standing between word boundaries. */
  lemma AllowIsWords(s: string, i: nat, j: nat)
    requires i <= j <= |s|
    ensures Matches(ALLOW, s, i, j) <==>
      Boundary(s, i) && Boundary(s, j) && (ComWords(s, i, j) || HostWords(s, i, j) || DocsWords(s, i, j))
  {
    hide ALLOW, COM_EXAMPLE, EXAMPLE_COM, ComWords, HostWords;
    ComIsWords(s, i, j);
    HostIsWords(s, i, j);
    assert Matches(DOCS, s, i, j) <==> DocsWords(s, i, j);
    hide DOCS, DocsWords;
    if Matches(ALLOW, s, i, j) { NamesOfAllow(s, i, j); }
    if Boundary(s, i) && Boundary(s, j) && (ComWords(s, i, j) || HostWords(s, i, j) || DocsWords(s, i, j)) {
      AllowMatches(s, i, j);
    }
  }

  /** Where a token starts decides where it ends. */
  lemma TokenEnd(s: string, i: nat, j: nat, k: nat)
    requires Token(s, i, j) && Token(s, i, k)
    ensures j == k
  {
  }

  /** No token lies strictly inside another. */
  lemma NoTokenInside(s: string, m: nat, e: nat, i: nat, j: nat)
    requires Token(s, m, e) && Token(s, i, j) && m < i
    ensures j >= e
  {
  }
}
