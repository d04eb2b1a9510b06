/** internal/reconcile/reconcile.go: whether a candidate is new, overlaps an existing skill, or
    duplicates one. */
module Reconcile {
  import opened Lines
  import opened Regexp

  datatype Decision = Novel | Overlaps | Duplicate

  datatype SkillRef = SkillRef(name: string, description: string, path: string)

  const NO_REF := SkillRef("", "", "")

  // ---------------------------------------------------------------- tokens

  /** Lower case, dashes read as spaces. */
  function Plain(name: string): string {
    seq(|name|, k requires 0 <= k < |name| => if name[k] == '-' then ' ' else Low(name[k]))
  }

  /** s[i..j] is a longest run without white space. */
  ghost predicate Field(s: string, i: nat, j: nat) {
    && i < j <= |s|
    && (forall k :: i <= k < j ==> !IsSpace(s[k]))
    && (i == 0 || IsSpace(s[i - 1])) && (j == |s| || IsSpace(s[j]))
  }

  function RunEnd(s: string, i: nat): (j: nat)
    requires i <= |s|
    ensures i <= j <= |s| && (j == |s| || IsSpace(s[j])) && forall k :: i <= k < j ==> !IsSpace(s[k])
    decreases |s| - i
  {
    if i < |s| && !IsSpace(s[i]) then RunEnd(s, i + 1) else i
  }

  /** strings.Fields */
  function Fields(s: string, i: nat): seq<string>
    requires i <= |s|
    decreases |s| - i
  {
    if i == |s| then []
    else if IsSpace(s[i]) then Fields(s, i + 1)
    else [s[i..RunEnd(s, i)]] + Fields(s, RunEnd(s, i))
  }

  ghost predicate IsFieldFrom(s: string, i: nat, t: string) {
    exists a: nat, b: nat :: i <= a && Field(s, a, b) && t == s[a..b]
  }

  lemma {:induction false} FieldsAreRuns(s: string, i: nat, t: string)
    requires i <= |s| && (i == 0 || i == |s| || IsSpace(s[i - 1]) || IsSpace(s[i]))
    ensures t in Fields(s, i) <==> IsFieldFrom(s, i, t)
    decreases |s| - i
  {
    if i < |s| {
      if IsSpace(s[i]) {
        FieldsAreRuns(s, i + 1, t);
        assert forall b: nat :: !Field(s, i, b);
      } else {
        var j := RunEnd(s, i);
        FieldsAreRuns(s, j, t);
        assert Field(s, i, j);
        forall a: nat, b: nat | i <= a < j && Field(s, a, b) ensures a == i && b == j {
        }
      }
    }
  }

  ghost function Tokens(name: string): set<string> {
    set t | t in Fields(Plain(name), 0)
  }

  predicate Gap(c: char) { c == '-' || IsSpace(c) }

  /** name[a..b] is a longest run without dash or white space. */
  predicate Piece(name: string, a: nat, b: nat) {
    && a < b <= |name|
    && (forall k :: a <= k < b ==> !Gap(name[k]))
    && (a == 0 || Gap(name[a - 1])) && (b == |name| || Gap(name[b]))
  }

  /** The code point, that of the small letter for 'A' to 'Z'. */
  function Uncased(c: char): int { if 'A' <= c <= 'Z' then c as int + 32 else c as int }

  /** t is w in lower case, character by character. */
  predicate Lowered(w: string, t: string) {
    |t| == |w| && forall k :: 0 <= k < |w| ==> t[k] as int == Uncased(w[k])
  }

  lemma PlainChar(name: string, k: nat)
    requires k < |name|
    ensures IsSpace(Plain(name)[k]) <==> Gap(name[k])
    ensures !Gap(name[k]) ==> Plain(name)[k] as int == Uncased(name[k])
  {
  }

  lemma FieldsArePieces(name: string, a: nat, b: nat)
    ensures Field(Plain(name), a, b) <==> Piece(name, a, b)
  {
    forall k | 0 <= k < |name| ensures IsSpace(Plain(name)[k]) <==> Gap(name[k]) { PlainChar(name, k); }
  }

  lemma PieceInPlain(name: string, a: nat, b: nat, t: string)
    requires Piece(name, a, b)
    ensures t == Plain(name)[a..b] <==> Lowered(name[a..b], t)
  {
    var u := Plain(name)[a..b];
    forall k | 0 <= k < b - a ensures u[k] as int == Uncased(name[a..b][k]) {
      assert !Gap(name[a + k]);
      PlainChar(name, a + k);
    }
    hide Plain;
    if Lowered(name[a..b], t) { assert forall k :: 0 <= k < b - a ==> t[k] as int == u[k] as int; }
  }

  ghost predicate IsToken(name: string, t: string) {
    exists a: nat, b: nat :: Piece(name, a, b) && Lowered(name[a..b], t)
  }

  /** The tokens of a name are its longest runs without dash or white space, in lower case. */
  lemma TokensAreFields(name: string, t: string)
    ensures t in Tokens(name) <==> IsToken(name, t)
  {
    FieldsAreRuns(Plain(name), 0, t);
    hide Plain, Field, Lowered, Piece;
    forall a: nat, b: nat ensures Field(Plain(name), a, b) <==> Piece(name, a, b) { FieldsArePieces(name, a, b); }
    forall a: nat, b: nat | Piece(name, a, b) ensures b <= |name| && a <= b && (t == Plain(name)[a..b] <==> Lowered(name[a..b], t)) {
      PieceInside(name, a, b);
      PieceInPlain(name, a, b, t);
    }
  }

  lemma PieceInside(name: string, a: nat, b: nat)
    requires Piece(name, a, b)
    ensures a < b <= |name| == |Plain(name)|
  {
  }

  method Tokenize(s: string) returns (tokens: set<string>)
    ensures tokens == Tokens(s)
  {
    tokens := {};
    var fields := Fields(Plain(s), 0);
    for k := 0 to |fields|
      invariant tokens == set t | t in fields[..k]
    {
      tokens := tokens + {fields[k]};
    }
    assert fields[..|fields|] == fields;
  }

  // ---------------------------------------------------------------- similarity

  /** The tokens shared, as a part of all. */
  ghost function Similarity(a: set<string>, b: set<string>): real {
    if a == {} || b == {} then 0.0 else |a * b| as real / |a + b| as real
  }

  method Jaccard(a: set<string>, b: set<string>) returns (sim: real)
    ensures sim == Similarity(a, b)
  {
    if |a| == 0 || |b| == 0 {
      return 0.0;
    }
    var inter := 0;
    var left := a;
    while left != {}
      invariant left <= a && inter == |(a - left) * b|
    {
      var t :| t in left;
      if t in b {
        assert (a - (left - {t})) * b == (a - left) * b + {t};
        inter := inter + 1;
      } else {
        assert (a - (left - {t})) * b == (a - left) * b;
      }
      left := left - {t};
    }
    assert a - left == a;
    UnionSize(a, b);
    var union := |a| + |b| - inter;
    assert union > 0 by { var x :| x in a; assert x in a + b; }
    return inter as real / union as real;
  }

  lemma UnionSize(a: set<string>, b: set<string>)
    ensures |a + b| == |a| + |b| - |a * b|
  {
  }

  // ---------------------------------------------------------------- specification

  ghost predicate Exact(idx: seq<SkillRef>, name: string) {
    exists k :: 0 <= k < |idx| && idx[k].name == name
  }

  /** At least half of all their tokens are shared. */
  ghost predicate Close(name: string, other: string) {
    var a, b := Tokens(name), Tokens(other);
    a != {} && b != {} && 2 * |a * b| >= |a + b|
  }

  ghost predicate SomeClose(idx: seq<SkillRef>, name: string) {
    exists k :: 0 <= k < |idx| && Close(name, idx[k].name)
  }

  ghost function DecisionOf(idx: seq<SkillRef>, name: string): Decision {
    if Exact(idx, name) then Duplicate else if SomeClose(idx, name) then Overlaps else Novel
  }

  ghost function SimilarityTo(name: string, ref: SkillRef): real { Similarity(Tokens(name), Tokens(ref.name)) }

  /** The first of the most similar ones. */
  ghost predicate Nearest(idx: seq<SkillRef>, name: string, ref: SkillRef) {
    exists k :: 0 <= k < |idx| && idx[k] == ref
      && (forall m :: 0 <= m < |idx| ==> SimilarityTo(name, idx[m]) <= SimilarityTo(name, ref))
      && (forall m :: 0 <= m < k ==> SimilarityTo(name, idx[m]) < SimilarityTo(name, ref))
  }

  /** The first of that very name. */
  ghost predicate FirstNamed(idx: seq<SkillRef>, name: string, ref: SkillRef) {
    exists k :: 0 <= k < |idx| && idx[k] == ref && ref.name == name && forall m :: 0 <= m < k ==> idx[m].name != name
  }

  // ---------------------------------------------------------------- the code

  method Classify(idx: seq<SkillRef>, candidateName: string) returns (d: Decision, ref: SkillRef)
    ensures d == DecisionOf(idx, candidateName)
    ensures d.Duplicate? ==> FirstNamed(idx, candidateName, ref)
    ensures d.Overlaps? ==> Nearest(idx, candidateName, ref)
    ensures d.Novel? ==> ref == NO_REF
  {
    var cand := Tokenize(candidateName);
    var best := -1.0;
    var bestRef := NO_REF;
    for k := 0 to |idx|
      invariant !Exact(idx[..k], candidateName)
      invariant if k == 0 then best == -1.0 else Nearest(idx[..k], candidateName, bestRef)
      invariant k > 0 ==> best == SimilarityTo(candidateName, bestRef)
    {
      var r := idx[k];
      if r.name == candidateName {
        FoundName(idx, candidateName, k);
        return Duplicate, r;
      }
      var tokens := Tokenize(r.name);
      var sim := Jaccard(cand, tokens);
      SimilarityRange(cand, tokens);
      StepNearest(idx, candidateName, k, bestRef);
      if sim > best {
        best, bestRef := sim, r;
      }
    }
    assert idx[..|idx|] == idx;
    if idx != [] { NearestDecides(idx, candidateName, bestRef); }
    if best >= 0.5 {
      return Overlaps, bestRef;
    }
    return Novel, NO_REF;
  }

  lemma SimilarityRange(a: set<string>, b: set<string>)
    ensures Similarity(a, b) >= 0.0
    ensures Similarity(a, b) >= 0.5 <==> a != {} && b != {} && 2 * |a * b| >= |a + b|
  {
    if a != {} && b != {} {
      var n, d := |a * b| as real, |a + b| as real;
      assert d > 0.0 by { var x :| x in a; assert x in a + b; }
      HalfOf(n, d);
    }
  }

  lemma HalfOf(n: real, d: real)
    requires d > 0.0 && n >= 0.0
    ensures n / d >= 0.0 && (n / d >= 0.5 <==> 2.0 * n >= d)
  {
    var q := n / d;
    assert q * d == n;
    assert q >= 0.0;
    if q < 0.5 { assert q * d < 0.5 * d; } else { assert q * d >= 0.5 * d; }
  }

  lemma FoundName(idx: seq<SkillRef>, name: string, k: nat)
    requires k < |idx| && idx[k].name == name && !Exact(idx[..k], name)
    ensures DecisionOf(idx, name) == Duplicate && FirstNamed(idx, name, idx[k])
  {
    forall m | 0 <= m < k ensures idx[m].name != name { assert idx[..k][m] == idx[m]; }
  }

  lemma StepNearest(idx: seq<SkillRef>, name: string, k: nat, ref: SkillRef)
    requires k < |idx| && idx[k].name != name && !Exact(idx[..k], name)
    requires k > 0 ==> Nearest(idx[..k], name, ref)
    ensures !Exact(idx[..k + 1], name)
    ensures k == 0 || SimilarityTo(name, idx[k]) > SimilarityTo(name, ref) ==> Nearest(idx[..k + 1], name, idx[k])
    ensures k > 0 && SimilarityTo(name, idx[k]) <= SimilarityTo(name, ref) ==> Nearest(idx[..k + 1], name, ref)
  {
    hide SimilarityTo;
    var was, now := idx[..k], idx[..k + 1];
    assert forall m :: 0 <= m < k ==> now[m] == was[m];
    assert now[k] == idx[k];
    if k > 0 {
      var j :| 0 <= j < k && was[j] == ref
        && (forall m :: 0 <= m < k ==> SimilarityTo(name, was[m]) <= SimilarityTo(name, ref))
        && (forall m :: 0 <= m < j ==> SimilarityTo(name, was[m]) < SimilarityTo(name, ref));
      assert now[j] == ref;
    }
  }

  lemma NearestDecides(idx: seq<SkillRef>, name: string, ref: SkillRef)
    requires Nearest(idx, name, ref)
    ensures SomeClose(idx, name) <==> SimilarityTo(name, ref) >= 0.5
  {
    forall m | 0 <= m < |idx| ensures Close(name, idx[m].name) <==> SimilarityTo(name, idx[m]) >= 0.5 {
      SimilarityRange(Tokens(name), Tokens(idx[m].name));
    }
  }

  // ---------------------------------------------------------------- what the decision depends on

  ghost predicate NamesWithin(idx: seq<SkillRef>, other: seq<SkillRef>) {
    forall k :: 0 <= k < |idx| ==> Exact(other, idx[k].name)
  }

  /** A larger index never turns a duplicate into anything else, nor an overlap into something new. */
  lemma GrowingIndex(idx: seq<SkillRef>, other: seq<SkillRef>, name: string)
    requires NamesWithin(idx, other)
    ensures DecisionOf(idx, name) == Duplicate ==> DecisionOf(other, name) == Duplicate
    ensures DecisionOf(idx, name) == Overlaps ==> DecisionOf(other, name) != Novel
  {
    hide Close;
    if Exact(idx, name) { var k :| 0 <= k < |idx| && idx[k].name == name; }
    if SomeClose(idx, name) {
      var k :| 0 <= k < |idx| && Close(name, idx[k].name);
      var m :| 0 <= m < |other| && other[m].name == idx[k].name;
      assert Close(name, other[m].name);
    }
  }

  /** Neither the order of the index nor repetitions in it matter, nor anything but the names. */
  lemma OrderPlaysNoPart(idx: seq<SkillRef>, other: seq<SkillRef>, name: string)
    requires NamesWithin(idx, other) && NamesWithin(other, idx)
    ensures DecisionOf(idx, name) == DecisionOf(other, name)
  {
    GrowingIndex(idx, other, name);
    GrowingIndex(other, idx, name);
  }

  lemma SameTokensOverlap(idx: seq<SkillRef>, name: string, k: nat)
    requires k < |idx| && Tokens(name) == Tokens(idx[k].name) != {}
    ensures DecisionOf(idx, name) != Novel
  {
    var a := Tokens(name);
    assert a * a == a && a + a == a;
    assert Close(name, idx[k].name);
  }

  /** Equal but for the case of 'A' to 'Z'. */
  predicate SameWord(v: string, w: string) {
    |v| == |w| && forall k :: 0 <= k < |v| ==> Uncased(v[k]) == Uncased(w[k])
  }

  /** Each word of the first name is one of the second, up to case. */
  ghost predicate WordsWithin(name: string, other: string) {
    forall a: nat, b: nat :: Piece(name, a, b) ==>
      exists c: nat, d: nat :: Piece(other, c, d) && SameWord(name[a..b], other[c..d])
  }

  lemma WithinMeansTokens(name: string, other: string)
    requires WordsWithin(name, other)
    ensures Tokens(name) <= Tokens(other)
  {
    hide Tokens;
    forall t | t in Tokens(name) ensures t in Tokens(other) {
      TokensAreFields(name, t);
      var a: nat, b: nat :| Piece(name, a, b) && Lowered(name[a..b], t);
      var c: nat, d: nat :| Piece(other, c, d) && SameWord(name[a..b], other[c..d]);
      assert Lowered(other[c..d], t);
      TokensAreFields(other, t);
    }
  }

  lemma {:induction false} SomePiece(name: string, k: nat) returns (a: nat, b: nat)
    requires k < |name| && !Gap(name[k])
    ensures Piece(name, a, b)
  {
    a, b := k, k + 1;
    while a > 0 && !Gap(name[a - 1])
      invariant a <= k && forall m :: a <= m <= k ==> !Gap(name[m])
    {
      a := a - 1;
    }
    while b < |name| && !Gap(name[b])
      invariant k < b <= |name| && forall m :: a <= m < b ==> !Gap(name[m])
    {
      b := b + 1;
    }
  }

  lemma LowIsUncased(c: char)
    ensures Low(c) as int == Uncased(c)
  {
  }

  /** A name that has a word, and the same words as an entry up to case, whatever their order, their number
      and what separates them, is never new. */
  lemma SameWordsOverlap(idx: seq<SkillRef>, name: string, k: nat)
    requires k < |idx| && WordsWithin(name, idx[k].name) && WordsWithin(idx[k].name, name)
    requires exists m :: 0 <= m < |name| && !Gap(name[m])
    ensures DecisionOf(idx, name) != Novel
  {
    hide Tokens, DecisionOf, WordsWithin, Gap;
    WithinMeansTokens(name, idx[k].name);
    WithinMeansTokens(idx[k].name, name);
    var m :| 0 <= m < |name| && !Gap(name[m]);
    var a, b := SomePiece(name, m);
    var t := seq(b - a, i requires 0 <= i < b - a => Low(name[a + i]));
    forall i | 0 <= i < b - a ensures t[i] as int == Uncased(name[a..b][i]) {
      assert t[i] == Low(name[a + i]);
      LowIsUncased(name[a + i]);
    }
    TokensAreFields(name, t);
    SameTokensOverlap(idx, name, k);
  }

  /** The same character up to case, or a dash or white space in both. */
  predicate LooksLike(c: char, d: char) { Uncased(c) == Uncased(d) || (Gap(c) && Gap(d)) }

  predicate Alike(name: string, other: string) {
    |name| == |other| && forall k :: 0 <= k < |name| ==> LooksLike(name[k], other[k])
  }

  /** In particular one that differs from an entry only in case and in which of dash and white space stands
      between its words. */
  lemma AlikeOverlaps(idx: seq<SkillRef>, name: string, k: nat)
    requires k < |idx| && Alike(name, idx[k].name) && exists m :: 0 <= m < |name| && !Gap(name[m])
    ensures DecisionOf(idx, name) != Novel
  {
    var other := idx[k].name;
    forall m | 0 <= m < |name| ensures LooksLike(other[m], name[m]) { assert LooksLike(name[m], other[m]); }
    AlikeWords(name, other);
    AlikeWords(other, name);
    hide DecisionOf, WordsWithin, Gap;
    SameWordsOverlap(idx, name, k);
  }

  lemma LikeGap(c: char, d: char)
    requires LooksLike(c, d)
    ensures Gap(c) <==> Gap(d)
    ensures !Gap(c) ==> Uncased(c) == Uncased(d)
  {
  }

  lemma AlikeWords(name: string, other: string)
    requires Alike(name, other)
    ensures WordsWithin(name, other)
  {
    forall k | 0 <= k < |name|
      ensures Gap(name[k]) <==> Gap(other[k])
      ensures !Gap(name[k]) ==> Uncased(name[k]) == Uncased(other[k])
    {
      assert LooksLike(name[k], other[k]);
      LikeGap(name[k], other[k]);
    }
    hide Gap, LooksLike, Uncased;
    forall a: nat, b: nat | Piece(name, a, b) ensures Piece(other, a, b) && SameWord(name[a..b], other[a..b]) {
      forall k | 0 <= k < b - a ensures Uncased(name[a..b][k]) == Uncased(other[a..b][k]) { assert !Gap(name[a + k]); }
    }
  }

  /** As many words are shared as are not, and some are. */
  ghost predicate SharesEnough(name: string, other: string) {
    var a, b := Tokens(name), Tokens(other);
    a * b != {} && |a - b| + |b - a| <= |a * b|
  }

  lemma SharesEnoughIff(name: string, other: string)
    ensures Close(name, other) <==> SharesEnough(name, other)
  {
    var a, b := Tokens(name), Tokens(other);
    assert a + b == (a - b) + (b - a) + a * b;
    assert |a + b| == |a - b| + |b - a| + |a * b|;
    if a * b != {} { var x :| x in a * b; }
    if a != {} && a * b == {} { var x :| x in a; assert x in a - b; }
  }

  /** Of a name that is not in the index: it overlaps exactly if it shares at least as many words with some
      entry as stand in only one of the two. */
  lemma OverlapsIff(idx: seq<SkillRef>, name: string)
    requires !Exact(idx, name)
    ensures DecisionOf(idx, name) == Overlaps <==> exists k :: 0 <= k < |idx| && SharesEnough(name, idx[k].name)
  {
    hide Close, SharesEnough;
    forall k | 0 <= k < |idx| ensures Close(name, idx[k].name) <==> SharesEnough(name, idx[k].name) {
      SharesEnoughIff(name, idx[k].name);
    }
  }

  lemma CrossMultiply(n: nat, d: nat, m: nat, e: nat)
    requires d > 0 && e > 0 && n as real / d as real <= m as real / e as real
    ensures n * e <= m * d
  {
    var x, y := n as real / d as real, m as real / e as real;
    assert x * d as real == n as real && y * e as real == m as real;
    var u, v := d as real, e as real;
    Scale(x, y, u * v);
    assert (x * u) * v == x * (u * v) && (y * v) * u == y * (u * v);
    assert (n * e) as real == n as real * v && (m * d) as real == m as real * u;
  }

  lemma Scale(x: real, y: real, f: real)
    requires x <= y && f >= 0.0
    ensures x * f <= y * f
  {
  }

  /** Of all words in the two names no entry shares a larger part than the one that is returned. */
  lemma NoneSharesMore(idx: seq<SkillRef>, name: string, ref: SkillRef, m: nat)
    requires Nearest(idx, name, ref) && m < |idx| && Tokens(name) != {} && Tokens(ref.name) != {}
    ensures var a, b, c := Tokens(name), Tokens(ref.name), Tokens(idx[m].name);
      |a * c| * |a + b| <= |a * b| * |a + c|
  {
    var a, b, c := Tokens(name), Tokens(ref.name), Tokens(idx[m].name);
    hide Tokens;
    var x :| x in a;
    assert x in a + b && x in a + c;
    assert SimilarityTo(name, idx[m]) <= SimilarityTo(name, ref);
    if c != {} { CrossMultiply(|a * c|, |a + c|, |a * b|, |a + b|); } else { assert a * c == {}; }
  }
}
