/** The part of Go's `regexp` package that the redactor relies on: leftmost-first matching of the
    operators its patterns use, and ReplaceAllStringFunc.

    `Ends` is the engine: the possible ends of a match, in the order a backtracking matcher tries
    them, so that its first element is the match Go picks. `Matches` is the reference: which
    slices of the text a pattern matches, with no order. `EndsAreMatches` ties the two together. */
module Regexp {
  import opened Text

  /** The character classes that occur in the patterns. */
  datatype Class =
    | NotSpaceQuote  // [^\s"']
    | UpperNum       // [0-9A-Z]
    | AlNum          // [0-9A-Za-z]
    | AlNumUnder     // [0-9A-Za-z_]
    | AlNumDash      // [0-9A-Za-z-]
    | Letter         // [a-z] under (?i)
    | SlackKind      // [baprs]
    | Lower          // [a-z]
    | LowerNum       // [a-z0-9]
    | Digit          // \d

  predicate IsUpper(c: char) { 'A' <= c <= 'Z' }
  predicate IsLower(c: char) { 'a' <= c <= 'z' }
  predicate IsAlNum(c: char) { IsDigit(c) || IsUpper(c) || IsLower(c) }

  /** A word character in the sense of `\b`. */
  predicate IsWord(c: char) { IsAlNum(c) || c == '_' }

  /** `\s` or a quote: exactly what the ARN pattern's class leaves out. */
  predicate IsStop(c: char) {
    c == '\t' || c == '\n' || c == FORM_FEED || c == '\r' || c == ' ' || c == '\"' || c == '\''
  }

  const FORM_FEED := '\U{000C}'

  predicate In(cls: Class, c: char) {
    match cls
    case NotSpaceQuote => !IsStop(c)
    case UpperNum => IsDigit(c) || IsUpper(c)
    case AlNum => IsAlNum(c)
    case AlNumUnder => IsWord(c)
    case AlNumDash => IsAlNum(c) || c == '-'
    case Letter => IsUpper(c) || IsLower(c)
    case SlackKind => c in "baprs"
    case Lower => IsLower(c)
    case LowerNum => IsLower(c) || IsDigit(c)
    case Digit => IsDigit(c)
  }

  /** Regular expressions. `Word` is a literal, case-insensitive when `fold` is set (then written
      in lower case); `Run(cls, n)` is `cls{n}`; `Edge` is `\b`. */
  datatype Re =
    | Word(w: string, fold: bool)
    | Sym(cls: Class)
    | Run(cls: Class, n: nat)
    | Cat(a: Re, b: Re)
    | Alt(a: Re, b: Re)
    | Star(a: Re)
    | Edge

  function Low(c: char): char {
    if IsUpper(c) then (c as int + 32) as char else c
  }

  predicate SameChar(fold: bool, want: char, c: char) {
    c == want || (fold && Low(c) == want)
  }

  predicate WordAt(s: string, i: int) {
    0 <= i < |s| && IsWord(s[i])
  }

  /** `\b` holds between s[i-1] and s[i]. */
  predicate Boundary(s: string, i: nat) {
    WordAt(s, i - 1) != WordAt(s, i)
  }

  predicate LiteralAt(w: string, fold: bool, s: string, i: nat) {
    i + |w| <= |s| && forall k :: 0 <= k < |w| ==> SameChar(fold, w[k], s[i + k])
  }

  predicate RunAt(cls: Class, n: nat, s: string, i: nat) {
    i + n <= |s| && forall k :: i <= k < i + n ==> In(cls, s[k])
  }

  // ---------------------------------------------------------------- the reference semantics

  /** `r` matches s[i..j], its `\b`s read in the context of the whole text. */
  ghost predicate Matches(r: Re, s: string, i: nat, j: nat)
    requires i <= j <= |s|
    decreases r, j - i
  {
    match r
    case Word(w, fold) => j == i + |w| && LiteralAt(w, fold, s, i)
    case Sym(cls) => j == i + 1 && In(cls, s[i])
    case Run(cls, n) => j == i + n && RunAt(cls, n, s, i)
    case Cat(a, b) => exists m :: i <= m <= j && Matches(a, s, i, m) && Matches(b, s, m, j)
    case Alt(a, b) => Matches(a, s, i, j) || Matches(b, s, i, j)
    case Star(a) => i == j || exists m :: i < m <= j && Matches(a, s, i, m) && Matches(r, s, m, j)
    case Edge => i == j && Boundary(s, i)
  }

  // ---------------------------------------------------------------- the engine

  predicate Within(ms: seq<nat>, lo: int, hi: int) {
    forall k :: 0 <= k < |ms| ==> lo <= ms[k] <= hi
  }

  /** The members of `ms` greater than i, in order. */
  function After(ms: seq<nat>, i: nat): (r: seq<nat>)
    ensures forall m :: m in r <==> m in ms && m > i
    ensures forall k :: 0 <= k < |r| ==> i < r[k] && r[k] in ms
  {
    if ms == [] then [] else (if ms[0] > i then [ms[0]] else []) + After(ms[1..], i)
  }

  /** The ends of the matches of `r` that start at i, most preferred first: the left operand of an
      alternation before the right one, one more repetition before none. */
  function Ends(r: Re, s: string, i: nat): (es: seq<nat>)
    requires i <= |s|
    ensures Within(es, i, |s|)
    decreases r, |s| - i, 0
  {
    match r
    case Word(w, fold) => if LiteralAt(w, fold, s, i) then [i + |w|] else []
    case Sym(cls) => if i < |s| && In(cls, s[i]) then [i + 1] else []
    case Run(cls, n) => if RunAt(cls, n, s, i) then [i + n] else []
    case Cat(a, b) => EndsEach(b, s, Ends(a, s, i), i)
    case Alt(a, b) => Ends(a, s, i) + Ends(b, s, i)
    case Star(a) =>
      (if i < |s| then EndsEach(r, s, After(Ends(a, s, i), i), i + 1) else []) + [i]
    case Edge => if Boundary(s, i) then [i] else []
  }

  function EndsEach(r: Re, s: string, ms: seq<nat>, lo: nat): (es: seq<nat>)
    requires lo <= |s| && Within(ms, lo, |s|)
    ensures Within(es, lo, |s|)
    decreases r, |s| - lo, 1 + |ms|
  {
    if ms == [] then []
    else
      assert Within(ms[1..], lo, |s|);
      var e0, rest := Ends(r, s, ms[0]), EndsEach(r, s, ms[1..], lo);
      assert Within(e0, lo, |s|);
      e0 + rest
  }

  lemma {:induction false} EndsEachMember(r: Re, s: string, ms: seq<nat>, lo: nat, e: nat)
    requires lo <= |s| && Within(ms, lo, |s|)
    ensures e in EndsEach(r, s, ms, lo) <==> exists m :: m in ms && e in Ends(r, s, m)
    decreases |ms|
  {
    if ms != [] {
      EndsEachMember(r, s, ms[1..], lo, e);
      assert e in EndsEach(r, s, ms, lo) <==> e in Ends(r, s, ms[0]) || e in EndsEach(r, s, ms[1..], lo);
      assert ms[0] in ms;
      forall m | m in ms && e in Ends(r, s, m) ensures e in EndsEach(r, s, ms, lo) {
        if m != ms[0] { assert m in ms[1..]; }
      }
    }
  }

  // The engine's equations, one level at a time.

  lemma CatEnds(a: Re, b: Re, s: string, i: nat)
    requires i <= |s|
    ensures Ends(Cat(a, b), s, i) == EndsEach(b, s, Ends(a, s, i), i)
  {
  }

  lemma AltEnds(a: Re, b: Re, s: string, i: nat)
    requires i <= |s|
    ensures Ends(Alt(a, b), s, i) == Ends(a, s, i) + Ends(b, s, i)
  {
  }

  lemma StarEnds(a: Re, s: string, i: nat)
    requires i <= |s|
    ensures i < |s| ==> Within(After(Ends(a, s, i), i), i + 1, |s|)
    ensures Ends(Star(a), s, i)
         == (if i < |s| then EndsEach(Star(a), s, After(Ends(a, s, i), i), i + 1) else []) + [i]
  {
  }

  lemma EndsEachCons(r: Re, s: string, ms: seq<nat>, lo: nat)
    requires lo <= |s| && Within(ms, lo, |s|) && ms != []
    ensures EndsEach(r, s, ms, lo) == Ends(r, s, ms[0]) + EndsEach(r, s, ms[1..], lo)
  {
  }

  /** The engine lists exactly the matches. */
  lemma {:induction false} EndsAreMatches(r: Re, s: string, i: nat, e: nat)
    requires i <= e <= |s|
    ensures e in Ends(r, s, i) <==> Matches(r, s, i, e)
    decreases r, |s| - i, 1
  {
    match r
    case Word(w, fold) =>
    case Sym(cls) =>
    case Run(cls, n) =>
    case Edge =>
    case Alt(a, b) =>
      hide Ends;
      AltEnds(a, b, s, i);
      EndsAreMatches(a, s, i, e);
      EndsAreMatches(b, s, i, e);
    case Cat(a, b) => CatEndsAreMatches(r, a, b, s, i, e);
    case Star(a) => StarEndsAreMatches(r, a, s, i, e);
  }

  lemma {:induction false} CatEndsAreMatches(r: Re, a: Re, b: Re, s: string, i: nat, e: nat)
    requires i <= e <= |s| && r == Cat(a, b)
    ensures e in Ends(r, s, i) <==> Matches(r, s, i, e)
    decreases r, |s| - i, 0
  {
    hide Ends, EndsEach;
    CatEnds(a, b, s, i);
    EndsEachMember(b, s, Ends(a, s, i), i, e);
    forall m | i <= m <= e
      ensures (m in Ends(a, s, i) && e in Ends(b, s, m)) <==>
              (Matches(a, s, i, m) && Matches(b, s, m, e))
    {
      EndsAreMatches(a, s, i, m);
      EndsAreMatches(b, s, m, e);
    }
  }

  lemma {:induction false} StarEndsAreMatches(r: Re, a: Re, s: string, i: nat, e: nat)
    requires i <= e <= |s| && r == Star(a)
    ensures e in Ends(r, s, i) <==> Matches(r, s, i, e)
    decreases r, |s| - i, 0
  {
    hide Ends, EndsEach, After;
    StarEnds(a, s, i);
    if i < |s| {
      var ms := After(Ends(a, s, i), i);
      EndsEachMember(r, s, ms, i + 1, e);
      forall m | i < m <= e
        ensures (m in ms && e in Ends(r, s, m)) <==> (Matches(a, s, i, m) && Matches(r, s, m, e))
      {
        EndsAreMatches(a, s, i, m);
        EndsAreMatches(r, s, m, e);
      }
    }
  }

  // ---------------------------------------------------------------- what a match is made of

  predicate Nullable(r: Re) {
    match r
    case Word(w, _) => |w| == 0
    case Sym(_) => false
    case Run(_, n) => n == 0
    case Cat(a, b) => Nullable(a) && Nullable(b)
    case Alt(a, b) => Nullable(a) || Nullable(b)
    case Star(_) => true
    case Edge => true
  }

  /** `c` may occur in a match of `r`. */
  predicate Over(r: Re, c: char) {
    match r
    case Word(w, fold) => c in w || (fold && Low(c) in w)
    case Sym(cls) => In(cls, c)
    case Run(cls, _) => In(cls, c)
    case Cat(a, b) => Over(a, c) || Over(b, c)
    case Alt(a, b) => Over(a, c) || Over(b, c)
    case Star(a) => Over(a, c)
    case Edge => false
  }

  /** `c` may be the first character of a match of `r`. */
  predicate First(r: Re, c: char) {
    match r
    case Word(w, fold) => |w| > 0 && SameChar(fold, w[0], c)
    case Sym(cls) => In(cls, c)
    case Run(cls, _) => In(cls, c)
    case Cat(a, b) => First(a, c) || (Nullable(a) && First(b, c))
    case Alt(a, b) => First(a, c) || First(b, c)
    case Star(a) => First(a, c)
    case Edge => false
  }

  /** `c` may be the last character of a match of `r`. */
  predicate Last(r: Re, c: char) {
    match r
    case Word(w, fold) => |w| > 0 && SameChar(fold, w[|w| - 1], c)
    case Sym(cls) => In(cls, c)
    case Run(cls, _) => In(cls, c)
    case Cat(a, b) => Last(b, c) || (Nullable(b) && Last(a, c))
    case Alt(a, b) => Last(a, c) || Last(b, c)
    case Star(a) => Last(a, c)
    case Edge => false
  }

  lemma CatMatch(r: Re, s: string, i: nat, j: nat) returns (m: nat)
    requires r.Cat? && i <= j <= |s| && Matches(r, s, i, j)
    ensures i <= m <= j && Matches(r.a, s, i, m) && Matches(r.b, s, m, j)
  {
    match r
    case Cat(a, b) => m :| i <= m <= j && Matches(a, s, i, m) && Matches(b, s, m, j);
  }

  lemma CatMatches(r: Re, s: string, i: nat, m: nat, j: nat)
    requires r.Cat? && i <= m <= j <= |s| && Matches(r.a, s, i, m) && Matches(r.b, s, m, j)
    ensures Matches(r, s, i, j)
  {
  }

  lemma {:induction false} EmptyMatchIsNullable(r: Re, s: string, i: nat)
    requires i <= |s| && Matches(r, s, i, i)
    ensures Nullable(r)
    decreases r
  {
    match r
    case Word(_, _) =>
    case Sym(_) =>
    case Run(_, _) =>
    case Star(_) =>
    case Edge =>
    case Alt(a, b) =>
      if Matches(a, s, i, i) { EmptyMatchIsNullable(a, s, i); } else { EmptyMatchIsNullable(b, s, i); }
    case Cat(a, b) =>
      EmptyMatchIsNullable(a, s, i);
      EmptyMatchIsNullable(b, s, i);
  }

  lemma {:induction false} MatchIsOver(r: Re, s: string, i: nat, j: nat, k: nat)
    requires i <= k < j <= |s| && Matches(r, s, i, j)
    ensures Over(r, s[k])
    decreases r, j - i
  {
    match r
    case Word(w, fold) => assert SameChar(fold, w[k - i], s[i + (k - i)]);
    case Sym(_) =>
    case Run(_, _) =>
    case Edge =>
    case Alt(a, b) =>
      if Matches(a, s, i, j) { MatchIsOver(a, s, i, j, k); } else { MatchIsOver(b, s, i, j, k); }
    case Cat(a, b) =>
      var m :| i <= m <= j && Matches(a, s, i, m) && Matches(b, s, m, j);
      if k < m { MatchIsOver(a, s, i, m, k); } else { MatchIsOver(b, s, m, j, k); }
    case Star(a) =>
      var m :| i < m <= j && Matches(a, s, i, m) && Matches(r, s, m, j);
      if k < m { MatchIsOver(a, s, i, m, k); } else { MatchIsOver(r, s, m, j, k); }
  }

  lemma {:induction false} MatchFirst(r: Re, s: string, i: nat, j: nat)
    requires i < j <= |s| && Matches(r, s, i, j)
    ensures First(r, s[i])
    decreases r
  {
    match r
    case Word(w, fold) => assert SameChar(fold, w[0], s[i + 0]);
    case Sym(_) =>
    case Run(_, _) =>
    case Edge =>
    case Alt(a, b) =>
      if Matches(a, s, i, j) { MatchFirst(a, s, i, j); } else { MatchFirst(b, s, i, j); }
    case Cat(a, b) =>
      var m :| i <= m <= j && Matches(a, s, i, m) && Matches(b, s, m, j);
      if i < m { MatchFirst(a, s, i, m); } else {
        EmptyMatchIsNullable(a, s, i);
        MatchFirst(b, s, m, j);
      }
    case Star(a) =>
      var m :| i < m <= j && Matches(a, s, i, m) && Matches(r, s, m, j);
      MatchFirst(a, s, i, m);
  }

  lemma {:induction false} MatchLast(r: Re, s: string, i: nat, j: nat)
    requires i < j <= |s| && Matches(r, s, i, j)
    ensures Last(r, s[j - 1])
    decreases r, j - i
  {
    match r
    case Word(w, fold) => assert SameChar(fold, w[|w| - 1], s[i + (|w| - 1)]);
    case Sym(_) =>
    case Run(_, _) =>
    case Edge =>
    case Alt(a, b) =>
      if Matches(a, s, i, j) { MatchLast(a, s, i, j); } else { MatchLast(b, s, i, j); }
    case Cat(a, b) =>
      var m :| i <= m <= j && Matches(a, s, i, m) && Matches(b, s, m, j);
      if m < j { MatchLast(b, s, m, j); } else {
        EmptyMatchIsNullable(b, s, j);
        MatchLast(a, s, i, m);
      }
    case Star(a) =>
      var m :| i < m <= j && Matches(a, s, i, m) && Matches(r, s, m, j);
      if m < j { MatchLast(r, s, m, j); } else { MatchLast(a, s, i, m); }
  }

  // ---------------------------------------------------------------- moving a match

  predicate NoEdge(r: Re) {
    match r
    case Word(_, _) => true
    case Sym(_) => true
    case Run(_, _) => true
    case Cat(a, b) => NoEdge(a) && NoEdge(b)
    case Alt(a, b) => NoEdge(a) && NoEdge(b)
    case Star(a) => NoEdge(a)
    case Edge => false
  }

  /** s[i..j] and t[i'..] read the same for the length of the window, and `\b` agrees at both of
      its ends. */
  ghost predicate SameWindow(r: Re, s: string, i: nat, j: nat, t: string, i': nat)
  {
    && i <= j <= |s|
    && i' + (j - i) <= |t|
    && (forall k :: i <= k < j ==> s[k] == t[k - i + i'])
    && (NoEdge(r) || (Boundary(s, i) == Boundary(t, i') && Boundary(s, j) == Boundary(t, j - i + i')))
  }

  lemma SubWindow(r: Re, s: string, i: nat, j: nat, t: string, i': nat, q: Re, m: nat, n: nat)
    requires SameWindow(r, s, i, j, t, i') && i <= m <= n <= j
    requires NoEdge(r) ==> NoEdge(q)
    ensures SameWindow(q, s, m, n, t, m - i + i')
  {
    if !NoEdge(q) {
      forall k | i <= k <= j ensures Boundary(s, k) == Boundary(t, k - i + i') {
        if i < k < j {
          assert s[k - 1] == t[k - 1 - i + i'] && s[k] == t[k - i + i'];
        }
      }
    }
  }

  /** A match depends on nothing but the slice it covers and the two word boundaries beside it. */
  lemma {:induction false} MoveMatch(r: Re, s: string, i: nat, j: nat, t: string, i': nat)
    requires SameWindow(r, s, i, j, t, i') && Matches(r, s, i, j)
    ensures Matches(r, t, i', j - i + i')
    decreases r, j - i
  {
    var d := i' - i;
    match r
    case Word(w, fold) =>
      forall k | 0 <= k < |w| ensures SameChar(fold, w[k], t[i' + k]) {
        assert SameChar(fold, w[k], s[i + k]);
      }
    case Sym(_) =>
    case Run(cls, n) =>
      forall k | i' <= k < i' + n ensures In(cls, t[k]) {
        assert In(cls, s[k - d]);
        assert s[k - d] == t[k - d + d];
      }
    case Edge =>
    case Alt(a, b) =>
      SubWindow(r, s, i, j, t, i', a, i, j);
      SubWindow(r, s, i, j, t, i', b, i, j);
      if Matches(a, s, i, j) { MoveMatch(a, s, i, j, t, i'); } else { MoveMatch(b, s, i, j, t, i'); }
    case Cat(a, b) =>
      var m :| i <= m <= j && Matches(a, s, i, m) && Matches(b, s, m, j);
      SubWindow(r, s, i, j, t, i', a, i, m);
      SubWindow(r, s, i, j, t, i', b, m, j);
      MoveMatch(a, s, i, m, t, i');
      MoveMatch(b, s, m, j, t, m + d);
    case Star(a) =>
      if i < j {
        var m :| i < m <= j && Matches(a, s, i, m) && Matches(r, s, m, j);
        SubWindow(r, s, i, j, t, i', a, i, m);
        SubWindow(r, s, i, j, t, i', r, m, j);
        MoveMatch(a, s, i, m, t, i');
        MoveMatch(r, s, m, j, t, m + d);
      }
  }

  /** The window cannot be left: the text ends where it ends, or goes on with a character that no
      match of `r` contains. */
  ghost predicate Closed(r: Re, s: string, j: nat)
    requires j <= |s|
  {
    j == |s| || !Over(r, s[j])
  }

  /** `es'` lists the same positions as `es`, d further on. */
  ghost predicate Shifted(es: seq<nat>, es': seq<nat>, d: int) {
    |es| == |es'| && forall k :: 0 <= k < |es| ==> es'[k] == es[k] + d
  }

  lemma ShiftedCons(m: nat, m': nat, a: seq<nat>, b: seq<nat>, d: int)
    requires m' == m + d && Shifted(a, b, d)
    ensures Shifted([m] + a, [m'] + b, d)
  {
  }

  lemma ShiftedTail(a: seq<nat>, b: seq<nat>, d: int)
    requires a != [] && Shifted(a, b, d)
    ensures b != [] && b[0] == a[0] + d && Shifted(a[1..], b[1..], d)
  {
  }

  lemma AfterCons(ms: seq<nat>, i: nat)
    requires ms != []
    ensures After(ms, i) == if ms[0] > i then [ms[0]] + After(ms[1..], i) else After(ms[1..], i)
  {
  }

  lemma {:induction false} ShiftedAfter(ms: seq<nat>, ms': seq<nat>, i: nat, i': nat)
    requires Shifted(ms, ms', i' - i)
    ensures Shifted(After(ms, i), After(ms', i'), i' - i)
    decreases |ms|
  {
    if ms == [] {
      assert ms' == [];
    } else {
      hide Shifted, After;
      ShiftedTail(ms, ms', i' - i);
      ShiftedAfter(ms[1..], ms'[1..], i, i');
      AfterCons(ms, i);
      AfterCons(ms', i');
      if ms[0] > i {
        ShiftedCons(ms[0], ms'[0], After(ms[1..], i), After(ms'[1..], i'), i' - i);
      }
    }
  }

  lemma {:induction false} EndsEachInWindow(r: Re, q: Re, s: string, i: nat, j: nat, t: string, i': nat,
                                            ms: seq<nat>, lo: nat, ms': seq<nat>, lo': nat)
    requires SameWindow(r, s, i, j, t, i') && Closed(q, s, j) && Closed(q, t, j - i + i')
    requires NoEdge(r) ==> NoEdge(q)
    requires i <= lo <= |s| && Within(ms, lo, j)
    requires lo' == lo - i + i' <= |t| && Within(ms', lo', |t|)
    requires Shifted(ms, ms', i' - i)
    requires q < r || (q == r && lo > i)
    ensures Within(EndsEach(q, s, ms, lo), lo, j)
    ensures Shifted(EndsEach(q, s, ms, lo), EndsEach(q, t, ms', lo'), i' - i)
    decreases r, |s| - i, 0, |ms|
  {
    hide Ends, NoEdge, Over, Boundary;
    if ms != [] {
      hide EndsEach;
      var m := ms[0];
      var m' := ms'[0];
      assert m' == m - i + i';
      SubWindow(r, s, i, j, t, i', q, m, j);
      EndsInWindow(q, s, m, j, t, m');
      EndsEachInWindow(r, q, s, i, j, t, i', ms[1..], lo, ms'[1..], lo');
      EndsEachCons(q, s, ms, lo);
      EndsEachCons(q, t, ms', lo');
    }
  }

  /** Inside a closed window the engine makes the same choices in the same order. */
  lemma {:induction false} EndsInWindow(r: Re, s: string, i: nat, j: nat, t: string, i': nat)
    requires SameWindow(r, s, i, j, t, i') && Closed(r, s, j) && Closed(r, t, j - i + i')
    ensures Within(Ends(r, s, i), i, j)
    ensures Shifted(Ends(r, s, i), Ends(r, t, i'), i' - i)
    decreases r, |s| - i, 3
  {
    match r
    case Word(w, fold) => LiteralInWindow(r, s, i, j, t, i');
    case Sym(_) =>
    case Run(cls, n) => RunInWindow(r, s, i, j, t, i');
    case Edge =>
    case Alt(a, b) => AltEndsInWindow(r, a, b, s, i, j, t, i');
    case Cat(a, b) => CatEndsInWindow(r, a, b, s, i, j, t, i');
    case Star(a) => StarEndsInWindow(r, a, s, i, j, t, i');
  }

  lemma {:induction false} AltEndsInWindow(r: Re, a: Re, b: Re, s: string, i: nat, j: nat, t: string, i': nat)
    requires r == Alt(a, b)
    requires SameWindow(r, s, i, j, t, i') && Closed(r, s, j) && Closed(r, t, j - i + i')
    ensures Within(Ends(r, s, i), i, j)
    ensures Shifted(Ends(r, s, i), Ends(r, t, i'), i' - i)
    decreases r, |s| - i, 2
  {
    hide Ends, EndsEach, Boundary;
    AltEnds(a, b, s, i);
    AltEnds(a, b, t, i');
    SubWindow(r, s, i, j, t, i', a, i, j);
    SubWindow(r, s, i, j, t, i', b, i, j);
    EndsInWindow(a, s, i, j, t, i');
    EndsInWindow(b, s, i, j, t, i');
  }

  lemma {:induction false} CatEndsInWindow(r: Re, a: Re, b: Re, s: string, i: nat, j: nat, t: string, i': nat)
    requires r == Cat(a, b)
    requires SameWindow(r, s, i, j, t, i') && Closed(r, s, j) && Closed(r, t, j - i + i')
    ensures Within(Ends(r, s, i), i, j)
    ensures Shifted(Ends(r, s, i), Ends(r, t, i'), i' - i)
    decreases r, |s| - i, 2
  {
    hide Ends, EndsEach, Boundary;
    CatEnds(a, b, s, i);
    CatEnds(a, b, t, i');
    SubWindow(r, s, i, j, t, i', a, i, j);
    EndsInWindow(a, s, i, j, t, i');
    EndsEachInWindow(r, b, s, i, j, t, i', Ends(a, s, i), i, Ends(a, t, i'), i');
  }

  lemma {:induction false} StarEndsInWindow(r: Re, a: Re, s: string, i: nat, j: nat, t: string, i': nat)
    requires r == Star(a)
    requires SameWindow(r, s, i, j, t, i') && Closed(r, s, j) && Closed(r, t, j - i + i')
    ensures Within(Ends(r, s, i), i, j)
    ensures Shifted(Ends(r, s, i), Ends(r, t, i'), i' - i)
    decreases r, |s| - i, 2
  {
    hide Ends, EndsEach, Boundary, After, Over, NoEdge, Closed;
    StarBodyInWindow(r, a, s, i, j, t, i');
    var es, es' := Ends(a, s, i), Ends(a, t, i');
    ShiftedAfter(es, es', i, i');
    AfterWithin(es, i, j);
    AfterWithin(es', i', |t|);
    StarEnds(a, s, i);
    StarEnds(a, t, i');
    if i < j {
      StarRepeatsInWindow(r, s, i, j, t, i', After(es, i), After(es', i'));
    } else {
      if i < |s| { NoEndsEach(r, s, i + 1); }
      if i' < |t| { NoEndsEach(r, t, i' + 1); }
    }
  }

  lemma {:induction false} StarBodyInWindow(r: Re, a: Re, s: string, i: nat, j: nat, t: string, i': nat)
    requires r == Star(a)
    requires SameWindow(r, s, i, j, t, i') && Closed(r, s, j) && Closed(r, t, j - i + i')
    ensures Within(Ends(a, s, i), i, j)
    ensures Shifted(Ends(a, s, i), Ends(a, t, i'), i' - i)
    decreases r, |s| - i, 1
  {
    hide Ends, EndsEach, Boundary;
    SubWindow(r, s, i, j, t, i', a, i, j);
    EndsInWindow(a, s, i, j, t, i');
  }

  lemma {:induction false} StarRepeatsInWindow(r: Re, s: string, i: nat, j: nat, t: string, i': nat,
                                               ms: seq<nat>, ms': seq<nat>)
    requires i < j && SameWindow(r, s, i, j, t, i') && Closed(r, s, j) && Closed(r, t, j - i + i')
    requires Within(ms, i + 1, j) && Within(ms', i' + 1, |t|) && Shifted(ms, ms', i' - i)
    ensures Within(ms, i + 1, |s|)
    ensures Within(EndsEach(r, s, ms, i + 1) + [i], i, j)
    ensures Shifted(EndsEach(r, s, ms, i + 1) + [i], EndsEach(r, t, ms', i' + 1) + [i'], i' - i)
    decreases r, |s| - i, 1
  {
    hide Ends, EndsEach, Closed, Over, NoEdge, Boundary;
    EndsEachInWindow(r, r, s, i, j, t, i', ms, i + 1, ms', i' + 1);
    var es, es' := EndsEach(r, s, ms, i + 1), EndsEach(r, t, ms', i' + 1);
    WithinWeaken(es, i, j);
    ShiftedSnoc(es, es', i, i', j);
  }

  lemma WithinWeaken(ms: seq<nat>, i: nat, hi: nat)
    requires Within(ms, i + 1, hi)
    ensures Within(ms, i, hi)
  {
  }

  lemma NoEndsEach(r: Re, s: string, lo: nat)
    requires lo <= |s|
    ensures EndsEach(r, s, [], lo) == []
  {
  }

  lemma AfterWithin(ms: seq<nat>, i: nat, hi: nat)
    requires Within(ms, i, hi)
    ensures Within(After(ms, i), i + 1, hi)
    ensures hi <= i ==> After(ms, i) == []
  {
    var later := After(ms, i);
    assert later != [] ==> i < later[0] <= hi;
  }

  lemma ShiftedSnoc(es: seq<nat>, es': seq<nat>, i: nat, i': nat, hi: nat)
    requires Shifted(es, es', i' - i) && Within(es, i, hi) && i <= hi
    ensures Shifted(es + [i], es' + [i'], i' - i) && Within(es + [i], i, hi)
  {
  }

  lemma LiteralInWindow(r: Re, s: string, i: nat, j: nat, t: string, i': nat)
    requires r.Word? && SameWindow(r, s, i, j, t, i') && Closed(r, s, j) && Closed(r, t, j - i + i')
    ensures LiteralAt(r.w, r.fold, s, i) ==> i + |r.w| <= j && LiteralAt(r.w, r.fold, t, i')
    ensures LiteralAt(r.w, r.fold, t, i') ==> i + |r.w| <= j && LiteralAt(r.w, r.fold, s, i)
  {
    if LiteralAt(r.w, r.fold, s, i) {
      LiteralStays(r, s, i, j);
      forall k | 0 <= k < |r.w| ensures SameChar(r.fold, r.w[k], t[i' + k]) {
        assert SameChar(r.fold, r.w[k], s[i + k]);
      }
    }
    if LiteralAt(r.w, r.fold, t, i') {
      LiteralStays(r, t, i', j - i + i');
      forall k | 0 <= k < |r.w| ensures SameChar(r.fold, r.w[k], s[i + k]) {
        assert SameChar(r.fold, r.w[k], t[i' + k]);
        assert s[i + k] == t[i + k - i + i'];
      }
    }
  }

  lemma LiteralChar(r: Re, s: string, i: nat, k: nat)
    requires r.Word? && LiteralAt(r.w, r.fold, s, i) && k < |r.w|
    ensures Over(r, s[i + k])
  {
    assert SameChar(r.fold, r.w[k], s[i + k]);
  }

  lemma LiteralStays(r: Re, s: string, i: nat, j: nat)
    requires r.Word? && i <= j <= |s| && Closed(r, s, j) && LiteralAt(r.w, r.fold, s, i)
    ensures i + |r.w| <= j
  {
    if j < i + |r.w| { LiteralChar(r, s, i, j - i); }
  }

  lemma RunStays(r: Re, s: string, i: nat, j: nat)
    requires r.Run? && i <= j <= |s| && Closed(r, s, j) && RunAt(r.cls, r.n, s, i)
    ensures i + r.n <= j
  {
  }

  lemma RunInWindow(r: Re, s: string, i: nat, j: nat, t: string, i': nat)
    requires r.Run? && SameWindow(r, s, i, j, t, i') && Closed(r, s, j) && Closed(r, t, j - i + i')
    ensures RunAt(r.cls, r.n, s, i) ==> i + r.n <= j && RunAt(r.cls, r.n, t, i')
    ensures RunAt(r.cls, r.n, t, i') ==> i + r.n <= j && RunAt(r.cls, r.n, s, i)
  {
    if RunAt(r.cls, r.n, s, i) {
      RunStays(r, s, i, j);
      forall k | i' <= k < i' + r.n ensures In(r.cls, t[k]) {
        assert In(r.cls, s[k - i' + i]);
      }
    }
    if RunAt(r.cls, r.n, t, i') {
      RunStays(r, t, i', j - i + i');
      forall k | i <= k < i + r.n ensures In(r.cls, s[k]) {
        assert In(r.cls, t[k - i + i']);
      }
    }
  }

  // ---------------------------------------------------------------- scanning and replacing

  /** The leftmost start >= k of a match, or |s| + 1 if there is none. */
  function Find(r: Re, s: string, k: nat): (i: nat)
    requires k <= |s|
    ensures k <= i <= |s| + 1
    ensures i <= |s| ==> Ends(r, s, i) != []
    ensures forall m :: k <= m < i && m <= |s| ==> Ends(r, s, m) == []
    decreases |s| - k
  {
    if Ends(r, s, k) != [] then k else if k == |s| then |s| + 1 else Find(r, s, k + 1)
  }

  /** A text cut at its matches: gaps[0] toks[0] gaps[1] ... toks[n-1] gaps[n]. */
  datatype Pieces = Pieces(gaps: seq<string>, toks: seq<string>)

  lemma FirstEnd(r: Re, s: string, i: nat)
    requires i <= |s| && Ends(r, s, i) != [] && !Nullable(r)
    ensures i < Ends(r, s, i)[0] <= |s| && Matches(r, s, i, Ends(r, s, i)[0])
  {
    var e := Ends(r, s, i)[0];
    assert e in Ends(r, s, i);
    EndsAreMatches(r, s, i, e);
    if e == i { EmptyMatchIsNullable(r, s, i); }
  }

  /** The non-overlapping leftmost matches from position k on, and what lies between them. */
  function Cut(r: Re, s: string, k: nat): (c: Pieces)
    requires !Nullable(r) && k <= |s|
    ensures |c.gaps| == |c.toks| + 1
    decreases |s| - k
  {
    var i := Find(r, s, k);
    if i > |s| then Pieces([s[k..]], [])
    else
      FirstEnd(r, s, i);
      var j := Ends(r, s, i)[0];
      var rest := Cut(r, s, j);
      Pieces([s[k..i]] + rest.gaps, [s[i..j]] + rest.toks)
  }

  /** gaps[0] + sep + gaps[1] + sep + ... */
  function Join(gaps: seq<string>, sep: string): string
    requires gaps != []
  {
    if |gaps| == 1 then gaps[0] else gaps[0] + sep + Join(gaps[1..], sep)
  }

  /** gaps[0] + toks[0] + gaps[1] + toks[1] + ... */
  function Weave(gaps: seq<string>, toks: seq<string>): string
    requires |gaps| == |toks| + 1
  {
    if toks == [] then gaps[0] else gaps[0] + toks[0] + Weave(gaps[1..], toks[1..])
  }

  /** Cutting loses nothing: the pieces woven back together are the text. */
  lemma {:induction false} CutWeaves(r: Re, s: string, k: nat)
    requires !Nullable(r) && k <= |s|
    ensures Weave(Cut(r, s, k).gaps, Cut(r, s, k).toks) == s[k..]
    decreases |s| - k
  {
    hide Ends, EndsEach, Find;
    var i := Find(r, s, k);
    if i <= |s| {
      FirstEnd(r, s, i);
      var j := Ends(r, s, i)[0];
      CutWeaves(r, s, j);
      var c, rest := Cut(r, s, k), Cut(r, s, j);
      assert c.gaps[1..] == rest.gaps && c.toks[1..] == rest.toks;
      assert s[k..] == s[k..i] + s[i..j] + s[j..];
    }
  }

  /** What ReplaceAllStringFunc makes of the text from k on, and what it hands to the callback. */
  ghost predicate Replaces(r: Re, s: string, k: nat, repl: string, out: string, toks: seq<string>)
    requires !Nullable(r) && k <= |s|
  {
    out == Join(Cut(r, s, k).gaps, repl) && toks == Cut(r, s, k).toks
  }

  /** One step of the scan. */
  lemma CutStep(r: Re, s: string, k: nat, repl: string, out: string, toks: seq<string>)
      returns (j: nat, out': string, toks': seq<string>)
    requires !Nullable(r) && k <= |s| && Find(r, s, k) <= |s|
    requires Replaces(r, s, k, repl, out, toks)
    ensures Find(r, s, k) < j <= |s| && j == Ends(r, s, Find(r, s, k))[0]
    ensures Matches(r, s, Find(r, s, k), j)
    ensures Replaces(r, s, j, repl, out', toks')
    ensures out == s[k..Find(r, s, k)] + repl + out'
    ensures toks == [s[Find(r, s, k)..j]] + toks'
  {
    var i := Find(r, s, k);
    FirstEnd(r, s, i);
    j := Ends(r, s, i)[0];
    out', toks' := Join(Cut(r, s, j).gaps, repl), Cut(r, s, j).toks;
    assert Cut(r, s, k).gaps[1..] == Cut(r, s, j).gaps;
  }

  lemma Reassociate<T>(a: seq<T>, b: seq<T>, c: seq<T>, d: seq<T>)
    ensures a + (b + c + d) == a + b + c + d
    ensures c == [] ==> a + (b + d) == a + b + d
  {
  }

  /** ReplaceAllStringFunc with a constant replacement; `toks` is what the callback was given. */
  method ReplaceAll(r: Re, s: string, repl: string) returns (out: string, toks: seq<string>)
    requires !Nullable(r)
    ensures Replaces(r, s, 0, repl, out, toks)
  {
    out, toks := "", [];
    var k := 0;
    var i := Find(r, s, 0);
    ghost var restOut, restToks := Join(Cut(r, s, 0).gaps, repl), Cut(r, s, 0).toks;
    ghost var goalOut, goalToks := restOut, restToks;
    while i <= |s|
      invariant k <= |s| && i == Find(r, s, k)
      invariant Replaces(r, s, k, repl, restOut, restToks)
      invariant goalOut == out + restOut && goalToks == toks + restToks
      decreases |s| - k
    {
      ghost var j';
      j', restOut, restToks := CutStep(r, s, k, repl, restOut, restToks);
      var j := Ends(r, s, i)[0];
      Reassociate(out, s[k..i], repl, restOut);
      Reassociate(toks, [s[i..j]], [], restToks);
      out := out + s[k..i] + repl;
      toks := toks + [s[i..j]];
      k := j;
      i := Find(r, s, k);
    }
    out := out + s[k..];
  }
}
