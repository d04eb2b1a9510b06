/** Lines and surrounding white space: strings.Split on a newline and strings.TrimSpace. */
module Lines {

  /** unicode.IsSpace */
  predicate IsSpace(c: char) {
    var n := c as int;
    || 0x09 <= n <= 0x0D || n == 0x20 || n == 0x85 || n == 0xA0 || n == 0x1680
    || 0x2000 <= n <= 0x200A || n == 0x2028 || n == 0x2029 || n == 0x202F || n == 0x205F || n == 0x3000
  }

  function TrimLeft(s: string): string {
    if s != "" && IsSpace(s[0]) then TrimLeft(s[1..]) else s
  }

  function TrimRight(s: string): string {
    if s != "" && IsSpace(s[|s| - 1]) then TrimRight(s[..|s| - 1]) else s
  }

  /** strings.TrimSpace */
  function Trim(s: string): string { TrimRight(TrimLeft(s)) }

  /** The pieces between the newlines; there is always at least one. */
  function Split(s: string): (ls: seq<string>)
    ensures |ls| > 0
  {
    if s == "" then [""]
    else
      var ls := Split(s[1..]);
      if s[0] == '\n' then [""] + ls else [[s[0]] + ls[0]] + ls[1..]
  }

  /** Every line with its newline. */
  function Unsplit(ls: seq<string>): string {
    if ls == [] then "" else ls[0] + "\n" + Unsplit(ls[1..])
  }

  predicate NoNewline(s: string) { forall k :: 0 <= k < |s| ==> s[k] != '\n' }

  // ---------------------------------------------------------------- splitting

  lemma {:induction false} SplitSum(a: string, b: string)
    ensures Split(a + "\n" + b) == Split(a) + Split(b)
    decreases |a|
  {
    var s := a + "\n" + b;
    if a == "" {
      assert s[1..] == b;
    } else {
      assert s[1..] == a[1..] + "\n" + b;
      SplitSum(a[1..], b);
    }
  }

  lemma {:induction false} SplitLine(a: string)
    requires NoNewline(a)
    ensures Split(a) == [a]
  {
    if a != "" {
      SplitLine(a[1..]);
      assert [a[0]] + a[1..] == a;
    }
  }

  lemma {:induction false} SplitHasNoNewlines(s: string)
    ensures forall k :: 0 <= k < |Split(s)| ==> NoNewline(Split(s)[k])
  {
    if s != "" { SplitHasNoNewlines(s[1..]); }
  }

  lemma {:induction false} UnsplitOfSplit(s: string)
    ensures Unsplit(Split(s)) == s + "\n"
    decreases |s|
  {
    if s != "" {
      var ls, rest := Split(s), Split(s[1..]);
      UnsplitOfSplit(s[1..]);
      if s[0] == '\n' {
        assert ls[1..] == rest;
        assert s == "\n" + s[1..];
      } else {
        assert ls[1..] == rest[1..];
        assert Unsplit(ls) == [s[0]] + rest[0] + "\n" + Unsplit(rest[1..]);
        assert Unsplit(ls) == [s[0]] + (rest[0] + "\n" + Unsplit(rest[1..]));
        assert s == [s[0]] + s[1..];
      }
    }
  }

  lemma {:induction false} UnsplitSum(a: seq<string>, b: seq<string>)
    ensures Unsplit(a + b) == Unsplit(a) + Unsplit(b)
    decreases |a|
  {
    if a == [] {
      assert a + b == b;
    } else {
      assert (a + b)[1..] == a[1..] + b;
      UnsplitSum(a[1..], b);
      assert a[0] + "\n" + (Unsplit(a[1..]) + Unsplit(b)) == a[0] + "\n" + Unsplit(a[1..]) + Unsplit(b);
    }
  }

  lemma UnsplitOfLine(s: string)
    ensures Unsplit([s]) == s + "\n"
  {
    assert [s][1..] == [];
  }

  // ---------------------------------------------------------------- trimming

  predicate Blank(s: string) { forall k :: 0 <= k < |s| ==> IsSpace(s[k]) }

  lemma {:induction false} TrimLeftBlank(w: string, s: string)
    requires Blank(w)
    ensures TrimLeft(w + s) == TrimLeft(s)
    decreases |w|
  {
    if w == "" { assert w + s == s; } else {
      assert (w + s)[1..] == w[1..] + s;
      TrimLeftBlank(w[1..], s);
    }
  }

  lemma {:induction false} TrimRightBlank(s: string, w: string)
    requires Blank(w)
    ensures TrimRight(s + w) == TrimRight(s)
    decreases |w|
  {
    if w == "" { assert s + w == s; } else {
      assert (s + w)[..|s + w| - 1] == s + w[..|w| - 1];
      TrimRightBlank(s, w[..|w| - 1]);
    }
  }

  lemma {:induction false} TrimLeftKeepsEnd(s: string, w: string)
    requires Blank(w)
    ensures TrimRight(TrimLeft(s + w)) == TrimRight(TrimLeft(s))
    decreases |s|
  {
    if s == "" {
      assert s + w == w + "";
      TrimLeftBlank(w, "");
    } else if IsSpace(s[0]) {
      assert (s + w)[1..] == s[1..] + w;
      TrimLeftKeepsEnd(s[1..], w);
    } else {
      TrimRightBlank(s, w);
    }
  }

  /** White space around a text does not matter to Trim. */
  lemma TrimPadded(v: string, s: string, w: string)
    requires Blank(v) && Blank(w)
    ensures Trim(v + s + w) == Trim(s)
  {
    assert v + s + w == v + (s + w);
    TrimLeftBlank(v, s + w);
    TrimLeftKeepsEnd(s, w);
  }

  lemma {:induction false} TrimRightShape(s: string)
    ensures var t := TrimRight(s); t <= s && (t != "" ==> !IsSpace(t[|t| - 1]))
    decreases |s|
  {
    if s != "" && IsSpace(s[|s| - 1]) { TrimRightShape(s[..|s| - 1]); }
  }

  lemma {:induction false} TrimLeftShape(s: string)
    ensures var t := TrimLeft(s);
      |t| <= |s| && t == s[|s| - |t|..] && (t != "" ==> !IsSpace(t[0]))
  {
    if s != "" && IsSpace(s[0]) { TrimLeftShape(s[1..]); }
  }

  /** The result of Trim is a slice of the text, and trimmed. */
  lemma TrimIsTrimmed(s: string)
    ensures Trim(Trim(s)) == Trim(s)
    ensures NoNewline(s) ==> NoNewline(Trim(s))
  {
    TrimLeftShape(s);
    TrimRightShape(TrimLeft(s));
    var t := Trim(s);
    assert t != "" ==> t[0] == TrimLeft(s)[0];
    assert TrimLeft(t) == t && TrimRight(t) == t;
    if NoNewline(s) {
      assert forall k :: 0 <= k < |t| ==> t[k] == TrimLeft(s)[k] == s[|s| - |TrimLeft(s)| + k];
    }
  }

  /** How many characters are not white space. */
  function Ink(s: string): nat {
    if s == "" then 0 else (if IsSpace(s[0]) then 0 else 1) + Ink(s[1..])
  }

  lemma {:induction false} InkSum(a: string, b: string)
    ensures Ink(a + b) == Ink(a) + Ink(b)
    decreases |a|
  {
    if a == "" { assert a + b == b; } else {
      assert (a + b)[1..] == a[1..] + b;
      InkSum(a[1..], b);
    }
  }

  lemma {:induction false} InkOfTrimRight(s: string)
    ensures Ink(TrimRight(s)) == Ink(s)
    decreases |s|
  {
    if s != "" && IsSpace(s[|s| - 1]) {
      var w := [s[|s| - 1]];
      InkOfTrimRight(s[..|s| - 1]);
      assert s == s[..|s| - 1] + w;
      InkSum(s[..|s| - 1], w);
      assert w[1..] == "";
    }
  }

  lemma {:induction false} InkOfTrim(s: string)
    ensures Ink(Trim(s)) == Ink(s)
  {
    if s != "" && IsSpace(s[0]) { InkOfTrim(s[1..]); } else { InkOfTrimRight(s); }
  }

  lemma {:induction false} InkOfBlank(s: string)
    ensures Ink(s) == 0 <==> Blank(s)
  {
    if s != "" {
      InkOfBlank(s[1..]);
      assert forall k :: 0 < k < |s| ==> s[k] == s[1..][k - 1];
      assert forall k :: 0 <= k < |s| - 1 ==> s[1..][k] == s[k + 1];
    }
  }
}
