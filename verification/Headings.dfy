/** The forms of headings, fences and trimmed texts, said without the parser's own functions; and what
    the parser makes of a registry, said with these. */
module Headings {
  import opened Text
  import opened Lines
  import opened Lessons
  import opened LessonLaws
  import opened RoundTrip
  import opened Numerals

  // ---------------------------------------------------------------- white space

  /** White space in Unicode's sense, by code point. */
  predicate White(c: char) {
    c as int in {9, 10, 11, 12, 13, 32, 133, 160, 5760, 8192, 8193, 8194, 8195, 8196, 8197, 8198, 8199, 8200,
                 8201, 8202, 8232, 8233, 8239, 8287, 12288}
  }

  predicate AllWhite(s: string) { forall k :: 0 <= k < |s| ==> White(s[k]) }

  /** t is s without the white space around it. */
  ghost predicate Stripped(s: string, t: string) {
    && (exists v, w :: AllWhite(v) && AllWhite(w) && s == v + t + w)
    && (t != "" ==> !White(t[0]) && !White(t[|t| - 1]))
  }

  lemma SpaceIsWhite(c: char)
    ensures IsSpace(c) <==> White(c)
  {
  }

  lemma WhiteIsBlank(s: string)
    ensures AllWhite(s) <==> Blank(s)
  {
    forall c ensures IsSpace(c) <==> White(c) { SpaceIsWhite(c); }
  }

  lemma {:induction false} TrimLeftCuts(s: string)
    ensures exists v :: Blank(v) && s == v + TrimLeft(s)
  {
    if s != "" && IsSpace(s[0]) {
      TrimLeftCuts(s[1..]);
      var v :| Blank(v) && s[1..] == v + TrimLeft(s[1..]);
      assert Blank([s[0]] + v) && s == [s[0]] + v + TrimLeft(s);
    } else {
      assert Blank("") && s == "" + TrimLeft(s);
    }
  }

  lemma {:induction false} TrimRightCuts(s: string)
    ensures exists w :: Blank(w) && s == TrimRight(s) + w
    decreases |s|
  {
    if s != "" && IsSpace(s[|s| - 1]) {
      var n := |s| - 1;
      TrimRightCuts(s[..n]);
      var w :| Blank(w) && s[..n] == TrimRight(s[..n]) + w;
      assert Blank(w + [s[n]]) && s == TrimRight(s) + (w + [s[n]]);
    } else {
      assert Blank("") && s == TrimRight(s) + "";
    }
  }

  lemma TrimStrips(s: string)
    ensures Stripped(s, Trim(s))
  {
    var t := Trim(s);
    TrimLeftCuts(s);
    TrimRightCuts(TrimLeft(s));
    TrimLeftShape(s);
    TrimRightShape(TrimLeft(s));
    hide TrimLeft, TrimRight;
    var v :| Blank(v) && s == v + TrimLeft(s);
    var w :| Blank(w) && TrimLeft(s) == t + w;
    WhiteIsBlank(v);
    WhiteIsBlank(w);
    assert s == v + t + w;
    if t != "" {
      assert t[0] == TrimLeft(s)[0];
      SpaceIsWhite(t[0]);
      SpaceIsWhite(t[|t| - 1]);
    }
  }

  /** Only one text is that. */
  lemma StrippedIsTrim(s: string, t: string)
    ensures Stripped(s, t) <==> t == Trim(s)
  {
    TrimStrips(s);
    if Stripped(s, t) {
      var v, w :| AllWhite(v) && AllWhite(w) && s == v + t + w;
      WhiteIsBlank(v);
      WhiteIsBlank(w);
      TrimPadded(v, t, w);
      if t != "" {
        SpaceIsWhite(t[0]);
        SpaceIsWhite(t[|t| - 1]);
      }
      assert TrimLeft(t) == t && TrimRight(t) == t;
    }
  }

  // ---------------------------------------------------------------- headings and fences

  /** `## Lesson `, one figure or more, a colon, and anything. */
  predicate HeadForm(line: string, ds: string, t: string) {
    ds != "" && AllFigures(ds) && line == "## Lesson " + ds + ":" + t
  }

  ghost predicate HeadLine(line: string) { exists ds, t :: HeadForm(line, ds, t) }

  lemma HeadingOpens(line: string)
    requires HeadingOf(line).Some?
    ensures HeadLine(line)
  {
    var j := DigitsEnd(line, |HEAD|);
    var ds, t := line[|HEAD|..j], line[j + 1..];
    forall k | 0 <= k < |ds| ensures '0' <= ds[k] <= '9' { assert IsDigit(line[|HEAD| + k]); }
    assert line == line[..|HEAD|] + ds + [line[j]] + t;
    assert HeadForm(line, ds, t);
  }

  /** A line is a heading exactly if it has that form. */
  lemma HeadingIff(line: string)
    ensures HeadingOf(line).Some? <==> HeadLine(line)
  {
    if HeadingOf(line).Some? { HeadingOpens(line); }
    if HeadLine(line) {
      var ds, t :| HeadForm(line, ds, t);
      assert forall k :: 0 <= k < |ds| ==> IsDigit(ds[k]);
      HeadingIs(ds, t);
    }
  }

  /** Number and title: the value of the figures, at most the largest 64-bit integer, and the rest
      without the white space around it. */
  lemma HeadingSays(line: string, ds: string, t: string)
    requires HeadForm(line, ds, t)
    ensures HeadingOf(line).Some?
    ensures var h := HeadingOf(line).value;
      && h.number == (if Places(ds) <= 9_223_372_036_854_775_807 then Places(ds) else 9_223_372_036_854_775_807)
      && Stripped(t, h.title)
  {
    ValueIsPlaces(ds);
    HeadingIs(ds, t);
    TrimStrips(t);
  }

  ghost predicate FenceLine(line: string) { exists v, t :: AllWhite(v) && line == v + "```" + t }

  lemma FenceIff(line: string)
    ensures IsFence(line) <==> FenceLine(line)
  {
    if IsFence(line) { FenceOpens(line); }
    if FenceLine(line) {
      var v, t :| AllWhite(v) && line == v + "```" + t;
      WhiteIsBlank(v);
      FenceTrims(v, t);
      assert line == v + ("```" + t);
    }
  }

  lemma FenceOpens(line: string)
    requires IsFence(line)
    ensures FenceLine(line)
  {
    TrimStrips(line);
    var trimmed := Trim(line);
    hide Trim, AllWhite;
    var v, w :| AllWhite(v) && AllWhite(w) && line == v + trimmed + w;
    var t := trimmed[3..] + w;
    assert trimmed == "```" + trimmed[3..];
    assert line == v + "```" + t;
  }

  lemma FenceTrims(v: string, t: string)
    requires Blank(v)
    ensures "```" <= Trim(v + ("```" + t))
  {
    var s := "```" + t;
    TrimLeftBlank(v, s);
    assert s[0] == '`' && TrimLeft(s) == s;
    TrimRightKeepsPrefix("```", t);
  }

  lemma {:induction false} TrimRightKeepsPrefix(u: string, t: string)
    requires u != "" && !IsSpace(u[|u| - 1])
    ensures u <= TrimRight(u + t)
    decreases |t|
  {
    var s := u + t;
    if t != "" && IsSpace(s[|s| - 1]) {
      assert s[..|s| - 1] == u + t[..|t| - 1];
      TrimRightKeepsPrefix(u, t[..|t| - 1]);
    } else {
      assert TrimRight(s) == s;
    }
  }

  /** How many of the first k lines are fences. */
  ghost function FencesBefore(lines: seq<string>, k: nat): nat
    requires k <= |lines|
  {
    if k == 0 then 0 else FencesBefore(lines, k - 1) + if FenceLine(lines[k - 1]) then 1 else 0
  }

  lemma {:induction false} FencedSnoc(lines: seq<string>, line: string, fenced: bool)
    ensures Fenced(lines + [line], fenced) == (Fenced(lines, fenced) != IsFence(line))
    decreases |lines|
  {
    var more := lines + [line];
    if lines == [] {
      assert more[1..] == [];
    } else {
      assert more[1..] == lines[1..] + [line];
      FencedSnoc(lines[1..], line, fenced != IsFence(lines[0]));
    }
  }

  lemma {:induction false} FencedIsOdd(lines: seq<string>, k: nat)
    requires k <= |lines|
    ensures Fenced(lines[..k], false) <==> FencesBefore(lines, k) % 2 == 1
    decreases k
  {
    if k > 0 {
      FencedIsOdd(lines, k - 1);
      FenceIff(lines[k - 1]);
      FencedSnoc(lines[..k - 1], lines[k - 1], false);
      assert lines[..k] == lines[..k - 1] + [lines[k - 1]];
    }
  }

  // ---------------------------------------------------------------- what Parse yields

  /** A lesson begins at line k: a heading behind an even number of fence lines. */
  ghost predicate Begins(lines: seq<string>, k: nat)
    requires k < |lines|
  {
    HeadLine(lines[k]) && FencesBefore(lines, k) % 2 == 0
  }

  /** The lesson that begins at line k and whose own lines end before line `end`. */
  ghost predicate LessonAt(lines: seq<string>, k: nat, end: nat, l: Lesson)
    requires k < end <= |lines|
  {
    exists ds, t :: HeadForm(lines[k], ds, t)
      && l.number == (if Places(ds) <= 9_223_372_036_854_775_807 then Places(ds) else 9_223_372_036_854_775_807)
      && Stripped(t, l.title)
      && Stripped(Unsplit(lines[k + 1..end]), l.body)
  }

  /** The lines in `at` are exactly those at which a lesson begins, in order. */
  ghost predicate Beginnings(lines: seq<string>, at: seq<nat>) {
    && (forall i :: 0 <= i < |at| ==> at[i] < |lines|)
    && (forall i, j :: 0 <= i < j < |at| ==> at[i] < at[j])
    && (forall k :: 0 <= k < |lines| ==> (k in at <==> Begins(lines, k)))
  }

  function EndOf(lines: seq<string>, at: seq<nat>, i: nat): nat
    requires i < |at|
  {
    if i + 1 < |at| then at[i + 1] else |lines|
  }

  function Starts(o: Outline, n: nat): (at: seq<nat>)
    requires n <= |o.secs|
    ensures |at| == n && forall i :: 0 <= i < n ==> at[i] == Start(o, i)
  {
    seq(n, i requires 0 <= i < n => Start(o, i))
  }

  lemma {:induction false} StartsRise(o: Outline, i: nat, j: nat)
    requires i < j < |o.secs|
    ensures Start(o, i) + 1 + |o.secs[i].body| <= Start(o, j)
    decreases j
  {
    if i < j - 1 { StartsRise(o, i, j - 1); }
  }

  /** The sections from the i-th on are the last lines. */
  lemma {:induction false} LinesFrom(o: Outline, lines: seq<string>, i: nat)
    requires o.pre + Flatten(o.secs) == lines && i < |o.secs|
    ensures Start(o, i) <= |lines| && lines[Start(o, i)..] == Flatten(o.secs[i..])
    decreases i
  {
    if i == 0 {
      assert o.secs[0..] == o.secs;
    } else {
      LinesFrom(o, lines, i - 1);
      var sec := o.secs[i - 1];
      assert o.secs[i - 1..][1..] == o.secs[i..];
      assert Flatten(o.secs[i - 1..]) == [sec.head] + sec.body + Flatten(o.secs[i..]);
      assert lines[Start(o, i)..] == lines[Start(o, i - 1)..][1 + |sec.body|..];
    }
  }

  lemma HeadAndBody(lines: seq<string>, k: nat, head: string, body: seq<string>, tail: seq<string>)
    requires k <= |lines| && lines[k..] == [head] + body + tail
    ensures |lines| == k + 1 + |body| + |tail| && lines[k] == head && lines[k + 1..k + 1 + |body|] == body
  {
    var rest := lines[k..];
    assert lines[k] == rest[0] && lines[k + 1..k + 1 + |body|] == rest[1..1 + |body|];
  }

  lemma BodyInPlace(o: Outline, lines: seq<string>, i: nat)
    requires o.pre + Flatten(o.secs) == lines && i < |o.secs|
    ensures var k := Start(o, i);
      var end := if i + 1 < |o.secs| then Start(o, i + 1) else |lines|;
      && k < end <= |lines| && lines[k] == o.secs[i].head && lines[k + 1..end] == o.secs[i].body
  {
    var sec, k := o.secs[i], Start(o, i);
    LinesFrom(o, lines, i);
    assert o.secs[i..][1..] == o.secs[i + 1..];
    var tail := Flatten(o.secs[i + 1..]);
    assert lines[k..] == [sec.head] + sec.body + tail;
    HeadAndBody(lines, k, sec.head, sec.body, tail);
    if i + 1 == |o.secs| { assert tail == []; } else { LinesFrom(o, lines, i + 1); }
  }

  lemma StartsAreBeginnings(lines: seq<string>)
    ensures var o := Sections(lines, false);
      o.pre + Flatten(o.secs) == lines && Beginnings(lines, Starts(o, |o.secs|))
  {
    var o := Sections(lines, false);
    SectionsAreExact(lines, false);
    hide HeadingOf, Fenced, Start, HeadLine, Sections;
    var at := Starts(o, |o.secs|);
    forall i, j | 0 <= i < j < |at| ensures at[i] < at[j] { StartsRise(o, i, j); }
    forall k | 0 <= k < |lines| ensures k in at <==> Begins(lines, k) {
      HeadingIff(lines[k]);
      FencedIsOdd(lines, k);
      assert HeadsLesson(lines, false, k) <==> StartsAt(o, k);
      if StartsAt(o, k) { var i: nat :| i < |o.secs| && Start(o, i) == k; assert at[i] == k; }
    }
  }

  lemma SectionIsLesson(lines: seq<string>, k: nat, end: nat, sec: Section)
    requires k < end <= |lines| && lines[k] == sec.head && lines[k + 1..end] == sec.body && HeadingOf(sec.head).Some?
    ensures LessonAt(lines, k, end, LessonOf(sec))
  {
    HeadingIff(sec.head);
    var ds, t :| HeadForm(sec.head, ds, t);
    HeadingSays(sec.head, ds, t);
    TrimStrips(Unsplit(sec.body));
  }

  /** The parser yields one lesson for each heading line behind an even number of fence lines, and for no
      other line: its number and title are the heading's, its body the lines up to the next such heading,
      without the white space around them. */
  lemma ParseIsExact(markdown: string) returns (at: seq<nat>)
    ensures var lines, ls := Split(markdown), Parsed(markdown);
      && Beginnings(lines, at) && |ls| == |at|
      && forall i :: 0 <= i < |at| ==> at[i] < EndOf(lines, at, i) <= |lines| && LessonAt(lines, at[i], EndOf(lines, at, i), ls[i])
  {
    var lines := Split(markdown);
    var o := Sections(lines, false);
    StartsAreBeginnings(lines);
    at := Starts(o, |o.secs|);
    var ls := LessonsOf(o.secs);
    hide Beginnings, HeadingOf, LessonAt, Start, Sections, LessonOf, Flatten, EndOf;
    forall i | 0 <= i < |at|
      ensures at[i] < EndOf(lines, at, i) <= |lines| && LessonAt(lines, at[i], EndOf(lines, at, i), ls[i])
    {
      SectionStands(lines, o, at, i);
    }
  }

  lemma SectionStands(lines: seq<string>, o: Outline, at: seq<nat>, i: nat)
    requires o.pre + Flatten(o.secs) == lines && at == Starts(o, |o.secs|) && i < |at| && HeadingOf(o.secs[i].head).Some?
    ensures at[i] < EndOf(lines, at, i) <= |lines| && LessonAt(lines, at[i], EndOf(lines, at, i), LessonOf(o.secs[i]))
  {
    hide HeadingOf, LessonAt, Start, LessonOf, Flatten;
    BodyInPlace(o, lines, i);
    SectionIsLesson(lines, at[i], EndOf(lines, at, i), o.secs[i]);
  }
}
