/** Printing what was parsed and parsing it again: on which registries that changes nothing. */
module Reparsing {
  import opened Text
  import opened Lines
  import opened Lessons
  import opened LessonLaws
  import opened Printing
  import opened RoundTrip

  // ---------------------------------------------------------------- the condition

  /** The first line that is not blank. */
  function FirstInked(lines: seq<string>): Option<string> {
    if lines == [] then None else if !Blank(lines[0]) then Some(lines[0]) else FirstInked(lines[1..])
  }

  /** The first line with anything on it, moved to the margin, is a heading. */
  predicate HidesHeading(body: seq<string>) {
    match FirstInked(body)
    case None => false
    case Some(line) => HeadingOf(TrimLeft(line)).Some?
  }

  // ---------------------------------------------------------------- what sections are made of

  predicate OneLiners(lines: seq<string>) { forall k :: 0 <= k < |lines| ==> NoNewline(lines[k]) }

  /** No heading outside a fence among these lines. */
  ghost predicate Calm(lines: seq<string>, fenced: bool) { Sections(lines, fenced).secs == [] && OneLiners(lines) }

  ghost predicate AllCalm(o: Outline, fenced: bool) {
    && Calm(o.pre, fenced) && (o.secs != [] ==> !Fenced(o.pre, fenced))
    && forall i :: 0 <= i < |o.secs| ==>
         Calm(o.secs[i].body, false) && (i < |o.secs| - 1 ==> !Fenced(o.secs[i].body, false))
  }

  lemma CalmHeading(line: string, r: Outline)
    requires AllCalm(r, false)
    ensures AllCalm(Outline([], [Section(line, r.pre)] + r.secs), false)
  {
    hide Calm;
    var o := Outline([], [Section(line, r.pre)] + r.secs);
    CalmNothing(false);
    forall i | 0 <= i < |o.secs|
      ensures Calm(o.secs[i].body, false) && (i < |o.secs| - 1 ==> !Fenced(o.secs[i].body, false))
    {
      if i > 0 { assert o.secs[i] == r.secs[i - 1]; }
    }
  }

  lemma CalmNothing(fenced: bool)
    ensures Calm([], fenced)
  {
  }

  lemma CalmLine(line: string, r: Outline, fenced: bool)
    requires AllCalm(r, fenced != IsFence(line)) && NoNewline(line)
    requires fenced || IsFence(line) || HeadingOf(line).None?
    ensures AllCalm(Outline([line] + r.pre, r.secs), fenced)
  {
    hide HeadingOf, IsFence, NoNewline;
    var pre := [line] + r.pre;
    assert pre[1..] == r.pre;
    assert Sections(pre, fenced).secs == [];
    assert forall k :: 0 < k < |pre| ==> pre[k] == r.pre[k - 1];
  }

  /** The lines of a section hold no heading of their own, and close their fences before the next. */
  lemma {:induction false} SectionsAreCalm(lines: seq<string>, fenced: bool)
    requires OneLiners(lines)
    ensures AllCalm(Sections(lines, fenced), fenced)
    decreases |lines|
  {
    if lines != [] {
      var line, rest := lines[0], lines[1..];
      var f := fenced != IsFence(line);
      SectionsAreCalm(rest, f);
      if HeadingOf(line).Some? { HeadingIsNoFence(line); }
      hide HeadingOf, IsFence, AllCalm;
      var r := Sections(rest, f);
      if !fenced && HeadingOf(line).Some? {
        CalmHeading(line, r);
      } else {
        CalmLine(line, r, fenced);
      }
    }
  }

  // ---------------------------------------------------------------- headings and fences under trimming

  /** A heading stays one when more follows on the line. */
  lemma HeadingGrows(t: string, line: string)
    requires t <= line && HeadingOf(t).Some?
    ensures HeadingOf(line).Some?
  {
    var j := DigitsEnd(t, |HEAD|);
    assert forall k :: 0 <= k < |t| ==> line[k] == t[k];
    assert HEAD <= line;
    assert DigitsEnd(line, |HEAD|) == j;
  }

  /** A heading stays one when blanks behind it go. */
  lemma HeadingShrinks(t: string, line: string)
    requires t <= line && Blank(line[|t|..]) && HeadingOf(line).Some?
    ensures HeadingOf(t).Some?
  {
    var j := DigitsEnd(line, |HEAD|);
    assert line[j] == ':' && !IsSpace(':');
    assert forall k :: |t| <= k < |line| ==> line[|t|..][k - |t|] == line[k];
    assert j < |t|;
    assert forall k :: 0 <= k < |t| ==> line[k] == t[k];
    assert HEAD <= t by { assert t[..|HEAD|] == line[..|HEAD|] == HEAD; }
    assert DigitsEnd(t, |HEAD|) == j;
  }

  lemma {:induction false} TrimRightSplit(s: string)
    ensures TrimRight(s) <= s && Blank(s[|TrimRight(s)|..])
    decreases |s|
  {
    if s != "" && IsSpace(s[|s| - 1]) {
      var t := s[..|s| - 1];
      TrimRightSplit(t);
      var n := |TrimRight(s)|;
      assert forall k :: n <= k < |s| ==> s[n..][k - n] == s[k];
      assert forall k :: n <= k < |t| ==> t[n..][k - n] == s[k];
    }
  }

  lemma {:induction false} TrimLeftSplit(s: string)
    ensures var n := |s| - |TrimLeft(s)|; n >= 0 && s[n..] == TrimLeft(s) && Blank(s[..n])
  {
    if s != "" && IsSpace(s[0]) {
      TrimLeftSplit(s[1..]);
      var n := |s| - |TrimLeft(s)|;
      assert s[..n] == [s[0]] + s[1..][..n - 1];
    }
  }

  /** Heads and fences like another line. */
  ghost predicate Alike(a: string, b: string) {
    IsFence(a) == IsFence(b) && HeadingOf(a).Some? == HeadingOf(b).Some?
  }

  lemma TrimRightAlike(line: string)
    ensures Alike(TrimRight(line), line)
  {
    var t := TrimRight(line);
    TrimRightSplit(line);
    if HeadingOf(t).Some? { HeadingGrows(t, line); }
    if HeadingOf(line).Some? { HeadingShrinks(t, line); }
    assert line == "" + t + line[|t|..];
    TrimPadded("", t, line[|t|..]);
  }

  lemma TrimLeftFence(line: string)
    ensures IsFence(TrimLeft(line)) == IsFence(line)
  {
    var t, n := TrimLeft(line), |line| - |TrimLeft(line)|;
    TrimLeftSplit(line);
    assert line == line[..n] + t + "";
    TrimPadded(line[..n], t, "");
  }

  lemma BlankIsNothing(line: string)
    requires Blank(line)
    ensures !IsFence(line) && HeadingOf(line) == None
  {
    assert line == "" + "" + line;
    TrimPadded("", "", line);
    assert HEAD[0] == '#';
    assert line != "" ==> line[0] != '#';
  }

  // ---------------------------------------------------------------- the body of one section

  /** Of the trimmed body's lines: where its fences end, and that a hidden heading comes out. */
  ghost predicate Tells(lines: seq<string>, t: string) {
    && (Sections(Split(t), false).secs == [] <==> !HidesHeading(lines))
    && EndsFenced(t) == Fenced(lines, false)
  }

  lemma {:induction false} LastAlike(mid: seq<string>, a: string, b: string, fenced: bool)
    requires Alike(a, b)
    ensures Sections(mid + [a], fenced).secs == [] <==> Sections(mid + [b], fenced).secs == []
    ensures Fenced(mid + [a], fenced) == Fenced(mid + [b], fenced)
    decreases |mid|
  {
    hide IsFence, HeadingOf;
    if mid == [] {
      assert [] + [a] == [a] && [] + [b] == [b] && [a][1..] == [] && [b][1..] == [];
    } else {
      assert (mid + [a])[1..] == mid[1..] + [a] && (mid + [b])[1..] == mid[1..] + [b];
      LastAlike(mid[1..], a, b, fenced != IsFence(mid[0]));
    }
  }

  /** The first line of what is left decides. */
  lemma FirstDecides(line: string, rest: seq<string>)
    requires Sections([line] + rest, false).secs == []
    ensures var lines := [TrimLeft(line)] + rest;
      && (Sections(lines, false).secs == [] <==> HeadingOf(TrimLeft(line)).None?)
      && Fenced(lines, false) == Fenced([line] + rest, false)
  {
    var t := TrimLeft(line);
    TrimLeftFence(line);
    if HeadingOf(t).Some? { HeadingIsNoFence(t); }
    hide IsFence, HeadingOf, TrimLeft;
    assert ([line] + rest)[1..] == rest && ([t] + rest)[1..] == rest;
  }

  /** A text that begins and ends in ink is trimmed. */
  lemma InkedIsTrimmed(s: string)
    requires s != "" && !IsSpace(s[0]) && !IsSpace(s[|s| - 1])
    ensures Trim(s) == s
  {
  }

  lemma OneLine(line: string)
    requires NoNewline(line) && !Blank(line) && Calm([line], false)
    ensures Tells([line], Trim(Unsplit([line])))
  {
    var t := TrimRight(TrimLeft(line));
    OneLineText(line);
    TrimIsTrimmed(line);
    SplitLine(t);
    hide TrimLeft, TrimRight, HeadingOf, IsFence, Sections, Fenced, Split, Blank;
    OneLineSections(line);
    assert FirstInked([line]) == Some(line);
  }

  lemma OneLineSections(line: string)
    requires Sections([line], false).secs == []
    ensures var t := TrimRight(TrimLeft(line));
      && (Sections([t], false).secs == [] <==> HeadingOf(TrimLeft(line)).None?)
      && Fenced([t], false) == Fenced([line], false)
  {
    hide TrimLeft, TrimRight, HeadingOf, IsFence, Sections, Fenced;
    var l := TrimLeft(line);
    TrimRightAlike(l);
    assert [line] + [] == [line] && [l] + [] == [l];
    FirstDecides(line, []);
    assert [] + [TrimRight(l)] == [TrimRight(l)] && [] + [l] == [l];
    LastAlike([], TrimRight(l), l, false);
  }

  lemma OneLineText(line: string)
    ensures Trim(Unsplit([line])) == TrimRight(TrimLeft(line))
  {
    UnsplitOfLine(line);
    TrimPadded("", line, "\n");
    assert "" + line + "\n" == line + "\n";
  }

  /** What is left of lines whose first and last have something on them. */
  lemma TrimmedText(first: string, mid: seq<string>, last: string)
    requires !Blank(first) && !Blank(last)
    ensures Trim(Unsplit([first] + mid + [last])) == TrimLeft(first) + "\n" + (Unsplit(mid) + TrimRight(last))
  {
    hide *;
    var a, b, m := TrimLeft(first), TrimRight(last), Unsplit(mid);
    Margins(first);
    Margins(last);
    UnsplitAll(first, mid, last);
    var v, w := first[..|first| - |a|], last[|b|..];
    TrimmedCore(v, a, m, b, w);
    assert first == v + a && last == b + w;
  }

  lemma TrimmedCore(v: string, a: string, m: string, b: string, w: string)
    requires Blank(v) && Blank(w) && a != "" && !IsSpace(a[0]) && b != "" && !IsSpace(b[|b| - 1])
    ensures Trim((v + a) + "\n" + m + ((b + w) + "\n")) == a + "\n" + (m + b)
  {
    var core := a + "\n" + (m + b);
    hide Trim;
    assert (v + a) + "\n" + m + ((b + w) + "\n") == v + core + (w + "\n");
    BlankSum(w, "\n");
    assert IsSpace('\n');
    TrimPadded(v, core, w + "\n");
    assert core[0] == a[0] && core[|core| - 1] == b[|b| - 1];
    InkedIsTrimmed(core);
  }

  lemma UnsplitAll(first: string, mid: seq<string>, last: string)
    ensures Unsplit([first] + mid + [last]) == first + "\n" + Unsplit(mid) + (last + "\n")
  {
    UnsplitSum([first] + mid, [last]);
    UnsplitSum([first], mid);
    UnsplitOfLine(first);
    UnsplitOfLine(last);
  }

  lemma CutBefore(line: string, a: string)
    requires |a| <= |line| && a == line[|line| - |a|..]
    ensures line == line[..|line| - |a|] + a
  {
  }

  lemma CutBehind(line: string, b: string)
    requires b <= line
    ensures line == b + line[|b|..]
  {
  }

  /** Where trimming cuts a line with something on it. */
  lemma Margins(line: string)
    requires !Blank(line)
    ensures var a, b := TrimLeft(line), TrimRight(line);
      && a != "" && !IsSpace(a[0]) && |a| <= |line| && Blank(line[..|line| - |a|]) && line == line[..|line| - |a|] + a
      && b != "" && !IsSpace(b[|b| - 1]) && |b| <= |line| && Blank(line[|b|..]) && line == b + line[|b|..]
  {
    hide TrimLeft, TrimRight;
    Inked(line);
    TrimLeftSplit(line);
    TrimRightSplit(line);
    TrimLeftShape(line);
    TrimRightShape(line);
    CutBefore(line, TrimLeft(line));
    CutBehind(line, TrimRight(line));
  }

  lemma Inked(line: string)
    ensures !Blank(line) ==> TrimLeft(line) != "" && TrimRight(line) != ""
  {
    TrimLeftSplit(line);
    TrimRightSplit(line);
    if TrimLeft(line) == "" { assert line[..|line|] == line; }
    if TrimRight(line) == "" { assert line[0..] == line; }
  }

  lemma FirstIsFirst(line: string, rest: seq<string>)
    requires !Blank(line)
    ensures FirstInked([line] + rest) == Some(line)
  {
  }

  lemma ManyLines(first: string, mid: seq<string>, last: string)
    requires OneLiners([first] + mid + [last]) && !Blank(first) && !Blank(last) && Calm([first] + mid + [last], false)
    ensures var lines := [first] + mid + [last]; Tells(lines, Trim(Unsplit(lines)))
  {
    hide Trim, TrimLeft, TrimRight, HeadingOf, IsFence, Blank, Split, Unsplit, Sections, Fenced;
    var lines, a, b := [first] + mid + [last], TrimLeft(first), TrimRight(last);
    TrimmedText(first, mid, last);
    TrimRightAlike(last);
    LinesOfTrimmed(first, mid, last);
    assert lines == [first] + (mid + [last]);
    FirstDecides(first, mid + [last]);
    assert [a] + (mid + [last]) == ([a] + mid) + [last];
    LastAlike([a] + mid, b, last, false);
    FirstIsFirst(first, mid + [last]);
  }

  lemma LinesOfTrimmed(first: string, mid: seq<string>, last: string)
    requires OneLiners([first] + mid + [last])
    ensures Split(TrimLeft(first) + "\n" + (Unsplit(mid) + TrimRight(last))) == [TrimLeft(first)] + mid + [TrimRight(last)]
  {
    var a, b, lines := TrimLeft(first), TrimRight(last), [first] + mid + [last];
    assert lines[0] == first && lines[|lines| - 1] == last;
    assert forall k :: 0 <= k < |mid| ==> mid[k] == lines[k + 1];
    TrimLeftSplit(first);
    TrimRightSplit(last);
    assert NoNewline(a) && NoNewline(b);
    hide TrimLeft, TrimRight;
    SplitSum(a, Unsplit(mid) + b);
    SplitLine(a);
    SplitUnsplit(mid, b);
    assert [a] + (mid + [b]) == [a] + mid + [b];
  }

  lemma NothingUnsplit()
    ensures Unsplit([]) == ""
  {
  }

  lemma UnsplitCons(lines: seq<string>)
    requires lines != []
    ensures Unsplit(lines) == lines[0] + "\n" + Unsplit(lines[1..])
  {
  }

  lemma {:induction false} SplitUnsplit(mid: seq<string>, b: string)
    requires OneLiners(mid) && NoNewline(b)
    ensures Split(Unsplit(mid) + b) == mid + [b]
    decreases |mid|
  {
    hide Split, Unsplit;
    if mid == [] {
      SplitLine(b);
      NothingUnsplit();
      assert "" + b == b && [] + [b] == [b];
    } else {
      var rest := Unsplit(mid[1..]) + b;
      UnsplitCons(mid);
      assert mid[0] + "\n" + Unsplit(mid[1..]) + b == mid[0] + "\n" + rest;
      SplitSum(mid[0], rest);
      SplitLine(mid[0]);
      SplitUnsplit(mid[1..], b);
      assert [mid[0]] + (mid[1..] + [b]) == mid + [b];
    }
  }

  // ---------------------------------------------------------------- blank lines at either end

  lemma DropFirst(lines: seq<string>)
    requires lines != [] && Blank(lines[0]) && Calm(lines, false)
    ensures Calm(lines[1..], false)
    ensures forall t :: Tells(lines[1..], t) ==> Tells(lines, t)
    ensures Trim(Unsplit(lines)) == Trim(Unsplit(lines[1..]))
  {
    BlankIsNothing(lines[0]);
    var x, y := lines[0] + "\n", Unsplit(lines[1..]);
    TrimPadded(x, y, "");
    assert x + y + "" == Unsplit(lines);
  }

  lemma DropLast(init: seq<string>, last: string)
    requires init != [] && !Blank(init[0]) && Blank(last) && Calm(init + [last], false)
    ensures Calm(init, false)
    ensures forall t :: Tells(init, t) ==> Tells(init + [last], t)
    ensures Trim(Unsplit(init + [last])) == Trim(Unsplit(init))
  {
    BlankIsNothing(last);
    SectionsSum(init, [last], false);
    assert [last][1..] == [];
    assert Sections([last], Fenced(init, false)) == Outline([last], []);
    assert forall k :: 0 <= k < |init| ==> (init + [last])[k] == init[k];
    UnsplitSum(init, [last]);
    UnsplitOfLine(last);
    BodyGrows(init, [last]);
    assert (init + [last])[0] == init[0];
  }

  lemma {:induction false} BodyTells(lines: seq<string>)
    requires Calm(lines, false)
    ensures Tells(lines, Trim(Unsplit(lines)))
    decreases |lines|
  {
    hide Tells, Trim, Unsplit, Blank, Calm;
    if lines == [] {
      NoLines();
    } else if Blank(lines[0]) {
      DropFirst(lines);
      BodyTells(lines[1..]);
    } else if |lines| == 1 {
      assert lines == [lines[0]];
      CalmLines(lines);
      OneLine(lines[0]);
    } else {
      var n := |lines| - 1;
      var init, last := lines[..n], lines[n];
      assert lines == init + [last];
      if Blank(last) {
        DropLast(init, last);
        BodyTells(init);
      } else {
        CalmLines(lines);
        assert lines == [lines[0]] + lines[1..n] + [last];
        ManyLines(lines[0], lines[1..n], last);
      }
    }
  }

  lemma CalmLines(lines: seq<string>)
    requires Calm(lines, false)
    ensures OneLiners(lines)
  {
  }

  lemma NoLines()
    ensures Tells([], Trim(Unsplit([])))
  {
    BlankLine(false);
    assert Trim(Unsplit([])) == "";
  }

  // ---------------------------------------------------------------- the whole registry

  lemma {:induction false} PrintableIff(ls: seq<Lesson>)
    ensures Printable(ls) <==> forall i :: 0 <= i < |ls| ==>
      GoodHead(ls[i]) && Trimmed(ls[i]) && Headless(ls[i].body) && (i < |ls| - 1 ==> !EndsFenced(ls[i].body))
    decreases |ls|
  {
    hide GoodHead, Trimmed, Headless, EndsFenced;
    if ls != [] {
      PrintableIff(ls[1..]);
      assert ls == [ls[0]] + ls[1..];
    }
  }

  ghost predicate HidesNone(markdown: string) {
    var secs := Sections(Split(markdown), false).secs;
    forall i :: 0 <= i < |secs| ==> !HidesHeading(secs[i].body)
  }

  /** Parsing, printing and parsing again gives the same lessons exactly if in no section the first
      line that is not blank is an indented heading. */
  lemma ReparseIff(markdown: string)
    ensures Parsed(Render(Parsed(markdown))) == Parsed(markdown) <==> HidesNone(markdown)
  {
    var ps, secs := Parsed(markdown), Sections(Split(markdown), false).secs;
    SplitHasNoNewlines(markdown);
    SectionsAreCalm(Split(markdown), false);
    RoundTripIff(ps);
    PrintableIff(ps);
    hide Printable, Render, HidesHeading, Sections, Split, Trim, HeadingOf;
    forall i | 0 <= i < |ps|
      ensures GoodHead(ps[i]) && Trimmed(ps[i]) && (i < |ps| - 1 ==> !EndsFenced(ps[i].body))
      ensures Headless(ps[i].body) <==> !HidesHeading(secs[i].body)
    {
      ParsedShape(markdown, i);
      BodyTells(secs[i].body);
      assert ps[i] == LessonOf(secs[i]);
    }
  }
}
