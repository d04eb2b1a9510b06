/** The registry's printer and parser: exactly which lessons survive being printed and parsed. */
module RoundTrip {
  import opened Text
  import opened Identity
  import opened Lines
  import opened Lessons
  import opened LessonLaws
  import opened Printing

  function HeadLine(l: Lesson): string { HEAD + Itoa(l.number) + ": " + l.title }

  /** The registry's form: heading, blank line, body, blank line. */
  function Render(ls: seq<Lesson>): string {
    if ls == [] then "" else HeadLine(ls[0]) + "\n\n" + ls[0].body + "\n\n" + Render(ls[1..])
  }

  predicate GoodHead(l: Lesson) {
    0 <= l.number <= MAX_INT && Trim(l.title) == l.title && NoNewline(l.title)
  }

  /** No line of the body is a heading outside the body's own fences. */
  predicate Headless(body: string) { Sections(Split(body), false).secs == [] }

  predicate Trimmed(l: Lesson) { Trim(l.body) == l.body }

  predicate Printable(ls: seq<Lesson>) {
    ls == [] ||
    (GoodHead(ls[0]) && Trimmed(ls[0]) && Headless(ls[0].body)
     && (|ls| > 1 ==> !EndsFenced(ls[0].body)) && Printable(ls[1..]))
  }

  // ---------------------------------------------------------------- headings

  lemma {:induction false} ValueOfDigits(n: nat)
    ensures (forall k :: 0 <= k < |Digits(n)| ==> IsDigit(Digits(n)[k])) && Value(Digits(n)) == n
    decreases n
  {
    DigitsAreDigits(n);
    var ds := Digits(n);
    if n < 10 {
      assert ds[..0] == "";
    } else {
      ValueOfDigits(n / 10);
      assert ds[..|ds| - 1] == Digits(n / 10);
    }
  }

  lemma BlanksAreTrimmed(s: string, k: nat)
    requires k <= |s|
    ensures Trim(s[BlanksEnd(s, k)..]) == Trim(s[k..])
  {
    var b := BlanksEnd(s, k);
    assert s[k..b] + s[b..] + "" == s[k..];
    assert Blank(s[k..b]) by { assert forall m :: k <= m < b ==> IsBlank(s[m]) && IsSpace(s[m]); }
    TrimPadded(s[k..b], s[b..], "");
  }

  lemma HeadSlices(head: string, ds: string, t: string)
    ensures var line, h := head + ds + ":" + t, |head|;
      var j := h + |ds|;
      && head <= line && j < |line| && line[h..j] == ds && line[j] == ':' && line[j + 1..] == t
  {
  }

  /** `## Lesson <digits>:<text>` is a heading with the trimmed text for its title. */
  lemma HeadingIs(ds: string, t: string)
    requires ds != "" && forall k :: 0 <= k < |ds| ==> IsDigit(ds[k])
    ensures HeadingOf(HEAD + ds + ":" + t) == Some(Heading(Atoi(ds), Trim(t)))
  {
    hide Value, Trim, BlanksEnd;
    var line, h := HEAD + ds + ":" + t, |HEAD|;
    var j := h + |ds|;
    HeadSlices(HEAD, ds, t);
    assert forall k :: h <= k < j ==> line[k] == line[h..j][k - h];
    assert DigitsEnd(line, h) == j;
    BlanksAreTrimmed(line, j + 1);
  }

  lemma OneBlank()
    ensures Blank(" ") && Blank("  ") && Blank("") && Blank("\n")
  {
  }

  lemma DigitsOneLine(ds: string)
    ensures NoNewline(HEAD) && NoNewline(": ") && NoNewline("  ")
    ensures (forall k :: 0 <= k < |ds| ==> IsDigit(ds[k])) ==> NoNewline(ds)
  {
  }

  lemma HeadLineParses(l: Lesson)
    requires GoodHead(l)
    ensures HeadingOf(HeadLine(l)) == Some(Heading(l.number, l.title)) && NoNewline(HeadLine(l))
  {
    hide HeadingOf, Trim, Digits, Value, NoNewline;
    var ds := Itoa(l.number);
    ValueOfDigits(l.number);
    HeadingIs(ds, " " + l.title);
    assert HeadLine(l) == HEAD + ds + ":" + (" " + l.title);
    OneBlank();
    TrimPadded(" ", l.title, "");
    assert " " + l.title + "" == " " + l.title;
    DigitsOneLine(ds);
    NoNewlineSum(HEAD, ds);
    NoNewlineSum(HEAD + ds, ": ");
    NoNewlineSum(HEAD + ds + ": ", l.title);
  }

  lemma NoNewlineSum(a: string, b: string)
    requires NoNewline(a) && NoNewline(b)
    ensures NoNewline(a + b)
  {
  }

  lemma HeadingShape(line: string)
    requires HeadingOf(line).Some? && NoNewline(line)
    ensures var h := HeadingOf(line).value;
      0 <= h.number <= MAX_INT && Trim(h.title) == h.title && NoNewline(h.title)
  {
    var j := DigitsEnd(line, |HEAD|);
    var b := BlanksEnd(line, j + 1);
    TrimIsTrimmed(line[b..]);
    assert forall k :: 0 <= k < |line[b..]| ==> line[b..][k] == line[b + k];
  }

  /** What the parser can yield at all. */
  lemma ParsedShape(markdown: string, i: nat)
    requires i < |Parsed(markdown)|
    ensures GoodHead(Parsed(markdown)[i]) && Trimmed(Parsed(markdown)[i])
  {
    var lines := Split(markdown);
    var o := Sections(lines, false);
    SectionsAreExact(lines, false);
    SplitHasNoNewlines(markdown);
    assert lines[Start(o, i)] == o.secs[i].head;
    HeadingShape(o.secs[i].head);
    TrimIsTrimmed(Unsplit(o.secs[i].body));
  }

  // ---------------------------------------------------------------- one lesson and the rest

  const BLANK_LINE := Outline([""], [])

  lemma RenderCons(l: Lesson, rest: seq<Lesson>)
    ensures Render([l] + rest) == HeadLine(l) + "\n\n" + l.body + "\n\n" + Render(rest)
  {
    assert ([l] + rest)[1..] == rest;
  }

  lemma RenderLines(l: Lesson, rest: seq<Lesson>)
    requires NoNewline(HeadLine(l))
    ensures Split(Render([l] + rest)) == [HeadLine(l)] + ([""] + (Split(l.body) + ([""] + Split(Render(rest)))))
  {
    hide Split, Render, HeadLine;
    var h, r := HeadLine(l), Render(rest);
    var s3 := "" + "\n" + r;
    var s2 := l.body + "\n" + s3;
    var s1 := "" + "\n" + s2;
    RenderCons(l, rest);
    assert h + "\n\n" + l.body + "\n\n" + r == h + "\n" + s1;
    SplitSum(h, s1);
    SplitLine(h);
    SplitSum("", s2);
    SplitSum(l.body, s3);
    SplitSum("", r);
    SplitLine("");
  }

  /** What follows the heading line. */
  function Tail(l: Lesson, rest: seq<Lesson>): Outline {
    Glue(BLANK_LINE, Glue(Sections(Split(l.body), false),
      Glue(BLANK_LINE, Sections(Split(Render(rest)), EndsFenced(l.body)))))
  }

  lemma TailLines(l: Lesson, rest: seq<Lesson>)
    ensures Sections([""] + (Split(l.body) + ([""] + Split(Render(rest)))), false) == Tail(l, rest)
  {
    hide Split, Render, Sections, Glue, Fenced;
    var b, r := Split(l.body), Split(Render(rest));
    SectionsSum([""], r, EndsFenced(l.body));
    SectionsSum(b, [""] + r, false);
    SectionsSum([""], b + ([""] + r), false);
    BlankLine(EndsFenced(l.body));
    BlankLine(false);
  }

  lemma HeadingSection(line: string, lines: seq<string>)
    requires HeadingOf(line).Some?
    ensures var q := Sections(lines, false);
      && Headed(q)
      && LessonsOf(Sections([line] + lines, false).secs) == [LessonOf(Section(line, q.pre))] + LessonsOf(q.secs)
  {
    HeadingIsNoFence(line);
    hide HeadingOf, IsFence, LessonOf, LessonsOf;
    assert ([line] + lines)[1..] == lines;
    var q := Sections(lines, false);
    LessonsCons(Section(line, q.pre), q.secs);
  }

  lemma LessonsCons(sec: Section, secs: seq<Section>)
    requires forall i :: 0 <= i < |secs| ==> HeadingOf(secs[i].head).Some?
    requires HeadingOf(sec.head).Some?
    ensures LessonsOf([sec] + secs) == [LessonOf(sec)] + LessonsOf(secs)
  {
    hide HeadingOf, LessonOf;
  }

  lemma RenderOutline(l: Lesson, rest: seq<Lesson>)
    requires GoodHead(l)
    ensures var q := Tail(l, rest);
      && Headed(q)
      && Parsed(Render([l] + rest)) == [Lesson(l.number, l.title, Trim(Unsplit(q.pre)))] + LessonsOf(q.secs)
  {
    hide Split, Render, Sections, Glue, Fenced, HeadingOf, Tail;
    HeadLineParses(l);
    RenderLines(l, rest);
    TailLines(l, rest);
    HeadingSection(HeadLine(l), [""] + (Split(l.body) + ([""] + Split(Render(rest)))));
  }

  lemma LessonFollows(l: Lesson, more: seq<Lesson>, fenced: bool)
    requires GoodHead(l)
    ensures Blank(Unsplit(Sections(Split(Render([l] + more)), fenced).pre)) <==> !fenced
  {
    hide *;
    HeadLineParses(l);
    RenderLines(l, more);
    var lines := Split(Render([l] + more));
    HeadingOpens(lines);
    UnsplitNothing();
    if fenced { InkShows(HeadLine(l), Sections(lines, fenced).pre[1..]); }
  }

  /** The lines printed after a lesson hold nothing that belongs to its body exactly if that body
      leaves no fence open, or nothing follows. */
  lemma FollowingLines(rest: seq<Lesson>, fenced: bool)
    requires rest != [] ==> GoodHead(rest[0])
    ensures Blank(Unsplit(Sections(Split(Render(rest)), fenced).pre)) <==> rest == [] || !fenced
  {
    if rest == [] {
      BlankLine(fenced);
    } else {
      hide *;
      assert rest == [rest[0]] + rest[1..];
      LessonFollows(rest[0], rest[1..], fenced);
    }
  }

  lemma HeadingOpens(lines: seq<string>)
    requires lines != [] && HeadingOf(lines[0]).Some?
    ensures Sections(lines, false).pre == []
    ensures var pre := Sections(lines, true).pre; pre != [] && pre == [lines[0]] + pre[1..]
  {
    HeadingIsNoFence(lines[0]);
    hide HeadingOf, IsFence;
  }

  lemma UnsplitNothing()
    ensures Blank(Unsplit([]))
  {
  }

  lemma InkShows(h: string, more: seq<string>)
    requires HeadingOf(h).Some?
    ensures !Blank(Unsplit([h] + more))
  {
    HeadingHasInk(h);
    InkOfLines([h], more);
    UnsplitOfLine(h);
    InkOfLine(h);
    InkOfBlank(Unsplit([h] + more));
  }

  /** The first lesson comes back exactly if its body has no heading and closes its fences before
      another lesson; then the others are parsed on their own. */
  lemma FirstLesson(l: Lesson, rest: seq<Lesson>)
    requires GoodHead(l) && Trimmed(l) && (rest != [] ==> GoodHead(rest[0]))
    ensures var ps := Parsed(Render([l] + rest));
      && ps != []
      && (ps[0] == l <==> Headless(l.body) && (rest == [] || !EndsFenced(l.body)))
      && (ps[0] == l ==> ps[1..] == Parsed(Render(rest)))
  {
    RenderOutline(l, rest);
    FollowingLines(rest, EndsFenced(l.body));
    if Headless(l.body) { HeadlessBody(l, rest); } else { HeadingInBody(l, rest); }
  }

  lemma HeadlessBody(l: Lesson, rest: seq<Lesson>)
    requires Trimmed(l) && Headless(l.body)
    ensures var q, r := Tail(l, rest), Sections(Split(Render(rest)), EndsFenced(l.body));
      && (Trim(Unsplit(q.pre)) == l.body <==> Blank(Unsplit(r.pre)))
      && q.secs == r.secs
  {
    var b, r := Split(l.body), Sections(Split(Render(rest)), EndsFenced(l.body));
    SectionsAreExact(b, false);
    hide Split, Render, Sections, Fenced, Trim;
    assert Sections(b, false) == Outline(b, []);
    var q := Tail(l, rest);
    assert q.pre == ([""] + b) + ([""] + r.pre);
    BodyGrows([""] + b, [""] + r.pre);
    UnsplitOfSplit(l.body);
    UnsplitSum([""], b);
    UnsplitSum([""], r.pre);
    UnsplitOfLine("");
    TrimPadded("\n", l.body, "\n");
    assert "" + "\n" + (l.body + "\n") == "\n" + l.body + "\n";
    BlankSum("\n", Unsplit(r.pre));
    assert "" + "\n" == "\n";
  }

  lemma BlankSum(a: string, b: string)
    ensures Blank(a + b) <==> Blank(a) && Blank(b)
  {
    InkSum(a, b);
    InkOfBlank(a);
    InkOfBlank(b);
    InkOfBlank(a + b);
  }

  /** A heading inside a body cuts it short. */
  lemma HeadingInBody(l: Lesson, rest: seq<Lesson>)
    requires !Headless(l.body)
    ensures Trim(Unsplit(Tail(l, rest).pre)) != l.body
  {
    var b := Split(l.body);
    var o := Sections(b, false);
    SectionsAreExact(b, false);
    SectionHasInk(o.secs);
    hide Split, Render, Sections, Fenced, Trim, HeadingOf, Flatten, Unsplit, Ink;
    InkOfLines(o.pre, Flatten(o.secs));
    UnsplitOfSplit(l.body);
    InkOfLine(l.body);
    assert Tail(l, rest).pre == [""] + o.pre;
    InkOfLines([""], o.pre);
    UnsplitOfLine("");
    InkOfLine("");
    InkOfTrim(Unsplit(Tail(l, rest).pre));
    InkOfBlank("");
  }

  lemma InkOfLine(s: string)
    ensures Ink(s + "\n") == Ink(s)
  {
    InkSum(s, "\n");
    InkOfBlank("\n");
  }

  lemma SectionHasInk(secs: seq<Section>)
    requires secs != [] && HeadingOf(secs[0].head).Some?
    ensures Ink(Unsplit(Flatten(secs))) > 0
  {
    var head, more := secs[0].head, secs[0].body + Flatten(secs[1..]);
    HeadingHasInk(head);
    hide Ink, Unsplit, HeadingOf;
    assert Flatten(secs) == [head] + more;
    InkOfLines([head], more);
    UnsplitOfLine(head);
    InkOfLine(head);
  }

  lemma InkOfLines(a: seq<string>, b: seq<string>)
    ensures Ink(Unsplit(a + b)) == Ink(Unsplit(a)) + Ink(Unsplit(b))
  {
    UnsplitSum(a, b);
    InkSum(Unsplit(a), Unsplit(b));
  }

  lemma HeadingHasInk(line: string)
    requires HeadingOf(line).Some?
    ensures Ink(line) > 0
  {
    assert line[0] == HEAD[0] == '#';
  }

  // ---------------------------------------------------------------- the round trip

  /** Lessons printed and parsed come back exactly if they are printable: numbers in range, titles
      trimmed one-liners, bodies trimmed and without a heading of their own, and no fence left open
      before another lesson. */
  lemma {:induction false} RoundTripIff(ls: seq<Lesson>)
    ensures Parsed(Render(ls)) == ls <==> Printable(ls)
    decreases |ls|
  {
    if ls == [] {
      BlankLine(false);
    } else {
      var l, rest := ls[0], ls[1..];
      assert ls == [l] + rest;
      var ps := Parsed(Render(ls));
      if ps == ls {
        ParsedShape(Render(ls), 0);
        if rest != [] { ParsedShape(Render(ls), 1); }
      }
      RoundTripIff(rest);
      hide Render, Parsed, GoodHead, Headless, Trimmed, EndsFenced;
      if GoodHead(l) && Trimmed(l) && (rest != [] ==> GoodHead(rest[0])) {
        FirstLesson(l, rest);
        assert ps == ls <==> ps[0] == l && ps[1..] == rest;
      }
    }
  }

  // ---------------------------------------------------------------- parsing what was parsed

  const SECOND := "## Lesson 2: b"
  const FIRST := "## Lesson 1: a"
  const INDENTED := FIRST + "\n" + ("  " + SECOND)

  lemma SecondIsHeading()
    ensures HeadingOf(SECOND).Some? && NoNewline(SECOND) && SECOND[0] == '#' && Trim(SECOND) == SECOND
  {
    HeadingIs("2", " b");
    assert SECOND == HEAD + "2" + ":" + " b";
    var n := |SECOND| - 1;
    assert !IsSpace(SECOND[0]) && !IsSpace(SECOND[n]);
    assert TrimLeft(SECOND) == SECOND;
  }

  lemma IndentIsNoHeading(line: string)
    requires line != "" && line[0] == ' '
    ensures HeadingOf(line) == None
  {
    assert HEAD[0] == '#';
  }

  lemma HashIsNoFence(line: string)
    requires Trim(line) != "" && Trim(line)[0] == '#'
    ensures !IsFence(line)
  {
    assert FENCE[0] == '`';
  }

  lemma IndentedLine()
    ensures var l := "  " + SECOND; !IsFence(l) && HeadingOf(l) == None && NoNewline(l) && Trim(l + "\n") == SECOND
  {
    assert |SECOND| > 0;
    hide HeadingOf, IsFence, Trim, SECOND, NoNewline, Blank;
    SecondIsHeading();
    var l := "  " + SECOND;
    assert l[0] == ' ';
    OneBlank();
    TrimPadded("  ", SECOND, "");
    TrimPadded("  ", SECOND, "\n");
    assert l + "" == l;
    HashIsNoFence(l);
    IndentIsNoHeading(l);
    DigitsOneLine("");
    NoNewlineSum("  ", SECOND);
  }

  lemma FirstIsHeading()
    ensures HeadingOf(FIRST) == Some(Heading(1, "a")) && NoNewline(FIRST)
  {
    var a := Lesson(1, "a", "");
    assert HeadLine(a) == FIRST by { assert Digits(1) == "1"; }
    assert TrimLeft("a") == "a" && TrimRight("a") == "a";
    HeadLineParses(a);
  }

  lemma IndentedParses()
    ensures Parsed(INDENTED) == [Lesson(1, "a", SECOND)]
  {
    var l := "  " + SECOND;
    FirstIsHeading();
    IndentedLine();
    hide HeadingOf, IsFence, Trim, Split, SECOND, FIRST;
    SplitSum(FIRST, l);
    SplitLine(FIRST);
    SplitLine(l);
    assert Split(INDENTED) == [FIRST] + [l];
    HeadingSection(FIRST, [l]);
    assert [l][1..] == [];
    assert Sections([l], false) == Outline([l], []);
    UnsplitOfLine(l);
  }

  /** The parser's own output need not survive: an indented heading is part of a body, and trimming
      the body moves it to the margin. */
  lemma ReparsingCanDiffer()
    ensures Parsed(Render(Parsed(INDENTED))) != Parsed(INDENTED)
  {
    IndentedParses();
    SecondIsHeading();
    SplitLine(SECOND);
    HeadingIsNoFence(SECOND);
    hide HeadingOf, IsFence, Trim, Split, SECOND, Render, Parsed;
    assert !Headless(SECOND);
    RoundTripIff(Parsed(INDENTED));
  }
}
