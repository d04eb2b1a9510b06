/** Printing lessons and parsing them back: internal/lessons/lessons.go read as the inverse of the
    registry's format. */
module Printing {
  import opened Lines
  import opened Lessons
  import opened LessonLaws

  // ---------------------------------------------------------------- parsing a concatenation

  /** An outline continued by the lines of another. */
  function Glue(x: Outline, y: Outline): Outline {
    if x.secs == [] then Outline(x.pre + y.pre, y.secs)
    else
      var n := |x.secs| - 1;
      Outline(x.pre, x.secs[..n] + [Section(x.secs[n].head, x.secs[n].body + y.pre)] + y.secs)
  }

  lemma {:induction false} SectionsSum(a: seq<string>, b: seq<string>, fenced: bool)
    ensures Sections(a + b, fenced) == Glue(Sections(a, fenced), Sections(b, Fenced(a, fenced)))
    ensures Fenced(a + b, fenced) == Fenced(b, Fenced(a, fenced))
    decreases |a|
  {
    if a == [] {
      assert a + b == b;
      assert [] + Sections(b, fenced).pre == Sections(b, fenced).pre;
    } else {
      assert (a + b)[1..] == a[1..] + b;
      var f := fenced != IsFence(a[0]);
      SectionsSum(a[1..], b, f);
      GlueFirst(Sections(a[1..], f), Sections(b, Fenced(a, fenced)), a[0]);
    }
  }

  lemma GlueFirst(x: Outline, y: Outline, line: string)
    ensures Glue(Outline([line] + x.pre, x.secs), y) == Outline([line] + Glue(x, y).pre, Glue(x, y).secs)
    ensures Glue(Outline([], [Section(line, x.pre)] + x.secs), y)
         == Outline([], [Section(line, Glue(x, y).pre)] + Glue(x, y).secs)
  {
    var secs := [Section(line, x.pre)] + x.secs;
    var n := |x.secs|;
    assert [line] + x.pre + y.pre == [line] + (x.pre + y.pre);
    if n > 0 {
      assert secs[..n] == [Section(line, x.pre)] + x.secs[..n - 1];
    }
  }

  lemma NoInk()
    ensures Ink("") == 0
  {
  }

  /** More lines behind a body leave it alone exactly if they are blank. */
  lemma BodyGrows(body: seq<string>, more: seq<string>)
    ensures Trim(Unsplit(body + more)) == Trim(Unsplit(body)) <==> Blank(Unsplit(more))
  {
    hide Trim, Unsplit, Ink, Blank;
    var x, y := Unsplit(body), Unsplit(more);
    UnsplitSum(body, more);
    InkSum(x, y);
    InkOfTrim(x);
    InkOfTrim(x + y);
    InkOfBlank(y);
    if Blank(y) {
      InkOfBlank("");
      NoInk();
      TrimPadded("", x, y);
      assert "" + x + y == x + y;
    }
  }

  ghost predicate Headed(o: Outline) { forall i :: 0 <= i < |o.secs| ==> HeadingOf(o.secs[i].head).Some? }

  lemma GlueIff(x: Outline, y: Outline)
    requires Headed(x) && Headed(y)
    ensures Headed(Glue(x, y))
    ensures LessonsOf(Glue(x, y).secs) == LessonsOf(x.secs) + LessonsOf(y.secs)
        <==> x.secs == [] || Blank(Unsplit(y.pre))
  {
    hide HeadingOf, Trim, Unsplit, Blank;
    if x.secs != [] {
      var n := |x.secs| - 1;
      var g := Glue(x, y).secs;
      BodyGrows(x.secs[n].body, y.pre);
      var l, m := LessonsOf(g), LessonsOf(x.secs) + LessonsOf(y.secs);
      assert forall i :: 0 <= i < n ==> g[i] == x.secs[i];
      assert forall i :: n < i < |g| ==> g[i] == y.secs[i - n - 1];
      assert g[n] == Section(x.secs[n].head, x.secs[n].body + y.pre);
      assert forall i :: 0 <= i < |l| && i != n ==> l[i] == m[i];
      assert l[n] == LessonOf(g[n]) && m[n] == LessonOf(x.secs[n]);
      assert l == m <==> l[n] == m[n];
    } else {
      assert [] + LessonsOf(y.secs) == LessonsOf(y.secs);
    }
  }

  lemma BlankLine(fenced: bool)
    ensures Sections([""], fenced) == Outline([""], []) && Fenced([""], fenced) == fenced
    ensures Blank(Unsplit([""]))
  {
    assert [""][1..] == [];
    assert IsSpace('\n');
  }

  /** What stands before the first heading. */
  function Preamble(markdown: string): seq<string> { Sections(Split(markdown), false).pre }

  function EndsFenced(markdown: string): bool { Fenced(Split(markdown), false) }

  lemma NothingParses()
    ensures Split("") == [""] && Parsed("") == []
  {
    BlankLine(false);
  }

  lemma SectionsHeaded(lines: seq<string>, fenced: bool)
    ensures Headed(Sections(lines, fenced))
  {
    hide HeadingOf;
  }

  /** Registries whose first ends its last line, outside a fence, parse one after the other exactly
      if the first has no lesson or nothing but blank lines comes before the second's headings. */
  lemma ConcatIff(a: string, b: string)
    requires a == "" || a[|a| - 1] == '\n'
    requires !EndsFenced(a)
    ensures Parsed(a + b) == Parsed(a) + Parsed(b) <==> Parsed(a) == [] || Blank(Unsplit(Preamble(b)))
  {
    hide Split, Sections, Fenced, LessonsOf, HeadingOf, Glue, Blank, Unsplit, Headed;
    if a == "" {
      NothingParses();
      assert a + b == b;
    } else {
      var a0 := a[..|a| - 1];
      var x, y, blank := Sections(Split(a0), false), Sections(Split(b), false), Outline([""], []);
      assert a == a0 + "\n" + "" && a + b == a0 + "\n" + b;
      SplitSum(a0, "");
      SplitSum(a0, b);
      NothingParses();
      SectionsSum(Split(a0), [""], false);
      SectionsSum(Split(a0), Split(b), false);
      BlankLine(Fenced(Split(a0), false));
      SectionsHeaded(Split(a0), false);
      SectionsHeaded(Split(b), false);
      SectionsHeaded([""], false);
      BlankLine(false);
      GlueIff(x, blank);
      GlueIff(x, y);
      assert LessonsOf(x.secs) + LessonsOf(blank.secs) == LessonsOf(x.secs);
    }
  }
}
