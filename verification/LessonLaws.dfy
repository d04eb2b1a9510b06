/** What the registry parser guarantees: no line lost, headings exactly where fences are closed, and
    when printing lessons and parsing them again gives them back. */
module LessonLaws {
  import opened Lines
  import opened Lessons

  // ---------------------------------------------------------------- every line in its place

  function Flatten(secs: seq<Section>): seq<string> {
    if secs == [] then [] else [secs[0].head] + secs[0].body + Flatten(secs[1..])
  }

  /** The line at which a section begins. */
  function Start(o: Outline, i: nat): nat
    requires i < |o.secs|
  {
    if i == 0 then |o.pre| else Start(o, i - 1) + 1 + |o.secs[i - 1].body|
  }

  /** Whether a fence is open after these lines. */
  function Fenced(lines: seq<string>, fenced: bool): bool {
    if lines == [] then fenced else Fenced(lines[1..], fenced != IsFence(lines[0]))
  }

  predicate HeadsLesson(lines: seq<string>, fenced: bool, k: nat)
    requires k < |lines|
  {
    HeadingOf(lines[k]).Some? && !Fenced(lines[..k], fenced)
  }

  lemma {:induction false} StartShifts(o: Outline, line: string, i: nat)
    requires i < |o.secs|
    ensures Start(Outline([line] + o.pre, o.secs), i) == Start(o, i) + 1
    ensures Start(Outline([], [Section(line, o.pre)] + o.secs), i + 1) == Start(o, i) + 1
  {
    if i > 0 { StartShifts(o, line, i - 1); }
  }

  lemma HeadingIsNoFence(line: string)
    requires HeadingOf(line).Some?
    ensures !IsFence(line)
  {
    assert line[0] == HEAD[0] == '#';
    TrimRightShape(line);
    var t := Trim(line);
    assert t <= line;
    assert t != "" ==> t[0] == '#';
    assert FENCE[0] == '`';
  }

  ghost predicate Exact(lines: seq<string>, fenced: bool, o: Outline) {
    && o.pre + Flatten(o.secs) == lines
    && HeadsInPlace(lines, o)
    && (forall k :: 0 <= k < |lines| ==>
         (HeadsLesson(lines, fenced, k) <==> StartsAt(o, k)))
  }

  /** A section begins at line k. */
  ghost predicate StartsAt(o: Outline, k: nat) {
    exists i: nat :: i < |o.secs| && Start(o, i) == k
  }

  /** The lines of the sections are the lines of the registry, in order; a section begins exactly at
      each heading outside a fence. */
  lemma {:induction false} SectionsAreExact(lines: seq<string>, fenced: bool)
    ensures Exact(lines, fenced, Sections(lines, fenced))
    decreases |lines|
  {
    if lines != [] {
      var line, rest := lines[0], lines[1..];
      var r := Sections(rest, fenced != IsFence(line));
      SectionsAreExact(rest, fenced != IsFence(line));
      if HeadingOf(line).Some? { HeadingIsNoFence(line); }
      hide HeadingOf, Exact, IsFence;
      if !fenced && HeadingOf(line).Some? {
        HeadingFirst(lines, r);
      } else {
        NoHeadingFirst(lines, fenced, r);
      }
    }
  }

  lemma HeadsLater(lines: seq<string>, fenced: bool, k: nat)
    requires 0 < k < |lines|
    ensures HeadsLesson(lines, fenced, k) <==> HeadsLesson(lines[1..], fenced != IsFence(lines[0]), k - 1)
  {
    assert lines[..k][1..] == lines[1..][..k - 1];
  }

  lemma StartsLater(r: Outline, line: string, k: nat)
    ensures StartsAt(Outline([line] + r.pre, r.secs), k + 1) <==> StartsAt(r, k)
    ensures StartsAt(Outline([], [Section(line, r.pre)] + r.secs), k + 1) <==> StartsAt(r, k)
  {
    var p, q := Outline([line] + r.pre, r.secs), Outline([], [Section(line, r.pre)] + r.secs);
    forall i: nat | i < |r.secs| ensures Start(p, i) == Start(r, i) + 1 == Start(q, i + 1) { StartShifts(r, line, i); }
    hide Start;
    if i: nat :| i < |r.secs| && Start(r, i) == k { assert Start(p, i) == k + 1 && Start(q, i + 1) == k + 1; }
    if i: nat :| i < |p.secs| && Start(p, i) == k + 1 { assert Start(r, i) == k; }
    StartOfFirst(q);
    if i: nat :| i < |q.secs| && Start(q, i) == k + 1 { assert Start(r, i - 1) == k; }
  }

  lemma StartsFirst(r: Outline, line: string)
    ensures !StartsAt(Outline([line] + r.pre, r.secs), 0)
    ensures StartsAt(Outline([], [Section(line, r.pre)] + r.secs), 0)
  {
    var p, q := Outline([line] + r.pre, r.secs), Outline([], [Section(line, r.pre)] + r.secs);
    StartOfFirst(q);
    forall i: nat | i < |r.secs| ensures Start(p, i) > 0 { StartShifts(r, line, i); }
  }

  lemma StartOfFirst(o: Outline)
    ensures o.secs != [] ==> Start(o, 0) == |o.pre|
  {
  }

  ghost predicate HeadsInPlace(lines: seq<string>, o: Outline) {
    forall i :: 0 <= i < |o.secs| ==> Start(o, i) < |lines| && lines[Start(o, i)] == o.secs[i].head
  }

  lemma HeadingInPlace(lines: seq<string>, r: Outline)
    requires lines != [] && HeadsInPlace(lines[1..], r)
    ensures HeadsInPlace(lines, Outline([], [Section(lines[0], r.pre)] + r.secs))
  {
    hide Start;
    var o := Outline([], [Section(lines[0], r.pre)] + r.secs);
    StartOfFirst(o);
    forall i | 0 <= i < |o.secs| ensures Start(o, i) < |lines| && lines[Start(o, i)] == o.secs[i].head {
      if i > 0 { StartShifts(r, lines[0], i - 1); }
    }
  }

  lemma FlattenHeading(lines: seq<string>, r: Outline)
    requires lines != [] && r.pre + Flatten(r.secs) == lines[1..]
    ensures [] + Flatten([Section(lines[0], r.pre)] + r.secs) == lines
  {
    var secs := [Section(lines[0], r.pre)] + r.secs;
    assert secs[1..] == r.secs;
    assert [lines[0]] + r.pre + Flatten(r.secs) == [lines[0]] + (r.pre + Flatten(r.secs));
  }

  lemma HeadingFirst(lines: seq<string>, r: Outline)
    requires lines != [] && HeadingOf(lines[0]).Some? && !IsFence(lines[0]) && Exact(lines[1..], false, r)
    ensures Exact(lines, false, Outline([], [Section(lines[0], r.pre)] + r.secs))
  {
    var line, o := lines[0], Outline([], [Section(lines[0], r.pre)] + r.secs);
    assert HeadsLesson(lines, false, 0);
    hide HeadingOf, IsFence, StartsAt, HeadsLesson, HeadsInPlace;
    FlattenHeading(lines, r);
    hide Flatten;
    StartsFirst(r, line);
    HeadingInPlace(lines, r);
    forall k | 0 <= k < |lines| ensures HeadsLesson(lines, false, k) <==> StartsAt(o, k) {
      if k > 0 {
        HeadsLater(lines, false, k);
        StartsLater(r, line, k - 1);
      }
    }
  }

  lemma NoHeadingFirst(lines: seq<string>, fenced: bool, r: Outline)
    requires lines != [] && !HeadsLesson(lines, fenced, 0)
    requires Exact(lines[1..], fenced != IsFence(lines[0]), r)
    ensures Exact(lines, fenced, Outline([lines[0]] + r.pre, r.secs))
  {
    hide HeadingOf, IsFence, Start, StartsAt, HeadsLesson;
    var line, o := lines[0], Outline([lines[0]] + r.pre, r.secs);
    assert [line] + r.pre + Flatten(r.secs) == [line] + (r.pre + Flatten(r.secs)) == lines;
    StartsFirst(r, line);
    assert HeadsInPlace(lines, o) by {
      forall i | 0 <= i < |o.secs| ensures Start(o, i) < |lines| && lines[Start(o, i)] == o.secs[i].head {
        StartShifts(r, line, i);
      }
    }
    forall k | 0 <= k < |lines| ensures HeadsLesson(lines, fenced, k) <==> StartsAt(o, k) {
      if k > 0 {
        HeadsLater(lines, fenced, k);
        StartsLater(r, line, k - 1);
      }
    }
  }
}
