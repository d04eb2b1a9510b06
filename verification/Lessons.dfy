/** internal/lessons/lessons.go: the lesson registry's parser. */
module Lessons {
  import opened Text
  import opened Lines

  datatype Lesson = Lesson(number: int, title: string, body: string)

  const MAX_INT := 0x7FFF_FFFF_FFFF_FFFF
  const HEAD := "## Lesson "
  const FENCE := "```"

  predicate IsFence(line: string) { FENCE <= Trim(line) }

  // ---------------------------------------------------------------- headings

  function Value(ds: string): (n: nat)
    requires forall k :: 0 <= k < |ds| ==> IsDigit(ds[k])
  {
    if ds == "" then 0
    else
      var c := ds[|ds| - 1];
      assert IsDigit(c);
      10 * Value(ds[..|ds| - 1]) + (c as int - '0' as int)
  }

  /** strconv.Atoi of digits, its error ignored: too large a number becomes the largest. */
  function Atoi(ds: string): int
    requires forall k :: 0 <= k < |ds| ==> IsDigit(ds[k])
  {
    if Value(ds) > MAX_INT then MAX_INT else Value(ds)
  }

  function DigitsEnd(s: string, k: nat): (j: nat)
    requires k <= |s|
    ensures k <= j <= |s| && (j < |s| ==> !IsDigit(s[j]))
    ensures forall m :: k <= m < j ==> IsDigit(s[m])
    decreases |s| - k
  {
    if k < |s| && IsDigit(s[k]) then DigitsEnd(s, k + 1) else k
  }

  /** `\s` */
  predicate IsBlank(c: char) { c == '\t' || c == '\n' || c as int == 0x0C || c == '\r' || c == ' ' }

  function BlanksEnd(s: string, k: nat): (j: nat)
    requires k <= |s|
    ensures k <= j <= |s| && (forall m :: k <= m < j ==> IsBlank(s[m]))
    decreases |s| - k
  {
    if k < |s| && IsBlank(s[k]) then BlanksEnd(s, k + 1) else k
  }

  datatype Heading = Heading(number: int, title: string)

  /** The heading of a line of the form `## Lesson <digits>:<blanks><title>`. */
  function HeadingOf(line: string): Option<Heading> {
    if !(HEAD <= line) then None
    else
      var j := DigitsEnd(line, |HEAD|);
      if j == |HEAD| || j == |line| || line[j] != ':' then None
      else Some(Heading(Atoi(line[|HEAD|..j]), Trim(line[BlanksEnd(line, j + 1)..])))
  }

  // ---------------------------------------------------------------- specification

  datatype Section = Section(head: string, body: seq<string>)

  /** A registry's lines: those before the first heading, then each heading with its own. */
  datatype Outline = Outline(pre: seq<string>, secs: seq<Section>)

  /** A heading counts when the fences before it are closed; any other line belongs to whatever
      came before it. */
  function Sections(lines: seq<string>, fenced: bool): (o: Outline)
    ensures forall i :: 0 <= i < |o.secs| ==> HeadingOf(o.secs[i].head).Some?
  {
    if lines == [] then Outline([], [])
    else if IsFence(lines[0]) then
      var rest := Sections(lines[1..], !fenced);
      Outline([lines[0]] + rest.pre, rest.secs)
    else
      var rest := Sections(lines[1..], fenced);
      if !fenced && HeadingOf(lines[0]).Some? then Outline([], [Section(lines[0], rest.pre)] + rest.secs)
      else Outline([lines[0]] + rest.pre, rest.secs)
  }

  function LessonOf(sec: Section): Lesson
    requires HeadingOf(sec.head).Some?
  {
    var h := HeadingOf(sec.head).value;
    Lesson(h.number, h.title, Trim(Unsplit(sec.body)))
  }

  function LessonsOf(secs: seq<Section>): (ls: seq<Lesson>)
    requires forall i :: 0 <= i < |secs| ==> HeadingOf(secs[i].head).Some?
    ensures |ls| == |secs| && forall i :: 0 <= i < |secs| ==> ls[i] == LessonOf(secs[i])
  {
    seq(|secs|, i requires 0 <= i < |secs| => LessonOf(secs[i]))
  }

  function Parsed(markdown: string): seq<Lesson> { LessonsOf(Sections(Split(markdown), false).secs) }

  // ---------------------------------------------------------------- the code

  method Parse(markdown: string) returns (out: seq<Lesson>)
    ensures out == Parsed(markdown)
  {
    hide HeadingOf, Trim, IsFence;
    out := [];
    var cur: Option<Lesson> := None;
    var body := "";
    var inFence := false;
    var lines := Split(markdown);
    assert lines[0..] == lines;
    for k := 0 to |lines|
      invariant Parsed(markdown) == out + Pending(cur, body, Sections(lines[k..], inFence))
      invariant cur.None? ==> out == []
    {
      var line := lines[k];
      ghost var rest := lines[k + 1..];
      assert lines[k..][1..] == rest;
      if IsFence(line) {
        AppendLine(cur, body, line, Sections(rest, !inFence));
        inFence := !inFence;
        if cur.Some? {
          body := body + line + "\n";
        }
        continue;
      }
      if !inFence {
        var m := HeadingOf(line);
        if m.Some? {
          FlushAt(cur, body, line, Sections(rest, inFence), m.value);
          if cur.Some? {
            out := out + [cur.value.(body := Trim(body))];
          }
          body := "";
          cur := Some(Lesson(m.value.number, m.value.title, ""));
          continue;
        }
      }
      AppendLine(cur, body, line, Sections(rest, inFence));
      if cur.Some? {
        body := body + line + "\n";
      }
    }
    assert lines[|lines|..] == [];
    assert body + "" == body;
    if cur.Some? {
      out := out + [cur.value.(body := Trim(body))];
    }
  }

  /** What is still to come out: the lesson under way with the lines up to the next heading, then
      the lessons after it. */
  ghost function Pending(cur: Option<Lesson>, body: string, o: Outline): seq<Lesson>
    requires forall i :: 0 <= i < |o.secs| ==> HeadingOf(o.secs[i].head).Some?
  {
    (if cur.None? then [] else [cur.value.(body := Trim(body + Unsplit(o.pre)))]) + LessonsOf(o.secs)
  }

  lemma AppendLine(cur: Option<Lesson>, body: string, line: string, o: Outline)
    requires forall i :: 0 <= i < |o.secs| ==> HeadingOf(o.secs[i].head).Some?
    ensures Pending(cur, body, Outline([line] + o.pre, o.secs))
         == Pending(cur, if cur.Some? then body + line + "\n" else body, o)
  {
    hide HeadingOf, Trim, LessonOf;
    assert ([line] + o.pre)[1..] == o.pre;
    assert Unsplit([line] + o.pre) == line + "\n" + Unsplit(o.pre);
    assert body + (line + "\n" + Unsplit(o.pre)) == body + line + "\n" + Unsplit(o.pre);
  }

  lemma FlushAt(cur: Option<Lesson>, body: string, line: string, o: Outline, h: Heading)
    requires forall i :: 0 <= i < |o.secs| ==> HeadingOf(o.secs[i].head).Some?
    requires HeadingOf(line) == Some(h)
    ensures Pending(cur, body, Outline([], [Section(line, o.pre)] + o.secs))
         == (if cur.None? then [] else [cur.value.(body := Trim(body))])
          + Pending(Some(Lesson(h.number, h.title, "")), "", o)
  {
    hide HeadingOf, Trim;
    var secs := [Section(line, o.pre)] + o.secs;
    assert body + "" == body && "" + Unsplit(o.pre) == Unsplit(o.pre);
    assert LessonOf(secs[0]) == Lesson(h.number, h.title, Trim(Unsplit(o.pre)));
    assert LessonsOf(secs) == [LessonOf(secs[0])] + LessonsOf(o.secs);
  }
}
