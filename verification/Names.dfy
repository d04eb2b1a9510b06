/** What the names say: they read back as pull request and index, and everything an emission or a run
    leaves on the forge carries those of its lesson. */
module Names {
  import opened Identity
  import opened Redaction
  import opened Emit
  import opened EmitLaws
  import opened Pipeline
  import opened Numerals

  /** Every name of a lesson is a fixed text around the decimal numerals of its pull request and its
      index. */
  lemma NamesReadBack(id: LessonID) returns (a: string, b: string)
    ensures DecimalOf(a, id.pr) && DecimalOf(b, id.index)
    ensures String(id) == "PR#" + a + "::lesson-" + b
    ensures Branch(id) == "lessongate/pr-" + a + "-lesson-" + b
    ensures SkillPath(id) == "global-skills/_incoming/lessongate/pr-" + a + "-lesson-" + b + "/SKILL.md"
    ensures KeyOf(id) == a + "/" + b
  {
    a, b := Itoa(id.pr), Itoa(id.index);
    ItoaIsDecimal(id.pr);
    ItoaIsDecimal(id.index);
    hide Itoa, DecimalOf;
    var name := "lessongate/pr-" + a + "-lesson-" + b;
    assert "global-skills/_incoming/" + name + "/SKILL.md"
        == "global-skills/_incoming/lessongate/pr-" + a + "-lesson-" + b + "/SKILL.md";
  }

  /** The commit of a lesson's file. */
  ghost predicate CommitNamed(c: Commit, id: LessonID, file: string) {
    exists a, b :: DecimalOf(a, id.pr) && DecimalOf(b, id.index) && c == CommitOf(a, b, file)
  }

  function CommitOf(a: string, b: string, file: string): Commit {
    Commit("lessongate/pr-" + a + "-lesson-" + b,
           "global-skills/_incoming/lessongate/pr-" + a + "-lesson-" + b + "/SKILL.md",
           file,
           "feat(skills): add generic skill from PR#" + a + "::lesson-" + b)
  }

  /** The draft of a lesson. */
  ghost predicate DraftNamed(pr: PullRequest, id: LessonID, summary: string, fp: string) {
    exists a, b :: DecimalOf(a, id.pr) && DecimalOf(b, id.index) && pr == DraftOf(a, b, pr.url, summary, fp)
  }

  function DraftOf(a: string, b: string, url: string, summary: string, fp: string): PullRequest {
    PullRequest(url,
                "lessongate/pr-" + a + "-lesson-" + b,
                "skill: lessongate/pr-" + a + "-lesson-" + b + " (PR#" + a + "::lesson-" + b + ")",
                summary + "\n\n<!-- lessongate:fp=" + fp + " -->")
  }

  lemma CommitIsNamed(id: LessonID, file: string)
    ensures CommitNamed(SkillCommit(id, file), id, file)
  {
    var a, b := NamesReadBack(id);
    hide Branch, SkillPath, String, DecimalOf;
    var head := "feat(skills): add generic skill from ";
    assert head + ("PR#" + a + "::lesson-" + b) == "feat(skills): add generic skill from PR#" + a + "::lesson-" + b;
    assert SkillCommit(id, file) == CommitOf(a, b, file);
  }

  lemma TitleIs(a: string, b: string)
    ensures "skill: " + ("lessongate/pr-" + a + "-lesson-" + b) + " (" + ("PR#" + a + "::lesson-" + b) + ")"
         == "skill: lessongate/pr-" + a + "-lesson-" + b + " (PR#" + a + "::lesson-" + b + ")"
  {
  }

  lemma BodyIs(summary: string, fp: string)
    ensures FullBody(summary, fp) == summary + "\n\n<!-- lessongate:fp=" + fp + " -->"
  {
  }

  lemma DraftIsNamed(log: seq<Event>, id: LessonID, summary: string, fp: string)
    ensures DraftNamed(NewPullRequest(log, Branch(id), Title(id), FullBody(summary, fp)), id, summary, fp)
  {
    var a, b := NamesReadBack(id);
    TitleIs(a, b);
    BodyIs(summary, fp);
    hide Branch, String, DecimalOf, FullBody;
    var pr := NewPullRequest(log, Branch(id), Title(id), FullBody(summary, fp));
    assert pr == DraftOf(a, b, pr.url, summary, fp);
  }

  // ---------------------------------------------------------------- what lands on the forge

  /** An event an emission of this lesson may cause. */
  ghost predicate EventNamed(e: Event, id: LessonID, file: string, summary: string, fp: string) {
    match e
    case Committed(c) => CommitNamed(c, id, file)
    case Opened(pr, f) => f == fp && DraftNamed(pr, id, summary, fp)
    case Foreign(_) => false
  }

  ghost predicate AllNamed(log: seq<Event>, log': seq<Event>, id: LessonID, file: string, summary: string, fp: string) {
    log <= log' && forall i :: |log| <= i < |log'| ==> EventNamed(log'[i], id, file, summary, fp)
  }

  /** Whatever the network does, all an emission adds to the log bears its lesson's names: the branch, the
      path and the message of the commit, the branch and the title of the draft, the marker at the end of
      its body. */
  lemma EmissionIsNamed(net: Network, gate: Redactor, r: Remote, id: LessonID, file: string, summary: string, fp: string)
    requires gate.Valid()
    ensures AllNamed(r.log, EmitSpec(net, gate, r, id, file, summary, fp).0.log, id, file, summary, fp)
  {
    EmissionIsOneStep(net, gate, r, id, file, summary, fp);
    StepIsNamed(gate, id, file, summary, fp, r.log, EmitSpec(net, gate, r, id, file, summary, fp).0.log);
  }

  lemma StepIsNamed(gate: Redactor, id: LessonID, file: string, summary: string, fp: string, log: seq<Event>, log': seq<Event>)
    requires gate.Valid() && EmitStep(gate, id, file, summary, fp, log, log')
    ensures AllNamed(log, log', id, file, summary, fp)
  {
    CommitIsNamed(id, file);
    DraftIsNamed(log, id, summary, fp);
    hide PassesGate, Marked, CommitNamed, DraftNamed, FullBody, SkillCommit, NewPullRequest, Title, Branch;
  }

  /** And so over whole runs: each commit and draft bears the names of one of the run's lessons, and holds
      what the extractor made of that lesson. */
  ghost predicate FromOne(d: Deps, items: seq<Item>, e: Event)
    requires d.Valid()
  {
    exists k :: 0 <= k < |items| && FromItem(d, items[k], e)
  }

  ghost predicate FromItem(d: Deps, item: Item, e: Event)
    requires d.Valid()
  {
    var redacted := Redacted(d.redactor, item.body).clean;
    d.extract(redacted).Extracted? &&
    var cand := d.extract(redacted).cand;
    EventNamed(e, item.id, cand.body, cand.summary, cand.skillName + ":" + redacted)
  }

  lemma OneItemNamed(d: Deps, net: Network, item: Item, t: Tally)
    requires d.Valid()
    ensures var log := Process(d, net, false, item, t).remote.log;
      t.remote.log <= log && forall i :: |t.remote.log| <= i < |log| ==> FromItem(d, item, log[i])
  {
    var j := Judge(d, item.body);
    if j.Accepted? {
      EmissionIsNamed(net, d.emitGate, t.remote, item.id, j.cand.body, j.cand.summary, j.fp);
      AcceptedIs(d, item.body);
    }
    hide EmitSpec, Judge, EventNamed, Redacted, String;
  }

  lemma AcceptedIs(d: Deps, body: string)
    requires d.Valid() && Judge(d, body).Accepted?
    ensures var redacted := Redacted(d.redactor, body).clean;
      && d.extract(redacted) == Extracted(Judge(d, body).cand)
      && Judge(d, body).fp == Judge(d, body).cand.skillName + ":" + redacted
  {
  }

  lemma {:induction false} RunIsNamed(d: Deps, net: Network, items: seq<Item>, t: Tally)
    requires d.Valid()
    ensures var log := ProcessAll(d, net, false, items, t).remote.log;
      t.remote.log <= log && forall i :: |t.remote.log| <= i < |log| ==> FromOne(d, items, log[i])
    decreases |items|
  {
    hide Process, FromItem;
    if items != [] {
      var t1 := Process(d, net, false, items[0], t);
      OneItemNamed(d, net, items[0], t);
      RunIsNamed(d, net, items[1..], t1);
      var log := ProcessAll(d, net, false, items, t).remote.log;
      forall i | |t.remote.log| <= i < |log| ensures FromOne(d, items, log[i]) {
        if i < |t1.remote.log| {
          assert log[i] == t1.remote.log[i] && FromItem(d, items[0], log[i]);
        } else {
          var k :| 0 <= k < |items| - 1 && FromItem(d, items[1..][k], log[i]);
          assert items[k + 1] == items[1..][k];
        }
      }
    }
  }
}
