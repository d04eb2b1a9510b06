/** What the ungated fingerprint lets out: the pipeline puts the redacted lesson into the marker, and
    redacted text need not pass the gate. */
module Leaks {
  import opened Text
  import opened Identity
  import opened Redaction
  import opened Restoration
  import opened Gate
  import opened Emit
  import opened EmitLaws
  import opened Markers
  import opened Descriptions
  import opened Uncovered
  import opened Pipeline
  import opened PipelineLaws

  /** A lesson that gets through, with a forge that works and a fingerprint not seen before, ends in
      its draft. */
  lemma LessonIsOpened(d: Deps, net: Network, item: Item, t: Tally)
    requires d.Valid() && AllWorks(net) && Emitted(d, item) && !Marked(t.remote.log, Judge(d, item.body).fp)
    ensures var j, log := Judge(d, item.body), t.remote.log;
      Process(d, net, false, item, t).remote.log
      == log + [Committed(SkillCommit(item.id, j.cand.body)), DraftEvent(log, item.id, j.cand.summary, j.fp)]
  {
    var j := Judge(d, item.body);
    OpenedNow(net, d.emitGate, t.remote, item.id, j.cand.body, j.cand.summary, j.fp);
    hide EmitSpec, PassesGate, Judge, String;
  }

  lemma FingerprintIsUnclean(name: string)
    ensures !PassesGate(PLAIN, name + ":" + UNCOVERED)
  {
    var u := name + ":" + ("_" + KEY_MARK);
    assert u[|u| - 1] == '>';
    assert name + ":" + UNCOVERED == u + (HOST + TAIL);
    StashedHit(u);
    PlainGate(u + (HOST + TAIL));
  }

  /** The last thing done was to open a draft with an unclean description. */
  ghost predicate EndsUnclean(log: seq<Event>, log': seq<Event>) {
    |log'| > |log| && log'[|log'| - 1].Opened? && !Clean(PLAIN, log'[|log'| - 1].pr.body)
  }

  /** For every access key there is a lesson that, whatever the extractor makes of it, once it gets
      through is published in a description the gate refuses. */
  lemma RedactedLessonLeaks(d: Deps, net: Network, item: Item, t: Tally, key: string)
    requires d.Valid() && d.redactor == PLAIN && d.emitGate == PLAIN && AllWorks(net)
    requires Key(key) && item.body == Covered(key)
    requires Emitted(d, item) && !Marked(t.remote.log, Judge(d, item.body).fp)
    ensures EndsUnclean(t.remote.log, Process(d, net, false, item, t).remote.log)
  {
    var j := Judge(d, item.body);
    CoveredRedacted(key);
    assert j.fp == j.cand.skillName + ":" + UNCOVERED;
    LessonIsOpened(d, net, item, t);
    hide Judge, Process, FullBody, Clear, Stashed, UNCOVERED, PassesGate;
    FingerprintIsUnclean(j.cand.skillName);
    DescriptionIsCleanIff(j.cand.summary, j.fp);
    PlainGate(FullBody(j.cand.summary, j.fp));
  }

  // ---------------------------------------------------------------- and it happens

  /** An extractor that finds an empty, general lesson in everything. */
  const TRUSTING := Deps(
    (since, limit) => None, pr => None, pr => false,
    PLAIN, text => Extracted(Candidate(true, "skill", "", "")),
    PLAIN, None, [], PLAIN)

  lemma NothingPasses()
    ensures PassesGate(PLAIN, "")
  {
    NothingIsClear();
    PlainGate("");
  }

  lemma TrustingEmits(item: Item)
    ensures TRUSTING.Valid() && TRUSTING.redactor == PLAIN && TRUSTING.emitGate == PLAIN && Emitted(TRUSTING, item)
  {
    NothingPasses();
    hide Redacted, JoinComma;
  }

  lemma EmptyForge(fp: string)
    ensures !Marked([], fp)
  {
  }

  lemma OneLesson(d: Deps, net: Network, item: Item, t: Tally)
    requires d.Valid()
    ensures ProcessAll(d, net, false, [item], t) == Process(d, net, false, item, t)
  {
    assert [item][1..] == [];
  }

  /** A first run over one such lesson, on an empty forge. */
  lemma LeakHappens(key: string, net: Network)
    requires Key(key) && AllWorks(net)
    ensures TRUSTING.Valid()
    ensures EndsUnclean([],
      ProcessAll(TRUSTING, net, false, [Item(LessonID(1, 1, ""), Covered(key))], Tally(0, 0, [], Remote([], 0))).remote.log)
  {
    var item, t := Item(LessonID(1, 1, ""), Covered(key)), Tally(0, 0, [], Remote([], 0));
    TrustingEmits(item);
    hide *;
    EmptyForge(Judge(TRUSTING, item.body).fp);
    RedactedLessonLeaks(TRUSTING, net, item, t, key);
    OneLesson(TRUSTING, net, item, t);
  }
}
