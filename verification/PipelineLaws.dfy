/** What whole runs guarantee: every lesson accounted for, dry runs faithful, second runs idle,
    nothing published that was not vetted. */
module PipelineLaws {
  import opened Identity
  import opened Redaction
  import opened Restoration
  import opened Gate
  import opened Emit
  import opened EmitLaws
  import opened Descriptions
  import opened Watch
  import opened Reconcile
  import opened Pipeline
  import Intake

  // ---------------------------------------------------------------- conservation

  function WithReason(rs: seq<Rejection>, reason: string): seq<Rejection> {
    if rs == [] then []
    else WithReason(rs[..|rs| - 1], reason) + (if rs[|rs| - 1].reason == reason then [rs[|rs| - 1]] else [])
  }

  function Without(rs: seq<Rejection>, reason: string): seq<Rejection> {
    if rs == [] then []
    else Without(rs[..|rs| - 1], reason) + (if rs[|rs| - 1].reason != reason then [rs[|rs| - 1]] else [])
  }

  lemma Snoc(rs: seq<Rejection>, r: Rejection, reason: string)
    ensures WithReason(rs + [r], reason) == WithReason(rs, reason) + (if r.reason == reason then [r] else [])
    ensures Without(rs + [r], reason) == Without(rs, reason) + (if r.reason != reason then [r] else [])
  {
    assert (rs + [r])[..|rs|] == rs;
  }

  ghost predicate Balanced(t: Tally) { t.extractErrors == |WithReason(t.rejections, EXTRACT_ERROR)| }

  /** Each lesson is either counted or reported under its own name, never both. */
  lemma OneOutcome(d: Deps, net: Network, dryRun: bool, item: Item, t: Tally)
    requires d.Valid()
    ensures var t' := Process(d, net, dryRun, item, t);
      || (t'.count == t.count + 1 && t'.rejections == t.rejections && t'.extractErrors == t.extractErrors)
      || (t'.count == t.count && |t'.rejections| == |t.rejections| + 1 && t.rejections < t'.rejections
          && t'.rejections[|t.rejections|].lesson == String(item.id) && (Balanced(t) ==> Balanced(t')))
  {
    hide EmitSpec, Judge, String;
    var t' := Process(d, net, dryRun, item, t);
    if t'.count == t.count { Snoc(t.rejections, t'.rejections[|t.rejections|], EXTRACT_ERROR); }
  }

  /** Candidates and rejections add up to the lessons processed; the extract-error counter is the
      number of rejections with that reason. */
  lemma {:induction false} Conservation(d: Deps, net: Network, dryRun: bool, items: seq<Item>, t: Tally)
    requires d.Valid()
    ensures var t' := ProcessAll(d, net, dryRun, items, t);
      && t'.count + |t'.rejections| == t.count + |t.rejections| + |items|
      && t.rejections <= t'.rejections
      && (Balanced(t) ==> Balanced(t'))
    decreases |items|
  {
    hide Process, WithReason;
    if items != [] {
      OneOutcome(d, net, dryRun, items[0], t);
      Conservation(d, net, dryRun, items[1..], Process(d, net, dryRun, items[0], t));
    }
  }

  // ---------------------------------------------------------------- dry runs

  /** What two runs of the same lessons have in common when one of them only pretends. */
  ghost predicate Mirrors(dry: Tally, wet: Tally) {
    && dry.rejections == Without(wet.rejections, EMIT_ERROR)
    && dry.count == wet.count + |WithReason(wet.rejections, EMIT_ERROR)|
    && dry.extractErrors == wet.extractErrors
  }

  lemma JudgeReasons(d: Deps, body: string)
    requires d.Valid()
    ensures Judge(d, body).Rejected? ==> Judge(d, body).reason != EMIT_ERROR
  {
    hide Redacted, VerdictOf, DecisionOf, JoinComma;
    assert EXTRACT_ERROR[1] != EMIT_ERROR[1] && NON_GENERALIZABLE[0] != EMIT_ERROR[0];
    assert GATE_BLOCKED[0] != EMIT_ERROR[0] && DUPLICATE[0] != EMIT_ERROR[0];
  }

  lemma MirrorsOne(d: Deps, net: Network, item: Item, dry: Tally, wet: Tally)
    requires d.Valid() && Mirrors(dry, wet)
    ensures Mirrors(Process(d, net, true, item, dry), Process(d, net, false, item, wet))
  {
    JudgeReasons(d, item.body);
    assert EXTRACT_ERROR[1] != EMIT_ERROR[1];
    hide EXTRACT_ERROR, EMIT_ERROR, UNKNOWN_CLASS;
    hide EmitSpec, Judge, String, Without, WithReason;
    if Judge(d, item.body).Rejected? {
      var j := Judge(d, item.body);
      AddBoth(dry, wet, item.id, j.reason, j.detail);
    } else {
      Snoc(wet.rejections, Rejection(String(item.id), EMIT_ERROR, UNKNOWN_CLASS), EMIT_ERROR);
    }
  }

  lemma AddBoth(dry: Tally, wet: Tally, id: LessonID, reason: string, detail: string)
    requires Mirrors(dry, wet) && reason != EMIT_ERROR
    ensures Mirrors(Add(dry, id, reason, detail), Add(wet, id, reason, detail))
  {
    hide String, Without, WithReason;
    Snoc(wet.rejections, Rejection(String(id), reason, detail), EMIT_ERROR);
  }

  lemma {:induction false} MirrorsAll(d: Deps, net: Network, items: seq<Item>, dry: Tally, wet: Tally)
    requires d.Valid() && Mirrors(dry, wet)
    ensures Mirrors(ProcessAll(d, net, true, items, dry), ProcessAll(d, net, false, items, wet))
    decreases |items|
  {
    hide Process, Mirrors;
    if items != [] {
      MirrorsOne(d, net, items[0], dry, wet);
      MirrorsAll(d, net, items[1..], Process(d, net, true, items[0], dry), Process(d, net, false, items[0], wet));
    }
  }

  lemma {:induction false} DryRunIsIdle(d: Deps, net: Network, items: seq<Item>, t: Tally)
    requires d.Valid()
    ensures ProcessAll(d, net, true, items, t).remote == t.remote
    decreases |items|
  {
    if items != [] {
      assert Process(d, net, true, items[0], t).remote == t.remote by { hide Judge, String; }
      hide Process;
      DryRunIsIdle(d, net, items[1..], Process(d, net, true, items[0], t));
    }
  }

  /** A dry run reports what the real run reports, less the emission errors; it counts those lessons
      too; and it sends nothing to the forge. */
  lemma DryRunIsFaithful(d: Deps, net: Network, items: seq<Item>, remote: Remote)
    requires d.Valid()
    ensures var dry := ProcessAll(d, net, true, items, Tally(0, 0, [], remote));
      var wet := ProcessAll(d, net, false, items, Tally(0, 0, [], remote));
      && dry.rejections == Without(wet.rejections, EMIT_ERROR)
      && dry.count == wet.count + |WithReason(wet.rejections, EMIT_ERROR)|
      && dry.extractErrors == wet.extractErrors
      && dry.remote == remote
  {
    var t := Tally(0, 0, [], remote);
    MirrorsAll(d, net, items, t, t);
    DryRunIsIdle(d, net, items, t);
  }

  // ---------------------------------------------------------------- running twice

  /** The lesson gets as far as the forge. */
  ghost predicate Emitted(d: Deps, item: Item)
    requires d.Valid()
  {
    var j := Judge(d, item.body);
    j.Accepted? && PassesGate(d.emitGate, j.cand.summary) && PassesGate(d.emitGate, j.cand.body)
  }

  /** If the lesson gets that far, its marker is on the forge. */
  ghost predicate Settled(d: Deps, item: Item, log: seq<Event>)
    requires d.Valid()
  {
    Emitted(d, item) ==> Marked(log, Judge(d, item.body).fp)
  }

  /** If every request works, what a lesson adds to count and report does not depend on the forge; if
      it is emitted, it is marked afterwards, and emitting it again when marked changes nothing. */
  lemma ProcessWorks(d: Deps, net: Network, item: Item, t: Tally, u: Tally)
    requires d.Valid() && AllWorks(net)
    requires t.count == u.count && t.extractErrors == u.extractErrors && t.rejections == u.rejections
    ensures var t', u' := Process(d, net, false, item, t), Process(d, net, false, item, u);
      && t'.count == u'.count && t'.extractErrors == u'.extractErrors && t'.rejections == u'.rejections
      && Settled(d, item, t'.remote.log)
      && (Settled(d, item, t.remote.log) ==> t'.remote.log == t.remote.log)
      && (Emitted(d, item) ==> t'.count == t.count + 1)
  {
    hide Judge, String, PassesGate;
    var j := Judge(d, item.body);
    if j.Accepted? {
      EmittingWorks(d, net, item.id, j, t.remote);
      EmittingWorks(d, net, item.id, j, u.remote);
      hide EmitSpec;
    }
  }

  lemma EmittingWorks(d: Deps, net: Network, id: LessonID, j: Judgement, r: Remote)
    requires d.Valid() && AllWorks(net) && j.Accepted?
    ensures var ok := PassesGate(d.emitGate, j.cand.summary) && PassesGate(d.emitGate, j.cand.body);
      var (r', result) := EmitSpec(net, d.emitGate, r, id, j.cand.body, j.cand.summary, j.fp);
      && (result.Url? <==> ok)
      && (!ok ==> r'.log == r.log)
      && (ok ==> Marked(r'.log, j.fp))
      && (ok && Marked(r.log, j.fp) ==> r'.log == r.log)
  {
    EmissionSucceeds(net, d.emitGate, r, id, j.cand.body, j.cand.summary, j.fp);
    EmissionIsOneStep(net, d.emitGate, r, id, j.cand.body, j.cand.summary, j.fp);
    SearchIsExact(net, r, j.fp);
    hide PassesGate;
    var (r', result) := EmitSpec(net, d.emitGate, r, id, j.cand.body, j.cand.summary, j.fp);
    if result.Url? {
      var i :| 0 <= i < |PullRequests(r'.log)| && Carries(PullRequests(r'.log)[i], j.fp);
    }
  }

  /** A run only adds to the log, and marks stay. */
  lemma ProcessGrows(d: Deps, net: Network, item: Item, t: Tally)
    requires d.Valid()
    ensures t.remote.log <= Process(d, net, false, item, t).remote.log
  {
    var j := Judge(d, item.body);
    if j.Accepted? {
      EmissionIsOneStep(net, d.emitGate, t.remote, item.id, j.cand.body, j.cand.summary, j.fp);
    }
    hide Judge, String, EmitSpec, PassesGate;
  }

  ghost predicate AllMarked(d: Deps, items: seq<Item>, log: seq<Event>)
    requires d.Valid()
  {
    forall k :: 0 <= k < |items| ==> Settled(d, items[k], log)
  }

  lemma SettledStays(d: Deps, item: Item, log: seq<Event>, log': seq<Event>)
    requires d.Valid() && Settled(d, item, log) && log <= log'
    ensures Settled(d, item, log')
  {
    if Emitted(d, item) { MarksStay(log, log', Judge(d, item.body).fp); }
  }

  lemma {:induction false} RunMarksAll(d: Deps, net: Network, items: seq<Item>, t: Tally)
    requires d.Valid() && AllWorks(net)
    ensures AllMarked(d, items, ProcessAll(d, net, false, items, t).remote.log)
    ensures t.remote.log <= ProcessAll(d, net, false, items, t).remote.log
    decreases |items|
  {
    hide Process, Settled;
    if items != [] {
      var t1 := Process(d, net, false, items[0], t);
      ProcessWorks(d, net, items[0], t, t);
      ProcessGrows(d, net, items[0], t);
      RunMarksAll(d, net, items[1..], t1);
      var log := ProcessAll(d, net, false, items, t).remote.log;
      SettledStays(d, items[0], t1.remote.log, log);
      forall k | 0 <= k < |items| ensures Settled(d, items[k], log) {
        if k > 0 { assert items[1..][k - 1] == items[k]; }
      }
    }
  }

  lemma {:induction false} MarkedRunIsIdle(d: Deps, net: Network, items: seq<Item>, t: Tally, u: Tally)
    requires d.Valid() && AllWorks(net) && AllMarked(d, items, u.remote.log)
    requires t.count == u.count && t.extractErrors == u.extractErrors && t.rejections == u.rejections
    ensures var t', u' := ProcessAll(d, net, false, items, t), ProcessAll(d, net, false, items, u);
      && u'.remote.log == u.remote.log
      && t'.count == u'.count && t'.extractErrors == u'.extractErrors && t'.rejections == u'.rejections
    decreases |items|
  {
    hide Process, Settled;
    if items != [] {
      ProcessWorks(d, net, items[0], t, u);
      ProcessWorks(d, net, items[0], u, t);
      assert forall k :: 0 <= k < |items| - 1 ==> items[1..][k] == items[k + 1];
      MarkedRunIsIdle(d, net, items[1..], Process(d, net, false, items[0], t), Process(d, net, false, items[0], u));
    }
  }

  /** With a forge that works, the same run again opens and commits nothing, and returns the same
      count and report, even when several lessons share a fingerprint. */
  lemma RunTwice(d: Deps, net: Network, items: seq<Item>, remote: Remote)
    requires d.Valid() && AllWorks(net)
    ensures var first := ProcessAll(d, net, false, items, Tally(0, 0, [], remote));
      var second := ProcessAll(d, net, false, items, Tally(0, 0, [], first.remote));
      && second.remote.log == first.remote.log
      && second.count == first.count
      && second.extractErrors == first.extractErrors
      && second.rejections == first.rejections
  {
    var t := Tally(0, 0, [], remote);
    RunMarksAll(d, net, items, t);
    MarkedRunIsIdle(d, net, items, t, Tally(0, 0, [], ProcessAll(d, net, false, items, t).remote));
  }

  // ---------------------------------------------------------------- what gets published

  /** Each draft of the log comes from a lesson: its file, committed right before on the lesson's own
      branch and path, is the candidate that passed both gates and the verifier, and is no duplicate
      of a published skill. */
  ghost predicate Vetted(d: Deps, item: Item, commit: Commit, pr: PullRequest, fp: string)
    requires d.Valid()
  {
    var redacted := Redacted(d.redactor, item.body).clean;
    var extraction := d.extract(redacted);
    extraction.Extracted? &&
    var cand := extraction.cand;
    && cand.generalizable
    && PassesGate(d.gate, cand.body) && PassesGate(d.emitGate, cand.body) && PassesGate(d.emitGate, cand.summary)
    && (d.verify.Some? ==> d.verify.value(cand.body))
    && !Exact(d.index, cand.skillName)
    && commit == Commit(Branch(item.id), SkillPath(item.id), cand.body, commit.message)
    && pr.branch == Branch(item.id)
    && pr.body == FullBody(cand.summary, fp)
    && fp == cand.skillName + ":" + redacted
  }

  ghost predicate AllVetted(d: Deps, items: seq<Item>, log: seq<Event>, log': seq<Event>)
    requires d.Valid()
  {
    && log <= log'
    && forall i :: |log| <= i < |log'| && log'[i].Opened? ==>
         && i > |log| && log'[i - 1].Committed?
         && exists k :: 0 <= k < |items| && Vetted(d, items[k], log'[i - 1].commit, log'[i].pr, log'[i].fp)
  }

  lemma JudgedIsVetted(d: Deps, item: Item, log: seq<Event>)
    requires d.Valid() && Emitted(d, item)
    ensures var j := Judge(d, item.body);
      Vetted(d, item, SkillCommit(item.id, j.cand.body),
             NewPullRequest(log, Branch(item.id), Title(item.id), FullBody(j.cand.summary, j.fp)), j.fp)
  {
    hide Redacted, DecisionOf, FullBody, Branch, SkillPath, String, Title;
    DuplicateIsExact(d.index, Judge(d, item.body).cand.skillName);
  }

  lemma DuplicateIsExact(idx: seq<SkillRef>, name: string)
    ensures DecisionOf(idx, name) == Duplicate <==> Exact(idx, name)
  {
  }

  lemma StepIsVetted(d: Deps, item: Item, j: Judgement, log: seq<Event>, log': seq<Event>)
    requires d.Valid() && j == Judge(d, item.body) && j.Accepted?
    requires EmitStep(d.emitGate, item.id, j.cand.body, j.cand.summary, j.fp, log, log')
    ensures AllVetted(d, [item], log, log')
  {
    hide Judge, PassesGate, SkillCommit, NewPullRequest, FullBody, Vetted, Marked;
    if log' == log {
      NothingNew(d, [item], log);
    } else {
      JudgedIsVetted(d, item, log);
      var c, n := SkillCommit(item.id, j.cand.body), |log|;
      assert log'[n] == Committed(c);
      assert |log'| > n + 1 ==> log'[n + 1].Opened? && Vetted(d, [item][0], c, log'[n + 1].pr, log'[n + 1].fp);
    }
  }

  lemma OneVetted(d: Deps, net: Network, item: Item, t: Tally)
    requires d.Valid()
    ensures AllVetted(d, [item], t.remote.log, Process(d, net, false, item, t).remote.log)
  {
    var j := Judge(d, item.body);
    var log, log' := t.remote.log, Process(d, net, false, item, t).remote.log;
    if j.Accepted? {
      EmissionIsOneStep(net, d.emitGate, t.remote, item.id, j.cand.body, j.cand.summary, j.fp);
      StepIsVetted(d, item, j, log, EmitSpec(net, d.emitGate, t.remote, item.id, j.cand.body, j.cand.summary, j.fp).0.log);
    }
    hide EmitSpec, Judge, String, AllVetted;
    assert j.Rejected? ==> log' == log;
    NothingNew(d, [item], log);
  }

  lemma NothingNew(d: Deps, items: seq<Item>, log: seq<Event>)
    requires d.Valid()
    ensures AllVetted(d, items, log, log)
  {
  }

  lemma VettedSum(d: Deps, item: Item, rest: seq<Item>, log: seq<Event>, mid: seq<Event>, end: seq<Event>)
    requires d.Valid() && AllVetted(d, [item], log, mid) && AllVetted(d, rest, mid, end)
    ensures AllVetted(d, [item] + rest, log, end)
  {
    hide Vetted;
    var items := [item] + rest;
    forall i | |log| <= i < |end| && end[i].Opened?
      ensures i > |log| && end[i - 1].Committed?
        && exists k :: 0 <= k < |items| && Vetted(d, items[k], end[i - 1].commit, end[i].pr, end[i].fp)
    {
      if i < |mid| {
        assert end[i] == mid[i] && (i > 0 ==> end[i - 1] == mid[i - 1]);
        var k :| 0 <= k < 1 && Vetted(d, [item][k], mid[i - 1].commit, mid[i].pr, mid[i].fp);
        assert items[0] == item;
      } else {
        var k :| 0 <= k < |rest| && Vetted(d, rest[k], end[i - 1].commit, end[i].pr, end[i].fp);
        assert items[k + 1] == rest[k];
      }
    }
  }

  /** Over a whole run, whatever the network does: every draft opened follows the commit of its
      file, and both come from one of the run's lessons and were vetted. */
  lemma {:induction false} RunIsVetted(d: Deps, net: Network, items: seq<Item>, t: Tally)
    requires d.Valid()
    ensures AllVetted(d, items, t.remote.log, ProcessAll(d, net, false, items, t).remote.log)
    decreases |items|
  {
    hide Process, AllVetted;
    if items == [] {
      NothingNew(d, [], t.remote.log);
    } else {
      var t1 := Process(d, net, false, items[0], t);
      OneVetted(d, net, items[0], t);
      RunIsVetted(d, net, items[1..], t1);
      VettedSum(d, items[0], items[1..], t.remote.log, t1.remote.log, ProcessAll(d, net, false, items, t).remote.log);
      assert items == [items[0]] + items[1..];
    }
  }

  /** This text holds nothing the redactor would find, once its allow-listed tokens are set aside. */
  ghost predicate Clean(gate: Redactor, text: string) { Clear(gate, Stashed(text)) }

  /** The file is clean, and so is the description but for the marker; with an empty deny-list the
      whole description is clean exactly if the fingerprint passes the gate, which nobody asks it. */
  ghost predicate PublishedSo(gate: Redactor, file: Event, draft: Event)
    requires gate.Valid()
  {
    && file.Committed? && Clean(gate, file.commit.content)
    && draft.Opened? && (exists b :: Clean(gate, b) && draft.pr.body == FullBody(b, draft.fp))
    && (gate == PLAIN ==> (Clean(gate, draft.pr.body) <==> PassesGate(gate, draft.fp)))
  }

  ghost predicate AllPublishedSo(gate: Redactor, log: seq<Event>, log': seq<Event>)
    requires gate.Valid()
  {
    forall i :: |log| <= i < |log'| && log'[i].Opened? ==> i > 0 && PublishedSo(gate, log'[i - 1], log'[i])
  }

  /** What a run publishes: clean files, clean summaries, and whatever the fingerprints hold. */
  lemma RunPublishes(d: Deps, net: Network, items: seq<Item>, t: Tally)
    requires d.Valid()
    ensures AllPublishedSo(d.emitGate, t.remote.log, ProcessAll(d, net, false, items, t).remote.log)
  {
    RunIsVetted(d, net, items, t);
    VettedRunPublishes(d, items, t.remote.log, ProcessAll(d, net, false, items, t).remote.log);
  }

  lemma VettedRunPublishes(d: Deps, items: seq<Item>, log: seq<Event>, log': seq<Event>)
    requires d.Valid() && AllVetted(d, items, log, log')
    ensures AllPublishedSo(d.emitGate, log, log')
  {
    hide FullBody, Vetted, Clean, PassesGate;
    forall i | |log| <= i < |log'| && log'[i].Opened?
      ensures i > 0 && PublishedSo(d.emitGate, log'[i - 1], log'[i])
    {
      var k :| 0 <= k < |items| && Vetted(d, items[k], log'[i - 1].commit, log'[i].pr, log'[i].fp);
      VettedIsClean(d, items[k], log'[i - 1].commit, log'[i].pr, log'[i].fp);
    }
  }

  lemma VettedIsClean(d: Deps, item: Item, commit: Commit, pr: PullRequest, fp: string)
    requires d.Valid() && Vetted(d, item, commit, pr, fp)
    ensures Clean(d.emitGate, commit.content)
    ensures exists b :: Clean(d.emitGate, b) && pr.body == FullBody(b, fp)
    ensures d.emitGate == PLAIN ==> (Clean(d.emitGate, pr.body) <==> PassesGate(d.emitGate, fp))
  {
    hide Redacted, Clear, Stashed, FullBody, Branch, SkillPath, Exact, VerdictOf;
    var cand := d.extract(Redacted(d.redactor, item.body).clean).cand;
    SafeMeansClear(d.emitGate, cand.body);
    SafeMeansClear(d.emitGate, cand.summary);
    if d.emitGate == PLAIN {
      SafeMeansClear(PLAIN, pr.body);
      DescriptionIsCleanIff(cand.summary, fp);
    }
  }

  /** And no fingerprint ever gets a second draft. */
  lemma {:induction false} RunKeepsOneDraft(d: Deps, net: Network, items: seq<Item>, t: Tally)
    requires d.Valid() && Gated(d.emitGate, t.remote.log) && OneDraftEach(t.remote.log)
    ensures var log := ProcessAll(d, net, false, items, t).remote.log;
      Gated(d.emitGate, log) && OneDraftEach(log)
    decreases |items|
  {
    hide Gated, OneDraftEach;
    if items != [] {
      var j := Judge(d, items[0].body);
      if j.Accepted? {
        EmissionKeepsLog(net, d.emitGate, t.remote, items[0].id, j.cand.body, j.cand.summary, j.fp);
      }
      hide EmitSpec, Judge, String;
      RunKeepsOneDraft(d, net, items[1..], Process(d, net, false, items[0], t));
    }
  }

  // ---------------------------------------------------------------- one branch for each lesson

  ghost predicate DistinctNumbers(prs: seq<MergedPR>, k: nat) {
    forall i, j :: k <= i < j < |prs| ==> prs[i].number != prs[j].number
  }

  ghost predicate DistinctBranches(items: seq<Item>) {
    forall i, j :: 0 <= i < j < |items| ==>
      Branch(items[i].id) != Branch(items[j].id) && SkillPath(items[i].id) != SkillPath(items[j].id)
  }

  lemma {:induction false} WatchItemsNumbers(d: Deps, prs: seq<MergedPR>, k: nat, m: nat)
    requires k <= |prs| && m < |WatchItems(d, prs, k)|
    ensures exists i :: k <= i < |prs| && WatchItems(d, prs, k)[m].id.pr == prs[i].number
    decreases |prs| - k
  {
    var items := PRItems(d, prs[k]);
    if !d.skip(prs[k]) && d.lessons(prs[k].number).Some? {
      Intake.LessonItemsAt(prs[k].number, prs[k].mergeSHA, d.lessons(prs[k].number).value, 0);
    }
    if m >= |items| { WatchItemsNumbers(d, prs, k + 1, m - |items|); }
  }

  ghost predicate DistinctIds(items: seq<Item>) {
    forall i, j :: 0 <= i < j < |items| ==> items[i].id.pr != items[j].id.pr || items[i].id.index != items[j].id.index
  }

  lemma {:induction false} WatchItemsDistinct(d: Deps, prs: seq<MergedPR>, k: nat)
    requires k <= |prs| && DistinctNumbers(prs, k)
    ensures DistinctIds(WatchItems(d, prs, k))
    decreases |prs| - k
  {
    if k < |prs| {
      WatchItemsDistinct(d, prs, k + 1);
      var items, rest := PRItems(d, prs[k]), WatchItems(d, prs, k + 1);
      if !d.skip(prs[k]) && d.lessons(prs[k].number).Some? {
        Intake.LessonItemsAt(prs[k].number, prs[k].mergeSHA, d.lessons(prs[k].number).value, 0);
      }
      forall m | 0 <= m < |rest| ensures rest[m].id.pr != prs[k].number { WatchItemsNumbers(d, prs, k + 1, m); }
    }
  }

  /** In both modes, when the watcher names no pull request twice, a run's lessons all have their own
      branch and path. */
  lemma RunItemsDistinct(d: Deps, opt: Options)
    requires RunItems(d, opt).Some?
    requires opt.once || DistinctNumbers(d.watch(opt.since, opt.maxPRs).value, 0)
    ensures DistinctBranches(RunItems(d, opt).value)
  {
    var items := RunItems(d, opt).value;
    if opt.once {
      Intake.LessonItemsAt(0, "smoke", d.lessons(0).value, 0);
    } else {
      WatchItemsDistinct(d, d.watch(opt.since, opt.maxPRs).value, 0);
    }
    assert DistinctIds(items);
    hide Branch, SkillPath;
    forall i, j | 0 <= i < j < |items|
      ensures Branch(items[i].id) != Branch(items[j].id) && SkillPath(items[i].id) != SkillPath(items[j].id)
    {
      NamesAreInjective(items[i].id, items[j].id);
    }
  }
}
