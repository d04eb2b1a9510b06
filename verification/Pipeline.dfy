/** internal/pipeline/pipeline.go: the orchestrator, with the real redactor, gate, reconciler and
    emitter; the watcher, the lesson source, the prefilter, the extractor and the verifier are
    arbitrary deterministic collaborators. */
module Pipeline {
  import opened Text
  import opened Identity
  import opened Redaction
  import opened Gate
  import opened Emit
  import opened Watch
  import opened Reconcile

  datatype Candidate = Candidate(generalizable: bool, skillName: string, summary: string, body: string)

  /** A failed extraction carries the class of its error. */
  datatype Extraction = Extracted(cand: Candidate) | ExtractFailed(errClass: string)

  datatype Rejection = Rejection(lesson: string, reason: string, detail: string)

  const EXTRACT_ERROR := "extract-error"
  const NON_GENERALIZABLE := "non-generalizable"
  const GATE_BLOCKED := "gate-blocked"
  const DUPLICATE := "duplicate"
  const EMIT_ERROR := "emit-error"

  /** The class of an error that did not come from the model's interface. */
  const UNKNOWN_CLASS := "error"

  datatype Deps = Deps(
    watch: (int, int) -> Option<seq<MergedPR>>,
    lessons: int -> Option<seq<string>>,
    skip: MergedPR -> bool,
    redactor: Redactor,
    extract: string -> Extraction,
    gate: Redactor,
    verify: Option<string -> bool>,
    index: seq<SkillRef>,
    emitGate: Redactor)
  {
    predicate Valid() { redactor.Valid() && gate.Valid() && emitGate.Valid() }
  }

  datatype Options = Options(maxPRs: int, since: int, dryRun: bool, once: bool)

  function JoinComma(parts: seq<string>): string {
    if parts == [] then "" else if |parts| == 1 then parts[0] else parts[0] + "," + JoinComma(parts[1..])
  }

  /** skill name and redacted lesson, not the hash of emit.Fingerprint */
  function FingerprintOf(cand: Candidate, redacted: string): string { cand.skillName + ":" + redacted }

  // ---------------------------------------------------------------- specification

  datatype Item = Item(id: LessonID, body: string)

  /** What the stages before emission make of a lesson. */
  datatype Judgement = Rejected(reason: string, detail: string) | Accepted(cand: Candidate, fp: string)

  ghost function Judge(d: Deps, body: string): Judgement
    requires d.Valid()
  {
    var redacted := Redacted(d.redactor, body).clean;
    match d.extract(redacted)
    case ExtractFailed(errClass) => Rejected(EXTRACT_ERROR, errClass)
    case Extracted(cand) =>
      var v := VerdictOf(Redacted(d.gate, cand.body).hits);
      if !cand.generalizable then Rejected(NON_GENERALIZABLE, "")
      else if !v.safe then Rejected(GATE_BLOCKED, JoinComma(v.reasons))
      else if d.verify.Some? && !d.verify.value(cand.body) then Rejected(GATE_BLOCKED, "claude-verify")
      else if DecisionOf(d.index, cand.skillName) == Duplicate then Rejected(DUPLICATE, cand.skillName)
      else Accepted(cand, FingerprintOf(cand, redacted))
  }

  /** Everything a run changes: the count, the report and the forge. */
  datatype Tally = Tally(count: nat, extractErrors: nat, rejections: seq<Rejection>, remote: Remote)

  function Add(t: Tally, id: LessonID, reason: string, detail: string): Tally {
    t.(extractErrors := if reason == EXTRACT_ERROR then t.extractErrors + 1 else t.extractErrors,
       rejections := t.rejections + [Rejection(String(id), reason, detail)])
  }

  ghost function Process(d: Deps, net: Network, dryRun: bool, item: Item, t: Tally): Tally
    requires d.Valid()
  {
    match Judge(d, item.body)
    case Rejected(reason, detail) => Add(t, item.id, reason, detail)
    case Accepted(cand, fp) =>
      if dryRun then t.(count := t.count + 1)
      else
        var (remote, r) := EmitSpec(net, d.emitGate, t.remote, item.id, cand.body, cand.summary, fp);
        if r.Url? then t.(count := t.count + 1, remote := remote)
        else Add(t.(remote := remote), item.id, EMIT_ERROR, UNKNOWN_CLASS)
  }

  ghost function ProcessAll(d: Deps, net: Network, dryRun: bool, items: seq<Item>, t: Tally): Tally
    requires d.Valid()
    decreases |items|
  {
    if items == [] then t else ProcessAll(d, net, dryRun, items[1..], Process(d, net, dryRun, items[0], t))
  }

  function LessonItems(pr: int, sha: string, bodies: seq<string>, i: nat): seq<Item>
    requires i <= |bodies|
    decreases |bodies| - i
  {
    if i == |bodies| then [] else [Item(LessonID(pr, i + 1, sha), bodies[i])] + LessonItems(pr, sha, bodies, i + 1)
  }

  function PRItems(d: Deps, pr: MergedPR): seq<Item> {
    if d.skip(pr) || d.lessons(pr.number).None? then []
    else LessonItems(pr.number, pr.mergeSHA, d.lessons(pr.number).value, 0)
  }

  function WatchItems(d: Deps, prs: seq<MergedPR>, k: nat): seq<Item>
    requires k <= |prs|
    decreases |prs| - k
  {
    if k == |prs| then [] else PRItems(d, prs[k]) + WatchItems(d, prs, k + 1)
  }

  /** The lessons a run hands to its stages, or None if it cannot start. */
  function RunItems(d: Deps, opt: Options): Option<seq<Item>> {
    if opt.once then
      var bodies := d.lessons(0);
      if bodies.None? then None else Some(LessonItems(0, "smoke", bodies.value, 0))
    else
      var prs := d.watch(opt.since, opt.maxPRs);
      if prs.None? then None else Some(WatchItems(d, prs.value, 0))
  }

  // ---------------------------------------------------------------- the code

  class Report {
    var extractErrors: nat
    var rejections: seq<Rejection>

    constructor ()
      ensures extractErrors == 0 && rejections == []
    {
      extractErrors, rejections := 0, [];
    }

    method Add(id: LessonID, reason: string, detail: string)
      modifies this
      ensures extractErrors == old(extractErrors) + (if reason == EXTRACT_ERROR then 1 else 0)
      ensures rejections == old(rejections) + [Rejection(String(id), reason, detail)]
    {
      if reason == EXTRACT_ERROR {
        extractErrors := extractErrors + 1;
      }
      rejections := rejections + [Rejection(String(id), reason, detail)];
    }
  }

  /** A run stands here; without a report nobody sees the rejections. */
  predicate Stands(t: Tally, count: nat, rep: Report?, forge: Forge)
    reads rep, forge
  {
    && t.count == count
    && t.remote == forge.State()
    && (rep != null ==> rep.extractErrors == t.extractErrors && rep.rejections == t.rejections)
  }

  method Record(rep: Report?, id: LessonID, reason: string, detail: string, ghost t: Tally, ghost count: nat, ghost forge: Forge)
    requires Stands(t, count, rep, forge)
    modifies rep
    ensures Stands(Add(t, id, reason, detail), count, rep, forge)
  {
    if rep != null { rep.Add(id, reason, detail); }
  }

  method ProcessLesson(d: Deps, forge: Forge, id: LessonID, body: string, dryRun: bool, rep: Report?,
                       ghost t: Tally, ghost count: nat) returns (counted: bool)
    requires d.Valid() && Stands(t, count, rep, forge)
    modifies forge, rep
    ensures Stands(Process(d, forge.net, dryRun, Item(id, body), t), if counted then count + 1 else count, rep, forge)
  {
    hide Redacted, VerdictOf, EmitSpec, DecisionOf, JoinComma, String;
    // REDACT
    var res := Redact(d.redactor, body);
    var redacted := res.clean;

    // EXTRACT
    var extraction := d.extract(redacted);
    if extraction.ExtractFailed? {
      Record(rep, id, EXTRACT_ERROR, extraction.errClass, t, count, forge);
      return false;
    }
    var cand := extraction.cand;
    if !cand.generalizable {
      Record(rep, id, NON_GENERALIZABLE, "", t, count, forge);
      return false;
    }

    // GATE
    var v := Check(d.gate, cand.body);
    if !v.safe {
      Record(rep, id, GATE_BLOCKED, JoinComma(v.reasons), t, count, forge);
      return false;
    }
    if d.verify.Some? && !d.verify.value(cand.body) {
      Record(rep, id, GATE_BLOCKED, "claude-verify", t, count, forge);
      return false;
    }

    // RECONCILE
    var decision, _ := Classify(d.index, cand.skillName);
    if decision == Duplicate {
      Record(rep, id, DUPLICATE, cand.skillName, t, count, forge);
      return false;
    }

    if dryRun {
      return true;
    }

    // EMIT
    var r := EmitDraft(forge, d.emitGate, id, cand.body, cand.summary, FingerprintOf(cand, redacted));
    if r.EmitError? {
      Record(rep, id, EMIT_ERROR, UNKNOWN_CLASS, t.(remote := forge.State()), count, forge);
      return false;
    }
    return true;
  }

  lemma NextItem(d: Deps, net: Network, dryRun: bool, pr: int, sha: string, bodies: seq<string>, i: nat,
                 later: seq<Item>, t: Tally)
    requires d.Valid() && i < |bodies|
    ensures ProcessAll(d, net, dryRun, LessonItems(pr, sha, bodies, i) + later, t)
         == ProcessAll(d, net, dryRun, LessonItems(pr, sha, bodies, i + 1) + later,
                       Process(d, net, dryRun, Item(LessonID(pr, i + 1, sha), bodies[i]), t))
  {
    hide Process;
    var rest := LessonItems(pr, sha, bodies, i + 1);
    assert (LessonItems(pr, sha, bodies, i) + later)[1..] == rest + later;
  }

  /** Every body of one pull request, in order. */
  method ProcessBodies(d: Deps, forge: Forge, pr: int, sha: string, bodies: seq<string>, dryRun: bool, rep: Report?,
                       start: nat, ghost t0: Tally, ghost later: seq<Item>)
      returns (candidates: nat, ghost t: Tally)
    requires d.Valid() && Stands(t0, start, rep, forge)
    modifies forge, rep
    ensures Stands(t, candidates, rep, forge)
    ensures ProcessAll(d, forge.net, dryRun, later, t)
         == ProcessAll(d, forge.net, dryRun, LessonItems(pr, sha, bodies, 0) + later, t0)
  {
    hide Process, ProcessAll;
    candidates, t := start, t0;
    ghost var net := forge.net;
    ghost var goal := ProcessAll(d, net, dryRun, LessonItems(pr, sha, bodies, 0) + later, t);
    for i := 0 to |bodies|
      invariant Stands(t, candidates, rep, forge)
      invariant goal == ProcessAll(d, net, dryRun, LessonItems(pr, sha, bodies, i) + later, t)
    {
      var id := LessonID(pr, i + 1, sha);
      NextItem(d, net, dryRun, pr, sha, bodies, i, later, t);
      var counted := ProcessLesson(d, forge, id, bodies[i], dryRun, rep, t, candidates);
      t := Process(d, net, dryRun, Item(id, bodies[i]), t);
      if counted {
        candidates := candidates + 1;
      }
    }
    assert LessonItems(pr, sha, bodies, |bodies|) + later == later;
  }

  lemma ProcessNone(d: Deps, net: Network, dryRun: bool, t: Tally)
    requires d.Valid()
    ensures ProcessAll(d, net, dryRun, [], t) == t
  {
  }

  method Run(d: Deps, forge: Forge, opt: Options, rep: Report?, ghost t0: Tally) returns (n: Option<nat>)
    requires d.Valid() && Stands(t0, 0, rep, forge)
    modifies forge, rep
    ensures match RunItems(d, opt)
      case None => n.None? && Stands(t0, 0, rep, forge)
      case Some(items) => n.Some? && Stands(ProcessAll(d, forge.net, opt.dryRun, items, t0), n.value, rep, forge)
  {
    hide Process, Stands, ProcessAll, LessonItems;
    var candidates: nat := 0;
    ghost var t := t0;
    if opt.once {
      var bodies := d.lessons(0);
      if bodies.None? {
        return None;
      }
      candidates, t := ProcessBodies(d, forge, 0, "smoke", bodies.value, opt.dryRun, rep, 0, t, []);
      assert LessonItems(0, "smoke", bodies.value, 0) + [] == LessonItems(0, "smoke", bodies.value, 0);
      ProcessNone(d, forge.net, opt.dryRun, t);
      return Some(candidates);
    }
    var prs := d.watch(opt.since, opt.maxPRs);
    if prs.None? {
      return None;
    }
    ghost var goal := ProcessAll(d, forge.net, opt.dryRun, WatchItems(d, prs.value, 0), t);
    for k := 0 to |prs.value|
      invariant Stands(t, candidates, rep, forge)
      invariant goal == ProcessAll(d, forge.net, opt.dryRun, WatchItems(d, prs.value, k), t)
    {
      var pr := prs.value[k];
      ghost var later := WatchItems(d, prs.value, k + 1);
      assert [] + later == later;
      if d.skip(pr) {
        continue;
      }
      var bodies := d.lessons(pr.number);
      if bodies.None? {
        continue;
      }
      candidates, t := ProcessBodies(d, forge, pr.number, pr.mergeSHA, bodies.value, opt.dryRun, rep, candidates, t, later);
    }
    ProcessNone(d, forge.net, opt.dryRun, t);
    return Some(candidates);
  }
}
