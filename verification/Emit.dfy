/** internal/emit/emit.go and FindByFingerprint of internal/emit/github.go: gated, idempotent draft
    pull requests over an abstract forge. */
module Emit {
  import opened Text
  import opened Identity
  import opened Redaction
  import opened Gate

  datatype PullRequest = PullRequest(url: string, branch: string, title: string, body: string)

  datatype Commit = Commit(branch: string, path: string, content: string, message: string)

  /** What has happened on the forge, in order. `fp` is the fingerprint the draft was opened for;
      foreign pull requests are other people's. */
  datatype Event =
    | Committed(commit: Commit)
    | Opened(pr: PullRequest, fp: string)
    | Foreign(pr: PullRequest)
  {
    predicate Lists() { Opened? || Foreign? }
  }

  /** The state of the forge; `calls` numbers the requests sent to it. */
  datatype Remote = Remote(log: seq<Event>, calls: nat)

  /** A request to the forge works, is refused, or takes effect while its reply is lost. */
  datatype Outcome = Works | Refused | ReplyLost

  datatype Call =
    | ListPage(page: nat)
    | CommitCall(commit: Commit)
    | CreateCall(branch: string, title: string, body: string)

  type Network = (Call, nat) -> Outcome

  datatype Lookup = Missing | At(url: string) | LookupFailed

  datatype Stage = BodyGate | SkillGate | Searching | Committing | Creating

  datatype EmitResult = Url(url: string) | EmitError(stage: Stage)

  const PAGE_SIZE := 100

  function Marker(fp: string): string {
    "<!-- lessongate:fp=" + fp + " -->"
  }

  /** The body a draft is opened with. */
  function FullBody(body: string, fp: string): string {
    body + "\n\n" + Marker(fp)
  }

  function Title(id: LessonID): string {
    "skill: " + Branch(id) + " (" + String(id) + ")"
  }

  function SkillCommit(id: LessonID, skillMD: string): Commit {
    Commit(Branch(id), SkillPath(id), skillMD, "feat(skills): add generic skill from " + String(id))
  }

  function PullRequests(log: seq<Event>): seq<PullRequest> {
    if log == [] then []
    else PullRequests(log[..|log| - 1]) + (if log[|log| - 1].Lists() then [log[|log| - 1].pr] else [])
  }

  function PassesGate(gate: Redactor, text: string): bool
    requires gate.Valid()
  {
    VerdictOf(Redacted(gate, text).hits).safe
  }

  // ---------------------------------------------------------------- specification

  /** Newest first, as the listing is sorted. */
  function Newest(prs: seq<PullRequest>, i: nat): PullRequest
    requires i < |prs|
  {
    prs[|prs| - 1 - i]
  }

  /** The first of the pull requests lo, lo+1, ... hi-1, newest first, that carries the marker. */
  function ScanPage(prs: seq<PullRequest>, marker: string, lo: nat, hi: nat): (r: Option<string>)
    requires lo <= hi <= |prs|
    decreases hi - lo
  {
    if lo == hi then None
    else if Has(Newest(prs, lo).body, marker) then Some(Newest(prs, lo).url)
    else ScanPage(prs, marker, lo + 1, hi)
  }

  function PageEnd(prs: seq<PullRequest>, page: nat): nat {
    if PAGE_SIZE * (page + 1) <= |prs| then PAGE_SIZE * (page + 1) else |prs|
  }

  /** The search from one page on, with the number of requests it leaves behind. */
  function FindFrom(net: Network, prs: seq<PullRequest>, marker: string, page: nat, calls: nat): (Lookup, nat)
    requires PAGE_SIZE * page <= |prs|
    decreases |prs| - PAGE_SIZE * page
  {
    if net(ListPage(page), calls) != Works then (LookupFailed, calls + 1)
    else
      var hit := ScanPage(prs, marker, PAGE_SIZE * page, PageEnd(prs, page));
      if hit.Some? then (At(hit.value), calls + 1)
      else if PAGE_SIZE * (page + 1) >= |prs| then (Missing, calls + 1)
      else FindFrom(net, prs, marker, page + 1, calls + 1)
  }

  function FindSpec(net: Network, r: Remote, fp: string): (Lookup, nat) {
    FindFrom(net, PullRequests(r.log), Marker(fp), 0, r.calls)
  }

  function CommitSpec(net: Network, r: Remote, c: Commit): (Remote, bool) {
    var o := net(CommitCall(c), r.calls);
    (Remote(if o == Refused then r.log else r.log + [Committed(c)], r.calls + 1), o == Works)
  }

  function NewPullRequest(log: seq<Event>, branch: string, title: string, body: string): PullRequest {
    PullRequest("https://github.com/pull/" + Itoa(|PullRequests(log)| + 1), branch, title, body)
  }

  function CreateSpec(net: Network, r: Remote, branch: string, title: string, body: string, fp: string): (Remote, EmitResult) {
    var o := net(CreateCall(branch, title, body), r.calls);
    var pr := NewPullRequest(r.log, branch, title, body);
    (Remote(if o == Refused then r.log else r.log + [Opened(pr, fp)], r.calls + 1),
     if o == Works then Url(pr.url) else EmitError(Creating))
  }

  /** EmitDraft as a function of the forge's state and the network's answers. */
  function EmitSpec(net: Network, gate: Redactor, r: Remote, id: LessonID, skillMD: string, body: string, fp: string)
      : (Remote, EmitResult)
    requires gate.Valid()
  {
    if !PassesGate(gate, body) then (r, EmitError(BodyGate))
    else if !PassesGate(gate, skillMD) then (r, EmitError(SkillGate))
    else
      var (found, calls) := FindSpec(net, r, fp);
      var r1 := r.(calls := calls);
      match found
      case LookupFailed => (r1, EmitError(Searching))
      case At(url) => (r1, Url(url))
      case Missing =>
        var (r2, committed) := CommitSpec(net, r1, SkillCommit(id, skillMD));
        if !committed then (r2, EmitError(Committing))
        else CreateSpec(net, r2, Branch(id), Title(id), FullBody(body, fp), fp)
  }

  // ---------------------------------------------------------------- the code

  class Forge {
    var log: seq<Event>
    var calls: nat
    const net: Network

    constructor (net: Network)
      ensures this.net == net && State() == Remote([], 0)
    {
      this.net := net;
      log, calls := [], 0;
    }

    function State(): Remote
      reads this
    {
      Remote(log, calls)
    }

    /** Search open and closed pull requests, page by page, newest first. */
    method FindByFingerprint(fingerprint: string) returns (r: Lookup)
      modifies this`calls
      ensures (r, calls) == FindSpec(net, old(State()), fingerprint)
    {
      var marker := Marker(fingerprint);
      var prs := PullRequests(log);
      var page := 0;
      ghost var goal := FindSpec(net, State(), fingerprint);
      while true
        invariant PAGE_SIZE * page <= |prs|
        invariant goal == FindFrom(net, prs, marker, page, calls)
        decreases |prs| - PAGE_SIZE * page
      {
        var o := net(ListPage(page), calls);
        calls := calls + 1;
        if o != Works {
          return LookupFailed;
        }
        var i, end := PAGE_SIZE * page, PageEnd(prs, page);
        ghost var hit := ScanPage(prs, marker, i, end);
        while i < end
          invariant i <= end && hit == ScanPage(prs, marker, i, end)
        {
          if Has(Newest(prs, i).body, marker) {
            return At(Newest(prs, i).url);
          }
          i := i + 1;
        }
        if PAGE_SIZE * (page + 1) >= |prs| {
          return Missing;
        }
        page := page + 1;
      }
    }

    method CommitFile(c: Commit) returns (ok: bool)
      modifies this
      ensures (State(), ok) == CommitSpec(net, old(State()), c)
    {
      var o := net(CommitCall(c), calls);
      calls := calls + 1;
      if o != Refused { log := log + [Committed(c)]; }
      ok := o == Works;
    }

    /** `fp` is only recorded; the forge sees it in the body. */
    method CreateDraft(branch: string, title: string, body: string, fp: string) returns (r: EmitResult)
      modifies this
      ensures (State(), r) == CreateSpec(net, old(State()), branch, title, body, fp)
    {
      var o := net(CreateCall(branch, title, body), calls);
      calls := calls + 1;
      var pr := NewPullRequest(log, branch, title, body);
      if o != Refused { log := log + [Opened(pr, fp)]; }
      r := if o == Works then Url(pr.url) else EmitError(Creating);
    }
  }

  method EmitDraft(forge: Forge, gate: Redactor, id: LessonID, skillMD: string, body: string, fingerprint: string)
      returns (r: EmitResult)
    requires gate.Valid()
    modifies forge
    ensures (forge.State(), r) == EmitSpec(forge.net, gate, old(forge.State()), id, skillMD, body, fingerprint)
  {
    // The body and the file are output: both pass the gate.
    var v := Check(gate, body);
    if !v.safe { return EmitError(BodyGate); }
    v := Check(gate, skillMD);
    if !v.safe { return EmitError(SkillGate); }

    // A draft with this fingerprint is not opened again.
    var found := forge.FindByFingerprint(fingerprint);
    if found.LookupFailed? { return EmitError(Searching); }
    if found.At? { return Url(found.url); }

    var ok := forge.CommitFile(SkillCommit(id, skillMD));
    if !ok { return EmitError(Committing); }
    r := forge.CreateDraft(Branch(id), Title(id), FullBody(body, fingerprint), fingerprint);
  }
}
