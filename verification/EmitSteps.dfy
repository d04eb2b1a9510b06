/** An emission as the protocol sees it: every run of EmitDraft on the forge is a sequence of steps
    of one process in SingleRun, one to begin and one for each request. */
module EmitSteps {
  import opened Text
  import opened Identity
  import opened Redaction
  import opened Emit
  import S = SingleRun
  import L = EmitLaws

  function DraftsOf(e: Event): seq<S.Draft> {
    match e
    case Committed(_) => []
    case Opened(pr, fp) => [S.Draft(pr.body, Some(fp))]
    case Foreign(pr) => [S.Draft(pr.body, None)]
  }

  /** What the protocol keeps of the forge's log: the pull requests, in order. */
  function Drafts(log: seq<Event>): seq<S.Draft> {
    if log == [] then []
    else
      var e := log[|log| - 1];
      Drafts(log[..|log| - 1]) + DraftsOf(e)
  }

  lemma {:induction false} DraftsAreListed(log: seq<Event>)
    ensures |Drafts(log)| == |PullRequests(log)|
    ensures forall i :: 0 <= i < |Drafts(log)| ==> Drafts(log)[i].body == PullRequests(log)[i].body
    decreases |log|
  {
    if log != [] { DraftsAreListed(log[..|log| - 1]); }
  }

  predicate By(a: S.Action, p: S.Proc) {
    match a
    case Begin(q, _) => q == p
    case ReadPage(q, _) => q == p
    case CommitFile(q, _) => q == p
    case Create(q, _) => q == p
    case _ => false
  }

  /** These steps of process p lead from one state to the other. */
  ghost predicate Path(s: S.State, acts: seq<S.Action>, p: S.Proc, s': S.State)
    decreases |acts|
  {
    if acts == [] then s' == s
    else By(acts[0], p) && exists mid :: S.Step(true, s, acts[0], mid) && Path(mid, acts[1..], p, s')
  }

  lemma {:induction false} PathThen(s: S.State, acts: seq<S.Action>, p: S.Proc, mid: S.State, a: S.Action, s': S.State)
    requires Path(s, acts, p, mid) && By(a, p) && S.Step(true, mid, a, s')
    ensures Path(s, acts + [a], p, s')
    decreases |acts|
  {
    hide S.Step;
    if acts == [] {
      assert ([] + [a])[1..] == [];
      assert Path(s', [], p, s');
    } else {
      var next :| S.Step(true, s, acts[0], next) && Path(next, acts[1..], p, mid);
      PathThen(next, acts[1..], p, mid, a, s');
      assert (acts + [a])[1..] == acts[1..] + [a];
    }
  }

  // ---------------------------------------------------------------- the search

  lemma {:induction false} ScanPageIsOnPage(prs: seq<PullRequest>, s: S.State, fp: string, lo: nat, hi: nat)
    requires lo <= hi <= |prs| == |s.prs| && forall i :: 0 <= i < |prs| ==> s.prs[i].body == prs[i].body
    ensures ScanPage(prs, Marker(fp), lo, hi).Some?
        <==> exists i :: |prs| - hi <= i < |prs| - lo && S.Carries(s.prs[i], fp)
    decreases hi - lo
  {
    if lo < hi {
      assert Newest(prs, lo).body == s.prs[|prs| - 1 - lo].body;
      ScanPageIsOnPage(prs, s, fp, lo + 1, hi);
    }
  }

  lemma PageIsPage(prs: seq<PullRequest>, s: S.State, fp: string, page: nat)
    requires PAGE_SIZE * page <= |prs| == |s.prs| && forall i :: 0 <= i < |prs| ==> s.prs[i].body == prs[i].body
    ensures ScanPage(prs, Marker(fp), PAGE_SIZE * page, PageEnd(prs, page)).Some? <==> S.OnPage(s, page, fp)
  {
    ScanPageIsOnPage(prs, s, fp, PAGE_SIZE * page, PageEnd(prs, page));
  }

  /** One process changes its phase. */
  function Phased(s: S.State, p: S.Proc, ph: S.Phase): S.State { s.(procs := s.procs[p := ph]) }

  /** The search from one page on, after the steps that led there. */
  lemma {:induction false} SearchSteps(net: Network, prs: seq<PullRequest>, page: nat, calls: nat,
      s0: S.State, done: seq<S.Action>, s: S.State, p: S.Proc) returns (acts: seq<S.Action>)
    requires PAGE_SIZE * page <= |prs| == |s.prs| && forall i :: 0 <= i < |prs| ==> s.prs[i].body == prs[i].body
    requires p in s.procs && s.procs[p].AtSearch? && s.procs[p].page == page && Path(s0, done, p, s)
    ensures var job := s.procs[p].job;
      var (found, calls') := FindFrom(net, prs, Marker(job.fp), page, calls);
      && Path(s0, acts, p, Phased(s, p, if found.Missing? then S.Ready(job) else S.Idle))
      && |acts| == |done| + (calls' - calls)
    decreases |prs| - PAGE_SIZE * page
  {
    var ph := s.procs[p];
    var o := net(ListPage(page), calls);
    var a := S.ReadPage(p, o);
    var next := if o == Works then S.AfterPage(s, p, ph) else S.To(s, p, S.Idle);
    PageIsPage(prs, s, ph.job.fp, page);
    assert S.Step(true, s, a, next);
    acts := done + [a];
    hide S.OnPage, ScanPage, PageEnd, Marker, Path;
    PathThen(s0, done, p, s, a, next);
    if o == Works && !S.OnPage(s, page, ph.job.fp) && PAGE_SIZE * (page + 1) < |prs| {
      acts := SearchSteps(net, prs, page + 1, calls + 1, s0, acts, next, p);
      assert forall x :: Phased(next, p, x) == Phased(s, p, x);
    }
  }

  // ---------------------------------------------------------------- the whole emission

  lemma DraftsSnoc(log: seq<Event>, e: Event)
    ensures Drafts(log + [e]) == Drafts(log) + DraftsOf(e)
  {
    assert (log + [e])[..|log|] == log;
  }

  /** Every emission that passes the gate, whatever the network answers, is a path of the protocol:
      the process is idle before and after, the drafts are those of the forge's log, and there is one
      step to begin with and one for each request sent. */
  lemma EmissionIsPath(net: Network, gate: Redactor, r: Remote, id: LessonID, skillMD: string, body: string, fp: string,
                       s: S.State, p: S.Proc) returns (acts: seq<S.Action>)
    requires gate.Valid() && PassesGate(gate, body) && PassesGate(gate, skillMD)
    requires p in s.procs && s.procs[p] == S.Idle && s.prs == Drafts(r.log)
    ensures var r' := EmitSpec(net, gate, r, id, skillMD, body, fp).0;
      && Path(s, acts, p, s.(prs := Drafts(r'.log)))
      && |acts| == 1 + (r'.calls - r.calls)
  {
    var job, prs := S.Job(fp, body), PullRequests(r.log);
    DraftsAreListed(r.log);
    var begun := Phased(s, p, S.AtSearch(job, 0, |s.prs|, |s.prs|));
    var begin := S.Begin(p, job);
    BeginPath(s, begin, p, begun);
    acts := SearchSteps(net, prs, 0, r.calls, s, [begin], begun, p);
    var (found, calls) := FindSpec(net, r, fp);
    hide Path, FindSpec, FullBody, SkillCommit, Drafts, CommitSpec, CreateSpec, PassesGate, PullRequests, S.Step;
    if !found.Missing? {
      assert Phased(begun, p, S.Idle) == s;
    } else {
      var ready := Phased(s, p, S.Ready(job));
      assert Phased(begun, p, S.Ready(job)) == ready;
      var r1 := r.(calls := calls);
      acts := CommitAndCreate(net, r1, id, skillMD, body, fp, s, p, acts);
    }
  }

  lemma BeginPath(s: S.State, a: S.Action, p: S.Proc, s': S.State)
    requires By(a, p) && S.Step(true, s, a, s')
    ensures Path(s, [a], p, s')
  {
    hide S.Step;
    assert [a][1..] == [] && Path(s', [], p, s');
  }

  lemma CommitAndCreate(net: Network, r: Remote, id: LessonID, skillMD: string, body: string, fp: string,
                        s: S.State, p: S.Proc, done: seq<S.Action>) returns (acts: seq<S.Action>)
    requires p in s.procs && s.procs[p] == S.Idle && s.prs == Drafts(r.log)
    requires Path(s, done, p, Phased(s, p, S.Ready(S.Job(fp, body))))
    ensures var (r1, ok) := CommitSpec(net, r, SkillCommit(id, skillMD));
      var r' := if ok then CreateSpec(net, r1, Branch(id), Title(id), FullBody(body, fp), fp).0 else r1;
      && Path(s, acts, p, s.(prs := Drafts(r'.log)))
      && |acts| == |done| + (r'.calls - r.calls)
  {
    hide Path, FullBody, SkillCommit, Drafts, S.Step;
    var job, c := S.Job(fp, body), SkillCommit(id, skillMD);
    var (r1, ok) := CommitSpec(net, r, c);
    DraftsSnoc(r.log, Committed(c));
    assert Drafts(r1.log) == s.prs;
    var o := net(CommitCall(c), r.calls);
    var commit := S.CommitFile(p, o);
    CommitIsStep(s, p, job, o);
    if !ok {
      PathThen(s, done, p, Phased(s, p, S.Ready(job)), commit, s);
      acts := done + [commit];
    } else {
      var has := Phased(s, p, S.HasCommitted(job));
      PathThen(s, done, p, Phased(s, p, S.Ready(job)), commit, has);
      var create := CreateIsStep(net, r1, id, body, fp, s, p);
      var r2 := CreateSpec(net, r1, Branch(id), Title(id), FullBody(body, fp), fp).0;
      PathThen(s, done + [commit], p, has, create, s.(prs := Drafts(r2.log)));
      acts := done + [commit] + [create];
    }
  }

  lemma CommitIsStep(s: S.State, p: S.Proc, job: S.Job, o: Outcome)
    requires p in s.procs && s.procs[p] == S.Idle
    ensures S.Step(true, Phased(s, p, S.Ready(job)), S.CommitFile(p, o),
                   if o == Works then Phased(s, p, S.HasCommitted(job)) else s)
  {
    var ready := Phased(s, p, S.Ready(job));
    assert forall x :: S.To(ready, p, x) == Phased(s, p, x);
    assert Phased(s, p, S.Idle) == s;
  }

  lemma CreateIsStep(net: Network, r: Remote, id: LessonID, body: string, fp: string, s: S.State, p: S.Proc)
      returns (a: S.Action)
    requires p in s.procs && s.procs[p] == S.Idle && s.prs == Drafts(r.log)
    ensures By(a, p)
    ensures S.Step(true, Phased(s, p, S.HasCommitted(S.Job(fp, body))), a,
                   s.(prs := Drafts(CreateSpec(net, r, Branch(id), Title(id), FullBody(body, fp), fp).0.log)))
  {
    hide FullBody, Drafts;
    var o := net(CreateCall(Branch(id), Title(id), FullBody(body, fp)), r.calls);
    a := S.Create(p, o);
    var pr := NewPullRequest(r.log, Branch(id), Title(id), FullBody(body, fp));
    DraftsSnoc(r.log, Opened(pr, fp));
    assert Phased(Phased(s, p, S.HasCommitted(S.Job(fp, body))), p, S.Idle) == s;
  }

  lemma {:induction false} PathKeepsInv(s: S.State, acts: seq<S.Action>, p: S.Proc, s': S.State)
    requires S.Inv(s) && Path(s, acts, p, s')
    ensures S.Inv(s')
    decreases |acts|
  {
    hide S.Step, S.Inv;
    if acts != [] {
      var mid :| S.Step(true, s, acts[0], mid) && Path(mid, acts[1..], p, s');
      S.StepKeepsInv(s, acts[0], mid);
      PathKeepsInv(mid, acts[1..], p, s');
    }
  }

  /** So the real emitter, run by the process that holds the lock, keeps the protocol's invariant:
      one process at work, no fingerprint opened twice. */
  lemma EmissionKeepsProtocol(net: Network, gate: Redactor, r: Remote, id: LessonID, skillMD: string, body: string,
                              fp: string, s: S.State, p: S.Proc)
    requires gate.Valid() && PassesGate(gate, body) && PassesGate(gate, skillMD)
    requires S.Inv(s) && s.holder == Some(p) && p in s.procs && s.procs[p] == S.Idle && s.prs == Drafts(r.log)
    ensures S.Inv(s.(prs := Drafts(EmitSpec(net, gate, r, id, skillMD, body, fp).0.log)))
  {
    hide S.Inv, Path;
    var acts := EmissionIsPath(net, gate, r, id, skillMD, body, fp, s, p);
    PathKeepsInv(s, acts, p, s.(prs := Drafts(EmitSpec(net, gate, r, id, skillMD, body, fp).0.log)));
  }

  // ---------------------------------------------------------------- nobody is stuck

  function Listing(prs: seq<S.Draft>): seq<PullRequest> {
    seq(|prs|, i requires 0 <= i < |prs| => PullRequest("", "", "", prs[i].body))
  }

  lemma NothingFound(net: Network, prs: seq<S.Draft>, fp: string)
    requires L.AllWorks(net) && forall i :: 0 <= i < |prs| ==> !S.Carries(prs[i], fp)
    ensures FindFrom(net, Listing(prs), Marker(fp), 0, 0).0.Missing?
  {
    hide Marker;
    forall i | 0 <= i < |prs| ensures !L.Carries(Listing(prs)[i], fp) { assert !S.Carries(prs[i], fp); }
    L.FindFromFinds(net, Listing(prs), fp, 0, 0);
  }

  /** A process that holds the lock and searches for a fingerprint nobody carries can open its draft. */
  lemma HolderOpens(s: S.State, p: S.Proc, job: S.Job) returns (acts: seq<S.Action>)
    requires p in s.procs && s.procs[p] == S.Idle && forall i :: 0 <= i < |s.prs| ==> !S.Carries(s.prs[i], job.fp)
    ensures Path(s, acts, p, s.(prs := s.prs + [S.Draft(FullBody(job.body, job.fp), Some(job.fp))]))
  {
    var net: Network := (c, n) => Works;
    var begun, ready := Phased(s, p, S.AtSearch(job, 0, |s.prs|, |s.prs|)), Phased(s, p, S.Ready(job));
    var has := Phased(s, p, S.HasCommitted(job));
    BeginPath(s, S.Begin(p, job), p, begun);
    NothingFound(net, s.prs, job.fp);
    hide Path, FindFrom, Marker, FullBody, S.Carries;
    acts := SearchSteps(net, Listing(s.prs), 0, 0, s, [S.Begin(p, job)], begun, p);
    assert Phased(begun, p, S.Ready(job)) == ready;
    CommitIsStep(s, p, job, Works);
    PathThen(s, acts, p, ready, S.CommitFile(p, Works), has);
    acts := acts + [S.CommitFile(p, Works)];
    var last := s.(prs := s.prs + [S.Draft(FullBody(job.body, job.fp), Some(job.fp))]);
    CreateOpens(s, p, job);
    PathThen(s, acts, p, has, S.Create(p, Works), last);
    acts := acts + [S.Create(p, Works)];
  }

  lemma CreateOpens(s: S.State, p: S.Proc, job: S.Job)
    requires p in s.procs && s.procs[p] == S.Idle
    ensures S.Step(true, Phased(s, p, S.HasCommitted(job)), S.Create(p, Works),
                   s.(prs := s.prs + [S.Draft(FullBody(job.body, job.fp), Some(job.fp))]))
  {
    assert Phased(Phased(s, p, S.HasCommitted(job)), p, S.Idle) == s;
  }

  /** From every reachable state, whoever holds the lock and wherever it is: after it crashes a new process
      can start, take the lock, open the draft of a fingerprint nobody carries, and free the lock. */
  lemma NobodyIsStuck(s: S.State, p: S.Proc, job: S.Job)
      returns (free: S.State, started: S.State, held: S.State, acts: seq<S.Action>, done: S.State, last: S.State)
    requires S.Inv(s) && p !in s.procs && forall i :: 0 <= i < |s.prs| ==> !S.Carries(s.prs[i], job.fp)
    ensures if s.holder.None? then free == s else S.Step(true, s, S.Crash(s.holder.value), free)
    ensures S.Step(true, free, S.Start(p), started) && S.Step(true, started, S.Lock(p), held) && held.holder == Some(p)
    ensures Path(held, acts, p, done)
    ensures done.prs == s.prs + [S.Draft(FullBody(job.body, job.fp), Some(job.fp))]
    ensures S.Step(true, done, S.Unlock(p), last) && last.holder.None? && last.prs == done.prs
  {
    hide Path, FullBody, S.Carries;
    free := if s.holder.None? then s else S.To(s, s.holder.value, S.Crashed).(holder := None);
    started := S.To(free, p, S.Outside);
    held := S.To(started, p, S.Idle).(holder := Some(p));
    acts := HolderOpens(held, p, job);
    done := held.(prs := held.prs + [S.Draft(FullBody(job.body, job.fp), Some(job.fp))]);
    last := S.To(done, p, S.Outside).(holder := None);
  }
}
