/** What emission guarantees: an exact search, one draft for each fingerprint, nothing opened that
    was not gated and committed first, and a second emission that changes nothing. */
module EmitLaws {
  import opened Text
  import opened Identity
  import opened Redaction
  import opened Emit

  ghost predicate Carries(pr: PullRequest, fp: string) { Contains(pr.body, Marker(fp)) }

  /** Some pull request carries the marker. */
  ghost predicate Marked(log: seq<Event>, fp: string) {
    exists i :: 0 <= i < |PullRequests(log)| && Carries(PullRequests(log)[i], fp)
  }

  /** `url` is that of the newest pull request carrying the marker. */
  ghost predicate NewestMarked(prs: seq<PullRequest>, fp: string, url: string) {
    exists i :: 0 <= i < |prs| && Carries(prs[i], fp) && prs[i].url == url
             && forall j :: i < j < |prs| ==> !Carries(prs[j], fp)
  }

  // ---------------------------------------------------------------- the search

  lemma {:induction false} ScanPageFinds(prs: seq<PullRequest>, fp: string, lo: nat, hi: nat)
    requires lo <= hi <= |prs|
    requires forall j :: |prs| - lo <= j < |prs| ==> !Carries(prs[j], fp)
    ensures ScanPage(prs, Marker(fp), lo, hi).Some? ==> NewestMarked(prs, fp, ScanPage(prs, Marker(fp), lo, hi).value)
    ensures ScanPage(prs, Marker(fp), lo, hi).None? ==> forall j :: |prs| - hi <= j < |prs| ==> !Carries(prs[j], fp)
    decreases hi - lo
  {
    if lo < hi {
      var i := |prs| - 1 - lo;
      assert Newest(prs, lo) == prs[i];
      if !Has(prs[i].body, Marker(fp)) { ScanPageFinds(prs, fp, lo + 1, hi); }
    }
  }

  /** The request numbered n does not work; request number `start` asked for the first page. */
  predicate Fails(net: Network, start: int, n: nat)
    requires start <= n
  {
    net(ListPage(n - start), n) != Works
  }

  ghost predicate RequestFailed(net: Network, start: int, calls: nat, after: nat)
    requires start <= calls
  {
    exists n: nat :: calls <= n < after && Fails(net, start, n)
  }

  lemma FirstRequest(net: Network, start: int, calls: nat, after: nat)
    requires start <= calls < after
    ensures RequestFailed(net, start, calls, after) <==> Fails(net, start, calls) || RequestFailed(net, start, calls + 1, after)
  {
  }

  lemma {:induction false} FindFromFinds(net: Network, prs: seq<PullRequest>, fp: string, page: nat, calls: nat)
    requires PAGE_SIZE * page <= |prs|
    requires forall j :: |prs| - PAGE_SIZE * page <= j < |prs| ==> !Carries(prs[j], fp)
    ensures FindFrom(net, prs, Marker(fp), page, calls).1 > calls
    ensures var r := FindFrom(net, prs, Marker(fp), page, calls).0;
      && (r.At? ==> NewestMarked(prs, fp, r.url))
      && (r.Missing? ==> forall j :: 0 <= j < |prs| ==> !Carries(prs[j], fp))
      && (r.LookupFailed? <==> RequestFailed(net, calls - page, calls, FindFrom(net, prs, Marker(fp), page, calls).1))
    decreases |prs| - PAGE_SIZE * page
  {
    ScanPageFinds(prs, fp, PAGE_SIZE * page, PageEnd(prs, page));
    if net(ListPage(page), calls) == Works
      && ScanPage(prs, Marker(fp), PAGE_SIZE * page, PageEnd(prs, page)).None?
      && PAGE_SIZE * (page + 1) < |prs| {
      FindFromFinds(net, prs, fp, page + 1, calls + 1);
    }
    FirstRequest(net, calls - page, calls, FindFrom(net, prs, Marker(fp), page, calls).1);
  }

  /** Searching page by page finds the newest marked pull request wherever it is, reports none only
      if there is none, and fails exactly if one of the requests it sent does not work. */
  lemma SearchIsExact(net: Network, r: Remote, fp: string)
    ensures var found := FindSpec(net, r, fp).0;
      && (found.At? ==> NewestMarked(PullRequests(r.log), fp, found.url))
      && (found.Missing? ==> !Marked(r.log, fp))
      && (found.LookupFailed? <==> RequestFailed(net, r.calls, r.calls, FindSpec(net, r, fp).1))
  {
    FindFromFinds(net, PullRequests(r.log), fp, 0, r.calls);
  }

  lemma {:induction false} FindFromCosts(net: Network, prs: seq<PullRequest>, marker: string, page: nat, calls: nat)
    requires PAGE_SIZE * page <= |prs| && FindFrom(net, prs, marker, page, calls).0.Missing?
    ensures var sent := FindFrom(net, prs, marker, page, calls).1 - calls;
      && sent >= 1 && |prs| <= 100 * (page + sent) && (sent > 1 ==> 100 * (page + sent - 1) < |prs|)
    decreases |prs| - PAGE_SIZE * page
  {
    hide ScanPage;
    if PAGE_SIZE * (page + 1) < |prs| { FindFromCosts(net, prs, marker, page + 1, calls + 1); }
  }

  /** A search that finds nothing has sent one request for every hundred pull requests, and at least one. */
  lemma SearchCosts(net: Network, r: Remote, fp: string)
    requires FindSpec(net, r, fp).0.Missing?
    ensures var n, sent := |PullRequests(r.log)|, FindSpec(net, r, fp).1 - r.calls;
      sent == if n == 0 then 1 else (n + 99) / 100
  {
    FindFromCosts(net, PullRequests(r.log), Marker(fp), 0, r.calls);
  }

  lemma NewestMarkedUnique(prs: seq<PullRequest>, fp: string, u: string, v: string)
    requires NewestMarked(prs, fp, u) && NewestMarked(prs, fp, v)
    ensures u == v
  {
  }

  // ---------------------------------------------------------------- one emission

  lemma PullRequestsSnoc(log: seq<Event>, e: Event)
    ensures PullRequests(log + [e]) == PullRequests(log) + (if e.Lists() then [e.pr] else [])
  {
    assert (log + [e])[..|log|] == log;
  }

  lemma MarkerInFullBody(body: string, fp: string)
    ensures Contains(FullBody(body, fp), Marker(fp))
  {
    var s, n := FullBody(body, fp), |body| + 2;
    assert s[n..n + |Marker(fp)|] == Marker(fp);
    assert OccursAt(s, Marker(fp), n);
  }

  /** What an emission may do to the forge: nothing; a commit; or the commit and then the draft, on
      one branch, both gated, and only if no pull request carried the marker before. */
  ghost predicate EmitStep(gate: Redactor, id: LessonID, skillMD: string, body: string, fp: string,
                           log: seq<Event>, log': seq<Event>)
    requires gate.Valid()
  {
    || log' == log
    || (&& PassesGate(gate, body) && PassesGate(gate, skillMD) && !Marked(log, fp)
        && (|| log' == log + [Committed(SkillCommit(id, skillMD))]
            || log' == log + [Committed(SkillCommit(id, skillMD)),
                              Opened(NewPullRequest(log, Branch(id), Title(id), FullBody(body, fp)), fp)]))
  }

  lemma EmissionIsOneStep(net: Network, gate: Redactor, r: Remote, id: LessonID, skillMD: string, body: string, fp: string)
    requires gate.Valid()
    ensures var (r', res) := EmitSpec(net, gate, r, id, skillMD, body, fp);
      && EmitStep(gate, id, skillMD, body, fp, r.log, r'.log)
      && (res.Url? ==> NewestMarked(PullRequests(r'.log), fp, res.url))
  {
    hide FindSpec, FullBody, PassesGate, PullRequests, Carries;
    SearchIsExact(net, r, fp);
    DraftIsNewest(r.log, SkillCommit(id, skillMD), Branch(id), Title(id), body, fp);
    assert forall pr :: r.log + [Committed(SkillCommit(id, skillMD))] + [Opened(pr, fp)]
                     == r.log + [Committed(SkillCommit(id, skillMD)), Opened(pr, fp)];
  }

  lemma DraftIsNewest(log: seq<Event>, c: Commit, branch: string, title: string, body: string, fp: string)
    ensures var log1 := log + [Committed(c)];
      var pr := NewPullRequest(log1, branch, title, FullBody(body, fp));
      pr == NewPullRequest(log, branch, title, FullBody(body, fp))
      && NewestMarked(PullRequests(log1 + [Opened(pr, fp)]), fp, pr.url)
  {
    hide FullBody, Marker, PullRequests;
    var log1 := log + [Committed(c)];
    var pr := NewPullRequest(log1, branch, title, FullBody(body, fp));
    PullRequestsSnoc(log, Committed(c));
    PullRequestsSnoc(log1, Opened(pr, fp));
    MarkerInFullBody(body, fp);
    var prs := PullRequests(log1 + [Opened(pr, fp)]);
    assert prs[|prs| - 1] == pr && Carries(pr, fp);
  }

  /** What a request leaves of what it asked for: all of it, also when its reply is lost, or nothing. */
  function Left(o: Outcome, e: Event): seq<Event> { if o == Refused then [] else [e] }

  /** Where an emission stops and what it leaves behind: at a text the gate refuses, before any request;
      at a search request that does not work; at a pull request that carries the marker; at the commit or
      the draft, when that does not work. */
  lemma WhereEmissionStops(net: Network, gate: Redactor, r: Remote, id: LessonID, skillMD: string, body: string, fp: string)
    requires gate.Valid()
    ensures var (r', res) := EmitSpec(net, gate, r, id, skillMD, body, fp);
      var gated, calls := PassesGate(gate, body) && PassesGate(gate, skillMD), FindSpec(net, r, fp).1;
      && calls > r.calls
      && (res == EmitError(BodyGate) <==> !PassesGate(gate, body))
      && (res == EmitError(SkillGate) <==> PassesGate(gate, body) && !PassesGate(gate, skillMD))
      && (!gated ==> r' == r)
      && (res == EmitError(Searching) <==> gated && RequestFailed(net, r.calls, r.calls, calls))
      && (gated && !RequestFailed(net, r.calls, r.calls, calls) ==>
            if Marked(r.log, fp) then res.Url? && r'.log == r.log
            else LeavesOff(net, calls, id, skillMD, body, fp, r, r', res))
  {
    SearchDecides(net, r, fp);
    hide FindSpec, FullBody, PassesGate, SkillCommit, Title, RequestFailed, Marked, LeavesOff;
    var (found, calls) := FindSpec(net, r, fp);
    if found.Missing? && PassesGate(gate, body) && PassesGate(gate, skillMD) {
      BehindTheSearch(net, gate, r, id, skillMD, body, fp);
    }
  }

  lemma SearchDecides(net: Network, r: Remote, fp: string)
    ensures var (found, calls) := FindSpec(net, r, fp);
      && calls > r.calls
      && (found.LookupFailed? <==> RequestFailed(net, r.calls, r.calls, calls))
      && (found.At? ==> Marked(r.log, fp)) && (found.Missing? ==> !Marked(r.log, fp))
  {
    SearchIsExact(net, r, fp);
    FindFromFinds(net, PullRequests(r.log), fp, 0, r.calls);
  }

  lemma BehindTheSearch(net: Network, gate: Redactor, r: Remote, id: LessonID, skillMD: string, body: string, fp: string)
    requires gate.Valid() && PassesGate(gate, body) && PassesGate(gate, skillMD) && FindSpec(net, r, fp).0.Missing?
    ensures var (r', res) := EmitSpec(net, gate, r, id, skillMD, body, fp);
      && LeavesOff(net, FindSpec(net, r, fp).1, id, skillMD, body, fp, r, r', res)
      && (res.EmitError? ==> res.stage == Committing || res.stage == Creating)
  {
    hide FindSpec, FullBody, PassesGate, SkillCommit, Title, PullRequests;
    PullRequestsSnoc(r.log, Committed(SkillCommit(id, skillMD)));
    assert r.log + [] == r.log;
    assert forall e :: r.log + [Committed(SkillCommit(id, skillMD))] + Left(Refused, e) == r.log + [Committed(SkillCommit(id, skillMD))];
  }

  /** Behind a search that found nothing: the commit, and if that works the draft. */
  ghost predicate LeavesOff(net: Network, calls: nat, id: LessonID, skillMD: string, body: string, fp: string,
                            r: Remote, r': Remote, res: EmitResult)
  {
    var file := SkillCommit(id, skillMD);
    var draft := NewPullRequest(r.log, Branch(id), Title(id), FullBody(body, fp));
    var first, second := net(CommitCall(file), calls), net(CreateCall(draft.branch, draft.title, draft.body), calls + 1);
    if first != Works then res == EmitError(Committing) && r' == Remote(r.log + Left(first, Committed(file)), calls + 1)
    else
      && r' == Remote(r.log + [Committed(file)] + Left(second, Opened(draft, fp)), calls + 2)
      && res == if second == Works then Url(draft.url) else EmitError(Creating)
  }

  // ---------------------------------------------------------------- what the log keeps

  /** Every draft stands right behind the commit of its file, on the same branch; the file passed
      the gate, the body passed it before the marker was added, and the marker is in it. */
  ghost predicate Gated(gate: Redactor, log: seq<Event>)
    requires gate.Valid()
  {
    forall i :: 0 <= i < |log| && log[i].Opened? ==>
      && i > 0 && log[i - 1].Committed?
      && log[i - 1].commit.branch == log[i].pr.branch
      && PassesGate(gate, log[i - 1].commit.content)
      && Carries(log[i].pr, log[i].fp)
      && exists b :: PassesGate(gate, b) && log[i].pr.body == FullBody(b, log[i].fp)
  }

  /** No fingerprint has two drafts. */
  ghost predicate OneDraftEach(log: seq<Event>) {
    forall i, j :: 0 <= i < j < |log| && log[i].Opened? && log[j].Opened? ==> log[i].fp != log[j].fp
  }

  lemma {:induction false} OpenedIsListed(log: seq<Event>, i: nat)
    requires i < |log| && log[i].Opened?
    ensures exists k :: 0 <= k < |PullRequests(log)| && PullRequests(log)[k] == log[i].pr
    decreases |log|
  {
    var n := |log| - 1;
    if i < n {
      OpenedIsListed(log[..n], i);
      var k :| 0 <= k < |PullRequests(log[..n])| && PullRequests(log[..n])[k] == log[i].pr;
      assert PullRequests(log)[k] == log[i].pr;
    } else {
      assert PullRequests(log)[|PullRequests(log)| - 1] == log[i].pr;
    }
  }

  /** Any emission, whatever the network does to it, keeps both. */
  lemma EmissionKeepsLog(net: Network, gate: Redactor, r: Remote, id: LessonID, skillMD: string, body: string, fp: string)
    requires gate.Valid() && Gated(gate, r.log) && OneDraftEach(r.log)
    ensures Gated(gate, EmitSpec(net, gate, r, id, skillMD, body, fp).0.log)
    ensures OneDraftEach(EmitSpec(net, gate, r, id, skillMD, body, fp).0.log)
  {
    EmissionIsOneStep(net, gate, r, id, skillMD, body, fp);
    StepKeepsGated(gate, id, skillMD, body, fp, r.log, EmitSpec(net, gate, r, id, skillMD, body, fp).0.log);
    StepKeepsOneDraft(gate, id, skillMD, body, fp, r.log, EmitSpec(net, gate, r, id, skillMD, body, fp).0.log);
  }

  lemma StepKeepsGated(gate: Redactor, id: LessonID, skillMD: string, body: string, fp: string,
                       log: seq<Event>, log': seq<Event>)
    requires gate.Valid() && Gated(gate, log) && EmitStep(gate, id, skillMD, body, fp, log, log')
    ensures Gated(gate, log')
  {
    hide FullBody, NewPullRequest, SkillCommit, PassesGate, Marked, Carries;
    MarkerInFullBody(body, fp);
    DraftFacts(gate, log, id, skillMD, body, fp);
    assert log <= log';
    assert forall i :: 0 <= i < |log| ==> log'[i] == log[i];
  }

  lemma DraftFacts(gate: Redactor, log: seq<Event>, id: LessonID, skillMD: string, body: string, fp: string)
    ensures var pr, c := NewPullRequest(log, Branch(id), Title(id), FullBody(body, fp)), SkillCommit(id, skillMD);
      c.branch == pr.branch && c.content == skillMD && pr.body == FullBody(body, fp) && Carries(pr, fp)
  {
    MarkerInFullBody(body, fp);
  }

  lemma StepKeepsOneDraft(gate: Redactor, id: LessonID, skillMD: string, body: string, fp: string,
                          log: seq<Event>, log': seq<Event>)
    requires gate.Valid() && Gated(gate, log) && EmitStep(gate, id, skillMD, body, fp, log, log') && OneDraftEach(log)
    ensures OneDraftEach(log')
  {
    hide FullBody, NewPullRequest, SkillCommit, PassesGate, PullRequests;
    if log' != log {
      forall i | 0 <= i < |log| && log[i].Opened? ensures log[i].fp != fp {
        OpenedIsListed(log, i);
        var k :| 0 <= k < |PullRequests(log)| && PullRequests(log)[k] == log[i].pr;
        assert Carries(PullRequests(log)[k], log[i].fp);
      }
      assert forall i :: 0 <= i < |log| ==> log'[i] == log[i];
    }
  }

  ghost predicate AllWorks(net: Network) { forall c, n :: net(c, n) == Works }

  /** Once emitted, a lesson emitted again leaves the forge alone and yields the same address. */
  lemma EmitTwice(net: Network, gate: Redactor, r: Remote, id: LessonID, skillMD: string, body: string, fp: string)
    requires gate.Valid() && AllWorks(net)
    ensures var (r1, first) := EmitSpec(net, gate, r, id, skillMD, body, fp);
      var (r2, second) := EmitSpec(net, gate, r1, id, skillMD, body, fp);
      r2.log == r1.log && second == first
  {
    var (r1, first) := EmitSpec(net, gate, r, id, skillMD, body, fp);
    EmissionIsOneStep(net, gate, r, id, skillMD, body, fp);
    if PassesGate(gate, body) && PassesGate(gate, skillMD) {
      EmissionSucceeds(net, gate, r, id, skillMD, body, fp);
      MarkedIsFound(net, gate, r1, id, skillMD, body, fp, first.url);
    }
  }

  lemma EmissionSucceeds(net: Network, gate: Redactor, r: Remote, id: LessonID, skillMD: string, body: string, fp: string)
    requires gate.Valid() && AllWorks(net)
    ensures EmitSpec(net, gate, r, id, skillMD, body, fp).1.Url?
        <==> PassesGate(gate, body) && PassesGate(gate, skillMD)
  {
    SearchIsExact(net, r, fp);
  }

  /** A marked draft is found and nothing more is done. */
  lemma MarkedIsFound(net: Network, gate: Redactor, r: Remote, id: LessonID, skillMD: string, body: string, fp: string,
                      url: string)
    requires gate.Valid() && AllWorks(net) && PassesGate(gate, body) && PassesGate(gate, skillMD)
    requires NewestMarked(PullRequests(r.log), fp, url)
    ensures EmitSpec(net, gate, r, id, skillMD, body, fp).0.log == r.log
    ensures EmitSpec(net, gate, r, id, skillMD, body, fp).1 == Url(url)
  {
    SearchIsExact(net, r, fp);
    var found := FindSpec(net, r, fp).0;
    assert Marked(r.log, fp);
    NewestMarkedUnique(PullRequests(r.log), fp, found.url, url);
  }

  /** Marks stay on a log that grows. */
  lemma {:induction false} MarksStay(log: seq<Event>, log': seq<Event>, fp: string)
    requires log <= log' && Marked(log, fp)
    ensures Marked(log', fp)
    decreases |log'|
  {
    if |log| < |log'| {
      var n := |log'| - 1;
      assert log <= log'[..n];
      MarksStay(log, log'[..n], fp);
      assert log' == log'[..n] + [log'[n]];
      PullRequestsSnoc(log'[..n], log'[n]);
      var i :| 0 <= i < |PullRequests(log'[..n])| && Carries(PullRequests(log'[..n])[i], fp);
      assert PullRequests(log')[i] == PullRequests(log'[..n])[i];
    } else {
      assert log' == log;
    }
  }
}
