/** Emission by several processes under the single-run lock: internal/ledger/lock_unix.go:15-50 and
    internal/emit/emit.go:73-100, one request to the forge a step, with crashes in between. */
module SingleRun {
  import opened Text
  import opened Emit
  import EmitLaws

  type Proc = nat

  /** A pull request of the public repository; `made` is the fingerprint it was opened for, or None if
      somebody else opened it. */
  datatype Draft = Draft(body: string, made: Option<string>)

  datatype Job = Job(fp: string, body: string)

  /** Where a process is. While it searches it has read `page` pages of the listing; `start` is how
      many pull requests there were when it began, and from `below` on it has seen all of those. */
  datatype Phase =
    | Outside
    | Idle
    | AtSearch(job: Job, page: nat, below: nat, start: nat)
    | Ready(job: Job)
    | HasCommitted(job: Job)
    | Crashed

  datatype State = State(holder: Option<Proc>, procs: map<Proc, Phase>, prs: seq<Draft>)

  datatype Action =
    | Start(p: Proc)
    | Lock(p: Proc)
    | Unlock(p: Proc)
    | Begin(p: Proc, job: Job)              // both texts passed the gate
    | ReadPage(p: Proc, outcome: Outcome)
    | CommitFile(p: Proc, outcome: Outcome)
    | Create(p: Proc, outcome: Outcome)
    | Crash(p: Proc)
    | Outsider(body: string)                // somebody else opens a pull request

  predicate Init(s: State) {
    s.holder.None? && s.procs == map[] && forall i :: 0 <= i < |s.prs| ==> s.prs[i].made.None?
  }

  predicate Carries(d: Draft, fp: string) { Has(d.body, Marker(fp)) }

  function At(s: State, p: Proc): Phase { if p in s.procs then s.procs[p] else Outside }

  function To(s: State, p: Proc, ph: Phase): State { s.(procs := s.procs[p := ph]) }

  /** The pull requests on page k of the listing, newest first, as a range of positions in order of
      creation. */
  function PageLow(n: nat, k: nat): nat { if n <= PAGE_SIZE * (k + 1) then 0 else n - PAGE_SIZE * (k + 1) }
  function PageHigh(n: nat, k: nat): nat { if n <= PAGE_SIZE * k then 0 else n - PAGE_SIZE * k }

  predicate OnPage(s: State, k: nat, fp: string) {
    exists i :: PageLow(|s.prs|, k) <= i < PageHigh(|s.prs|, k) && Carries(s.prs[i], fp)
  }

  /** The next page has been read without an error. */
  function AfterPage(s: State, p: Proc, ph: Phase): State
    requires ph.AtSearch?
  {
    var n := |s.prs|;
    if OnPage(s, ph.page, ph.job.fp) then To(s, p, Idle)
    else if PAGE_SIZE * (ph.page + 1) >= n then To(s, p, Ready(ph.job))
    else
      var low := PageLow(n, ph.page);
      To(s, p, ph.(page := ph.page + 1, below := if low < ph.below then low else ph.below))
  }

  /** One step. `locking` says whether processes keep the discipline of taking the lock. */
  predicate Step(locking: bool, s: State, a: Action, s': State) {
    match a
    case Start(p) => p !in s.procs && s' == To(s, p, if locking then Outside else Idle)
    case Lock(p) =>
      && p in s.procs && At(s, p) == Outside
      && s' == if s.holder.None? then To(s, p, Idle).(holder := Some(p)) else s
    case Unlock(p) =>
      && p in s.procs && At(s, p) == Idle
      && s' == To(s, p, Outside).(holder := if s.holder == Some(p) then None else s.holder)
    case Begin(p, job) =>
      && p in s.procs && At(s, p) == Idle
      && s' == To(s, p, AtSearch(job, 0, |s.prs|, |s.prs|))
    case ReadPage(p, o) =>
      && p in s.procs && At(s, p).AtSearch?
      && s' == if o == Works then AfterPage(s, p, At(s, p)) else To(s, p, Idle)
    case CommitFile(p, o) =>
      && p in s.procs && At(s, p).Ready?
      && s' == To(s, p, if o == Works then HasCommitted(At(s, p).job) else Idle)
    case Create(p, o) =>
      && p in s.procs && At(s, p).HasCommitted?
      && var job := At(s, p).job;
         var d := Draft(FullBody(job.body, job.fp), Some(job.fp));
         s' == To(s, p, Idle).(prs := if o == Refused then s.prs else s.prs + [d])
    case Crash(p) =>
      && p in s.procs
      && s' == To(s, p, Crashed).(holder := if s.holder == Some(p) then None else s.holder)
    case Outsider(body) => s' == s.(prs := s.prs + [Draft(body, None)])
  }

  ghost predicate Run(locking: bool, states: seq<State>, actions: seq<Action>) {
    && |states| == |actions| + 1 && Init(states[0])
    && forall k :: 0 <= k < |actions| ==> Step(locking, states[k], actions[k], states[k + 1])
  }

  predicate Inside(ph: Phase) { !ph.Outside? && !ph.Crashed? }

  /** Exactly the holder of the lock is at work. */
  predicate Exclusive(s: State) {
    forall p :: p in s.procs ==> (Inside(s.procs[p]) <==> s.holder == Some(p))
  }

  predicate CreatedOnce(s: State) {
    forall i, j :: 0 <= i < j < |s.prs| && s.prs[i].made.Some? ==> s.prs[i].made != s.prs[j].made
  }

  // ---------------------------------------------------------------- what every step keeps

  predicate Marked(s: State) {
    forall i :: 0 <= i < |s.prs| && s.prs[i].made.Some? ==> Carries(s.prs[i], s.prs[i].made.value)
  }

  /** Of the pull requests there were at the start, the search has cleared those from `below` on;
      those that came later are other people's. */
  predicate Swept(s: State, ph: Phase)
    requires ph.AtSearch?
  {
    && ph.below <= ph.start <= |s.prs|
    && ph.below <= PageHigh(|s.prs|, ph.page)
    && (forall i :: ph.below <= i < ph.start ==> s.prs[i].made != Some(ph.job.fp))
    && (forall i :: ph.start <= i < |s.prs| ==> s.prs[i].made.None?)
  }

  predicate New(s: State, fp: string) { forall i :: 0 <= i < |s.prs| ==> s.prs[i].made != Some(fp) }

  predicate PhaseOk(s: State, ph: Phase) {
    && (ph.AtSearch? ==> Swept(s, ph))
    && (ph.Ready? || ph.HasCommitted? ==> New(s, ph.job.fp))
  }

  predicate Inv(s: State) {
    && Exclusive(s) && CreatedOnce(s) && Marked(s)
    && (s.holder.Some? ==> s.holder.value in s.procs)
    && forall p :: p in s.procs ==> PhaseOk(s, s.procs[p])
  }

  lemma PageKeepsInv(s: State, p: Proc)
    requires Inv(s) && p in s.procs && s.procs[p].AtSearch?
    ensures Inv(AfterPage(s, p, s.procs[p]))
  {
    var ph, n := s.procs[p], |s.prs|;
    var fp, s' := ph.job.fp, AfterPage(s, p, ph);
    assert s'.prs == s.prs && s'.holder == s.holder;
    if !OnPage(s, ph.page, fp) {
      var low := PageLow(n, ph.page);
      forall i | low <= i < ph.start && i < n ensures s.prs[i].made != Some(fp) {
        if i < ph.below {
          assert low <= i < PageHigh(n, ph.page);
          assert !Carries(s.prs[i], fp);
        }
      }
      if PAGE_SIZE * (ph.page + 1) >= n {
        assert New(s, fp);
      } else {
        assert low == PageHigh(n, ph.page + 1);
        assert Swept(s, s'.procs[p]);
      }
    }
  }

  lemma OutsiderKeepsInv(s: State, d: Draft)
    requires Inv(s) && d.made.None?
    ensures Inv(s.(prs := s.prs + [d]))
  {
    var s' := s.(prs := s.prs + [d]);
    forall p | p in s.procs ensures PhaseOk(s', s.procs[p]) {
      var ph := s.procs[p];
      assert PhaseOk(s, ph);
      if ph.AtSearch? { assert PageHigh(|s.prs|, ph.page) <= PageHigh(|s'.prs|, ph.page); }
    }
  }

  lemma CreateKeepsInv(s: State, p: Proc, o: Outcome, s': State)
    requires Inv(s) && Step(true, s, Create(p, o), s')
    ensures Inv(s')
  {
    var job := s.procs[p].job;
    assert New(s, job.fp) by { assert PhaseOk(s, s.procs[p]); }
    assert Has(FullBody(job.body, job.fp), Marker(job.fp)) by { EmitLaws.MarkerInFullBody(job.body, job.fp); }
    assert s.holder == Some(p) by { assert Inside(s.procs[p]); }
    forall q | q in s'.procs ensures PhaseOk(s', s'.procs[q]) {
      assert q != p ==> !Inside(s.procs[q]);
    }
  }

  lemma StepKeepsInv(s: State, a: Action, s': State)
    requires Inv(s) && Step(true, s, a, s')
    ensures Inv(s')
  {
    match a
    case Create(p, o) => CreateKeepsInv(s, p, o, s');
    case Outsider(body) => OutsiderKeepsInv(s, Draft(body, None));
    case ReadPage(p, o) => if o == Works { PageKeepsInv(s, p); } else { MoveKeepsInv(s, p, Idle); }
    case Begin(p, job) => MoveKeepsInv(s, p, AtSearch(job, 0, |s.prs|, |s.prs|));
    case CommitFile(p, o) =>
      assert PhaseOk(s, s.procs[p]);
      MoveKeepsInv(s, p, if o == Works then HasCommitted(At(s, p).job) else Idle);
    case Start(p) =>
    case Lock(p) =>
    case Unlock(p) =>
    case Crash(p) =>
  }

  /** The holder may change what it is doing. */
  lemma MoveKeepsInv(s: State, p: Proc, ph: Phase)
    requires Inv(s) && p in s.procs && Inside(s.procs[p]) && Inside(ph) && PhaseOk(s, ph)
    ensures Inv(To(s, p, ph))
  {
  }

  /** In every run of processes that keep the discipline, with crashes wherever they happen and
      requests that fail or lose their reply, at most one process is at work at a time and no
      fingerprint is opened twice. */
  lemma {:induction false} AtMostOnce(states: seq<State>, actions: seq<Action>, k: nat)
    requires Run(true, states, actions) && k < |states|
    ensures Exclusive(states[k]) && CreatedOnce(states[k])
    ensures Inv(states[k])
    decreases k
  {
    if k > 0 {
      AtMostOnce(states, actions, k - 1);
      assert Step(true, states[k - 1], actions[k - 1], states[k - 1 + 1]);
      StepKeepsInv(states[k - 1], actions[k - 1], states[k]);
    }
  }

  // ---------------------------------------------------------------- without the lock

  /** Two processes that search before either creates open the same draft twice: without the lock
      the search alone is not enough. */
  lemma TwiceWithoutLock()
    ensures exists states, actions :: Run(false, states, actions) && !CreatedOnce(states[|states| - 1])
  {
    hide FullBody, Carries;
    var job := Job("ab", "");
    var d := Draft(FullBody("", "ab"), Some("ab"));
    var find := AtSearch(job, 0, 0, 0);
    var actions := [
      Start(0), Start(1), Begin(0, job), Begin(1, job), ReadPage(0, Works), ReadPage(1, Works),
      CommitFile(0, Works), CommitFile(1, Works), Create(0, Works), Create(1, Works)];
    var states := [
      State(None, map[], []),
      State(None, map[0 := Idle], []),
      State(None, map[0 := Idle, 1 := Idle], []),
      State(None, map[0 := find, 1 := Idle], []),
      State(None, map[0 := find, 1 := find], []),
      State(None, map[0 := Ready(job), 1 := find], []),
      State(None, map[0 := Ready(job), 1 := Ready(job)], []),
      State(None, map[0 := HasCommitted(job), 1 := Ready(job)], []),
      State(None, map[0 := HasCommitted(job), 1 := HasCommitted(job)], []),
      State(None, map[0 := Idle, 1 := HasCommitted(job)], [d]),
      State(None, map[0 := Idle, 1 := Idle], [d, d])];
    forall k | 0 <= k < |actions| ensures Step(false, states[k], actions[k], states[k + 1]) {
    }
    var last := states[|states| - 1];
    assert last.prs[0].made == last.prs[1].made;
    assert Run(false, states, actions);
  }
}
