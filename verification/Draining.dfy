/** Watching round after round, the ledger's cursor carrying the last merge time to the next round. */
module Draining {
  import opened Identity
  import opened LedgerLog
  import opened Ledger
  import opened LedgerLaws
  import opened Watch

  ghost predicate StrictlySorted(prs: seq<MergedPR>) {
    forall i, j :: 0 <= i < j < |prs| ==> prs[i].mergedAt < prs[j].mergedAt
  }

  /** These are the pull requests still to come, in the order they merged. */
  ghost predicate Backlog(full: seq<MergedPR>, all: seq<MergedPR>, since: int) {
    Sorted(full) && multiset(full) == multiset(Due(all, since))
  }

  /** The first n were merged before the others. */
  predicate ApartAt(full: seq<MergedPR>, n: nat)
    requires n <= |full|
  {
    0 < n < |full| ==> full[n - 1].mergedAt < full[n].mergedAt
  }

  /** No multiple of the limit falls between two pull requests merged at the same time. */
  ghost predicate CutsApart(full: seq<MergedPR>, limit: int)
    requires limit >= 1
  {
    forall n :: 0 <= n < |full| && n % limit == 0 ==> ApartAt(full, n)
  }

  lemma BacklogIsDue(full: seq<MergedPR>, all: seq<MergedPR>, since: int)
    requires Backlog(full, all, since)
    ensures Sorted(full) && multiset(full) == multiset(Due(all, since)) && |full| == |Due(all, since)|
  {
    assert |multiset(full)| == |multiset(Due(all, since))|;
  }

  // ---------------------------------------------------------------- one call

  lemma {:induction false} DueCount(all: seq<MergedPR>, since: int, x: MergedPR)
    ensures multiset(Due(all, since))[x] == if Eligible(x, since) then multiset(all)[x] else 0
    decreases |all|
  {
    if all != [] {
      var n := |all| - 1;
      DueCount(all[..n], since, x);
      assert all == all[..n] + [all[n]];
    }
  }

  /** What a call returns, said of the list it was given: pull requests that were merged, later than
      `since`; at most the limit; and if one of these is left out, as many as the limit, none of them merged
      after it. */
  lemma WhatIsReturned(all: seq<MergedPR>, since: int, limit: int, r: seq<MergedPR>)
    requires OldestOf(Due(all, since), limit, r)
    ensures forall x :: x in r ==> x.mergedAt != 0 && x.mergedAt > since
    ensures forall x :: multiset(r)[x] <= multiset(all)[x]
    ensures limit > 0 ==> |r| <= limit
    ensures forall x: MergedPR :: x.mergedAt != 0 && x.mergedAt > since && multiset(r)[x] < multiset(all)[x] ==>
      limit > 0 && |r| == limit && forall y :: y in r ==> y.mergedAt <= x.mergedAt
  {
    var due := Due(all, since);
    hide Due, Sorted;
    var left := multiset(due) - multiset(r);
    forall x: MergedPR ensures multiset(due)[x] == if x.mergedAt != 0 && x.mergedAt > since then multiset(all)[x] else 0 {
      DueCount(all, since, x);
    }
    forall x | x in r ensures x.mergedAt != 0 && x.mergedAt > since { assert x in multiset(r) && x in multiset(due); }
    forall x | x in left ensures |r| < |due| { LeftOut(due, r, x); }
    assert forall x :: multiset(r)[x] < multiset(due)[x] ==> x in left;
  }

  lemma LeftOut(due: seq<MergedPR>, r: seq<MergedPR>, x: MergedPR)
    requires multiset(r) <= multiset(due) && x in multiset(due) - multiset(r)
    ensures |r| < |due|
  {
    assert |multiset(due) - multiset(r)| == |due| - |r|;
  }

  lemma PopBoth(full: seq<MergedPR>, r: seq<MergedPR>)
    requires r != [] && full != [] && r[0] == full[0] && multiset(r) <= multiset(full)
    ensures multiset(r[1..]) <= multiset(full[1..])
    ensures multiset(full[1..]) - multiset(r[1..]) == multiset(full) - multiset(r)
  {
    assert r == [r[0]] + r[1..] && full == [r[0]] + full[1..];
    assert multiset(r) == multiset{r[0]} + multiset(r[1..]);
    assert multiset(full) == multiset{r[0]} + multiset(full[1..]);
    forall x ensures multiset(r[1..])[x] <= multiset(full[1..])[x] {
      assert multiset(r)[x] <= multiset(full)[x];
    }
  }

  /** With distinct merge times there is only one answer: the front of the backlog. */
  lemma {:induction false} OnlyTheFront(full: seq<MergedPR>, r: seq<MergedPR>)
    requires StrictlySorted(full) && Sorted(r) && multiset(r) <= multiset(full)
    requires NoneEarlier(multiset(full) - multiset(r), r)
    ensures |r| <= |full| && r == full[..|r|]
    decreases |r|
  {
    if r != [] {
      FirstIsFirst(full, r);
      PopBoth(full, r);
      TailsSorted(full, r, multiset(full) - multiset(r));
      hide StrictlySorted, Sorted, NoneEarlier;
      OnlyTheFront(full[1..], r[1..]);
      Prepend(full, r);
    }
  }

  lemma TailsSorted(full: seq<MergedPR>, r: seq<MergedPR>, left: multiset<MergedPR>)
    requires full != [] && r != [] && StrictlySorted(full) && Sorted(r) && NoneEarlier(left, r)
    ensures StrictlySorted(full[1..]) && Sorted(r[1..]) && NoneEarlier(left, r[1..])
  {
    assert forall x :: x in r[1..] ==> x in r;
  }

  lemma Prepend(full: seq<MergedPR>, r: seq<MergedPR>)
    requires r != [] && full != [] && r[0] == full[0] && |r| <= |full| && r[1..] == full[1..][..|r| - 1]
    ensures r == full[..|r|]
  {
    assert r == [r[0]] + r[1..] && full == [r[0]] + full[1..];
  }

  lemma FirstIsFirst(full: seq<MergedPR>, r: seq<MergedPR>)
    requires StrictlySorted(full) && Sorted(r) && r != [] && multiset(r) <= multiset(full)
    requires NoneEarlier(multiset(full) - multiset(r), r)
    ensures full != [] && r[0] == full[0]
  {
    assert r[0] in multiset(r) && r[0] in multiset(full);
    var i: nat :| i < |full| && full[i] == r[0];
    NoneBeforeFirst(full, r, full[0]);
  }

  lemma NoneBeforeFirst(full: seq<MergedPR>, r: seq<MergedPR>, x: MergedPR)
    requires Sorted(r) && r != [] && multiset(r) <= multiset(full)
    requires NoneEarlier(multiset(full) - multiset(r), r) && x in full
    ensures r[0].mergedAt <= x.mergedAt
  {
    if x in r {
      var k :| 0 <= k < |r| && r[k] == x;
    } else {
      assert x in multiset(full) && x !in multiset(r);
      assert x in multiset(full) - multiset(r) && r[0] in r;
    }
  }

  lemma CutAt(full: seq<MergedPR>, k: nat, x: MergedPR)
    requires Sorted(full) && 0 < k <= |full|
    ensures multiset(full)[x] == multiset(full[..k])[x] + multiset(full[k..])[x]
    ensures x in full[..k] ==> x.mergedAt <= full[k - 1].mergedAt
    ensures x in full[k..] ==> x.mergedAt >= full[k - 1].mergedAt && (ApartAt(full, k) ==> x.mergedAt > full[k - 1].mergedAt)
  {
    assert full == full[..k] + full[k..];
  }

  /** What later calls still see after this one, seen from the backlog. */
  lemma StillDue(full: seq<MergedPR>, all: seq<MergedPR>, since: int, k: nat, x: MergedPR)
    requires Backlog(full, all, since) && 0 <= since && 0 < k <= |full|
    ensures var t := full[k - 1].mergedAt;
      multiset(Due(all, t))[x] == if x.mergedAt > t then multiset(full[k..])[x] else 0
  {
    var t := full[k - 1].mergedAt;
    assert full[k - 1] in multiset(full);
    DueCount(all, since, full[k - 1]);
    DueCount(all, since, x);
    DueCount(all, t, x);
    CutAt(full, k, x);
  }

  /** What is left after a call is what the next one, from the last merge time on, has to deliver, if
      the cut falls between two merge times. */
  lemma BacklogShrinks(full: seq<MergedPR>, all: seq<MergedPR>, since: int, k: nat)
    requires Backlog(full, all, since) && 0 <= since && 0 < k <= |full| && ApartAt(full, k)
    ensures Backlog(full[k..], all, full[k - 1].mergedAt)
  {
    BacklogIsDue(full, all, since);
    SuffixSorted(full, k);
    var t, rest := full[k - 1].mergedAt, full[k..];
    hide Due, Sorted;
    forall x ensures multiset(rest)[x] == multiset(Due(all, t))[x] {
      StillDue(full, all, since, k, x);
      CutAt(full, k, x);
    }
    assert multiset(rest) == multiset(Due(all, t));
  }

  lemma SuffixSorted(full: seq<MergedPR>, k: nat)
    requires Sorted(full) && k <= |full|
    ensures Sorted(full[k..])
  {
  }

  // ---------------------------------------------------------------- where a call cuts

  lemma SameSize(a: multiset<MergedPR>, b: multiset<MergedPR>)
    requires a <= b && |a| >= |b|
    ensures a == b
  {
    assert b == a + (b - a);
    assert |b - a| == 0;
  }

  /** The last merge time taken is that of the n-th in order. */
  lemma LastTaken(full: seq<MergedPR>, r: seq<MergedPR>)
    requires Sorted(full) && Sorted(r) && multiset(r) <= multiset(full) && NoneEarlier(multiset(full) - multiset(r), r)
    requires r != [] && |r| <= |full|
    ensures r[|r| - 1].mergedAt == full[|r| - 1].mergedAt
  {
    var n, t := |r|, r[|r| - 1].mergedAt;
    if full[n - 1].mergedAt < t {
      AllEarlierTaken(full, r);
      LastInFront(full, r);
    } else if full[n - 1].mergedAt > t {
      AllLaterLeft(full, r);
    }
  }

  lemma AllEarlierTaken(full: seq<MergedPR>, r: seq<MergedPR>)
    requires Sorted(full) && multiset(r) <= multiset(full) && NoneEarlier(multiset(full) - multiset(r), r)
    requires r != [] && |r| <= |full| && full[|r| - 1].mergedAt < r[|r| - 1].mergedAt
    ensures multiset(full[..|r|]) == multiset(r)
  {
    var n, left := |r|, multiset(full) - multiset(r);
    assert r[n - 1] in r;
    forall x ensures multiset(full[..n])[x] <= multiset(r)[x] {
      CutAt(full, n, x);
      assert x in left ==> r[n - 1].mergedAt <= x.mergedAt;
    }
    SameSize(multiset(full[..n]), multiset(r));
  }

  lemma LastInFront(full: seq<MergedPR>, r: seq<MergedPR>)
    requires Sorted(full) && r != [] && |r| <= |full| && multiset(full[..|r|]) == multiset(r)
    ensures r[|r| - 1].mergedAt <= full[|r| - 1].mergedAt
  {
    assert r[|r| - 1] in multiset(r);
    assert r[|r| - 1] in full[..|r|];
  }

  /** Taking nothing as late as the n-th would leave more than there is room for. */
  lemma AllLaterLeft(full: seq<MergedPR>, r: seq<MergedPR>)
    requires Sorted(full) && Sorted(r) && multiset(r) <= multiset(full) && r != [] && |r| <= |full|
    ensures full[|r| - 1].mergedAt <= r[|r| - 1].mergedAt
  {
    var n, left := |r|, multiset(full) - multiset(r);
    if full[n - 1].mergedAt > r[n - 1].mergedAt {
      forall x ensures multiset(full[n - 1..])[x] <= left[x] { LaterIsLeft(full, r, x); }
      hide Sorted;
      SizeGrows(multiset(full[n - 1..]), left);
    }
  }

  lemma LaterIsLeft(full: seq<MergedPR>, r: seq<MergedPR>, x: MergedPR)
    requires Sorted(full) && Sorted(r) && r != [] && |r| <= |full| && multiset(r)[x] <= multiset(full)[x]
    requires full[|r| - 1].mergedAt > r[|r| - 1].mergedAt
    ensures multiset(full[|r| - 1..])[x] <= multiset(full)[x] - multiset(r)[x]
  {
    var later := full[|r| - 1..];
    assert full == full[..|r| - 1] + later;
    UpToLast(r, x);
    assert x in later ==> x.mergedAt >= full[|r| - 1].mergedAt;
  }

  lemma SizeGrows(a: multiset<MergedPR>, b: multiset<MergedPR>)
    requires a <= b
    ensures |a| <= |b|
  {
    assert b == a + (b - a);
  }

  /** With a cut between two merge times it is known which ones are taken. */
  lemma FrontTaken(full: seq<MergedPR>, r: seq<MergedPR>)
    requires Sorted(full) && Sorted(r) && multiset(r) <= multiset(full) && NoneEarlier(multiset(full) - multiset(r), r)
    requires |r| <= |full| && ApartAt(full, |r|)
    ensures multiset(r) == multiset(full[..|r|])
  {
    var n := |r|;
    if n > 0 {
      LastTaken(full, r);
      forall x ensures multiset(r)[x] <= multiset(full[..n])[x] {
        CutAt(full, n, x);
        UpToLast(r, x);
        assert multiset(r)[x] <= multiset(full)[x];
      }
      SameSize(multiset(r), multiset(full[..n]));
    }
  }

  lemma UpToLast(r: seq<MergedPR>, y: MergedPR)
    requires Sorted(r) && r != []
    ensures multiset(r)[y] > 0 ==> y.mergedAt <= r[|r| - 1].mergedAt
  {
  }

  ghost predicate DistinctTimes(prs: seq<MergedPR>) {
    && (forall x, y :: x in prs && y in prs && x.mergedAt == y.mergedAt ==> x == y)
    && (forall x :: multiset(prs)[x] <= 1)
  }

  lemma Twice(r: seq<MergedPR>, i: nat, j: nat)
    requires i < j < |r| && r[i] == r[j]
    ensures multiset(r)[r[i]] >= 2
  {
    assert r == r[..j] + r[j..];
    assert r[i] in r[..j] && r[j] in r[j..];
  }

  /** Without a limit a call returns the whole backlog, strictly ordered if no two merged at once. */
  lemma UnlimitedIsBacklog(all: seq<MergedPR>, since: int, limit: int, r: seq<MergedPR>)
    requires limit <= 0 && OldestOf(Due(all, since), limit, r)
    ensures Backlog(r, all, since)
    ensures DistinctTimes(Due(all, since)) ==> StrictlySorted(r)
  {
    var due := Due(all, since);
    hide Due;
    assert |multiset(due) - multiset(r)| == 0;
    assert multiset(r) == multiset(due);
    if DistinctTimes(due) {
      forall i, j | 0 <= i < j < |r| ensures r[i].mergedAt < r[j].mergedAt {
        assert r[i] in multiset(due) && r[j] in multiset(due);
        if r[i] == r[j] { Twice(r, i, j); }
      }
    }
  }

  // ---------------------------------------------------------------- the ledger between two calls

  /** One acknowledged put for each pull request, in order, stamped with its merge time. */
  ghost predicate Records(ws: seq<Write>, r: seq<MergedPR>) {
    |ws| == |r| && forall i :: 0 <= i < |r| ==> ws[i].e.updatedAt == r[i].mergedAt
  }

  lemma {:induction false} CursorAdvances(mem: map<string, Entry>, t: int, ws: seq<Write>, r: seq<MergedPR>)
    requires IsCursor(mem, t) && Records(ws, r) && Sorted(r)
    requires forall i :: 0 <= i < |r| ==> r[i].mergedAt >= t
    ensures IsCursor(Fold(mem, ws), if r == [] then t else r[|r| - 1].mergedAt)
    decreases |r|
  {
    if r != [] {
      var w := ws[0];
      var mem1 := mem[KeyOf(w.e.id) := w.e];
      assert mem1[KeyOf(w.e.id)].updatedAt == r[0].mergedAt;
      assert IsCursor(mem1, r[0].mergedAt);
      CursorAdvances(mem1, r[0].mergedAt, ws[1..], r[1..]);
    }
  }

  // ---------------------------------------------------------------- many rounds

  /** One round: a call from the ledger's cursor, then a put for everything it returned. */
  ghost predicate Round(all: seq<MergedPR>, limit: int, mem: map<string, Entry>, r: seq<MergedPR>, mem': map<string, Entry>) {
    exists t, ws ::
      IsCursor(mem, t) && OldestOf(Due(all, t), limit, r) && Records(ws, r) && mem' == Fold(mem, ws)
  }

  ghost predicate Rounds(all: seq<MergedPR>, limit: int, mems: seq<map<string, Entry>>, rs: seq<seq<MergedPR>>) {
    |mems| == |rs| + 1 && forall k :: 0 <= k < |rs| ==> Round(all, limit, mems[k], rs[k], mems[k + 1])
  }

  function Returned(rs: seq<seq<MergedPR>>): seq<MergedPR> {
    if rs == [] then [] else rs[0] + Returned(rs[1..])
  }

  /** One round from a known cursor: which the next cursor is. */
  lemma RoundCursor(all: seq<MergedPR>, limit: int, mem: map<string, Entry>, r: seq<MergedPR>, mem': map<string, Entry>,
                    since: int)
    requires Round(all, limit, mem, r, mem') && IsCursor(mem, since)
    ensures OldestOf(Due(all, since), limit, r)
    ensures IsCursor(mem', if r == [] then since else r[|r| - 1].mergedAt)
  {
    var t, ws :| IsCursor(mem, t) && OldestOf(Due(all, t), limit, r) && Records(ws, r) && mem' == Fold(mem, ws);
    CursorIsUnique(mem, t, since);
    OldestAreDue(all, t, limit, r);
    hide Due, IsCursor, Fold;
    CursorAdvances(mem, t, ws, r);
  }

  lemma OldestAreDue(all: seq<MergedPR>, t: int, limit: int, r: seq<MergedPR>)
    requires OldestOf(Due(all, t), limit, r)
    ensures Sorted(r) && forall i :: 0 <= i < |r| ==> r[i].mergedAt > t
  {
    forall i | 0 <= i < |r| ensures r[i].mergedAt > t {
      assert r[i] in multiset(r) && r[i] in multiset(Due(all, t));
      DueCount(all, t, r[i]);
    }
  }

  lemma OneRound(all: seq<MergedPR>, limit: int, mem: map<string, Entry>, r: seq<MergedPR>, mem': map<string, Entry>,
                 since: int, full: seq<MergedPR>)
    requires limit >= 1 && Round(all, limit, mem, r, mem')
    requires IsCursor(mem, since) && Backlog(full, all, since) && ApartAt(full, Cap(limit, |full|))
    ensures var k := Cap(limit, |full|);
      && Sorted(r) && multiset(r) == multiset(full[..k])
      && exists since' :: IsCursor(mem', since') && Backlog(full[k..], all, since')
  {
    RoundCursor(all, limit, mem, r, mem', since);
    CursorNotBefore(mem, since);
    BacklogIsDue(full, all, since);
    hide Due, IsCursor, Backlog, Round, Sorted, NoneEarlier;
    FrontTaken(full, r);
    if |full| > 0 {
      LastTaken(full, r);
      BacklogShrinks(full, all, since, |r|);
    } else {
      assert full[0..] == full;
    }
  }

  lemma CursorNotBefore(mem: map<string, Entry>, t: int)
    requires IsCursor(mem, t)
    ensures t >= 0
  {
  }

  lemma LaterRounds(all: seq<MergedPR>, limit: int, mems: seq<map<string, Entry>>, rs: seq<seq<MergedPR>>)
    requires Rounds(all, limit, mems, rs) && rs != []
    ensures |mems| > 1 && Round(all, limit, mems[0], rs[0], mems[1]) && Rounds(all, limit, mems[1..], rs[1..])
  {
    hide Round;
  }

  /** How many k rounds return at most. */
  function Reach(limit: int, k: nat, n: nat): (m: nat)
    requires limit >= 1
    ensures m <= n
  {
    if limit * k < n then limit * k else n
  }

  lemma Pieces(full: seq<MergedPR>, limit: int, n: nat)
    requires limit >= 1
    ensures var k := Cap(limit, |full|);
      var rest := full[k..];
      full[..k] + rest[..Reach(limit, n, |rest|)] == full[..Reach(limit, n + 1, |full|)]
  {
    var k := Cap(limit, |full|);
    var m := Reach(limit, n, |full| - k);
    assert limit * (n + 1) == limit + limit * n;
    assert full[..k] + full[k..][..m] == full[..k + m];
  }

  /** Of the cuts, the first one and those of what it leaves. */
  lemma CutsCons(full: seq<MergedPR>, limit: int)
    requires limit >= 1
    ensures var k := Cap(limit, |full|);
      CutsApart(full, limit) <==> ApartAt(full, k) && CutsApart(full[k..], limit)
  {
    if limit < |full| {
      if CutsApart(full, limit) { RestCutsApart(full, limit); }
      if ApartAt(full, limit) && CutsApart(full[limit..], limit) { WholeCutsApart(full, limit); }
    } else {
      forall n | 0 <= n < |full| && n % limit == 0 ensures ApartAt(full, n) { SmallMod(n, limit); }
    }
  }

  lemma RestCutsApart(full: seq<MergedPR>, limit: int)
    requires 1 <= limit < |full| && CutsApart(full, limit)
    ensures ApartAt(full, limit) && CutsApart(full[limit..], limit)
  {
    ModPlus(0, limit);
    forall n | 0 <= n < |full| - limit && n % limit == 0 ensures ApartAt(full[limit..], n) {
      ModPlus(n, limit);
      assert ApartAt(full, n + limit);
    }
  }

  lemma WholeCutsApart(full: seq<MergedPR>, limit: int)
    requires 1 <= limit < |full| && ApartAt(full, limit) && CutsApart(full[limit..], limit)
    ensures CutsApart(full, limit)
  {
    forall n | 0 <= n < |full| && n % limit == 0 ensures ApartAt(full, n) {
      if n > limit {
        ModPlus(n - limit, limit);
        assert ApartAt(full[limit..], n - limit);
      } else if n < limit {
        SmallMod(n, limit);
      }
    }
  }

  lemma ModPlus(n: nat, limit: int)
    requires limit >= 1
    ensures (n + limit) % limit == n % limit
  {
    var a, b := (n + limit) / limit, n / limit + 1;
    Scaled(a - b, limit);
    assert a * limit + (n + limit) % limit == b * limit + n % limit;
    assert (a - b) * limit == a * limit - b * limit;
  }

  lemma Scaled(d: int, limit: int)
    requires limit >= 1
    ensures d >= 1 ==> d * limit >= limit
    ensures d <= -1 ==> d * limit <= -limit
    ensures d == 0 ==> d * limit == 0
  {
  }

  lemma SmallMod(n: nat, limit: int)
    requires n < limit
    ensures n % limit == n
  {
  }

  /** From any ledger, with a complete lister and a limit of at least one, if no cut falls between two
      that merged at once: round after round returns the backlog piece by piece, oldest first. */
  lemma {:induction false} DrainsInOrder(all: seq<MergedPR>, limit: int, mems: seq<map<string, Entry>>,
                                         rs: seq<seq<MergedPR>>, since: int, full: seq<MergedPR>)
    requires limit >= 1 && Rounds(all, limit, mems, rs)
    requires IsCursor(mems[0], since) && Backlog(full, all, since) && CutsApart(full, limit)
    ensures Sorted(Returned(rs)) && multiset(Returned(rs)) == multiset(full[..Reach(limit, |rs|, |full|)])
    decreases |rs|
  {
    if rs != [] {
      LaterRounds(all, limit, mems, rs);
      hide Round, Rounds, Backlog, IsCursor, Cap, Sorted, CutsApart, ApartAt, Reach;
      CutsCons(full, limit);
      OneRound(all, limit, mems[0], rs[0], mems[1], since, full);
      var k := Cap(limit, |full|);
      var rest, m := full[k..], |rs| - 1;
      var since' :| IsCursor(mems[1], since') && Backlog(rest, all, since');
      DrainsInOrder(all, limit, mems[1..], rs[1..], since', rest);
      Pieces(full, limit, m);
      BacklogIsDue(full, all, since);
      InOrder(full, k, rs[0], Returned(rs[1..]), Reach(limit, m, |rest|));
      assert Returned(rs) == rs[0] + Returned(rs[1..]);
    } else {
      assert full[..0] == [];
    }
  }

  /** Pieces in order, from one sorted list. */
  lemma InOrder(full: seq<MergedPR>, k: nat, a: seq<MergedPR>, b: seq<MergedPR>, m: nat)
    requires Sorted(full) && k <= |full| && m <= |full| - k && Sorted(a) && Sorted(b)
    requires multiset(a) == multiset(full[..k]) && multiset(b) == multiset(full[k..][..m])
    ensures Sorted(a + b) && multiset(a + b) == multiset(full[..k] + full[k..][..m])
  {
    forall x, y | x in a && y in b ensures x.mergedAt <= y.mergedAt {
      assert x in multiset(a) && x in full[..k] && y in multiset(b) && y in full[k..][..m];
    }
    var s := a + b;
    forall i, j | 0 <= i < j < |s| ensures s[i].mergedAt <= s[j].mergedAt {
      if i < |a| <= j { assert s[i] in a && s[j] in b; }
    }
  }

  /** With distinct merge times: every pull request exactly once, in the order they merged, all of them
      once there were enough rounds. */
  lemma Drains(all: seq<MergedPR>, limit: int, mems: seq<map<string, Entry>>, rs: seq<seq<MergedPR>>,
               since: int, full: seq<MergedPR>)
    requires limit >= 1 && Rounds(all, limit, mems, rs)
    requires IsCursor(mems[0], since) && Backlog(full, all, since) && StrictlySorted(full)
    ensures Returned(rs) == full[..Reach(limit, |rs|, |full|)]
  {
    var front, r := full[..Reach(limit, |rs|, |full|)], Returned(rs);
    assert CutsApart(full, limit);
    DrainsInOrder(all, limit, mems, rs, since, full);
    hide Rounds, Backlog, CutsApart, Reach, Returned, Due;
    OnlyTheFront(front, r);
    assert |r| == |front| by { assert |multiset(r)| == |multiset(front)|; }
  }

  // ---------------------------------------------------------------- merge times that coincide

  /** A call loses nothing, that is, later calls still see what it leaves, exactly if it takes everything
      or its cut falls between two merge times. */
  lemma NothingLostIff(all: seq<MergedPR>, since: int, limit: int, r: seq<MergedPR>, full: seq<MergedPR>)
    requires since >= 0 && Backlog(full, all, since) && OldestOf(Due(all, since), limit, r) && r != []
    ensures var n := Cap(limit, |full|);
      var left := multiset(Due(all, since)) - multiset(r);
      left == multiset(Due(all, r[|r| - 1].mergedAt)) <==> n == |full| || full[n - 1].mergedAt < full[n].mergedAt
  {
    hide *;
    BacklogIsDue(full, all, since);
    TakenFrom(full, Due(all, since), limit, r);
    CutTells(full, r, all, since);
    ApartMeans(full, |r|);
  }

  lemma TakenFrom(full: seq<MergedPR>, due: seq<MergedPR>, limit: int, r: seq<MergedPR>)
    requires multiset(full) == multiset(due) && |full| == |due| && OldestOf(due, limit, r)
    ensures |r| == Cap(limit, |full|) <= |full|
    ensures Sorted(r) && multiset(r) <= multiset(full) && NoneEarlier(multiset(full) - multiset(r), r)
  {
    hide Sorted, NoneEarlier;
  }

  lemma ApartMeans(full: seq<MergedPR>, n: nat)
    requires 0 < n <= |full|
    ensures ApartAt(full, n) <==> n == |full| || full[n - 1].mergedAt < full[n].mergedAt
  {
  }

  lemma CutTells(full: seq<MergedPR>, r: seq<MergedPR>, all: seq<MergedPR>, since: int)
    requires since >= 0 && Backlog(full, all, since)
    requires Sorted(r) && multiset(r) <= multiset(full) && NoneEarlier(multiset(full) - multiset(r), r)
    requires r != [] && |r| <= |full|
    ensures multiset(full) - multiset(r) == multiset(Due(all, r[|r| - 1].mergedAt)) <==> ApartAt(full, |r|)
  {
    BacklogIsDue(full, all, since);
    LastTaken(full, r);
    hide Backlog, Sorted, Due, NoneEarlier;
    if ApartAt(full, |r|) {
      FrontTaken(full, r);
      BacklogShrinks(full, all, since, |r|);
      BacklogIsDue(full[|r|..], all, full[|r| - 1].mergedAt);
      RestLeft(full, r);
    } else {
      LessIsDue(full, all, since, |r|);
      LeftSize(full, r, Due(all, full[|r| - 1].mergedAt));
    }
  }

  lemma RestLeft(full: seq<MergedPR>, r: seq<MergedPR>)
    requires |r| <= |full| && multiset(r) == multiset(full[..|r|])
    ensures multiset(full) - multiset(r) == multiset(full[|r|..])
  {
    assert full == full[..|r|] + full[|r|..];
  }

  lemma LeftSize(full: seq<MergedPR>, r: seq<MergedPR>, due: seq<MergedPR>)
    requires multiset(r) <= multiset(full) && |due| < |full| - |r|
    ensures multiset(full) - multiset(r) != multiset(due)
  {
    assert |multiset(full) - multiset(r)| == |full| - |r|;
    assert |multiset(due)| == |due|;
  }

  /** A cut between two merged at once leaves at least one that no later call sees. */
  lemma LessIsDue(full: seq<MergedPR>, all: seq<MergedPR>, since: int, k: nat)
    requires Backlog(full, all, since) && 0 <= since && 0 < k <= |full|
    ensures |Due(all, full[k - 1].mergedAt)| <= |full| - k
    ensures !ApartAt(full, k) ==> |Due(all, full[k - 1].mergedAt)| < |full| - k
  {
    var t := full[k - 1].mergedAt;
    var m := if ApartAt(full, k) then k else k + 1;
    var due, rest := multiset(Due(all, t)), multiset(full[m..]);
    forall x ensures due[x] <= rest[x] {
      StillDue(full, all, since, k, x);
      CutAt(full, k, x);
      CutAt(full, m, x);
    }
    assert due <= rest;
    assert rest == due + (rest - due);
    assert |due| == |Due(all, t)|;
  }

  /** Rounds never return more than there was. */
  lemma {:induction false} ReturnedBound(all: seq<MergedPR>, limit: int, mems: seq<map<string, Entry>>,
                                         rs: seq<seq<MergedPR>>, since: int)
    requires limit >= 1 && Rounds(all, limit, mems, rs) && IsCursor(mems[0], since)
    ensures |Returned(rs)| <= |Due(all, since)|
    decreases |rs|
  {
    if rs != [] {
      LaterRounds(all, limit, mems, rs);
      RoundCursor(all, limit, mems[0], rs[0], mems[1], since);
      CursorNotBefore(mems[0], since);
      var full := SortDue(Due(all, since));
      var r := rs[0];
      var t := if r == [] then since else r[|r| - 1].mergedAt;
      hide Rounds, Round, IsCursor, Due, Sorted;
      RoundLeaves(all, since, limit, r, full);
      ReturnedBound(all, limit, mems[1..], rs[1..], t);
    }
  }

  /** What a round returns and what it leaves to see are together no more than there was, and less if it
      cut between two merged at once. */
  lemma RoundLeaves(all: seq<MergedPR>, since: int, limit: int, r: seq<MergedPR>, full: seq<MergedPR>)
    requires since >= 0 && Sorted(full) && multiset(full) == multiset(Due(all, since))
    requires OldestOf(Due(all, since), limit, r)
    ensures var t := if r == [] then since else r[|r| - 1].mergedAt;
      && |r| == Cap(limit, |full|)
      && |r| + |Due(all, t)| <= |full| == |Due(all, since)|
      && (!ApartAt(full, |r|) ==> |r| + |Due(all, t)| < |full|)
  {
    assert |multiset(full)| == |multiset(Due(all, since))|;
    hide Due;
    if r != [] {
      LastTaken(full, r);
      LessIsDue(full, all, since, |r|);
    }
  }

  /** A sorted arrangement, by insertion. */
  ghost function SortDue(prs: seq<MergedPR>): (s: seq<MergedPR>)
    ensures Sorted(s) && multiset(s) == multiset(prs)
  {
    if prs == [] then [] else
      assert prs == [prs[0]] + prs[1..];
      Insert(prs[0], SortDue(prs[1..]))
  }

  ghost function Insert(x: MergedPR, s: seq<MergedPR>): (t: seq<MergedPR>)
    requires Sorted(s)
    ensures Sorted(t) && multiset(t) == multiset(s) + multiset{x}
  {
    if s == [] || x.mergedAt <= s[0].mergedAt then [x] + s
    else
      var u := Insert(x, s[1..]);
      InFront(x, s, u);
      [s[0]] + u
  }

  lemma InFront(x: MergedPR, s: seq<MergedPR>, u: seq<MergedPR>)
    requires s != [] && Sorted(s) && s[0].mergedAt < x.mergedAt
    requires Sorted(u) && multiset(u) == multiset(s[1..]) + multiset{x}
    ensures Sorted([s[0]] + u) && multiset([s[0]] + u) == multiset(s) + multiset{x}
  {
    assert s == [s[0]] + s[1..];
    forall i | 0 <= i < |u| ensures s[0].mergedAt <= u[i].mergedAt {
      assert u[i] in multiset(u);
    }
  }

  /** A round whose cut loses one leaves the rest of the rounds unable to return everything. */
  lemma TieLosesSome(all: seq<MergedPR>, limit: int, mems: seq<map<string, Entry>>, rs: seq<seq<MergedPR>>,
                     since: int, full: seq<MergedPR>)
    requires limit >= 1 && Rounds(all, limit, mems, rs) && rs != []
    requires IsCursor(mems[0], since) && Backlog(full, all, since) && !ApartAt(full, Cap(limit, |full|))
    ensures |Returned(rs)| < |full|
  {
    LaterRounds(all, limit, mems, rs);
    RoundCursor(all, limit, mems[0], rs[0], mems[1], since);
    CursorNotBefore(mems[0], since);
    RoundLeaves(all, since, limit, rs[0], full);
    hide Rounds, Round, IsCursor, Due, Backlog;
    ReturnedBound(all, limit, mems[1..], rs[1..], if rs[0] == [] then since else rs[0][|rs[0]| - 1].mergedAt);
  }

  /** From any ledger, with a complete lister, a limit of at least one and enough rounds: everything is
      returned exactly if no cut falls between two merged at the same time; otherwise some is lost for
      good. */
  lemma DrainsIff(all: seq<MergedPR>, limit: int, mems: seq<map<string, Entry>>, rs: seq<seq<MergedPR>>,
                  since: int, full: seq<MergedPR>)
    requires limit >= 1 && Rounds(all, limit, mems, rs)
    requires IsCursor(mems[0], since) && Backlog(full, all, since) && |full| <= limit * |rs|
    ensures multiset(Returned(rs)) == multiset(full) <==> CutsApart(full, limit)
    ensures !CutsApart(full, limit) ==> |Returned(rs)| < |full|
  {
    if CutsApart(full, limit) {
      DrainsInOrder(all, limit, mems, rs, since, full);
      assert full[..|full|] == full;
    } else {
      SomeIsLost(all, limit, mems, rs, since, full);
      assert |multiset(Returned(rs))| == |Returned(rs)|;
    }
  }

  lemma {:induction false} SomeIsLost(all: seq<MergedPR>, limit: int, mems: seq<map<string, Entry>>, rs: seq<seq<MergedPR>>,
                                      since: int, full: seq<MergedPR>)
    requires limit >= 1 && Rounds(all, limit, mems, rs)
    requires IsCursor(mems[0], since) && Backlog(full, all, since) && !CutsApart(full, limit) && |full| <= limit * |rs|
    ensures |Returned(rs)| < |full|
    decreases |rs|
  {
    hide Round, IsCursor, Backlog, CutsApart, ApartAt, Sorted;
    NoCutsOfNone(full, limit);
    CutsCons(full, limit);
    if !ApartAt(full, Cap(limit, |full|)) {
      TieLosesSome(all, limit, mems, rs, since, full);
    } else {
      var k := Cap(limit, |full|);
      LaterRounds(all, limit, mems, rs);
      OneRound(all, limit, mems[0], rs[0], mems[1], since, full);
      OneLess(limit, |rs|);
      hide Rounds;
      var since' :| IsCursor(mems[1], since') && Backlog(full[k..], all, since');
      SomeIsLost(all, limit, mems[1..], rs[1..], since', full[k..]);
      assert |rs[0]| == k by { assert |multiset(rs[0])| == |multiset(full[..k])|; }
    }
  }

  lemma NoCutsOfNone(full: seq<MergedPR>, limit: int)
    requires limit >= 1 && !CutsApart(full, limit)
    ensures |full| > 0
  {
  }

  lemma OneLess(limit: int, n: nat)
    ensures limit * n == limit + limit * (n - 1)
  {
  }

  /** Two pull requests merged at the same moment, taken one at a time: the second is never seen. */
  lemma TieIsLost(p: MergedPR, q: MergedPR)
    requires p.mergedAt == q.mergedAt > 0
    ensures OldestOf(Due([p, q], 0), 1, [p]) && Due([p, q], p.mergedAt) == []
  {
    assert [p, q][..1] == [p] && [p][..0] == [];
    assert Due([p], 0) == [p] && Due([p], p.mergedAt) == [];
    assert Due([p, q], 0) == [p] + [q];
    assert multiset([p] + [q]) - multiset([p]) == multiset{q};
  }
}
