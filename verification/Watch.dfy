/** internal/watch/watch.go: merged pull requests since a cursor, oldest first, capped. */
module Watch {
  import opened Text

  /** Times are integers; 0 is the zero time of a pull request closed without a merge. */
  datatype MergedPR = MergedPR(number: int, title: string, mergedAt: int, mergeSHA: string, files: seq<string>)

  predicate Eligible(pr: MergedPR, since: int) { pr.mergedAt != 0 && pr.mergedAt > since }

  function Due(all: seq<MergedPR>, since: int): seq<MergedPR> {
    if all == [] then []
    else Due(all[..|all| - 1], since) + (if Eligible(all[|all| - 1], since) then [all[|all| - 1]] else [])
  }

  ghost predicate Sorted(prs: seq<MergedPR>) {
    forall i, j :: 0 <= i < j < |prs| ==> prs[i].mergedAt <= prs[j].mergedAt
  }

  function Cap(limit: int, n: nat): nat { if 0 < limit < n then limit else n }

  /** r is as many of these as the limit allows, in order of merging, and nothing left out was merged
      before anything taken. Which of several merged at the same time come first is left open, as the
      sort leaves it. */
  ghost predicate OldestOf(due: seq<MergedPR>, limit: int, r: seq<MergedPR>) {
    && |r| == Cap(limit, |due|)
    && Sorted(r)
    && multiset(r) <= multiset(due)
    && NoneEarlier(multiset(due) - multiset(r), r)
  }

  ghost predicate NoneEarlier(left: multiset<MergedPR>, r: seq<MergedPR>) {
    forall x, y :: x in r && y in left ==> x.mergedAt <= y.mergedAt
  }

  ghost predicate SortedBut(prs: seq<MergedPR>, n: nat, i: nat)
    requires n <= |prs|
  {
    forall k, m :: 0 <= k < m < n && m != i ==> prs[k].mergedAt <= prs[m].mergedAt
  }

  lemma SwapDown(s: seq<MergedPR>, n: nat, i: nat)
    requires 0 < i < n <= |s| && SortedBut(s, n, i) && s[i].mergedAt < s[i - 1].mergedAt
    ensures var t := s[i := s[i - 1]][i - 1 := s[i]];
      SortedBut(t, n, i - 1) && multiset(t) == multiset(s)
  {
  }

  method Swap(a: array<MergedPR>, i: nat)
    requires 0 < i < a.Length
    modifies a
    ensures a[..] == old(a[..][i := a[i - 1]][i - 1 := a[i]])
  {
    a[i], a[i - 1] := a[i - 1], a[i];
  }

  /** What slices.SortFunc promises. */
  method SortByMergedAt(a: array<MergedPR>)
    modifies a
    ensures Sorted(a[..]) && multiset(a[..]) == multiset(old(a[..]))
  {
    hide SortedBut, Sorted;
    NothingToSort(a[..]);
    for n := 0 to a.Length
      invariant SortedBut(a[..], n, n)
      invariant multiset(a[..]) == multiset(old(a[..]))
    {
      var i := n;
      OneMore(a[..], n);
      while i > 0 && a[i].mergedAt < a[i - 1].mergedAt
        invariant 0 <= i <= n
        invariant multiset(a[..]) == multiset(old(a[..]))
        invariant SortedBut(a[..], n + 1, i)
      {
        SwapDown(a[..], n + 1, i);
        Swap(a, i);
        i := i - 1;
      }
      Settled(a[..], n + 1, i);
    }
    AllSorted(a[..]);
  }

  lemma NothingToSort(s: seq<MergedPR>)
    ensures SortedBut(s, 0, 0)
  {
  }

  lemma OneMore(s: seq<MergedPR>, n: nat)
    requires n < |s| && SortedBut(s, n, n)
    ensures SortedBut(s, n + 1, n)
  {
  }

  lemma AllSorted(s: seq<MergedPR>)
    requires SortedBut(s, |s|, |s|)
    ensures Sorted(s)
  {
  }

  lemma Settled(s: seq<MergedPR>, n: nat, i: nat)
    requires n <= |s| && i < n && SortedBut(s, n, i)
    requires i > 0 ==> s[i - 1].mergedAt <= s[i].mergedAt
    ensures SortedBut(s, n, n)
  {
    forall k | 0 <= k < i ensures s[k].mergedAt <= s[i].mergedAt {
      if k < i - 1 { assert s[k].mergedAt <= s[i - 1].mergedAt; }
    }
  }

  method SortFunc(merged: seq<MergedPR>) returns (sorted: seq<MergedPR>)
    ensures Sorted(sorted) && multiset(sorted) == multiset(merged)
  {
    var a := new MergedPR[|merged|](i requires 0 <= i < |merged| => merged[i]);
    assert a[..] == merged;
    SortByMergedAt(a);
    sorted := a[..];
  }

  /** `listed` is what the lister answered. */
  method MergedSince(listed: Option<seq<MergedPR>>, since: int, limit: int) returns (r: Option<seq<MergedPR>>)
    ensures r.None? <==> listed.None?
    ensures r.Some? ==> OldestOf(Due(listed.value, since), limit, r.value)
  {
    if listed.None? {
      return None;
    }
    hide Due, NoneEarlier, Sorted;
    var all := listed.value;
    DueNone(since);
    var merged: seq<MergedPR> := [];
    for k := 0 to |all|
      invariant merged == Due(all[..k], since)
    {
      DueSnoc(all, k, since);
      if all[k].mergedAt == 0 {
        continue;
      }
      if all[k].mergedAt > since {
        merged := merged + [all[k]];
      }
    }
    assert all[..|all|] == all;
    var sorted := SortFunc(merged);
    if limit > 0 && |sorted| > limit {
      PrefixIsOldest(sorted, limit, merged);
      return Some(sorted[..limit]);
    }
    PrefixIsOldest(sorted, |sorted|, merged);
    assert sorted[..|sorted|] == sorted;
    return Some(sorted);
  }

  lemma DueNone(since: int)
    ensures Due([], since) == []
  {
  }

  lemma DueSnoc(all: seq<MergedPR>, k: nat, since: int)
    requires k < |all|
    ensures Due(all[..k + 1], since) == Due(all[..k], since) + (if Eligible(all[k], since) then [all[k]] else [])
  {
    assert all[..k + 1][..k] == all[..k];
  }

  lemma PrefixIsOldest(sorted: seq<MergedPR>, k: nat, due: seq<MergedPR>)
    requires Sorted(sorted) && k <= |sorted| && multiset(sorted) == multiset(due)
    ensures multiset(sorted[..k]) <= multiset(due)
    ensures |sorted| == |due|
    ensures NoneEarlier(multiset(due) - multiset(sorted[..k]), sorted[..k])
  {
    assert sorted == sorted[..k] + sorted[k..];
    assert |multiset(sorted)| == |multiset(due)|;
    assert multiset(due) - multiset(sorted[..k]) == multiset(sorted[k..]);
  }
}
