/** Which lessons a run takes in, in which order, and why it turns one away. */
module Intake {
  import opened Text
  import opened Identity
  import opened Redaction
  import opened Gate
  import opened Emit
  import opened Watch
  import opened Reconcile
  import opened Pipeline

  // ---------------------------------------------------------------- the watched pull requests

  /** The k-th body of the n-th pull request. */
  datatype Place = Place(n: nat, k: nat)

  predicate Before(p: Place, q: Place) { p.n < q.n || (p.n == q.n && p.k < q.k) }

  /** The pull request is not skipped, its lessons can be read, and there is such a body. */
  predicate Taken(d: Deps, prs: seq<MergedPR>, p: Place) {
    && p.n < |prs| && !d.skip(prs[p.n])
    && d.lessons(prs[p.n].number).Some? && p.k < |d.lessons(prs[p.n].number).value|
  }

  /** That body under the pull request's number, its index from 1, and its merge commit. */
  function ItemAt(d: Deps, prs: seq<MergedPR>, p: Place): Item
    requires Taken(d, prs, p)
  {
    Item(LessonID(prs[p.n].number, p.k + 1, prs[p.n].mergeSHA), d.lessons(prs[p.n].number).value[p.k])
  }

  /** These items are those at these places, in order, from the n-th pull request on. */
  ghost predicate Listed(d: Deps, prs: seq<MergedPR>, n: nat, items: seq<Item>, places: seq<Place>) {
    && |items| == |places|
    && (forall m :: 0 <= m < |places| ==> Taken(d, prs, places[m]) && items[m] == ItemAt(d, prs, places[m]))
    && (forall l, m :: 0 <= l < m < |places| ==> Before(places[l], places[m]))
    && (forall p :: p in places <==> Taken(d, prs, p) && p.n >= n)
  }

  lemma {:induction false} LessonItemsAt(pr: int, sha: string, bodies: seq<string>, i: nat)
    requires i <= |bodies|
    ensures var items := LessonItems(pr, sha, bodies, i);
      |items| == |bodies| - i
      && forall k :: 0 <= k < |items| ==> items[k] == Item(LessonID(pr, i + k + 1, sha), bodies[i + k])
    decreases |bodies| - i
  {
    if i < |bodies| {
      LessonItemsAt(pr, sha, bodies, i + 1);
      var items, rest := LessonItems(pr, sha, bodies, i), LessonItems(pr, sha, bodies, i + 1);
      assert forall k :: 0 < k < |items| ==> items[k] == rest[k - 1];
    }
  }

  lemma {:induction false} WatchItemsListed(d: Deps, prs: seq<MergedPR>, n: nat) returns (places: seq<Place>)
    requires n <= |prs|
    ensures Listed(d, prs, n, WatchItems(d, prs, n), places)
    decreases |prs| - n
  {
    if n == |prs| {
      places := [];
    } else {
      var later := WatchItemsListed(d, prs, n + 1);
      var items := PRItems(d, prs[n]);
      if d.skip(prs[n]) || d.lessons(prs[n].number).None? {
        assert items == [] && [] + WatchItems(d, prs, n + 1) == WatchItems(d, prs, n + 1);
        places := later;
      } else {
        var bodies := d.lessons(prs[n].number).value;
        LessonItemsAt(prs[n].number, prs[n].mergeSHA, bodies, 0);
        var here := seq(|bodies|, k requires 0 <= k < |bodies| => Place(n, k));
        places := here + later;
        ListedSum(d, prs, n, items, here, WatchItems(d, prs, n + 1), later);
      }
    }
  }

  lemma ListedSum(d: Deps, prs: seq<MergedPR>, n: nat, items: seq<Item>, here: seq<Place>, rest: seq<Item>, later: seq<Place>)
    requires n < |prs| && Listed(d, prs, n + 1, rest, later)
    requires |items| == |here| && forall k :: 0 <= k < |here| ==>
      here[k] == Place(n, k) && Taken(d, prs, here[k]) && items[k] == ItemAt(d, prs, here[k])
    requires forall k: nat :: Taken(d, prs, Place(n, k)) ==> k < |here|
    ensures Listed(d, prs, n, items + rest, here + later)
  {
    hide Taken;
    var places := here + later;
    forall m | 0 <= m < |places| ensures Taken(d, prs, places[m]) && (items + rest)[m] == ItemAt(d, prs, places[m]) {
      if m >= |here| { assert places[m] == later[m - |here|]; }
    }
    hide ItemAt;
    OrderedSum(here, later, n);
    forall p ensures p in places <==> Taken(d, prs, p) && p.n >= n {
      if Taken(d, prs, p) && p.n == n {
        assert p == Place(n, p.k) && here[p.k] == p;
      }
    }
  }

  lemma OrderedSum(here: seq<Place>, later: seq<Place>, n: nat)
    requires forall k :: 0 <= k < |here| ==> here[k] == Place(n, k)
    requires forall p :: p in later ==> p.n > n
    requires forall l, m :: 0 <= l < m < |later| ==> Before(later[l], later[m])
    ensures forall l, m :: 0 <= l < m < |here + later| ==> Before((here + later)[l], (here + later)[m])
  {
    var places := here + later;
    forall l, m | 0 <= l < m < |places| ensures Before(places[l], places[m]) {
      if m >= |here| { assert places[m] in later; }
    }
  }

  /** In watch mode a run's lessons are exactly the bodies of the watched pull requests that are not skipped
      and can be read: pull requests as watched, bodies as read. */
  lemma WatchModeTakes(d: Deps, opt: Options) returns (places: seq<Place>)
    requires !opt.once
    ensures RunItems(d, opt).None? <==> d.watch(opt.since, opt.maxPRs).None?
    ensures RunItems(d, opt).Some? ==>
      Listed(d, d.watch(opt.since, opt.maxPRs).value, 0, RunItems(d, opt).value, places)
  {
    if d.watch(opt.since, opt.maxPRs).Some? {
      places := WatchItemsListed(d, d.watch(opt.since, opt.maxPRs).value, 0);
    } else {
      places := [];
    }
  }

  /** So an item is in the run exactly if it is at such a place. */
  lemma InTheRunIff(d: Deps, opt: Options, item: Item)
    requires !opt.once && d.watch(opt.since, opt.maxPRs).Some?
    ensures var prs := d.watch(opt.since, opt.maxPRs).value;
      item in RunItems(d, opt).value <==> exists p :: Taken(d, prs, p) && item == ItemAt(d, prs, p)
  {
    var prs, items := d.watch(opt.since, opt.maxPRs).value, RunItems(d, opt).value;
    var places := WatchModeTakes(d, opt);
    if item in items {
      var m :| 0 <= m < |items| && items[m] == item;
      assert Taken(d, prs, places[m]) && item == ItemAt(d, prs, places[m]);
    }
    if p :| Taken(d, prs, p) && item == ItemAt(d, prs, p) {
      assert p in places;
      var m :| 0 <= m < |places| && places[m] == p;
      assert items[m] == item;
    }
  }

  /** In once mode they are exactly the bodies of source 0, under pull request 0 and "smoke". */
  lemma OnceModeTakes(d: Deps, opt: Options)
    requires opt.once
    ensures RunItems(d, opt).None? <==> d.lessons(0).None?
    ensures RunItems(d, opt).Some? ==>
      var items, bodies := RunItems(d, opt).value, d.lessons(0).value;
      |items| == |bodies| && forall k :: 0 <= k < |bodies| ==> items[k] == Item(LessonID(0, k + 1, "smoke"), bodies[k])
  {
    if d.lessons(0).Some? { LessonItemsAt(0, "smoke", d.lessons(0).value, 0); }
  }

  // ---------------------------------------------------------------- why a lesson is turned away

  /** These texts, with a comma behind each. */
  function Commas(parts: seq<string>): string { if parts == [] then "" else parts[0] + "," + Commas(parts[1..]) }

  lemma {:induction false} JoinedByCommas(parts: seq<string>)
    ensures JoinComma(parts) + (if parts == [] then "" else ",") == Commas(parts)
    decreases |parts|
  {
    if |parts| == 1 {
      assert parts[1..] == [] && Commas([]) == "";
      assert parts[0] + "," + "" == parts[0] + ",";
    } else if |parts| > 1 {
      JoinedByCommas(parts[1..]);
      assert parts[0] + "," + JoinComma(parts[1..]) + "," == parts[0] + "," + (JoinComma(parts[1..]) + ",");
    }
  }

  /** Nothing the gate forbids is in the text. */
  ghost predicate Safe(gate: Redactor, text: string)
    requires gate.Valid()
  {
    Redacted(gate, text).hits == []
  }

  ghost predicate Refused(d: Deps, cand: Candidate) { d.verify.Some? && !d.verify.value(cand.body) }

  ghost predicate Known(d: Deps, cand: Candidate) {
    exists k :: 0 <= k < |d.index| && d.index[k].name == cand.skillName
  }

  /** Each reason has its cause: the extractor failed; it found nothing general; the gate found something,
      or the verifier objects; a skill of that very name is published. Whatever is none of these goes on,
      however similar to a published skill. */
  lemma WhyTurnedAway(d: Deps, body: string)
    requires d.Valid()
    ensures var redacted := Redacted(d.redactor, body).clean;
      match d.extract(redacted)
      case ExtractFailed(errClass) => Judge(d, body) == Rejected("extract-error", errClass)
      case Extracted(cand) =>
        && (Judge(d, body).Accepted? <==>
              cand.generalizable && Safe(d.gate, cand.body) && !Refused(d, cand) && !Known(d, cand))
        && (Judge(d, body).Accepted? ==> Judge(d, body) == Accepted(cand, cand.skillName + ":" + redacted))
        && (Judge(d, body).Rejected? ==>
              var reason := Judge(d, body).reason;
              && (reason == "non-generalizable" <==> !cand.generalizable)
              && (reason == "gate-blocked" <==> cand.generalizable && (!Safe(d.gate, cand.body) || Refused(d, cand)))
              && (reason == "duplicate" <==>
                    cand.generalizable && Safe(d.gate, cand.body) && !Refused(d, cand) && Known(d, cand)))
  {
    hide Redacted, JoinComma, Kinds, SomeClose;
    ReasonsDiffer();
  }

  lemma ReasonsDiffer()
    ensures NON_GENERALIZABLE == "non-generalizable" && GATE_BLOCKED == "gate-blocked" && DUPLICATE == "duplicate"
    ensures "non-generalizable" != "gate-blocked" && "gate-blocked" != "duplicate" && "non-generalizable" != "duplicate"
  {
    assert "non-generalizable"[0] == 'n' && "gate-blocked"[0] == 'g' && "duplicate"[0] == 'd';
  }

  /** And the details: nothing; the kinds the gate found or the verifier's name; the skill's name. */
  lemma WhatTheReportSays(d: Deps, body: string)
    requires d.Valid() && d.extract(Redacted(d.redactor, body).clean).Extracted? && Judge(d, body).Rejected?
    ensures var cand, j := d.extract(Redacted(d.redactor, body).clean).cand, Judge(d, body);
      && (!cand.generalizable ==> j.detail == "")
      && (cand.generalizable && !Safe(d.gate, cand.body) ==>
            j.detail + "," == Commas(VerdictOf(Redacted(d.gate, cand.body).hits).reasons))
      && (cand.generalizable && Safe(d.gate, cand.body) && Refused(d, cand) ==> j.detail == "claude-verify")
      && (cand.generalizable && Safe(d.gate, cand.body) && !Refused(d, cand) ==> j.detail == cand.skillName)
  {
    var cand := d.extract(Redacted(d.redactor, body).clean).cand;
    var hits := Redacted(d.gate, cand.body).hits;
    JoinedByCommas(VerdictOf(hits).reasons);
    ReasonsAreKinds(hits);
    hide Redacted, JoinComma, SomeClose, Commas;
    if hits != [] {
      assert hits[0].kind in Kinds(hits);
      hide Kinds;
      assert Kinds(hits) != [];
    }
  }

  /** What one lesson adds to count and report of a real run. */
  lemma OneLessonAdds(d: Deps, net: Network, item: Item, t: Tally)
    requires d.Valid()
    ensures var j, t' := Judge(d, item.body), Process(d, net, false, item, t);
      match j
      case Rejected(reason, detail) =>
        t'.remote == t.remote && t'.count == t.count
        && t'.rejections == t.rejections + [Rejection(String(item.id), reason, detail)]
      case Accepted(cand, fp) =>
        var (remote, r) := EmitSpec(net, d.emitGate, t.remote, item.id, cand.body, cand.summary, fp);
        && t'.remote == remote
        && (r.Url? ==> t'.count == t.count + 1 && t'.rejections == t.rejections)
        && (r.EmitError? ==> t'.count == t.count)
        && (r.EmitError? ==> t'.rejections == t.rejections + [Rejection(String(item.id), "emit-error", "error")])
  {
    hide Judge, EmitSpec, String;
  }

  // ---------------------------------------------------------------- the report of a run

  /** The lessons turned away, in the order of the run, with reason and detail. */
  ghost function TurnedAway(d: Deps, items: seq<Item>): seq<Rejection>
    requires d.Valid()
  {
    if items == [] then []
    else
      var item := items[|items| - 1];
      TurnedAway(d, items[..|items| - 1]) + match Judge(d, item.body)
        case Rejected(reason, detail) => [Rejection(String(item.id), reason, detail)]
        case Accepted(_, _) => []
  }

  lemma {:induction false} FirstTurnedAway(d: Deps, items: seq<Item>)
    requires d.Valid() && items != []
    ensures TurnedAway(d, items) == TurnedAway(d, [items[0]]) + TurnedAway(d, items[1..])
    decreases |items|
  {
    hide Judge, String;
    var n := |items| - 1;
    if n == 0 {
      assert items == [items[0]] && items[1..] == [];
    } else {
      FirstTurnedAway(d, items[..n]);
      assert items[..n][1..] == items[1..][..n - 1] && items[1..][n - 1] == items[n];
    }
  }

  lemma OneTurnedAway(d: Deps, item: Item)
    requires d.Valid()
    ensures TurnedAway(d, [item]) == match Judge(d, item.body)
      case Rejected(reason, detail) => [Rejection(String(item.id), reason, detail)]
      case Accepted(_, _) => []
  {
    hide Judge, String;
    assert [item][..0] == [];
  }

  /** A dry run reports exactly these, in this order, and counts the others. */
  lemma {:induction false} DryReportIs(d: Deps, net: Network, items: seq<Item>, t: Tally)
    requires d.Valid()
    ensures var t' := ProcessAll(d, net, true, items, t);
      && t'.rejections == t.rejections + TurnedAway(d, items)
      && t'.count == t.count + |items| - |TurnedAway(d, items)|
    decreases |items|
  {
    if items != [] {
      FirstTurnedAway(d, items);
      OneDryReport(d, net, items[0], t);
      hide Process, TurnedAway;
      DryReportIs(d, net, items[1..], Process(d, net, true, items[0], t));
    }
  }

  lemma OneDryReport(d: Deps, net: Network, item: Item, t: Tally)
    requires d.Valid()
    ensures var t' := Process(d, net, true, item, t);
      && t'.rejections == t.rejections + TurnedAway(d, [item])
      && t'.count == t.count + 1 - |TurnedAway(d, [item])|
  {
    OneTurnedAway(d, item);
    hide Judge, String, TurnedAway, EmitSpec;
    assert t.rejections + [] == t.rejections;
  }
}
