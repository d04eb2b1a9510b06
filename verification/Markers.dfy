/** The marker in a draft's body: exactly when it tells its fingerprint from every other, and what
    follows when it does not. */
module Markers {
  import opened Text
  import opened Identity
  import opened Redaction
  import opened Emit
  import opened EmitLaws

  const MARKER_HEAD := "<!-- lessongate:fp="
  const MARKER_TAIL := " -->"

  /** The body carries the marker of its own fingerprint and of no other. */
  ghost predicate Tells(body: string, fp: string) {
    forall want :: Contains(FullBody(body, fp), Marker(want)) <==> want == fp
  }

  /** What a caller can check beforehand. */
  ghost predicate FreeOfMarkers(body: string, fp: string) {
    !Contains(body, MARKER_HEAD) && !Contains(fp, MARKER_HEAD) && !Contains(fp, MARKER_TAIL)
  }

  // ---------------------------------------------------------------- where a marker can stand

  lemma OccursChars(s: string, w: string, i: nat)
    ensures OccursAt(s, w, i) <==> i + |w| <= |s| && forall k :: i <= k < i + |w| ==> s[k] == w[k - i]
  {
    if i + |w| <= |s| {
      var t := s[i..i + |w|];
      assert forall k :: i <= k < i + |w| ==> t[k - i] == s[k];
      assert forall k :: 0 <= k < |w| ==> t[k] == s[k + i];
    }
  }

  lemma MarkerChars(fp: string)
    ensures var m, h := Marker(fp), |MARKER_HEAD|;
      && |m| == h + |fp| + 4
      && (forall k :: 0 <= k < h ==> m[k] == MARKER_HEAD[k])
      && (forall k :: h <= k < h + |fp| ==> m[k] == fp[k - h])
      && (forall k :: h + |fp| <= k < |m| ==> m[k] == MARKER_TAIL[k - h - |fp|])
  {
  }

  lemma FullBodyChars(body: string, fp: string)
    ensures var s, n := FullBody(body, fp), |body| + 2;
      && |s| == n + |Marker(fp)|
      && (forall k :: 0 <= k < |body| ==> s[k] == body[k])
      && s[|body|] == '\n' && s[|body| + 1] == '\n'
      && (forall k :: n <= k < |s| ==> s[k] == Marker(fp)[k - n])
  {
  }

  lemma HeadIsPrefix(s: string, want: string, i: nat)
    requires OccursAt(s, Marker(want), i)
    ensures OccursAt(s, MARKER_HEAD, i)
  {
    OccursChars(s, Marker(want), i);
    MarkerChars(want);
    OccursChars(s, MARKER_HEAD, i);
  }

  lemma HeadFacts()
    ensures |MARKER_HEAD| == 19 && MARKER_HEAD[0] == '<' && MARKER_HEAD[18] == '='
    ensures forall k :: 0 <= k < 19 ==> MARKER_HEAD[k] != '\n' && (k > 0 ==> MARKER_HEAD[k] != '<')
    ensures |MARKER_TAIL| == 4 && forall k :: 0 <= k < 4 ==> MARKER_TAIL[k] != '=' && (k > 0 ==> MARKER_TAIL[k] != ' ')
  {
  }

  /** The beginning of a marker stands in the body, in the fingerprint, or where it belongs. */
  lemma HeadStands(body: string, fp: string, i: nat)
    requires OccursAt(FullBody(body, fp), MARKER_HEAD, i) && i != |body| + 2
    ensures Contains(body, MARKER_HEAD) || Contains(fp, MARKER_HEAD)
  {
    hide FullBody, Marker, MARKER_HEAD, MARKER_TAIL, Contains, OccursAt;
    var s, n := FullBody(body, fp), |body| + 2;
    HeadFacts();
    FullBodyChars(body, fp);
    MarkerChars(fp);
    OccursChars(s, MARKER_HEAD, i);
    assert s[i] == '<' && s[i + 18] == '=';
    if i < n {
      assert i + 19 <= |body|;
      OccursChars(body, MARKER_HEAD, i);
      Occurs(body, MARKER_HEAD, i);
    } else {
      var k := i - n - 19;
      assert k >= 0 by { assert s[i] == Marker(fp)[i - n]; }
      assert s[i + 18] == Marker(fp)[i + 18 - n];
      assert k + 19 <= |fp|;
      forall m | k <= m < k + 19 ensures fp[m] == MARKER_HEAD[m - k] {
        assert s[m + n + 19] == Marker(fp)[m + 19] == fp[m];
      }
      OccursChars(fp, MARKER_HEAD, k);
      Occurs(fp, MARKER_HEAD, k);
    }
  }

  lemma Occurs(s: string, w: string, i: nat)
    requires OccursAt(s, w, i)
    ensures Contains(s, w)
  {
  }

  /** A marker where it belongs is that of the fingerprint, or ends inside it. */
  lemma MarkerAtHome(body: string, fp: string, want: string)
    requires OccursAt(FullBody(body, fp), Marker(want), |body| + 2)
    ensures want == fp || Contains(fp, MARKER_TAIL)
  {
    hide FullBody, Marker, MARKER_HEAD, MARKER_TAIL, Contains, OccursAt;
    var s, n := FullBody(body, fp), |body| + 2;
    HeadFacts();
    FullBodyChars(body, fp);
    OccursChars(s, Marker(want), n);
    assert forall k :: 0 <= k < |Marker(want)| ==> Marker(want)[k] == s[k + n] == Marker(fp)[k];
    MarkerPrefix(fp, want);
  }

  lemma MarkerPrefix(fp: string, want: string)
    requires |Marker(want)| <= |Marker(fp)| && forall k :: 0 <= k < |Marker(want)| ==> Marker(want)[k] == Marker(fp)[k]
    ensures want == fp || Contains(fp, MARKER_TAIL)
  {
    var x, y, e := fp + MARKER_TAIL, want + MARKER_TAIL, |want|;
    assert forall k :: 0 <= k < |x| ==> x[k] == Marker(fp)[k + 19];
    assert forall k :: 0 <= k < |y| ==> y[k] == Marker(want)[k + 19] == x[k];
    hide Marker, Contains;
    assert forall k :: 0 <= k < e ==> want[k] == y[k] == x[k] == fp[k];
    assert y[e] == ' ' && x[e] == ' ';
    if e < |fp| {
      assert forall k :: e <= k < e + 4 ==> x[k] == y[k] == MARKER_TAIL[k - e];
      TailInside(fp, e);
    }
  }

  lemma TailInside(fp: string, e: nat)
    requires e < |fp| && forall k :: e <= k < e + 4 ==> (fp + MARKER_TAIL)[k] == MARKER_TAIL[k - e]
    ensures Contains(fp, MARKER_TAIL)
  {
    hide Contains, OccursAt;
    HeadFacts();
    var x := fp + MARKER_TAIL;
    assert x[|fp|] == MARKER_TAIL[0] == ' ';
    assert e + 4 <= |fp|;
    assert forall k :: e <= k < e + 4 ==> fp[k] == x[k];
    OccursChars(fp, MARKER_TAIL, e);
    Occurs(fp, MARKER_TAIL, e);
  }

  // ---------------------------------------------------------------- when the marker is exact

  /** A marker found in a body is its fingerprint's own, if neither holds a piece of a marker. */
  lemma OwnMarkerOnly(body: string, fp: string, want: string)
    requires FreeOfMarkers(body, fp) && Contains(FullBody(body, fp), Marker(want))
    ensures want == fp
  {
    hide FullBody, Marker, Contains;
    var i: nat := AnOccurrence(FullBody(body, fp), Marker(want));
    HeadIsPrefix(FullBody(body, fp), want, i);
    if i != |body| + 2 { HeadStands(body, fp, i); } else { MarkerAtHome(body, fp, want); }
  }

  lemma AnOccurrence(s: string, w: string) returns (i: nat)
    requires Contains(s, w)
    ensures OccursAt(s, w, i)
  {
    i :| OccursAt(s, w, i);
  }

  /** A piece of a marker where it does not belong is taken for the marker of another fingerprint. */
  lemma Mistaken(body: string, fp: string) returns (want: string)
    requires !FreeOfMarkers(body, fp)
    ensures want != fp && Contains(FullBody(body, fp), Marker(want))
  {
    hide FullBody, Marker, Contains, OccursAt;
    var h := |MARKER_HEAD|;
    FullBodyChars(body, fp);
    MarkerChars(fp);
    if Contains(body, MARKER_HEAD) {
      var i := AnOccurrence(body, MARKER_HEAD);
      OccursChars(body, MARKER_HEAD, i);
      want := HeadTaken(body, fp, i);
    } else if Contains(fp, MARKER_HEAD) {
      var i := AnOccurrence(fp, MARKER_HEAD);
      OccursChars(fp, MARKER_HEAD, i);
      want := HeadTaken(body, fp, |body| + 2 + h + i);
    } else {
      var i := AnOccurrence(fp, MARKER_TAIL);
      OccursChars(fp, MARKER_TAIL, i);
      want := fp[..i];
      TailTaken(body, fp, i);
    }
  }

  /** From the beginning of a marker to the end of the text. */
  lemma HeadTaken(body: string, fp: string, i: nat) returns (want: string)
    requires i + |MARKER_HEAD| <= |FullBody(body, fp)| - |MARKER_TAIL| && i != |body| + 2
    requires i < |body| ==> OccursAt(body, MARKER_HEAD, i)
    requires i >= |body| ==> var k := i - |body| - 2 - |MARKER_HEAD|; k >= 0 && OccursAt(fp, MARKER_HEAD, k)
    ensures want != fp && Contains(FullBody(body, fp), Marker(want))
  {
    hide FullBody, Marker, MARKER_HEAD, MARKER_TAIL, Contains, OccursAt;
    var s, h := FullBody(body, fp), |MARKER_HEAD|;
    HeadFacts();
    FullBodyChars(body, fp);
    MarkerChars(fp);
    want := s[i + h..|s| - 4];
    if i < |body| {
      OccursChars(body, MARKER_HEAD, i);
    } else {
      var k := i - |body| - 2 - h;
      OccursChars(fp, MARKER_HEAD, k);
      forall m | i <= m < i + h ensures s[m] == MARKER_HEAD[m - i] {
        assert s[m] == Marker(fp)[m - |body| - 2] == fp[m - |body| - 2 - h];
      }
    }
    MarkerChars(want);
    forall m | |s| - 4 <= m < |s| ensures s[m] == MARKER_TAIL[m - (|s| - 4)] {
      assert s[m] == Marker(fp)[m - |body| - 2];
    }
    OccursChars(s, Marker(want), i);
    Occurs(s, Marker(want), i);
  }

  /** From the marker's beginning to the first end of one in the fingerprint. */
  lemma TailTaken(body: string, fp: string, i: nat)
    requires OccursAt(fp, MARKER_TAIL, i)
    ensures Contains(FullBody(body, fp), Marker(fp[..i]))
  {
    hide FullBody, Marker, MARKER_HEAD, MARKER_TAIL, Contains, OccursAt;
    OccursChars(fp, MARKER_TAIL, i);
    var s, n, want := FullBody(body, fp), |body| + 2, fp[..i];
    HeadFacts();
    FullBodyChars(body, fp);
    MarkerChars(fp);
    MarkerChars(want);
    forall m | n <= m < n + |Marker(want)| ensures s[m] == Marker(want)[m - n] {
      assert s[m] == Marker(fp)[m - n];
    }
    OccursChars(s, Marker(want), n);
    Occurs(s, Marker(want), n);
  }

  /** A body carries the marker of its own fingerprint and of no other exactly if no marker begins in
      the body or the fingerprint and none ends in the fingerprint. */
  lemma MarkerTellsIff(body: string, fp: string)
    ensures Tells(body, fp) <==> FreeOfMarkers(body, fp)
  {
    MarkerInFullBody(body, fp);
    hide FullBody, Marker, Contains, FreeOfMarkers;
    if FreeOfMarkers(body, fp) {
      forall want | Contains(FullBody(body, fp), Marker(want)) ensures want == fp { OwnMarkerOnly(body, fp, want); }
    } else {
      var want := Mistaken(body, fp);
    }
  }

  /** So the hash that emit.Fingerprint builds always tells. */
  lemma HexTells(body: string, fp: string)
    requires forall k :: 0 <= k < |fp| ==> '0' <= fp[k] <= '9' || 'a' <= fp[k] <= 'f'
    ensures Tells(body, fp) <==> !Contains(body, MARKER_HEAD)
  {
    MarkerTellsIff(body, fp);
    HeadFacts();
    forall w, i: nat | w in {MARKER_HEAD, MARKER_TAIL} ensures !OccursAt(fp, w, i) {
      if OccursAt(fp, w, i) { OccursFirst(fp, w, i); }
    }
  }

  // ---------------------------------------------------------------- what a mistaken marker costs

  ghost predicate Dropped(net: Network, gate: Redactor, r: Remote, fp: string)
    requires gate.Valid()
  {
    forall id, skillMD, body :: PassesGate(gate, body) && PassesGate(gate, skillMD) ==>
      var (r', res) := EmitSpec(net, gate, r, id, skillMD, body, fp);
      r'.log == r.log && res.Url?
  }

  /** Where the condition fails and the forge works, the emission makes some other fingerprint, under
      which it opened nothing, pass for existing from then on: every later lesson with that fingerprint
      is reported as emitted, and the emission publishes nothing. */
  lemma MistakenIsDropped(net: Network, gate: Redactor, r: Remote, id: LessonID, skillMD: string, body: string, fp: string)
      returns (want: string)
    requires gate.Valid() && AllWorks(net) && PassesGate(gate, body) && PassesGate(gate, skillMD)
    requires !Marked(r.log, fp) && !FreeOfMarkers(body, fp)
    ensures want != fp
    ensures var r1 := EmitSpec(net, gate, r, id, skillMD, body, fp).0;
      && (forall e :: e in r1.log && e.Opened? && e.fp == want ==> e in r.log)
      && forall later: Remote :: r1.log <= later.log ==> Dropped(net, gate, later, want)
  {
    want := Mistaken(body, fp);
    var r1 := EmitSpec(net, gate, r, id, skillMD, body, fp).0;
    OpenedNow(net, gate, r, id, skillMD, body, fp);
    CarriesBoth(r.log, id, skillMD, body, fp, want);
    hide EmitSpec, PassesGate, Marked, FullBody;
    forall later: Remote | r1.log <= later.log ensures Dropped(net, gate, later, want) {
      MarksStay(r1.log, later.log, want);
      forall id, skillMD, body | PassesGate(gate, body) && PassesGate(gate, skillMD)
        ensures var (r', res) := EmitSpec(net, gate, later, id, skillMD, body, want); r'.log == later.log && res.Url?
      {
        MarkedStops(net, gate, later, id, skillMD, body, want);
      }
    }
  }

  ghost function DraftEvent(log: seq<Event>, id: LessonID, body: string, fp: string): Event {
    Opened(NewPullRequest(log, Branch(id), Title(id), FullBody(body, fp)), fp)
  }

  lemma OpenedNow(net: Network, gate: Redactor, r: Remote, id: LessonID, skillMD: string, body: string, fp: string)
    requires gate.Valid() && AllWorks(net) && PassesGate(gate, body) && PassesGate(gate, skillMD) && !Marked(r.log, fp)
    ensures EmitSpec(net, gate, r, id, skillMD, body, fp).0.log
         == r.log + [Committed(SkillCommit(id, skillMD)), DraftEvent(r.log, id, body, fp)]
  {
    EmissionIsOneStep(net, gate, r, id, skillMD, body, fp);
    SearchIsExact(net, r, fp);
    hide PassesGate, FullBody, SkillCommit, Marked;
    PullRequestsSnoc(r.log, Committed(SkillCommit(id, skillMD)));
  }

  lemma CarriesBoth(log: seq<Event>, id: LessonID, skillMD: string, body: string, fp: string, want: string)
    requires Contains(FullBody(body, fp), Marker(want))
    ensures Marked(log + [Committed(SkillCommit(id, skillMD)), DraftEvent(log, id, body, fp)], want)
  {
    var c, e := Committed(SkillCommit(id, skillMD)), DraftEvent(log, id, body, fp);
    assert log + [c, e] == log + [c] + [e];
    PullRequestsSnoc(log + [c], e);
    var prs := PullRequests(log + [c] + [e]);
    assert Carries(prs[|prs| - 1], want);
  }

  lemma MarkedStops(net: Network, gate: Redactor, r: Remote, id: LessonID, skillMD: string, body: string, fp: string)
    requires gate.Valid() && AllWorks(net) && PassesGate(gate, body) && PassesGate(gate, skillMD) && Marked(r.log, fp)
    ensures var (r', res) := EmitSpec(net, gate, r, id, skillMD, body, fp); r'.log == r.log && res.Url?
  {
    SearchIsExact(net, r, fp);
  }
}
