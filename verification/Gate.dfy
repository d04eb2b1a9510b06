/** internal/gate/gate.go: the deterministic verdict, built from redaction hits. */
module Gate {
  import opened Regexp
  import opened Redaction
  import opened Completeness
  import opened Restoration

  datatype Verdict = Verdict(safe: bool, novel: seq<string>, reasons: seq<string>)

  /** The placeholders of the hits that matched a shape, not a known literal. */
  function Novel(hits: seq<Hit>): seq<string> {
    if hits == [] then []
    else
      var h := hits[|hits| - 1];
      Novel(hits[..|hits| - 1]) + (if h.kind != "deny-list" then [h.placeholder] else [])
  }

  /** The kinds of the hits, each where it first occurs. */
  function Kinds(hits: seq<Hit>): seq<string> {
    if hits == [] then []
    else
      var before := Kinds(hits[..|hits| - 1]);
      var k := hits[|hits| - 1].kind;
      if k in before then before else before + [k]
  }

  function VerdictOf(hits: seq<Hit>): Verdict {
    Verdict(hits == [], Novel(hits), Kinds(hits))
  }

  method Check(r: Redactor, artifact: string) returns (v: Verdict)
    requires r.Valid()
    ensures v == VerdictOf(Redacted(r, artifact).hits)
  {
    var res := Redact(r, artifact);
    if |res.hits| == 0 {
      return Verdict(true, [], []);
    }
    v := Verdict(false, [], []);
    var seen: map<string, bool> := map[];
    for n := 0 to |res.hits|
      invariant v == Verdict(false, Novel(res.hits[..n]), Kinds(res.hits[..n]))
      invariant forall k :: k in seen <==> k in v.reasons
    {
      var h := res.hits[n];
      assert res.hits[..n + 1][..n] == res.hits[..n];
      if h.kind !in seen {
        seen := seen[h.kind := true];
        v := v.(reasons := v.reasons + [h.kind]);
      }
      if h.kind != "deny-list" {
        v := v.(novel := v.novel + [h.placeholder]);
      }
    }
    assert res.hits[..|res.hits|] == res.hits;
  }

  /** A verdict's reasons are the kinds that were hit, each once. */
  lemma {:induction false} ReasonsAreKinds(hits: seq<Hit>)
    ensures forall k :: k in Kinds(hits) <==> exists n :: 0 <= n < |hits| && hits[n].kind == k
    ensures forall m, n :: 0 <= m < n < |Kinds(hits)| ==> Kinds(hits)[m] != Kinds(hits)[n]
    decreases |hits|
  {
    if hits != [] {
      var n := |hits| - 1;
      ReasonsAreKinds(hits[..n]);
      forall k ensures k in Kinds(hits) <==> exists m :: 0 <= m < |hits| && hits[m].kind == k {
        if m :| 0 <= m < |hits| && hits[m].kind == k {
          if m < n { assert hits[..n][m].kind == k; }
        }
        if k in Kinds(hits[..n]) {
          var m :| 0 <= m < n && hits[..n][m].kind == k;
          assert hits[m].kind == k;
        }
      }
    }
  }

  /** No pattern of the table matches the text, nor does the deny-list. */
  ghost predicate Clear(r: Redactor, text: string) {
    && (forall p :: 0 <= p < |STRUCTURAL| ==> NoHit(STRUCTURAL[p].re, text))
    && (r.deny.Some? ==> NoHit(r.deny.value, text))
  }

  /** An artifact is safe exactly when no pattern matches it once its allow-listed tokens are
      stashed away. */
  lemma SafeMeansClear(r: Redactor, text: string)
    requires r.Valid()
    ensures VerdictOf(Redacted(r, text).hits).safe <==> Clear(r, Stashed(text))
  {
    TableIsSolid();
    var start := Work(Stashed(text), []);
    var w := Passes(STRUCTURAL, start);
    assert STRUCTURAL[0..] == STRUCTURAL;
    PassesOnlyAddHits(STRUCTURAL, start);
    StructuralPassesAreComplete(Stashed(text));
    if Clear(r, Stashed(text)) { NoHitNoPass(0, start); }
    if r.deny.Some? && w == start { FoundOrClear(r.deny.value, w.out); }
  }

  lemma FoundOrClear(q: Re, s: string)
    requires !Nullable(q)
    ensures Cut(q, s, 0).toks == [] <==> NoHit(q, s)
  {
    forall i | 0 <= i <= |s| ensures Ends(q, s, i) == [] <==> !HitAt(q, s, i) {
      NoEndsNoHit(q, s, i);
    }
    if Cut(q, s, 0).toks == [] {
      assert Find(q, s, 0) > |s|;
      assert forall i :: 0 <= i <= |s| ==> Ends(q, s, i) == [];
    } else {
      assert Find(q, s, 0) <= |s|;
    }
  }

  /** With the wired, empty deny-list: safe exactly when redaction would leave the text alone. */
  lemma SafeIffUnchanged(text: string)
    requires NulFree(text)
    ensures VerdictOf(Redacted(PLAIN, text).hits).safe <==> Redacted(PLAIN, text).clean == text
  {
    NoHitsIffUnchanged(text);
  }

  /** Redacted text passes the gate, if it held no allow-listed token before. */
  lemma RedactedIsSafe(text: string)
    requires NulFree(text) && Tokens(text) == []
    ensures VerdictOf(Redacted(PLAIN, Redacted(PLAIN, text).clean).hits) == Verdict(true, [], [])
  {
    RedactIsFixpoint(text);
  }
}
