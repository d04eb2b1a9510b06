/** Small pieces of Go's `strings` package, digits, and an Option type. */
module Text {

  datatype Option<+T> = None | Some(value: T)

  predicate IsDigit(c: char) { '0' <= c <= '9' }

  predicate OccursAt(s: string, w: string, i: nat) {
    i + |w| <= |s| && s[i..i + |w|] == w
  }

  /** strings.Contains */
  ghost predicate Contains(s: string, w: string) {
    exists i: nat :: OccursAt(s, w, i)
  }

  /** The first occurrence of w at or after k, or |s| + 1. */
  function Index(s: string, w: string, k: nat): (i: nat)
    requires k <= |s| + 1
    ensures k <= i <= |s| + 1
    ensures i <= |s| ==> OccursAt(s, w, i)
    ensures forall m :: k <= m < i ==> !OccursAt(s, w, m)
    decreases |s| + 1 - k
  {
    if k > |s| || OccursAt(s, w, k) then k else Index(s, w, k + 1)
  }

  /** strings.Replace(s, w, by, 1) */
  function ReplaceFirst(s: string, w: string, repl: string): string {
    var i := Index(s, w, 0);
    if i <= |s| then s[..i] + repl + s[i + |w|..] else s
  }

  lemma OccursUnique(s: string, w: string, i: nat)
    requires OccursAt(s, w, i) && forall m :: 0 <= m < i ==> !OccursAt(s, w, m)
    ensures Index(s, w, 0) == i
  {
  }

  lemma OccursFirst(s: string, w: string, i: nat)
    requires OccursAt(s, w, i) && w != []
    ensures i < |s| && s[i] == w[0]
  {
    assert s[i..i + |w|][0] == s[i];
  }

  /** strings.Contains, computed. */
  predicate Has(s: string, w: string)
    ensures Has(s, w) <==> Contains(s, w)
  {
    var i := Index(s, w, 0);
    assert i <= |s| ==> OccursAt(s, w, i);
    assert forall m: nat :: OccursAt(s, w, m) ==> m <= |s|;
    i <= |s|
  }
}
