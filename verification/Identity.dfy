/** Lesson identities and the names built from them: internal/config/config.go:50-65 and the ledger
    key of internal/ledger/jsonl.go:27-30. */
module Identity {

  /** `sha` is carried along but takes no part in any of the names. */
  datatype LessonID = LessonID(pr: int, index: int, sha: string)

  function DigitOf(d: nat): char
    requires d < 10
  {
    (d + '0' as int) as char
  }

  function Digits(n: nat): (s: string)
    ensures |s| > 0
  {
    if n < 10 then [DigitOf(n)] else Digits(n / 10) + [DigitOf(n % 10)]
  }

  /** %d */
  function Itoa(n: int): string {
    if n < 0 then "-" + Digits(-n) else Digits(n)
  }

  function String(id: LessonID): string {
    "PR#" + Itoa(id.pr) + "::lesson-" + Itoa(id.index)
  }

  function Branch(id: LessonID): string {
    "lessongate/pr-" + Itoa(id.pr) + "-lesson-" + Itoa(id.index)
  }

  /** The ledger's map key. */
  function KeyOf(id: LessonID): string {
    Itoa(id.pr) + "/" + Itoa(id.index)
  }

  /** The in-repository path of a lesson's generated file. */
  function SkillPath(id: LessonID): string {
    "global-skills/_incoming/" + Branch(id) + "/SKILL.md"
  }

  // ---------------------------------------------------------------- different lessons, different names

  lemma {:induction false} DigitsInjective(a: nat, b: nat)
    requires Digits(a) == Digits(b)
    ensures a == b
    decreases a
  {
    var x, y := Digits(a), Digits(b);
    if a < 10 || b < 10 {
      assert |x| == |y|;
    } else {
      assert x[..|x| - 1] == Digits(a / 10) && y[..|y| - 1] == Digits(b / 10);
      assert x[|x| - 1] == y[|y| - 1];
      DigitsInjective(a / 10, b / 10);
    }
  }

  predicate Numeral(c: char) { '0' <= c <= '9' || c == '-' }

  lemma {:induction false} DigitsAreDigits(n: nat)
    ensures forall k :: 0 <= k < |Digits(n)| ==> '0' <= Digits(n)[k] <= '9'
    decreases n
  {
    if n >= 10 { DigitsAreDigits(n / 10); }
  }

  lemma ItoaInjective(a: int, b: int)
    ensures Itoa(a) == Itoa(b) ==> a == b
    ensures forall k :: 0 <= k < |Itoa(a)| ==> Numeral(Itoa(a)[k])
  {
    var m, n := if a < 0 then -a else a, if b < 0 then -b else b;
    DigitsAreDigits(m);
    DigitsAreDigits(n);
    if Itoa(a) == Itoa(b) {
      assert Itoa(a)[0] == Itoa(b)[0];
      assert a < 0 ==> Itoa(a)[1..] == Digits(m);
      assert b < 0 ==> Itoa(b)[1..] == Digits(n);
      DigitsInjective(m, n);
    }
  }

  /** Two texts joined by a separator that begins with characters they do not contain. */
  lemma {:induction false} SplitUnique(a: string, b: string, x: string, y: string, sep: string, k: nat)
    requires k < |sep| && a + sep + b == x + sep + y
    requires forall i :: 0 <= i < |a| ==> a[i] != sep[k]
    requires forall i :: 0 <= i < |x| ==> x[i] != sep[k]
    requires forall i :: 0 <= i < k ==> sep[i] != sep[k]
    ensures a == x && b == y
  {
    var s, t := a + sep + b, x + sep + y;
    assert s[|a| + k] == sep[k] && t[|x| + k] == sep[k];
    assert forall i :: 0 <= i < |a| + k ==> s[i] != sep[k];
    assert forall i :: 0 <= i < |x| + k ==> t[i] != sep[k];
    assert |a| == |x|;
    assert s[..|a|] == a && t[..|x|] == x;
    assert s[|a| + |sep|..] == b && t[|x| + |sep|..] == y;
  }

  /** The part of a name behind its fixed beginning tells the pull request and the index. */
  lemma NameTells(head: string, sep: string, k: nat, p: LessonID, q: LessonID)
    requires k < |sep| && !Numeral(sep[k]) && forall i :: 0 <= i < k ==> sep[i] != sep[k]
    ensures head + Itoa(p.pr) + sep + Itoa(p.index) == head + Itoa(q.pr) + sep + Itoa(q.index)
            <==> p.pr == q.pr && p.index == q.index
  {
    ItoaInjective(p.pr, q.pr);
    ItoaInjective(q.pr, p.pr);
    ItoaInjective(p.index, q.index);
    var a, b := Itoa(p.pr) + sep + Itoa(p.index), Itoa(q.pr) + sep + Itoa(q.index);
    var l, r := head + Itoa(p.pr) + sep + Itoa(p.index), head + Itoa(q.pr) + sep + Itoa(q.index);
    assert l[|head|..] == a && r[|head|..] == b;
    if l == r { SplitUnique(Itoa(p.pr), Itoa(p.index), Itoa(q.pr), Itoa(q.index), sep, k); }
  }

  /** Keys, log names, branches and paths all tell two lessons apart exactly by pull request and
      index; the merge commit plays no part. */
  lemma NamesAreInjective(p: LessonID, q: LessonID)
    ensures KeyOf(p) == KeyOf(q) <==> p.pr == q.pr && p.index == q.index
    ensures String(p) == String(q) <==> p.pr == q.pr && p.index == q.index
    ensures Branch(p) == Branch(q) <==> p.pr == q.pr && p.index == q.index
    ensures SkillPath(p) == SkillPath(q) <==> p.pr == q.pr && p.index == q.index
    ensures "lessongate/" <= Branch(p)
  {
    NameTells("", "/", 0, p, q);
    assert KeyOf(p) == "" + Itoa(p.pr) + "/" + Itoa(p.index) && KeyOf(q) == "" + Itoa(q.pr) + "/" + Itoa(q.index);
    NameTells("PR#", "::lesson-", 0, p, q);
    NameTells("lessongate/pr-", "-lesson-", 1, p, q);
    PathTells(Branch(p), Branch(q));
    var h := "lessongate/pr-";
    assert Branch(p)[..|h|] == h;
    assert h[..11] == "lessongate/";
  }

  lemma PathTells(b: string, c: string)
    ensures "global-skills/_incoming/" + b + "/SKILL.md" == "global-skills/_incoming/" + c + "/SKILL.md" <==> b == c
  {
    var h, t := "global-skills/_incoming/", "/SKILL.md";
    var x, y := h + b + t, h + c + t;
    if x == y {
      assert |b| == |c|;
      assert x[|h|..|h| + |b|] == b && y[|h|..|h| + |c|] == c;
    }
  }
}
