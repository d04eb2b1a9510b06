/** A codec that meets the demands LedgerLog makes: entries between braces, everything inside spelled
    in digits, so that a torn or a glued line can be told from an entry. */
module LedgerCodec {
  import opened Text
  import opened Identity
  import opened LedgerLog

  /** Each character as its code and a comma, then a semicolon. */
  function Spell(s: string): string {
    if s == "" then ";" else Itoa(s[0] as int) + "," + Spell(s[1..])
  }

  function Number(n: int): string { Itoa(n) + "," }

  function Inside(e: Entry): string {
    Number(e.id.pr) + (Number(e.id.index) + (Number(e.updatedAt) +
    (Spell(e.id.sha) + (Spell(e.stage) + (Spell(e.url) + (Spell(e.hash) + Spell(e.model)))))))
  }

  function Encode(e: Entry): string { "{" + Inside(e) + "}" }

  ghost function Decode(s: string): Option<Entry> {
    if e :| Encode(e) == s then Some(e) else None
  }

  predicate Plain(s: string) {
    forall k :: 0 <= k < |s| ==> Numeral(s[k]) || s[k] == ',' || s[k] == ';'
  }

  lemma PlainSum(a: string, b: string)
    requires Plain(a) && Plain(b)
    ensures Plain(a + b)
  {
  }

  lemma NumberPlain(n: int)
    ensures Plain(Number(n))
  {
    ItoaInjective(n, n);
  }

  lemma {:induction false} SpellPlain(s: string)
    ensures Plain(Spell(s))
    decreases |s|
  {
    if s != "" {
      NumberPlain(s[0] as int);
      SpellPlain(s[1..]);
      PlainSum(Number(s[0] as int), Spell(s[1..]));
    }
  }

  lemma InsidePlain(e: Entry)
    ensures Plain(Inside(e))
  {
    hide Number, Spell, Plain;
    NumberPlain(e.id.pr);
    NumberPlain(e.id.index);
    NumberPlain(e.updatedAt);
    SpellPlain(e.id.sha);
    SpellPlain(e.stage);
    SpellPlain(e.url);
    SpellPlain(e.hash);
    SpellPlain(e.model);
    var d5 := Spell(e.hash) + Spell(e.model);
    var d4 := Spell(e.url) + d5;
    var d3 := Spell(e.stage) + d4;
    var d2 := Spell(e.id.sha) + d3;
    var d1 := Number(e.updatedAt) + d2;
    PlainSum(Spell(e.hash), Spell(e.model));
    PlainSum(Spell(e.url), d5);
    PlainSum(Spell(e.stage), d4);
    PlainSum(Spell(e.id.sha), d3);
    PlainSum(Number(e.updatedAt), d2);
    PlainSum(Number(e.id.index), d1);
    PlainSum(Number(e.id.pr), Number(e.id.index) + d1);
  }

  lemma NumberSplits(m: int, x: string, n: int, y: string)
    requires Number(m) + x == Number(n) + y
    ensures m == n && x == y
  {
    ItoaInjective(m, n);
    ItoaInjective(n, m);
    SplitUnique(Itoa(m), x, Itoa(n), y, ",", 0);
  }

  lemma {:induction false} SpellSplits(s: string, x: string, t: string, y: string)
    requires Spell(s) + x == Spell(t) + y
    ensures s == t && x == y
    decreases |s|
  {
    var a, b := Spell(s) + x, Spell(t) + y;
    SpellStart(s, x);
    SpellStart(t, y);
    if s != "" && t != "" {
      var p, q := s[1..], t[1..];
      assert a == Number(s[0] as int) + (Spell(p) + x);
      assert b == Number(t[0] as int) + (Spell(q) + y);
      NumberSplits(s[0] as int, Spell(p) + x, t[0] as int, Spell(q) + y);
      SpellSplits(p, x, q, y);
      assert s == [s[0]] + p && t == [t[0]] + q;
    } else if s == t {
      assert a[1..] == x && b[1..] == y;
    }
  }

  lemma SpellStart(s: string, x: string)
    ensures (Spell(s) + x)[0] == ';' <==> s == ""
  {
    if s != "" {
      ItoaInjective(s[0] as int, 0);
      assert |Itoa(s[0] as int)| > 0;
      assert (Spell(s) + x)[0] == Itoa(s[0] as int)[0];
    }
  }

  lemma EncodeInjective(d: Entry, e: Entry)
    requires Encode(d) == Encode(e)
    ensures d == e
  {
    assert Encode(d)[1..|Encode(d)| - 1] == Inside(d) && Encode(e)[1..|Encode(e)| - 1] == Inside(e);
    InsideInjective(d, e);
  }

  lemma InsideInjective(d: Entry, e: Entry)
    requires Inside(d) == Inside(e)
    ensures d == e
  {
    hide Number, Spell;
    var d5, e5 := Spell(d.hash) + Spell(d.model), Spell(e.hash) + Spell(e.model);
    var d4, e4 := Spell(d.url) + d5, Spell(e.url) + e5;
    var d3, e3 := Spell(d.stage) + d4, Spell(e.stage) + e4;
    var d2, e2 := Spell(d.id.sha) + d3, Spell(e.id.sha) + e3;
    var d1, e1 := Number(d.updatedAt) + d2, Number(e.updatedAt) + e2;
    NumberSplits(d.id.pr, Number(d.id.index) + d1, e.id.pr, Number(e.id.index) + e1);
    NumberSplits(d.id.index, d1, e.id.index, e1);
    NumberSplits(d.updatedAt, d2, e.updatedAt, e2);
    SpellSplits(d.id.sha, d3, e.id.sha, e3);
    SpellSplits(d.stage, d4, e.stage, e4);
    SpellSplits(d.url, d5, e.url, e5);
    SpellSplits(d.hash, Spell(d.model), e.hash, Spell(e.model));
    assert Spell(d.model) + "" == Spell(d.model) && Spell(e.model) + "" == Spell(e.model);
    SpellSplits(d.model, "", e.model, "");
  }

  lemma BracesAround(x: string)
    requires Plain(x)
    ensures var s := "{" + x + "}";
      && |s| >= 2 && s[0] == '{' && s[|s| - 1] == '}' && OneLine(s)
      && (forall k :: 0 < k < |s| ==> s[k] != '{')
      && (forall k :: 0 <= k < |s| - 1 ==> s[k] != '}')
  {
    var s := "{" + x + "}";
    assert forall k :: 0 < k < |s| - 1 ==> s[k] == x[k - 1];
  }

  /** An encoded entry opens with its only opening brace and closes with its only closing one. */
  lemma Braces(e: Entry)
    ensures var s := Encode(e);
      && |s| >= 2 && s[0] == '{' && s[|s| - 1] == '}' && OneLine(s)
      && (forall k :: 0 < k < |s| ==> s[k] != '{')
      && (forall k :: 0 <= k < |s| - 1 ==> s[k] != '}')
  {
    InsidePlain(e);
    hide Inside;
    BracesAround(Inside(e));
  }

  ghost const CODEC := Codec(e => Encode(e), s => Decode(s))

  lemma FragmentOpens(f: string)
    requires Fragment(CODEC, f)
    ensures f != "" && f[0] == '{'
  {
    var e :| f <= Encode(e);
    Braces(e);
  }

  lemma GluedIsRejected(fs: seq<string>, e: Entry)
    requires |fs| >= 2 && Fragments(CODEC, fs)
    ensures Concat(fs) != Encode(e)
  {
    var n := |fs| - 1;
    FragmentOpens(fs[n]);
    FragmentOpens(fs[n - 1]);
    Braces(e);
    hide Encode, Fragment;
    var before := Concat(fs[..n]);
    assert before != "" by { assert fs[..n][n - 1] == fs[n - 1]; }
    assert Concat(fs) == before + fs[n];
    assert Concat(fs)[|before|] == '{';
  }

  /** The demands can be met. */
  lemma CodecIsFaithful()
    ensures Faithful(CODEC)
  {
    forall e ensures Decode(Encode(e)) == Some(e) && Encode(e) != "" && OneLine(Encode(e)) {
      Braces(e);
      var d := Decode(Encode(e)).value;
      EncodeInjective(d, e);
    }
    forall e, f | f < Encode(e) && f != "" ensures Decode(f) == None {
      Braces(e);
      assert f[|f| - 1] == Encode(e)[|f| - 1];
      forall d ensures Encode(d) != f { Braces(d); }
    }
    forall fs | |fs| >= 2 && Fragments(CODEC, fs) ensures Decode(Concat(fs)) == None {
      forall e ensures Encode(e) != Concat(fs) { GluedIsRejected(fs, e); }
    }
  }
}
