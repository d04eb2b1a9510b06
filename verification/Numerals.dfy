/** Decimal numerals by the places of their digits. */
module Numerals {
  import opened Text
  import opened Identity
  import opened Lessons

  predicate AllFigures(ds: string) { forall k :: 0 <= k < |ds| ==> '0' <= ds[k] <= '9' }

  /** d with n zeros behind it. */
  function Shifted(d: nat, n: nat): nat { if n == 0 then d else 10 * Shifted(d, n - 1) }

  /** Each digit counts by its place. */
  function Places(ds: string): nat
    requires AllFigures(ds)
  {
    if ds == "" then 0 else Shifted(ds[0] as int - 48, |ds| - 1) + Places(ds[1..])
  }

  lemma {:induction false} PlacesSnoc(ds: string, c: char)
    requires AllFigures(ds) && '0' <= c <= '9'
    ensures AllFigures(ds + [c]) && Places(ds + [c]) == 10 * Places(ds) + (c as int - 48)
    decreases |ds|
  {
    var more := ds + [c];
    if ds == "" {
      assert more == [c] && more[1..] == "";
    } else {
      assert more[1..] == ds[1..] + [c];
      PlacesSnoc(ds[1..], c);
    }
  }

  /** The value the parser computes from the right is that of the places. */
  lemma {:induction false} ValueIsPlaces(ds: string)
    requires AllFigures(ds)
    ensures (forall k :: 0 <= k < |ds| ==> IsDigit(ds[k])) && Value(ds) == Places(ds)
    decreases |ds|
  {
    if ds != "" {
      var n := |ds| - 1;
      ValueIsPlaces(ds[..n]);
      PlacesSnoc(ds[..n], ds[n]);
      assert ds == ds[..n] + [ds[n]];
    }
  }

  /** s is n in decimal, with no zero in front. */
  predicate DecimalOf(s: string, n: int) {
    if n < 0 then s != "" && s[0] == '-' && NaturalOf(s[1..], -n) else NaturalOf(s, n)
  }

  predicate NaturalOf(s: string, n: nat) {
    s != "" && AllFigures(s) && (s[0] == '0' ==> |s| == 1) && Places(s) == n
  }

  lemma {:induction false} DigitsAreNatural(n: nat)
    ensures NaturalOf(Digits(n), n) && (n > 0 ==> Digits(n)[0] != '0')
    decreases n
  {
    if n < 10 {
      var c := DigitOf(n);
      assert Digits(n) == "" + [c];
      PlacesSnoc("", c);
    } else {
      DigitsAreNatural(n / 10);
      PlacesSnoc(Digits(n / 10), DigitOf(n % 10));
    }
  }

  lemma ItoaIsDecimal(n: int)
    ensures DecimalOf(Itoa(n), n)
  {
    if n < 0 {
      DigitsAreNatural(-n);
      assert Itoa(n)[1..] == Digits(-n);
    } else {
      DigitsAreNatural(n);
    }
  }
}
