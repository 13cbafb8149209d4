/** Positional notation: digits of a number in a base and the number of some digits. */
module Radix {
  import opened Prelude

  function Value(ds: seq<nat>, base: nat): nat {
    if ds == [] then 0 else Value(ds[..|ds| - 1], base) * base + ds[|ds| - 1]
  }

  /** The digits of `n`, most significant first, without leading zeros. */
  function Digits(n: nat, base: nat): seq<nat>
    requires 2 <= base
  {
    if n == 0 then [] else Digits(n / base, base) + [n % base]
  }

  predicate Canonical(ds: seq<nat>, base: nat) {
    (forall i | 0 <= i < |ds| :: ds[i] < base) && (ds != [] ==> ds[0] != 0)
  }

  lemma DivMod(n: nat, base: nat)
    requires 2 <= base
    ensures n == n / base * base + n % base && n % base < base
    ensures 0 < n ==> n / base < n
  {
  }

  lemma {:induction false} DigitsStep(n: nat, base: nat) returns (rest: nat, last: nat)
    requires 2 <= base && 0 < n
    ensures Digits(n, base) == Digits(rest, base) + [last]
    ensures n == rest * base + last && last < base && rest < n
  {
    DivMod(n, base);
    rest, last := n / base, n % base;
  }

  lemma {:induction false} DigitsCanonical(n: nat, base: nat)
    requires 2 <= base
    ensures Canonical(Digits(n, base), base)
    ensures Digits(n, base) == [] <==> n == 0
    decreases n
  {
    if n != 0 {
      var rest, last := DigitsStep(n, base);
      DigitsCanonical(rest, base);
    }
  }

  lemma {:induction false} ValueOfDigits(n: nat, base: nat)
    requires 2 <= base
    ensures Value(Digits(n, base), base) == n
    decreases n
  {
    if n != 0 {
      var rest, last := DigitsStep(n, base);
      ValueOfDigits(rest, base);
      assert (Digits(rest, base) + [last])[..|Digits(rest, base)|] == Digits(rest, base);
    }
  }

  lemma DivModUnique(q: nat, d: nat, base: nat)
    requires d < base && 2 <= base
    ensures (q * base + d) / base == q && (q * base + d) % base == d
  {
    var n := q * base + d;
    DivMod(n, base);
    if n / base < q {
      TimesOrdered(n / base + 1, q, base);
    } else if n / base > q {
      TimesOrdered(q + 1, n / base, base);
    }
  }

  lemma {:induction false} ValuePositive(ds: seq<nat>, base: nat)
    requires ds != [] && ds[0] != 0 && 0 < base
    ensures 0 < Value(ds, base)
  {
    if |ds| > 1 {
      ValuePositive(ds[..|ds| - 1], base);
      TimesOrdered(1, Value(ds[..|ds| - 1], base), base);
    }
  }

  lemma {:induction false} DigitsOfValue(ds: seq<nat>, base: nat)
    requires 2 <= base && Canonical(ds, base)
    ensures Digits(Value(ds, base), base) == ds
  {
    if ds != [] {
      var rest := ds[..|ds| - 1];
      DigitsOfValue(rest, base);
      DivModUnique(Value(rest, base), ds[|ds| - 1], base);
      ValuePositive(ds, base);
      assert ds == rest + [ds[|ds| - 1]];
    }
  }

  /** Leading zeros do not change the value. */
  lemma {:induction false} ValueLeadingZeros(zeros: seq<nat>, ds: seq<nat>, base: nat)
    requires forall i | 0 <= i < |zeros| :: zeros[i] == 0
    ensures Value(zeros + ds, base) == Value(ds, base)
  {
    if ds != [] {
      assert (zeros + ds)[..|zeros + ds| - 1] == zeros + ds[..|ds| - 1];
      ValueLeadingZeros(zeros, ds[..|ds| - 1], base);
    } else if zeros != [] {
      assert zeros + ds == zeros;
      assert zeros[..|zeros| - 1] + [] == zeros[..|zeros| - 1];
      ValueLeadingZeros(zeros[..|zeros| - 1], [], base);
    } else {
      assert zeros + ds == ds;
    }
  }
}
