/** Character codes, and decimal numerals written with them. */
module Characters {

  predicate IsDigit(u: int) {
    48 <= u <= 57
  }

  predicate AllDigits(k: seq<int>) {
    forall i | 0 <= i < |k| :: IsDigit(k[i])
  }

  function DecimalValue(k: seq<int>): nat
    requires AllDigits(k)
  {
    if k == [] then 0 else 10 * DecimalValue(k[..|k| - 1]) + (k[|k| - 1] - 48)
  }

  lemma {:induction false} LeadingDigitCounts(k: seq<int>)
    requires k != [] && AllDigits(k) && k[0] != 48
    ensures DecimalValue(k) >= 1 && (|k| >= 2 ==> DecimalValue(k) >= 10)
  {
    if |k| >= 2 {
      LeadingDigitCounts(k[..|k| - 1]);
    }
  }

  /** A canonical numeral is determined by its value. */
  lemma {:induction false} NumeralIsUnique(a: seq<int>, b: seq<int>)
    requires a != [] && AllDigits(a) && (a[0] == 48 ==> |a| == 1)
    requires b != [] && AllDigits(b) && (b[0] == 48 ==> |b| == 1)
    requires DecimalValue(a) == DecimalValue(b)
    ensures a == b
    decreases |a|
  {
    if a[0] != 48 {
      LeadingDigitCounts(a);
    }
    if b[0] != 48 {
      LeadingDigitCounts(b);
    }
    if |a| >= 2 {
      NumeralIsUnique(a[..|a| - 1], b[..|b| - 1]);
      assert a == a[..|a| - 1] + [a[|a| - 1]] && b == b[..|b| - 1] + [b[|b| - 1]];
    } else {
      assert a == [a[0]] && b == [b[0]];
    }
  }

  /** The character codes of a string. */
  function Codes(s: string): (codes: seq<int>)
    ensures |codes| == |s| && forall i | 0 <= i < |s| :: codes[i] == s[i] as int
  {
    seq(|s|, i requires 0 <= i < |s| => s[i] as int)
  }

  /** The decimal numeral of a number. */
  function Numeral(n: nat): string {
    if n < 10 then [('0' as int + n) as char] else Numeral(n / 10) + [('0' as int + n % 10) as char]
  }

  lemma {:induction false} NumeralReadsBack(n: nat)
    ensures Numeral(n) != "" && AllDigits(Codes(Numeral(n))) && DecimalValue(Codes(Numeral(n))) == n
    ensures if n == 0 then Numeral(n) == "0" else Numeral(n)[0] != '0'
  {
    if n >= 10 {
      NumeralReadsBack(n / 10);
      var shorter, codes := Codes(Numeral(n / 10)), Codes(Numeral(n));
      assert codes[..|codes| - 1] == shorter;
    } else {
      assert Codes(Numeral(n))[..0] == [] && DecimalValue([]) == 0;
    }
  }
}
