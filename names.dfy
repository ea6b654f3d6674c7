/** Decimal rendering of child process numbers, as used by the generated
    name "childproc <n>" and the collision suffix " <n>". */
module Names {

  predicate IsDigit(c: char) {
    '0' <= c <= '9'
  }

  predicate AllDigits(s: string) {
    forall i :: 0 <= i < |s| ==> IsDigit(s[i])
  }

  function DigitChar(d: nat): (c: char)
    requires d < 10
    ensures IsDigit(c)
  {
    ('0' as int + d) as char
  }

  function DigitValue(c: char): (d: nat)
    requires IsDigit(c)
    ensures d < 10
  {
    c as int - '0' as int
  }

  /** The base-10 rendering of n, as `%d` prints a non-negative integer. */
  function Decimal(n: nat): (s: string)
    ensures |s| > 0 && AllDigits(s)
    ensures s[0] == '0' ==> n == 0  // no leading zero
    decreases n
  {
    if n < 10 then [DigitChar(n)] else Decimal(n / 10) + [DigitChar(n % 10)]
  }

  /** Reads a string of digits back as a number: the inverse of Decimal. */
  function ParseDecimal(s: string): nat
    requires AllDigits(s)
    decreases |s|
  {
    if s == [] then 0 else 10 * ParseDecimal(s[..|s| - 1]) + DigitValue(s[|s| - 1])
  }

  lemma {:induction false} DecimalRoundTrip(n: nat)
    ensures ParseDecimal(Decimal(n)) == n
  {
    if n >= 10 {
      var s := Decimal(n);
      assert s[..|s| - 1] == Decimal(n / 10);
      DecimalRoundTrip(n / 10);
    }
  }

  lemma DecimalInjective(m: nat, n: nat)
    ensures Decimal(m) == Decimal(n) ==> m == n
  {
    DecimalRoundTrip(m);
    DecimalRoundTrip(n);
  }

  /** The name given to a child registered without one. */
  function GeneratedName(id: nat): string {
    "childproc " + Decimal(id)
  }

  /** The one-shot suffix appended to a name that is already registered. */
  function Suffix(id: nat): string {
    " " + Decimal(id)
  }

  lemma GeneratedNameInjective(m: nat, n: nat)
    ensures GeneratedName(m) == GeneratedName(n) ==> m == n
  {
    if GeneratedName(m) == GeneratedName(n) {
      var p := "childproc ";
      assert Decimal(m) == GeneratedName(m)[|p|..];
      assert Decimal(n) == GeneratedName(n)[|p|..];
      DecimalInjective(m, n);
    }
  }
}
