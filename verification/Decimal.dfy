/** Decimal numerals, as produced by the `%d` and `%v` verbs. */
module Decimal {

  function Digit(d: nat): (c: char)
    requires d < 10
  {
    '0' + d as char
  }

  predicate IsDigit(c: char) {
    '0' <= c <= '9'
  }

  function Value(c: char): (d: nat)
    requires IsDigit(c)
    ensures d < 10 && Digit(d) == c
  {
    (c - '0') as int
  }

  /** The shortest numeral for `n`. */
  function Natural(n: nat): (s: string)
    ensures s != [] && forall c | c in s :: IsDigit(c)
  {
    if n < 10 then [Digit(n)] else Natural(n / 10) + [Digit(n % 10)]
  }

  function Integer(n: int): (s: string)
  {
    if n < 0 then "-" + Natural(-n) else Natural(n)
  }

  /** The number a digit string denotes, read from the left. */
  function Parse(s: string): (n: nat)
    requires forall c | c in s :: IsDigit(c)
  {
    if s == [] then 0 else 10 * Parse(s[..|s| - 1]) + Value(s[|s| - 1])
  }

  lemma {:induction false} ParseNatural(n: nat)
    ensures Parse(Natural(n)) == n
  {
    if n < 10 {
      assert Natural(n)[..0] == [];
    } else {
      ParseNatural(n / 10);
      assert Natural(n)[..|Natural(n)| - 1] == Natural(n / 10);
    }
  }

  lemma {:induction false} NaturalInjective(m: nat, n: nat)
    requires Natural(m) == Natural(n)
    ensures m == n
  {
    ParseNatural(m);
    ParseNatural(n);
  }
}
