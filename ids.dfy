/**
  Row ids as strings. The store returns a new id formatted with `%d`, and the
  `id` column is read back into a Go string as its decimal form; a string id
  passed to `WHERE id = ?` selects the row whose integer key it spells.
*/
module Ids {
  import opened Wrappers
  import opened Digits

  /** The `%d` rendering of a non-negative id. */
  function DecimalString(n: nat): (s: string)
    ensures s != [] && AllDigits(s)
  {
    if n < 10 then [DigitChar(n)] else DecimalString(n / 10) + [DigitChar(n % 10)]
  }

  /** The integer key a string id denotes, when it is a string of digits. */
  function ParseDecimal(s: string): (r: Option<nat>)
    ensures r.Some? <==> s != [] && AllDigits(s)
  {
    if s != [] && AllDigits(s) then Some(Value(s)) else None
  }

  /** An id the store returns selects the row it was returned for. */
  lemma {:induction false} ParseDecimalString(n: nat)
    ensures ParseDecimal(DecimalString(n)) == Some(n)
  {
    if n >= 10 {
      ParseDecimalString(n / 10);
      var s := DecimalString(n);
      assert s[..|s| - 1] == DecimalString(n / 10);
    } else {
      ValueSingle(DigitChar(n));
    }
  }

  /** Distinct keys have distinct ids. */
  lemma DecimalStringInjective(m: nat, n: nat)
    ensures DecimalString(m) == DecimalString(n) ==> m == n
  {
    ParseDecimalString(m);
    ParseDecimalString(n);
  }
}
