/** The hash primitive and the textual formatting that feeds it.

    The ledger hashes text with SHA-256 and uses the lowercase hexadecimal
    digest. The SHA-256 internals are not modelled: every component takes the
    digest function as a value of type `HashFn`, whose only known property is
    that each output is 64 characters long. */
module Hashing {

  datatype Option<T> = None | Some(value: T)

  /** A well-formed digest: SHA-256's 64-character hexadecimal text. Only
      the length is modelled; no property of the ledger depends on the
      alphabet. */
  predicate IsDigest(s: string) {
    |s| == 64
  }

  function Zeros(n: nat): (z: string)
    ensures |z| == n
    ensures forall i :: 0 <= i < n ==> z[i] == '0'
  {
    if n == 0 then "" else "0" + Zeros(n - 1)
  }

  function ZeroDigest(): (d: string)
    ensures IsDigest(d)
  {
    Zeros(64)
  }

  type Digest = s: string | IsDigest(s) witness ZeroDigest()

  /** `hash_data`: a deterministic digest function on text. */
  type HashFn = string -> Digest

  function DigitChar(d: nat): (c: char)
    requires d < 10
    ensures '0' <= c <= '9'
  {
    "0123456789"[d]
  }

  predicate DigitsOnly(s: string) {
    forall i :: 0 <= i < |s| ==> '0' <= s[i] <= '9'
  }

  /** Python's `str(n)` for a non-negative integer. */
  function Decimal(n: nat): (s: string)
    ensures |s| > 0 && '0' <= s[0] <= '9'
    decreases n
  {
    if n < 10 then [DigitChar(n)] else Decimal(n / 10) + [DigitChar(n % 10)]
  }

  /** Python's `str(i)` for any integer: a minus sign, then the digits. */
  function IntToDecimal(i: int): (s: string)
    ensures |s| > 0
    ensures (s[0] == '-') <==> i < 0
  {
    if i < 0 then "-" + Decimal(-i) else Decimal(i)
  }

  /** Decimal is the inverse of reading the digits back. */
  function DigitValue(c: char): nat
    requires '0' <= c <= '9'
  {
    (c as int - '0' as int) as nat
  }

  function ParseDecimal(s: string): nat
    requires DigitsOnly(s)
    decreases |s|
  {
    if s == [] then 0 else 10 * ParseDecimal(s[..|s| - 1]) + DigitValue(s[|s| - 1])
  }

  /** `str(n)` is made of digits only, with no leading zero, and reading
      them back gives `n`. */
  lemma {:induction false} DecimalRoundTrip(n: nat)
    ensures DigitsOnly(Decimal(n)) && ParseDecimal(Decimal(n)) == n
    ensures |Decimal(n)| > 1 ==> Decimal(n)[0] != '0'
    decreases n
  {
    var s := Decimal(n);
    if n >= 10 {
      DecimalRoundTrip(n / 10);
      assert s[..|s| - 1] == Decimal(n / 10);
    }
  }

  /** Different nonces are rendered as different strings. */
  lemma DecimalInjective(m: nat, n: nat)
    requires Decimal(m) == Decimal(n)
    ensures m == n
  {
    DecimalRoundTrip(m);
    DecimalRoundTrip(n);
  }
}
