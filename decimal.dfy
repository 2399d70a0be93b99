/**
  The decimal text form of an unsigned integer, as the store's keys take it
  on the wire: Rust's `Display` for integers on the way out, and
  `usize::from_str` on the way back in.
 */
module Decimal {
  import opened Common

  predicate IsDigit(c: char) {
    '0' <= c <= '9'
  }

  predicate AllDigits(s: string) {
    forall i :: 0 <= i < |s| ==> IsDigit(s[i])
  }

  function DigitValue(c: char): (d: nat)
    requires IsDigit(c)
    ensures d < 10
  {
    c as int - '0' as int
  }

  function DigitChar(d: nat): (c: char)
    requires d < 10
    ensures IsDigit(c) && DigitValue(c) == d
  {
    ('0' as int + d) as char
  }

  /** The value of a string of decimal digits, most significant digit first. */
  function DigitsValue(s: string): nat
    requires AllDigits(s)
  {
    if s == [] then 0 else DigitsValue(s[..|s| - 1]) * 10 + DigitValue(s[|s| - 1])
  }

  /** A canonical decimal numeral: at least one digit and no leading zero. */
  predicate Canonical(s: string) {
    |s| > 0 && AllDigits(s) && (s[0] == '0' ==> s == "0")
  }

  /** How an integer is printed: its digits with no sign and no leading zero. */
  function Encode(n: nat): (s: string)
    ensures Canonical(s)
    ensures s == "0" <==> n == 0
  {
    if n < 10 then [DigitChar(n)] else Encode(n / 10) + [DigitChar(n % 10)]
  }

  /**
    `usize::from_str`: an optional leading '+', then one or more decimal
    digits (leading zeros allowed) whose value fits in a usize. Anything
    else, the empty string and a lone '+' among them, is an error.
   */
  function ParseUsize(s: string): Option<Usize> {
    var digits := if |s| > 0 && s[0] == '+' then s[1..] else s;
    if digits == [] || !AllDigits(digits) then None
    else if DigitsValue(digits) <= USIZE_MAX then Some(DigitsValue(digits))
    else None
  }

  lemma {:induction false} EncodeValue(n: nat)
    ensures DigitsValue(Encode(n)) == n
  {
    if n >= 10 {
      var s := Encode(n);
      EncodeValue(n / 10);
      assert s[..|s| - 1] == Encode(n / 10);
    }
  }

  /** Parsing what was printed gives the number back. */
  lemma ParseEncode(n: Usize)
    ensures ParseUsize(Encode(n)) == Some(n)
  {
    EncodeValue(n);
  }

  /** Distinct numbers print as distinct strings. */
  lemma EncodeInjective(a: nat, b: nat)
    ensures Encode(a) == Encode(b) ==> a == b
  {
    EncodeValue(a);
    EncodeValue(b);
  }

  lemma {:induction false} LeadingDigitPositive(s: string)
    requires |s| > 0 && AllDigits(s) && s[0] != '0'
    ensures DigitsValue(s) > 0
  {
    if |s| > 1 {
      LeadingDigitPositive(s[..|s| - 1]);
    }
  }

  /** Printing the value of a canonical numeral gives the numeral back. */
  lemma {:induction false} EncodeDigitsValue(s: string)
    requires Canonical(s)
    ensures Encode(DigitsValue(s)) == s
  {
    var n := DigitsValue(s);
    if |s| == 1 {
      assert DigitChar(DigitValue(s[0])) == s[0];
    } else {
      var prefix := s[..|s| - 1];
      assert Canonical(prefix);
      LeadingDigitPositive(prefix);
      EncodeDigitsValue(prefix);
      assert n / 10 == DigitsValue(prefix) && n % 10 == DigitValue(s[|s| - 1]);
      assert DigitChar(DigitValue(s[|s| - 1])) == s[|s| - 1];
      assert s == prefix + [s[|s| - 1]];
    }
  }

  /**
    On canonical numerals, parsing and printing are inverse: a canonical
    string parses to `n` exactly when it is the printed form of `n`.
   */
  lemma ParseCanonical(s: string, n: Usize)
    requires Canonical(s)
    ensures ParseUsize(s) == Some(n) <==> s == Encode(n)
  {
    if ParseUsize(s) == Some(n) {
      EncodeDigitsValue(s);
    }
    if s == Encode(n) {
      ParseEncode(n);
    }
  }

  /** The parser also accepts forms the printer never emits. */
  lemma ParseAcceptsNonCanonical()
    ensures ParseUsize("+7") == Some(7)
    ensures ParseUsize("007") == Some(7)
    ensures ParseUsize("") == None && ParseUsize("+") == None && ParseUsize("-7") == None
  {
    assert "+7"[1..] == "7" && "7"[..0] == "";
    assert DigitsValue("7") == 7;
    assert "007"[..2] == "00" && "00"[..1] == "0" && "0"[..0] == "";
  }
}
