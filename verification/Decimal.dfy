/** Unsigned decimal numbers as `std::from_chars` reads them. */
module Decimal {
  import opened Base

  predicate IsDigit(c: char) {
    '0' <= c <= '9'
  }

  predicate AllDigits(s: string) {
    forall i :: 0 <= i < |s| ==> IsDigit(s[i])
  }

  /** The digits at the front of `s`. */
  function DigitPrefix(s: string): (d: string)
    ensures d <= s && AllDigits(d)
  {
    if s == "" || !IsDigit(s[0]) then "" else [s[0]] + DigitPrefix(s[1..])
  }

  function ValueOf(digits: string): nat
    requires AllDigits(digits)
  {
    if digits == "" then 0
    else 10 * ValueOf(digits[..|digits| - 1]) + (digits[|digits| - 1] as int - '0' as int)
  }

  /** `from_chars` for an unsigned type of the given range: the value, and how many characters it took. */
  function FromChars(s: string, range: nat): (r: Option<(nat, nat)>)
    ensures r.Some? ==> r.value.0 < range && 0 < r.value.1 <= |s|
  {
    var d := DigitPrefix(s);
    if d == "" || ValueOf(d) >= range then None else Some((ValueOf(d), |d|))
  }

  /** `parseUInt`: the whole text has to be a number in range. */
  function ParseUInt(s: string, range: nat): (r: Option<nat>)
    ensures r.Some? ==> r.value < range
  {
    var n := FromChars(s, range);
    if n.Some? && n.value.1 == |s| then Some(n.value.0) else None
  }

  /** The usual decimal notation. */
  function Print(n: nat): (s: string)
    ensures s != "" && AllDigits(s)
  {
    var last := [('0' as int + n % 10) as char];
    if n < 10 then last else Print(n / 10) + last
  }

  lemma {:induction false} PrintValue(n: nat)
    ensures ValueOf(Print(n)) == n
  {
    if n >= 10 {
      PrintValue(n / 10);
      assert Print(n)[..|Print(n)| - 1] == Print(n / 10);
    } else {
      assert Print(n)[..0] == "";
    }
  }

  lemma {:induction false} PrefixAll(digits: string, rest: string)
    requires AllDigits(digits) && (rest == "" || !IsDigit(rest[0]))
    ensures DigitPrefix(digits + rest) == digits
  {
    if digits == "" {
      assert digits + rest == rest;
    } else {
      PrefixAll(digits[1..], rest);
      assert (digits + rest)[1..] == digits[1..] + rest;
    }
  }

  /** Reading a printed number gives it back, unless it is out of range. */
  lemma ReadPrinted(n: nat, range: nat)
    ensures FromChars(Print(n), range) == if n < range then Some((n, |Print(n)|)) else None
  {
    PrintValue(n);
    PrefixAll(Print(n), "");
    assert Print(n) + "" == Print(n);
  }
}
