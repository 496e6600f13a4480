/** The decimal parsing of the `:id` path parameter: GetContributions uses
    Go's `strconv.Atoi` (an optional sign, then decimal digits, within the
    64-bit signed range) and GetCircle uses `strconv.ParseUint(s, 10, 32)`
    (decimal digits only, below 2^32). Either way, any other text is an
    invalid id. */
module Decimal {
  import opened Common

  const MinInt64: int := -0x8000_0000_0000_0000
  const MaxInt64: int := 0x7FFF_FFFF_FFFF_FFFF
  const MaxUint32: int := 0xFFFF_FFFF

  predicate IsDigit(ch: char)
  {
    '0' <= ch <= '9'
  }

  predicate AllDigits(s: string)
  {
    forall i :: 0 <= i < |s| ==> IsDigit(s[i])
  }

  /** The number a run of decimal digits denotes, most significant first. */
  function DigitsValue(s: string): (n: nat)
    requires AllDigits(s)
    ensures s == [] ==> n == 0
  {
    if s == [] then 0
    else DigitsValue(s[..|s| - 1]) * 10 + (s[|s| - 1] as int - '0' as int)
  }

  /** `strconv.Atoi`: an optional "+" or "-", at least one digit and
      nothing else, with the value inside the int64 range. */
  function Atoi(s: string): (r: Option<int>)
    ensures r.Some? ==> MinInt64 <= r.value <= MaxInt64
    ensures s == "" || s == "-" || s == "+" ==> r.None?
    ensures (exists i :: 0 <= i < |s| && !IsDigit(s[i]) && !(i == 0 && (s[0] == '-' || s[0] == '+'))) ==> r.None?
    ensures AllDigits(s) && s != "" && DigitsValue(s) <= MaxInt64 ==> r == Some(DigitsValue(s))
  {
    var signed := |s| > 0 && (s[0] == '-' || s[0] == '+');
    var digits := if signed then s[1..] else s;
    if digits == "" || !AllDigits(digits) then None
    else
      var v: int := if signed && s[0] == '-' then -(DigitsValue(digits) as int) else DigitsValue(digits);
      if MinInt64 <= v <= MaxInt64 then Some(v) else None
  }

  /** `strconv.ParseUint(s, 10, 32)`: at least one digit and nothing else,
      with the value below 2^32. */
  function ParseUint32(s: string): (r: Option<nat>)
    ensures r.Some? ==> r.value <= MaxUint32
    ensures (s == "" || !AllDigits(s)) ==> r.None?
    ensures AllDigits(s) && s != "" && DigitsValue(s) <= MaxUint32 ==> r == Some(DigitsValue(s))
  {
    if s == "" || !AllDigits(s) then None
    else if DigitsValue(s) <= MaxUint32 then Some(DigitsValue(s))
    else None
  }

  /** The shortest decimal spelling of `n`. */
  function DecimalString(n: nat): (s: string)
    ensures s != "" && AllDigits(s)
  {
    if n < 10 then [('0' as int + n) as char]
    else DecimalString(n / 10) + [('0' as int + n % 10) as char]
  }

  /** Reading back a spelled-out number gives the number. */
  lemma {:induction false} DecimalStringValue(n: nat)
    ensures DigitsValue(DecimalString(n)) == n
  {
    var s := DecimalString(n);
    if n >= 10 {
      DecimalStringValue(n / 10);
      assert s[..|s| - 1] == DecimalString(n / 10);
    }
  }

  /** Every id in the int64 range, written in decimal with a "-" when
      negative, parses back to itself. */
  lemma AtoiRoundTrip(n: int)
    requires MinInt64 <= n <= MaxInt64
    ensures Atoi(if n < 0 then "-" + DecimalString(-n) else DecimalString(n)) == Some(n)
  {
    if n < 0 {
      DecimalStringValue(-n);
      var s := "-" + DecimalString(-n);
      assert s[1..] == DecimalString(-n);
    } else {
      DecimalStringValue(n);
    }
  }

  /** Every id below 2^32, written in decimal, parses back to itself. */
  lemma ParseUint32RoundTrip(n: nat)
    requires n <= MaxUint32
    ensures ParseUint32(DecimalString(n)) == Some(n)
  {
    DecimalStringValue(n);
  }
}
