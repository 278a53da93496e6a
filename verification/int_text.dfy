/** Decimal integers as text: Rust's `str::parse::<i64>()` and
    `str::parse::<u32>()` (an optional sign, at least one ASCII digit,
    nothing else, and the value in range) and `to_string()` on integers. */
module IntText {
  import opened Wrappers

  const I64Min := -0x8000_0000_0000_0000
  const I64Max := 0x7FFF_FFFF_FFFF_FFFF
  const U32Max := 0xFFFF_FFFF

  predicate IsDigit(c: char) {
    '0' <= c <= '9'
  }

  predicate AllDigits(s: string) {
    forall i :: 0 <= i < |s| ==> IsDigit(s[i])
  }

  /** The value of a run of decimal digits, most significant first. */
  function DigitsValue(s: string): nat
    requires AllDigits(s)
    decreases |s|
  {
    if |s| == 0 then 0
    else DigitsValue(s[..|s| - 1]) * 10 + (s[|s| - 1] as int - '0' as int)
  }

  /** The magnitude after an optional sign: one digit at least, all digits. */
  function Magnitude(digits: string): Option<nat> {
    if |digits| > 0 && AllDigits(digits) then Some(DigitsValue(digits)) else None
  }

  /** The text after one leading sign character (`-` only when `minus`
      allows it, `+` always). */
  function Unsigned(s: string, minus: bool): (d: string)
    ensures |s| > 0 && (s[0] == '+' || (minus && s[0] == '-')) ==> d == s[1..]
    ensures !(|s| > 0 && (s[0] == '+' || (minus && s[0] == '-'))) ==> d == s
  {
    if |s| > 0 && (s[0] == '+' || (minus && s[0] == '-')) then s[1..] else s
  }

  /** The value of the digits `d` under the sign `s` starts with. */
  function SignedValue(s: string, d: string): int
    requires AllDigits(d)
  {
    if |s| > 0 && s[0] == '-' then -(DigitsValue(d) as int) else DigitsValue(d)
  }

  /** `parse::<i64>()`: a sign, then at least one digit and nothing else,
      and the signed value in range. */
  function ParseI64(s: string): (r: Option<int>)
    ensures r.Some? ==> I64Min <= r.value <= I64Max
    ensures r.Some? ==> |s| > 0
    ensures var d := Unsigned(s, true);
      r.Some? ==> (|d| > 0 && AllDigits(d) && r.value == SignedValue(s, d))
    ensures var d := Unsigned(s, true);
      |d| > 0 && AllDigits(d) ==> (r.Some? <==> I64Min <= SignedValue(s, d) <= I64Max)
  {
    var negative := |s| > 0 && s[0] == '-';
    var digits := Unsigned(s, true);
    match Magnitude(digits)
    case None => None
    case Some(m) =>
      var v: int := if negative then -(m as int) else m;
      if I64Min <= v <= I64Max then Some(v) else None
  }

  /** `parse::<u32>()`: an unsigned parse accepts `+` but not `-`; then at
      least one digit and nothing else, and the value in range. */
  function ParseU32(s: string): (r: Option<nat>)
    ensures r.Some? ==> r.value <= U32Max
    ensures |s| > 0 && s[0] == '-' ==> r.None?
    ensures var d := Unsigned(s, false);
      r.Some? <==> |d| > 0 && AllDigits(d) && DigitsValue(d) <= U32Max
    ensures r.Some? ==> r.value == DigitsValue(Unsigned(s, false))
  {
    var digits := Unsigned(s, false);
    match Magnitude(digits)
    case None => None
    case Some(m) => if m <= U32Max then Some(m) else None
  }

  function DigitChar(d: nat): (c: char)
    requires d < 10
    ensures IsDigit(c) && c as int - '0' as int == d
  {
    ('0' as int + d) as char
  }

  /** `to_string()` of a natural number: its shortest decimal form. */
  function ShowNat(n: nat): (s: string)
    ensures |s| > 0 && AllDigits(s)
    ensures DigitsValue(s) == n
    ensures s[0] != '0' || n == 0
    decreases n
  {
    if n < 10 then [DigitChar(n)]
    else
      var prefix := ShowNat(n / 10);
      var s := prefix + [DigitChar(n % 10)];
      assert s[..|s| - 1] == prefix;
      s
  }

  /** `to_string()` of an integer. */
  function ShowInt(n: int): (s: string)
    ensures |s| > 0
    ensures IsDigit(s[0]) || s[0] == '-'
  {
    if n < 0 then "-" + ShowNat(-n) else ShowNat(n)
  }

  /** Every `i64` written with `to_string()` parses back to itself. */
  lemma ParseShowI64(n: int)
    requires I64Min <= n <= I64Max
    ensures ParseI64(ShowInt(n)) == Some(n)
  {
    if n < 0 {
      var s := ShowInt(n);
      assert s[1..] == ShowNat(-n);
    }
  }

  /** Every `u32` written with `to_string()` parses back to itself. */
  lemma ParseShowU32(n: nat)
    requires n <= U32Max
    ensures ParseU32(ShowNat(n)) == Some(n)
  {
  }

  /** Text that is not a number does not parse. */
  lemma NonNumbersRejected()
    ensures ParseI64("") == None && ParseI64("-") == None && ParseI64("x1") == None
    ensures ParseU32("") == None && ParseU32("-1") == None
  {
    assert !AllDigits("x1") by { assert !IsDigit("x1"[0]); }
  }
}
