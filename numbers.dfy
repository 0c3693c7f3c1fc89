/** Rust's integer parsing (`str::parse` and `from_str_radix`) for the
    radixes the loader uses, and digit strings that parse back. */
module Numbers {
  import opened Wrappers
  import opened MachineInt

  /** The value of an alphanumeric digit ('0'-'9', then 'a'-'z' or 'A'-'Z' for
      10-35), as `char::to_digit` reads it; 36 for any other character, which
      is a digit in no radix. */
  function DigitValue(c: char): (d: nat)
    ensures d <= 36
  {
    if '0' <= c <= '9' then c as int - '0' as int
    else if 'a' <= c <= 'z' then c as int - 'a' as int + 10
    else if 'A' <= c <= 'Z' then c as int - 'A' as int + 10
    else 36
  }

  predicate AllDigits(s: string, radix: nat) {
    forall k :: 0 <= k < |s| ==> DigitValue(s[k]) < radix
  }

  /** The value of a digit string, most significant digit first. */
  function DigitsValue(s: string, radix: nat): nat
  {
    if s == [] then 0 else DigitsValue(s[..|s| - 1], radix) * radix + DigitValue(s[|s| - 1])
  }

  /** `from_str_radix(s, radix)` for an integer type with the range lo..hi;
      `signed` says whether the type accepts a leading '-'. The empty string
      and a lone sign are rejected, one leading '+' is accepted, every other
      character must be a digit of the radix, and a value outside the range
      is an overflow error. */
  function FromStrRadix(s: string, radix: nat, signed: bool, lo: int, hi: int): (r: Option<int>)
    requires 2 <= radix <= 36
    ensures r.Some? ==> lo <= r.value <= hi
    ensures r.Some? ==> s != [] && (s[0] != '-' || signed)
    ensures r.Some? && s[0] != '+' && s[0] != '-' ==> AllDigits(s, radix) && r.value == DigitsValue(s, radix)
  {
    if s == [] then None
    else if (s[0] == '+' || s[0] == '-') && |s| == 1 then None
    else
      var negative := signed && s[0] == '-';
      var digits := if s[0] == '+' || negative then s[1..] else s;
      if !AllDigits(digits, radix) then None
      else if s[0] == '-' && !signed then assert DigitValue(digits[0]) == 36; None
      else
        var v: int := if negative then -(DigitsValue(digits, radix) as int) else DigitsValue(digits, radix);
        if lo <= v <= hi then Some(v) else None
  }

  /** `from_str_radix` exactly: an unsigned digit string in range parses to
      its value; after a '+' the rest must be such a string; after a '-' (only
      for a signed type) the rest must be a digit string whose negated value
      is in range. */
  lemma FromStrRadixExact(s: string, radix: nat, signed: bool, lo: int, hi: int)
    requires 2 <= radix <= 36
    ensures var r := FromStrRadix(s, radix, signed, lo, hi);
      && (s != [] && s[0] != '+' && s[0] != '-' && AllDigits(s, radix) && lo <= DigitsValue(s, radix) <= hi
          ==> r == Some(DigitsValue(s, radix)))
      && (s != [] && s[0] == '+' ==>
          r == if |s| >= 2 && AllDigits(s[1..], radix) && lo <= DigitsValue(s[1..], radix) <= hi
               then Some(DigitsValue(s[1..], radix)) else None)
      && (s != [] && s[0] == '-' ==>
          r == if signed && |s| >= 2 && AllDigits(s[1..], radix) && lo <= -(DigitsValue(s[1..], radix) as int) <= hi
               then Some(-(DigitsValue(s[1..], radix) as int)) else None)
  {
  }

  /** `s.parse::<i32>()`. */
  function ParseI32(s: string): (r: Option<i32>)
    ensures r.Some? <==> FromStrRadix(s, 10, true, I32_MIN, I32_MAX).Some?
    ensures r.Some? ==> r.value == FromStrRadix(s, 10, true, I32_MIN, I32_MAX).value
  {
    var v := FromStrRadix(s, 10, true, I32_MIN, I32_MAX);
    if v.Some? then Some(v.value) else None
  }

  /** An unsigned decimal digit string whose value fits in an i32 parses to that value. */
  lemma ParseI32Digits(s: string)
    requires s != [] && s[0] != '+' && s[0] != '-' && AllDigits(s, 10) && DigitsValue(s, 10) <= I32_MAX
    ensures ParseI32(s) == Some(DigitsValue(s, 10))
  {
    FromStrRadixExact(s, 10, true, I32_MIN, I32_MAX);
  }

  /** `u32::from_str_radix(s, radix)`; `s.parse::<u32>()` is radix 10. */
  function ParseU32(s: string, radix: nat): (r: Option<nat>)
    requires 2 <= radix <= 36
    ensures r.Some? ==> r.value <= U32_MAX
    ensures r.Some? ==> s != [] && s[0] != '-'
  {
    var v := FromStrRadix(s, radix, false, 0, U32_MAX);
    if v.Some? then Some(v.value) else None
  }

  /** The digit for d: '0'-'9', then 'a'-'f'. */
  function DigitChar(d: nat): (c: char)
    requires d < 16
    ensures DigitValue(c) == d
    ensures c != '+' && c != '-' && (d > 0 ==> c != '0')
  {
    if d < 10 then ('0' as int + d) as char else ('a' as int + d - 10) as char
  }

  /** Euclidean division by the radix. */
  lemma DivideByRadix(n: nat, radix: nat)
    requires 2 <= radix <= 16 && n >= radix
    ensures 0 < n / radix < n && n % radix < radix
    ensures n == (n / radix) * radix + n % radix
  {
  }

  /** The shortest digit string of n in the radix (lower-case letters). */
  function ToDigits(n: nat, radix: nat): (r: string)
    requires 2 <= radix <= 16
    ensures |r| >= 1 && AllDigits(r, radix)
    ensures r[0] != '+' && r[0] != '-'
    ensures n > 0 ==> r[0] != '0'
    decreases n
  {
    if n < radix then [DigitChar(n)]
    else
      DivideByRadix(n, radix);
      ToDigits(n / radix, radix) + [DigitChar(n % radix)]
  }

  /** A digit string read back gives the number it was written from. */
  lemma {:induction false} ToDigitsValue(n: nat, radix: nat)
    requires 2 <= radix <= 16
    ensures DigitsValue(ToDigits(n, radix), radix) == n
    decreases n
  {
    var r := ToDigits(n, radix);
    if n < radix {
      assert r[..0] == [];
    } else {
      DivideByRadix(n, radix);
      ToDigitsValue(n / radix, radix);
      assert r[..|r| - 1] == ToDigits(n / radix, radix);
    }
  }

  /** Written digits parse back under `from_str_radix` when the value is in range. */
  lemma DigitsRoundTrip(n: nat, radix: nat, signed: bool, lo: int, hi: int)
    requires 2 <= radix <= 16 && lo <= n <= hi
    ensures FromStrRadix(ToDigits(n, radix), radix, signed, lo, hi) == Some(n)
  {
    var r := ToDigits(n, radix);
    ToDigitsValue(n, radix);
  }

  /** A '-' followed by the decimal digits of n parses to -n as an i32. */
  lemma NegativeRoundTrip(n: nat)
    requires n <= -I32_MIN
    ensures ParseI32("-" + ToDigits(n, 10)) == Some((-(n as int)) as i32)
  {
    var r := ToDigits(n, 10);
    ToDigitsValue(n, 10);
    assert ("-" + r)[1..] == r;
  }
}
