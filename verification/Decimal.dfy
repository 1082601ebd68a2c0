/** Go's decimal integers: the `%d` verb of fmt, and strconv.Atoi / strconv.ParseInt(s, 10, 64). */
module Decimal {
  import opened Options

  const MIN_INT64: int := -0x8000_0000_0000_0000
  const MAX_INT64: int := 0x7FFF_FFFF_FFFF_FFFF

  predicate InInt64(n: int) {
    MIN_INT64 <= n <= MAX_INT64
  }

  predicate IsDigit(c: char) {
    '0' <= c <= '9'
  }

  predicate AllDigits(s: string) {
    forall i :: 0 <= i < |s| ==> IsDigit(s[i])
  }

  function DigitChar(d: nat): (c: char)
    requires d < 10
    ensures IsDigit(c) && c as int - '0' as int == d
  {
    ('0' as int + d) as char
  }

  function FormatNat(n: nat): (s: string)
    ensures |s| > 0 && AllDigits(s)
  {
    if n < 10 then [DigitChar(n)] else FormatNat(n / 10) + [DigitChar(n % 10)]
  }

  /** The `%d` verb. */
  function FormatInt(n: int): string {
    if n < 0 then "-" + FormatNat(-n) else FormatNat(n)
  }

  function DigitsValue(s: string): (v: int)
    requires AllDigits(s)
    ensures v >= 0
  {
    if s == "" then 0 else DigitsValue(s[..|s| - 1]) * 10 + (s[|s| - 1] as int - '0' as int)
  }

  function ParseDigits(digits: string, negative: bool): (r: Option<int>)
    ensures r.Some? ==> InInt64(r.value)
  {
    if digits == "" || !AllDigits(digits) then None
    else
      var n := if negative then -DigitsValue(digits) else DigitsValue(digits);
      if InInt64(n) then Some(n) else None
  }

  /** strconv.ParseInt(s, 10, 64): one optional sign, at least one digit, nothing else, in the int64 range. */
  function ParseInt(s: string): (r: Option<int>)
    ensures r.Some? ==> InInt64(r.value)
  {
    if s != "" && s[0] == '-' then ParseDigits(s[1..], true)
    else if s != "" && s[0] == '+' then ParseDigits(s[1..], false)
    else ParseDigits(s, false)
  }

  lemma {:induction false} FormatNatValue(n: nat)
    ensures DigitsValue(FormatNat(n)) == n
  {
    if n >= 10 {
      FormatNatValue(n / 10);
      var front := FormatNat(n / 10);
      assert FormatNat(n)[..|front|] == front;
    }
  }

  /** Parsing what was printed gives the number back, for every int64, negative ones included. */
  lemma ParseFormat(n: int)
    requires InInt64(n)
    ensures ParseInt(FormatInt(n)) == Some(n)
  {
    hide FormatNat, DigitsValue;
    var digits := FormatNat(if n < 0 then -n else n);
    FormatNatValue(if n < 0 then -n else n);
    assert ("-" + digits)[1..] == digits;
    assert IsDigit(digits[0]);
  }

  // ---------- exactly which texts are numbers ----------

  function Zeros(k: nat): (s: string)
    ensures |s| == k && AllDigits(s)
  {
    seq(k, i => '0')
  }

  /** An optional sign, any number of leading zeros, and the digits of |n|; a minus sign for negative n, or for zero. */
  ghost predicate IsNumeral(s: string, n: int) {
    exists sign: string, k: nat :: Numeral(s, n, sign, k)
  }

  predicate Numeral(s: string, n: int, sign: string, k: nat) {
    && s == sign + (Zeros(k) + FormatNat(if n < 0 then -n else n))
    && (sign == "" || sign == "+" ==> n >= 0) && (sign == "-" ==> n <= 0) && sign in {"", "+", "-"}
  }

  lemma {:induction false} LeadingZeros(k: nat, s: string)
    requires AllDigits(s)
    ensures AllDigits(Zeros(k) + s) && DigitsValue(Zeros(k) + s) == DigitsValue(s)
    decreases |s|, k
  {
    if s != "" {
      LeadingZeros(k, s[..|s| - 1]);
      assert (Zeros(k) + s)[..k + |s| - 1] == Zeros(k) + s[..|s| - 1];
    } else if k > 0 {
      LeadingZeros(k - 1, "");
      assert (Zeros(k) + "")[..k - 1] == Zeros(k - 1) + "";
    }
  }

  lemma LastDigit(v: nat, d: nat)
    requires d < 10
    ensures FormatNat(v * 10 + d) == if v == 0 then [DigitChar(d)] else FormatNat(v) + [DigitChar(d)]
  {
  }

  /** Any digits are leading zeros and the printed form of their value. */
  lemma {:induction false} DigitsAre(s: string) returns (k: nat)
    requires s != "" && AllDigits(s)
    ensures s == Zeros(k) + FormatNat(DigitsValue(s))
  {
    var front, last := s[..|s| - 1], s[|s| - 1];
    var d := last as int - '0' as int;
    assert s == front + [last] && DigitChar(d) == last;
    k := 0;
    if front == "" {
      assert DigitsValue(front) == 0;
      assert Zeros(0) + FormatNat(d) == s;
    } else {
      k := DigitsAre(front);
      var v := DigitsValue(front);
      hide DigitsValue;
      LastDigit(v, d);
      if v == 0 {
        assert Zeros(k) + "0" == Zeros(k + 1);
        k := k + 1;
      }
    }
  }

  lemma SignedDigits(digits: string, negative: bool, n: int)
    ensures ParseDigits(digits, negative) == Some(n)
      <==> InInt64(n) && (if negative then n <= 0 else n >= 0)
           && exists k: nat :: digits == Zeros(k) + FormatNat(if n < 0 then -n else n)
  {
    var m := if n < 0 then -n else n;
    if ParseDigits(digits, negative) == Some(n) {
      var k := DigitsAre(digits);
    }
    if k: nat :| digits == Zeros(k) + FormatNat(m) {
      LeadingZeros(k, FormatNat(m));
      FormatNatValue(m);
    }
  }

  /** Exactly which texts parse, and to what: the numerals of an int64. */
  lemma ParseMeaning(s: string, n: int)
    ensures ParseInt(s) == Some(n)
      <==> -9_223_372_036_854_775_808 <= n <= 9_223_372_036_854_775_807 && IsNumeral(s, n)
  {
    hide FormatNat, ParseDigits, Zeros;
    var m := if n < 0 then -n else n;
    SignedDigits(s, false, n);
    if s != "" {
      assert s == [s[0]] + s[1..];
      SignedDigits(s[1..], true, n);
      SignedDigits(s[1..], false, n);
    }
    if ParseInt(s) == Some(n) {
      var sign := if s != "" && (s[0] == '-' || s[0] == '+') then s[..1] else "";
      var digits := s[|sign|..];
      var k: nat :| digits == Zeros(k) + FormatNat(m);
      assert Numeral(s, n, sign, k);
    }
    if InInt64(n) && IsNumeral(s, n) {
      var sign, k: nat :| Numeral(s, n, sign, k);
      var digits := Zeros(k) + FormatNat(m);
      assert IsDigit(digits[0]);
      assert s[|sign|..] == digits;
    }
  }

  /** A printed number consists of digits and at most a leading minus sign. */
  lemma FormatChars(n: int)
    ensures forall c :: c in FormatInt(n) ==> IsDigit(c) || c == '-'
    ensures FormatInt(n) != ""
  {
  }

}
