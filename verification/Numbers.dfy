/** Numbers in decimal notation, as printf writes them and atol reads them. */
module Numbers {
  const LONG_MAX := 0x7FFF_FFFF_FFFF_FFFF

  predicate IsDigit(c: char) {
    '0' <= c <= '9'
  }

  ghost predicate AllDigits(s: string) {
    forall i :: 0 <= i < |s| ==> IsDigit(s[i])
  }

  function DigitOf(d: nat): (c: char)
    requires d < 10
    ensures IsDigit(c)
  {
    '0' + d as char
  }

  function DigitValue(c: char): (d: nat)
    requires IsDigit(c)
    ensures d < 10
  {
    (c - '0') as nat
  }

  /** The conversion %d (or %zu) of a number that is not negative. */
  function Decimal(n: nat): (s: string)
    ensures s != "" && AllDigits(s)
    ensures n >= 1 ==> s[0] != '0'
  {
    if n < 10 then [DigitOf(n)] else Decimal(n / 10) + [DigitOf(n % 10)]
  }

  /** The number that a text of digits denotes. */
  function Value(s: string): nat
    requires AllDigits(s)
  {
    if s == "" then 0 else 10 * Value(s[..|s| - 1]) + DigitValue(s[|s| - 1])
  }

  lemma {:induction false} ValueOfDecimal(n: nat)
    ensures Value(Decimal(n)) == n
  {
    if n >= 10 {
      ValueOfDecimal(n / 10);
      assert Decimal(n)[..|Decimal(n)| - 1] == Decimal(n / 10);
    } else {
      assert Decimal(n)[..0] == "";
    }
  }

  /** Each digit is printed as itself, the most significant one first. */
  lemma DecimalDigits()
    ensures Decimal(1234567890) == "1234567890"
  {
    assert Decimal(1) == "1" && Decimal(12) == "1" + "2";
    assert Decimal(123) == "12" + "3";
    assert Decimal(1234) == "123" + "4";
    assert Decimal(12345) == "1234" + "5";
    assert Decimal(123456) == "12345" + "6";
    assert Decimal(1234567) == "123456" + "7";
    assert Decimal(12345678) == "1234567" + "8";
    assert Decimal(123456789) == "12345678" + "9";
    assert Decimal(1234567890) == "123456789" + "0";
  }

  lemma DecimalIsInjective(m: nat, n: nat)
    requires Decimal(m) == Decimal(n)
    ensures m == n
  {
    ValueOfDecimal(m);
    ValueOfDecimal(n);
  }

  function Pow10(k: nat): (r: nat)
    ensures r >= 1
  {
    if k == 0 then 1 else 10 * Pow10(k - 1)
  }

  /** A number has at most k digits just when it is below the k-th power of ten. */
  lemma {:induction false} DecimalLength(n: nat, k: nat)
    requires k >= 1
    ensures |Decimal(n)| <= k <==> n < Pow10(k)
  {
    if k == 1 {
      assert Pow10(1) == 10;
    } else if n >= 10 {
      DecimalLength(n / 10, k - 1);
    } else {
      assert Pow10(k) == 10 * Pow10(k - 1) && Pow10(k - 1) == 10 * Pow10(k - 2);
    }
  }

  // ----- reading a number -----

  /** How many digits s starts with. */
  function LeadingDigits(s: string): (n: nat)
    ensures n <= |s| && AllDigits(s[..n]) && (n < |s| ==> !IsDigit(s[n]))
  {
    if s == "" || !IsDigit(s[0]) then 0
    else
      var n := LeadingDigits(s[1..]);
      assert s[..n + 1] == [s[0]] + s[1..][..n];
      n + 1
  }

  predicate IsSpace(c: char) {
    c == ' ' || '\t' <= c <= '\r'
  }

  /** atol: white space, a sign, digits; anything else stops it, and it stays within a long. */
  function Atol(s: string): (n: int)
    ensures -LONG_MAX - 1 <= n <= LONG_MAX
  {
    if s == "" then 0
    else if IsSpace(s[0]) then Atol(s[1..])
    else if s[0] == '-' then Clamp(-(Value(s[1..][..LeadingDigits(s[1..])]) as int))
    else if s[0] == '+' then Clamp(Value(s[1..][..LeadingDigits(s[1..])]))
    else Clamp(Value(s[..LeadingDigits(s)]))
  }

  function Clamp(n: int): int {
    if n > LONG_MAX then LONG_MAX else if n < -LONG_MAX - 1 then -LONG_MAX - 1 else n
  }

  lemma {:induction false} DigitsThenRest(d: string, rest: string)
    requires AllDigits(d) && (rest == "" || !IsDigit(rest[0]))
    ensures LeadingDigits(d + rest) == |d|
  {
    if d == "" {
      assert d + rest == rest;
    } else {
      DigitsThenRest(d[1..], rest);
      assert (d + rest)[1..] == d[1..] + rest;
    }
  }

  /** What atol makes of any text: white space, a sign or none, all the digits that follow, the number they
      denote as far as a long holds it. */
  lemma {:induction false} AtolReads(gap: string, sign: string, d: string, rest: string)
    requires (forall i :: 0 <= i < |gap| ==> gap[i] == ' ' || 9 <= gap[i] as int <= 13) && AllDigits(d)
    requires (sign == "" || sign == "+" || sign == "-") && (rest == "" || !IsDigit(rest[0]))
    requires d == "" && sign == "" && rest != "" ==> rest[0] !in " \t\n\r+-" && !(9 <= rest[0] as int <= 13)
    ensures var v: int := Value(d);
            var n := if sign == "-" then -v else v;
            Atol(gap + (sign + (d + rest))) ==
            if n > 0x7FFF_FFFF_FFFF_FFFF then 0x7FFF_FFFF_FFFF_FFFF
            else if n < -0x8000_0000_0000_0000 then -0x8000_0000_0000_0000 else n
  {
    hide Value;
    var t := sign + (d + rest);
    if gap == "" {
      assert gap + t == t;
      DigitsThenRest(d, rest);
      assert (d + rest)[..|d|] == d;
      if sign == "" {
        assert t == d + rest;
        if d != "" { assert t[0] == d[0]; }
        if t == "" { NoValue(); }
      } else {
        assert t[0] == sign[0] && t[1..] == d + rest;
      }
    } else {
      assert (gap + t)[1..] == gap[1..] + t;
      AtolReads(gap[1..], sign, d, rest);
    }
  }

  lemma NoValue()
    ensures Value("") == 0
  {
  }

  /** atol gets back a printed number, whatever text follows it. */
  lemma AtolOfDigits(d: string, rest: string)
    requires AllDigits(d) && d != "" && (rest == "" || !IsDigit(rest[0]))
    ensures Atol(d + rest) == Clamp(Value(d))
  {
    DigitsThenRest(d, rest);
    assert (d + rest)[..|d|] == d;
    assert (d + rest)[0] == d[0];
  }

  lemma AtolOfDecimal(n: nat, rest: string)
    requires n <= LONG_MAX && (rest == "" || !IsDigit(rest[0]))
    ensures Atol(Decimal(n) + rest) == n
  {
    AtolOfDigits(Decimal(n), rest);
    ValueOfDecimal(n);
  }

  // ----- signed and unsigned numbers -----

  const ULONG_MAX := 0xFFFF_FFFF_FFFF_FFFF

  /** The conversion %ld. */
  function Signed(n: int): (s: string)
    ensures s != ""
  {
    if n < 0 then "-" + Decimal(-n) else Decimal(n)
  }

  lemma AtolOfNegative(d: string, rest: string)
    requires AllDigits(d) && (rest == "" || !IsDigit(rest[0]))
    ensures Atol(("-" + d) + rest) == Clamp(-(Value(d) as int))
  {
    hide Value, LeadingDigits;
    var s := ("-" + d) + rest;
    assert s[1..] == d + rest;
    DigitsThenRest(d, rest);
    assert s[1..][..|d|] == d;
  }

  lemma AtolOfSigned(n: int, rest: string)
    requires -LONG_MAX - 1 <= n <= LONG_MAX && (rest == "" || !IsDigit(rest[0]))
    ensures Atol(Signed(n) + rest) == n
  {
    hide Decimal, Value, Atol;
    if n < 0 {
      AtolOfNegative(Decimal(-n), rest);
      ValueOfDecimal(-n);
    } else {
      AtolOfDecimal(n, rest);
    }
  }

  /** strtoul: as atol, but a number that is too big becomes the biggest, and a negative one wraps. */
  function Strtoul(s: string): (n: nat)
    ensures n <= ULONG_MAX
  {
    if s == "" then 0
    else if IsSpace(s[0]) then Strtoul(s[1..])
    else
      var negative := s[0] == '-';
      var digits := if s[0] == '-' || s[0] == '+' then s[1..] else s;
      var n := Value(digits[..LeadingDigits(digits)]);
      if n > ULONG_MAX then ULONG_MAX else if negative && n > 0 then ULONG_MAX + 1 - n else n
  }

  lemma StrtoulOfDecimal(n: nat, rest: string)
    requires n <= ULONG_MAX && (rest == "" || !IsDigit(rest[0]))
    ensures Strtoul(Decimal(n) + rest) == n
  {
    var d := Decimal(n);
    DigitsThenRest(d, rest);
    assert (d + rest)[..|d|] == d;
    assert (d + rest)[0] == d[0];
    ValueOfDecimal(n);
  }
}
