/** What the conversions write: how long it is and what it denotes. */
module PrintfText {
  import opened PrintfSpec

  // ----- digits denote the value -----

  lemma DigitRoundTrip(d: int, up: bool)
    requires 0 <= d < 16
    ensures DigitValue(DigitChar(d, up)) == Some(d)
  {
  }

  lemma {:induction false} DigitsDenote(v: nat, base: int, up: bool)
    requires Base(base)
    ensures IsNumeral(Digits(v, base, up), base) && Denotes(Digits(v, base, up), base) == v
    decreases v
  {
    hide DigitChar, DigitValue;
    var s := Digits(v, base, up);
    DigitRoundTrip(v % base, up);
    if v < base {
      assert s[..0] == "";
    } else {
      DigitsDenote(v / base, base, up);
      assert s[..|s| - 1] == Digits(v / base, base, up);
    }
  }

  function Power(b: nat, k: nat): nat { if k == 0 then 1 else b * Power(b, k - 1) }

  lemma {:induction false} DigitsFit(v: nat, base: int, up: bool, k: nat)
    requires Base(base) && k >= 1 && v < Power(8, k)
    ensures |Digits(v, base, up)| <= k
    decreases k
  {
    if v >= base {
      assert v / base <= v / 8 && k > 1;
      assert Power(8, k) == 8 * Power(8, k - 1);
      DigitsFit(v / base, base, up, k - 1);
    }
  }

  /** The conversion buffer is large enough for any value. */
  lemma SixtyFourBits(v: nat, base: int, up: bool)
    requires Base(base) && v < UINTMAX
    ensures |Digits(v, base, up)| <= 22
  {
    assert Power(8, 2) == 64;
    PowerAdd(8, 2, 2);
    PowerAdd(8, 4, 4);
    PowerAdd(8, 8, 8);
    PowerAdd(8, 16, 4);
    PowerAdd(8, 20, 2);
    DigitsFit(v, base, up, 22);
  }

  lemma {:induction false} PowerAdd(b: nat, m: nat, n: nat)
    ensures Power(b, m + n) == Power(b, m) * Power(b, n)
    decreases m
  {
    if m > 0 {
      PowerAdd(b, m - 1, n);
      assert Power(b, m + n) == b * Power(b, m - 1 + n);
      assert b * (Power(b, m - 1) * Power(b, n)) == b * Power(b, m - 1) * Power(b, n);
    }
  }

  /** Zeros in front change nothing. */
  lemma {:induction false} ZerosInFront(n: nat, s: string, base: int)
    requires Base(base) && IsNumeral(s, base)
    ensures IsNumeral(Repeat('0', n) + s, base) && Denotes(Repeat('0', n) + s, base) == Denotes(s, base)
    decreases n, |s|
  {
    var t := Repeat('0', n) + s;
    if |s| == 1 {
      assert t[..|t| - 1] == Repeat('0', n);
      AllZeros(n, base);
      assert s[..0] == "";
    } else {
      assert t[..|t| - 1] == Repeat('0', n) + s[..|s| - 1];
      ZerosInFront(n, s[..|s| - 1], base);
    }
  }

  lemma {:induction false} AllZeros(n: nat, base: int)
    ensures forall i :: 0 <= i < n ==> DigitValue(Repeat('0', n)[i]).Some?
    ensures Denotes(Repeat('0', n), base) == 0
    decreases n
  {
    if n > 0 {
      assert Repeat('0', n)[..n - 1] == Repeat('0', n - 1);
      AllZeros(n - 1, base);
    }
  }

  // ----- the integer conversions -----

  /** The length: the width, or more if the sign, the prefix and the digits need more. */
  lemma IntTextLength(value: int, base: int, width: int, precision: int, flags: Flags)
    requires Base(base) && width >= 0
    ensures |IntText(value, base, width, precision, flags)|
         == Max(width, |SignOf(value, flags)| + |PrefixOf(value, base, flags)|
                       + Max(LeastDigits(value, base, precision, flags),
                             |Digits(Unsigned(value, flags), base, flags.up)|))
  {
  }

  /** How the parts are laid out: padding on one side at most. */
  lemma IntTextLayout(value: int, base: int, width: int, precision: int, flags: Flags)
    returns (left: nat, zeros: nat, right: nat)
    requires Base(base) && width >= 0
    ensures var digits := Digits(Unsigned(value, flags), base, flags.up);
      && IntText(value, base, width, precision, flags)
      == Repeat(' ', left) + (SignOf(value, flags) + PrefixOf(value, base, flags)) + (Repeat('0', zeros) + digits)
         + Repeat(' ', right)
      && zeros + |digits| >= precision
      && (!(flags.zero && !flags.minus && precision == NO_PRECISION) ==>
            zeros + |digits| == Max(LeastDigits(value, base, precision, flags), |digits|))
    ensures (left == 0 || right == 0) && (flags.minus ==> left == 0) && (!flags.minus ==> right == 0)
    ensures flags.zero && !flags.minus && precision == NO_PRECISION ==> left == 0
  {
    hide Digits, SignOf, PrefixOf, Unsigned;
    var digits := Digits(Unsigned(value, flags), base, flags.up);
    var head := SignOf(value, flags) + PrefixOf(value, base, flags);
    var least := LeastDigits(value, base, precision, flags);
    zeros := Max(least - |digits|, 0);
    var spaces := Max(width - Max(least, |digits|) - |head|, 0);
    if flags.minus {
      left, right := 0, spaces;
    } else if flags.zero && precision == NO_PRECISION {
      left, right, zeros := 0, 0, zeros + spaces;
    } else {
      left, right := spaces, 0;
    }
    Regroup(Repeat(' ', left), head, Repeat('0', zeros), digits, Repeat(' ', right));
    Empty(head, Repeat('0', zeros), digits);
  }

  /** The parts: padding, the sign, the prefix, and a numeral of the value. */
  lemma IntTextParts(value: int, base: int, width: int, precision: int, flags: Flags)
    returns (left: nat, sign: string, prefix: string, number: string, right: nat)
    requires Base(base) && width >= 0
    ensures IntText(value, base, width, precision, flags)
         == Repeat(' ', left) + (sign + prefix) + number + Repeat(' ', right)
    ensures flags.unsigned ==> sign == ""
    ensures !flags.unsigned && value < 0 ==> sign == "-"
    ensures !flags.unsigned && value >= 0 ==> sign == if flags.plus then "+" else if flags.space then " " else ""
    ensures IsNumeral(number, base) && |number| >= precision
    ensures prefix == if flags.alt && base == 16 && Denotes(number, base) != 0 then if flags.up then "0X" else "0x" else ""
    ensures !flags.unsigned ==> Denotes(number, base) == if value < 0 then -value else value
    ensures flags.unsigned ==> Denotes(number, base) == value % 0x1_0000_0000_0000_0000
    ensures (left == 0 || right == 0) && (flags.minus ==> left == 0) && (!flags.minus ==> right == 0)
    ensures flags.zero && !flags.minus && precision == NO_PRECISION ==> left == 0
  {
    hide Digits, SignOf, PrefixOf, Unsigned, DigitValue, Denotes, IsNumeral, IntText;
    var zeros;
    left, zeros, right := IntTextLayout(value, base, width, precision, flags);
    var digits := Digits(Unsigned(value, flags), base, flags.up);
    sign, prefix, number := SignOf(value, flags), PrefixOf(value, base, flags), Repeat('0', zeros) + digits;
    DigitsDenote(Unsigned(value, flags), base, flags.up);
    ZerosInFront(zeros, digits, base);
    SignIs(value, flags);
    PrefixIs(value, base, flags);
    UnsignedIs(value, flags);
  }

  lemma SignIs(value: int, flags: Flags)
    ensures var sign := SignOf(value, flags);
      && (flags.unsigned ==> sign == "")
      && (!flags.unsigned && value < 0 ==> sign == "-")
      && (!flags.unsigned && value >= 0 ==> sign == if flags.plus then "+" else if flags.space then " " else "")
  {
  }

  lemma PrefixIs(value: int, base: int, flags: Flags)
    ensures var prefix := PrefixOf(value, base, flags);
      && (flags.alt && base == 16 && Unsigned(value, flags) != 0 ==> prefix == if flags.up then "0X" else "0x")
      && (!flags.alt || base != 16 || Unsigned(value, flags) == 0 ==> prefix == "")
  {
  }

  lemma UnsignedIs(value: int, flags: Flags)
    ensures !flags.unsigned ==> Unsigned(value, flags) == if value < 0 then -value else value
    ensures flags.unsigned ==> Unsigned(value, flags) == value % 0x1_0000_0000_0000_0000
  {
  }

  lemma Regroup(a: string, b: string, c: string, d: string, e: string)
    ensures a + b + (c + d) + e == a + b + c + d + e
  {
  }

  lemma Empty(a: string, b: string, c: string)
    ensures Repeat(' ', 0) == "" && "" + a == a && a + b + c + "" == a + b + c
  {
  }
}
