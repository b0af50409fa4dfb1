/** What a format and its arguments print, told on the text of the format as section 7.19.6.1 of C99 tells it. */
module PrintfMeaning {
  import opened PrintfSpec
  import opened PrintfText
  import opened PrintfDirective

  // ----- numerals -----

  const DECIMAL := "0123456789"

  /** The place of a digit in its table. */
  function Place(c: char, table: string): (k: nat)
    requires c in table
    ensures k < |table| && table[k] == c
  {
    if table[0] == c then 0 else 1 + Place(c, table[1..])
  }

  predicate Numeral(s: string, table: string) { s != "" && forall i :: 0 <= i < |s| ==> s[i] in table }

  /** The number a numeral stands for in the base that has as many digits as the table. */
  function NumberIn(s: string, table: string): nat
    requires forall i :: 0 <= i < |s| ==> s[i] in table
  {
    if s == "" then 0 else NumberIn(s[..|s| - 1], table) * |table| + Place(s[|s| - 1], table)
  }

  function Table(conv: char): string {
    if conv == 'o' then "01234567"
    else if conv == 'x' then "0123456789abcdef"
    else if conv == 'X' then "0123456789ABCDEF"
    else DECIMAL
  }

  /** The one numeral of a number that has no zero in front, but for the number zero. */
  predicate Shortest(s: string, table: string, n: int) {
    Numeral(s, table) && NumberIn(s, table) == n && (|s| > 1 ==> s[0] != '0')
  }

  // ----- what a directive prints -----

  /** n is the value of the argument v in a type of `size` values. */
  predicate Holds(n: int, v: int, size: int, signed: bool)
    requires size > 0
  {
    (n - v) % size == 0 && if signed then -(size / 2) <= n < size / 2 else 0 <= n < size
  }

  /** How many values the type has that a length modifier names. */
  function SizeOf(mod: string): (size: int)
    ensures size > 0
  {
    if mod == "hh" then 0x100
    else if mod == "h" then 0x1_0000
    else if mod == "" then 0x1_0000_0000
    else 0x1_0000_0000_0000_0000
  }

  /** The numbers that a directive is given. */
  datatype Numbers = Numbers(width: int, precision: Option<int>, value: int) {
    /** A negative width asks for the left. */
    predicate Left(flags: string) { '-' in flags || width < 0 }

    function Width(): nat { if width < 0 then -width else width }

    /** A negative precision is none. */
    function Precision(): Option<nat> {
      if precision.Some? && precision.value >= 0 then Some(precision.value) else None
    }
  }

  predicate Counts(n: int, count: Count, args: seq<Arg>, i: nat) {
    match count
    case Given(digits) => (forall k :: 0 <= k < |digits| ==> digits[k] in DECIMAL) && n == NumberIn(digits, DECIMAL)
    case Star => i < |args| && args[i].IntArg? && Holds(n, args[i].num, 0x1_0000_0000, true)
  }

  ghost predicate AreGiven(it: Item, args: seq<Arg>, r: Numbers) {
    && Counts(r.width, it.width, args, 0)
    && (it.precision.None? <==> r.precision.None?)
    && (it.precision.Some? ==> Counts(r.precision.value, it.precision.value, args, it.width.Taken()))
    && (it.conv in "diouxX" ==>
          && it.Stars() < |args| && args[it.Stars()].IntArg?
          && Holds(r.value, args[it.Stars()].num, SizeOf(it.mod), it.conv in "di"))
  }

  function SignText(it: Item, n: int): string {
    if it.conv !in "di" then ""
    else if n < 0 then "-" else if '+' in it.flags then "+" else if ' ' in it.flags then " " else ""
  }

  function PrefixText(it: Item, n: int): string {
    if '#' !in it.flags || n == 0 then "" else if it.conv == 'x' then "0x" else if it.conv == 'X' then "0X" else ""
  }

  /** How many digits there are at least: as many as the precision says, or as the number needs, and one
      more for the zero that the alternative form of an octal number begins with. */
  function DigitCount(it: Item, r: Numbers, needed: nat): nat {
    var own := if '#' in it.flags && r.value != 0 && it.conv == 'o' then needed + 1 else needed;
    if r.Precision().Some? then Max(r.Precision().value, own) else own
  }

  /** Zeros take the place of blanks on the left. */
  predicate ZeroFilled(it: Item, r: Numbers) { '0' in it.flags && !r.Left(it.flags) && r.Precision().None? }

  /** The parts of an integer: blanks, sign, prefix, zeros, digits, blanks. */
  predicate Parts(it: Item, r: Numbers, text: string, left: nat, zeros: nat, digits: string, right: nat) {
    var sign, prefix := SignText(it, r.value), PrefixText(it, r.value);
    var count := DigitCount(it, r, |digits|);
    && text == Repeat(' ', left) + (sign + prefix) + (Repeat('0', zeros) + digits) + Repeat(' ', right)
    && Shortest(digits, Table(it.conv), if r.value < 0 then -r.value else r.value)
    && |text| == Max(r.Width(), |sign| + |prefix| + count)
    && (if r.Left(it.flags) then left == 0 else right == 0)
    && (if ZeroFilled(it, r) then left == 0 else zeros + |digits| == count)
  }

  ghost predicate ShowsInt(it: Item, r: Numbers, text: string) {
    exists left: nat, zeros: nat, digits: string, right: nat :: Parts(it, r, text, left, zeros, digits, right)
  }

  /** As much of the string as the precision allows, and blanks on the right or on the left. */
  predicate StrParts(it: Item, r: Numbers, s: string, shown: string, text: string) {
    && shown <= s
    && (r.Precision().None? ==> shown == s)
    && (r.Precision().Some? ==> |shown| <= r.Precision().value && (shown == s || |shown| == r.Precision().value))
    && |text| == Max(r.Width(), |shown|)
    && text == if r.Left(it.flags) then shown + Repeat(' ', |text| - |shown|) else Repeat(' ', |text| - |shown|) + shown
  }

  /** A missing string is shown as such. */
  function StringOf(str: Option<string>): string { if str.Some? then str.value else "(null)" }

  ghost predicate ShowsStr(it: Item, r: Numbers, str: Option<string>, text: string) {
    exists shown: string :: StrParts(it, r, StringOf(str), shown, text)
  }

  ghost predicate Shows(it: Item, r: Numbers, args: seq<Arg>, text: string) {
    if it.conv in "diouxX" then ShowsInt(it, r, text)
    else if it.conv == 's' then args != [] && args[0].StrArg? && ShowsStr(it, r, args[0].str, text)
    else if it.conv == 'c' then
      args != [] && args[0].IntArg? && |text| == 1 && text[0] as int < 0x100 && (text[0] as int - args[0].num) % 0x100 == 0
    else if it.conv == '%' then text == "%"
    else text == ""
  }

  /** What a directive prints for the arguments at the head of the list. */
  ghost predicate Prints(it: Item, args: seq<Arg>, text: string) {
    it.Stars() <= |args| && exists r: Numbers :: AreGiven(it, args, r) && Shows(it, r, args[it.Stars()..], text)
  }

  // ----- directives that can be printed -----

  predicate GoodCount(count: Count) {
    count.Given? ==> (forall i :: 0 <= i < |count.digits| ==> count.digits[i] in DECIMAL)
                     && NumberIn(count.digits, DECIMAL) <= 0x7fff_ffff
  }

  predicate WellFormed(it: Item) {
    && (forall i :: 0 <= i < |it.flags| ==> it.flags[i] in "-+ #0")
    && GoodCount(it.width) && (it.width.Given? && it.width.digits != "" ==> it.width.digits[0] != '0')
    && (it.precision.Some? ==> GoodCount(it.precision.value))
    && (it.mod == "" || it.mod == "hh" || it.mod == "h" || it.mod == "ll" || it.mod == "l" || it.mod == "j"
        || it.mod == "t" || it.mod == "z")
    && ConvChar(it.conv)
  }

  /** How many arguments a directive takes. */
  function Taken(it: Item): nat { it.Stars() + if it.conv in "diouxXcs" then 1 else 0 }

  /** The arguments are there and of the right kind; a width is not the most negative int, and a value not
      the most negative 64-bit integer. */
  predicate Fits(it: Item, args: seq<Arg>) {
    && Taken(it) <= |args|
    && (forall i :: 0 <= i < it.Stars() ==> args[i].IntArg?)
    && (it.width.Star? ==> args[0].num % 0x1_0000_0000 != 0x8000_0000)
    && (it.conv in "diouxXc" ==> args[it.Stars()].IntArg?)
    && (it.conv == 's' ==> args[it.Stars()].StrArg?)
    && (it.conv in "di" && SizeOf(it.mod) == 0x1_0000_0000_0000_0000 ==>
          args[it.Stars()].num % 0x1_0000_0000_0000_0000 != 0x8000_0000_0000_0000)
  }

  // ----- digits -----

  lemma TableIs(conv: char)
    ensures |Table(conv)| == BaseOf(conv)
    ensures forall d :: 0 <= d < |Table(conv)| ==> Table(conv)[d] == DigitChar(d, conv == 'X')
  {
    var t, up := Table(conv), conv == 'X';
    forall d | 0 <= d < |t| ensures t[d] == DigitChar(d, up) {
      if d < 8 {
        EightDigits(t, d);
      } else if d < 10 {
        assert t[8] == '8' && t[9] == '9';
      } else if up {
        assert t == "0123456789ABCDEF";
        assert t[10] == 'A' && t[11] == 'B' && t[12] == 'C' && t[13] == 'D' && t[14] == 'E' && t[15] == 'F';
      } else {
        assert t == "0123456789abcdef";
        assert t[10] == 'a' && t[11] == 'b' && t[12] == 'c' && t[13] == 'd' && t[14] == 'e' && t[15] == 'f';
      }
    }
  }

  lemma EightDigits(t: string, d: nat)
    requires t == "01234567" || t == DECIMAL || t == "0123456789abcdef" || t == "0123456789ABCDEF"
    requires d < 8
    ensures t[d] == ('0' as int + d) as char
  {
    assert t[0] == '0' && t[1] == '1' && t[2] == '2' && t[3] == '3';
    assert t[4] == '4' && t[5] == '5' && t[6] == '6' && t[7] == '7';
  }

  lemma {:induction false} PlaceOf(table: string, d: nat)
    requires d < |table| && forall i, j :: 0 <= i < j < |table| ==> table[i] != table[j]
    ensures Place(table[d], table) == d
    decreases |table|
  {
    if d > 0 {
      assert table[0] != table[d];
      PlaceOf(table[1..], d - 1);
    }
  }

  lemma DigitPlace(conv: char, d: nat)
    requires d < BaseOf(conv)
    ensures var c := DigitChar(d, conv == 'X'); c in Table(conv) && Place(c, Table(conv)) == d
    ensures DigitChar(d, conv == 'X') == '0' <==> d == 0
  {
    var t := Table(conv);
    TableIs(conv);
    forall i, j | 0 <= i < j < |t| ensures t[i] != t[j] {
      assert t[i] == DigitChar(i, conv == 'X') && t[j] == DigitChar(j, conv == 'X');
    }
    hide Table;
    assert t[d] == DigitChar(d, conv == 'X');
    PlaceOf(t, d);
  }

  lemma {:induction false} DigitsShortest(v: nat, conv: char)
    ensures Shortest(Digits(v, BaseOf(conv), conv == 'X'), Table(conv), v)
    ensures v > 0 ==> Digits(v, BaseOf(conv), conv == 'X')[0] != '0'
    decreases v
  {
    hide Table, DigitChar, Place, BaseOf;
    var base, up := BaseOf(conv), conv == 'X';
    var s, d := Digits(v, base, up), v % base;
    DigitPlace(conv, d);
    TableIs(conv);
    if v < base {
      assert v % base == v;
      assert s[..0] == "" && s == [DigitChar(v, up)] && NumberIn(s, Table(conv)) == Place(s[0], Table(conv));
    } else {
      DigitsShortest(v / base, conv);
      var init := Digits(v / base, base, up);
      assert s == init + [DigitChar(d, up)] && s[..|s| - 1] == init;
      assert NumberIn(s, Table(conv)) == NumberIn(init, Table(conv)) * base + d;
    }
  }

  /** Decimal digits in the format. */
  lemma {:induction false} DecimalIs(s: string)
    requires forall i :: 0 <= i < |s| ==> s[i] in DECIMAL
    ensures AllDigits(s) && DecimalFrom(0, s) == NumberIn(s, DECIMAL)
    decreases |s|
  {
    hide Place, IsDigit, DigitOf, DecimalFrom;
    forall i | 0 <= i < |s| ensures IsDigit(s[i]) {
      DecimalDigit(s[i]);
    }
    if s == "" {
      NothingDecimal();
    } else {
      var n := |s| - 1;
      DecimalIs(s[..n]);
      DecimalDigit(s[n]);
      DecimalLast(0, s[..n], s[n]);
      assert s[..n] + [s[n]] == s;
    }
  }

  lemma NothingDecimal()
    ensures DecimalFrom(0, "") == 0
  {
  }

  lemma DecimalDigit(c: char)
    requires c in DECIMAL
    ensures IsDigit(c) && DigitOf(c) == Place(c, DECIMAL)
  {
    TableIs('d');
    var k := Place(c, DECIMAL);
    assert DECIMAL[k] == DigitChar(k, false);
  }

  lemma {:induction false} DecimalLast(v: int, s: string, c: char)
    requires AllDigits(s + [c])
    ensures AllDigits(s) && DecimalFrom(v, s + [c]) == 10 * DecimalFrom(v, s) + DigitOf(c)
    decreases |s|
  {
    assert forall i :: 0 <= i < |s| ==> s[i] == (s + [c])[i];
    if s == "" {
      assert s + [c] == [c] && [c][1..] == "";
      assert (s + [c])[0] == c;
    } else {
      assert (s + [c])[1..] == s[1..] + [c];
      DecimalLast(10 * v + DigitOf(s[0]), s[1..], c);
    }
  }

  // ----- flags and types -----

  lemma {:induction false} FlagsMean(f: Flags, s: string)
    requires forall i :: 0 <= i < |s| ==> s[i] in "-+ #0"
    ensures AllFlags(s)
    ensures FlagsFrom(f, s)
         == f.(minus := f.minus || '-' in s, plus := f.plus || '+' in s, space := f.space || ' ' in s,
               alt := f.alt || '#' in s, zero := f.zero || '0' in s)
    decreases |s|
  {
    forall i | 0 <= i < |s| ensures IsFlag(s[i]) {
      assert s[i] in "-+ #0";
    }
    if s != "" {
      FlagMeans(f, s[0]);
      FlagsMean(FlagOf(s[0], f).value, s[1..]);
      hide FlagOf, AllFlags;
      FirstOrLater(s);
      assert FlagsFrom(f, s) == FlagsFrom(FlagOf(s[0], f).value, s[1..]);
    }
  }

  lemma FirstOrLater(s: string)
    requires s != ""
    ensures forall c :: c in s <==> c == s[0] || c in s[1..]
  {
    assert s == [s[0]] + s[1..];
  }

  lemma FlagMeans(f: Flags, c: char)
    requires IsFlag(c)
    ensures FlagOf(c, f)
         == Some(f.(minus := f.minus || c == '-', plus := f.plus || c == '+', space := f.space || c == ' ',
                    alt := f.alt || c == '#', zero := f.zero || c == '0'))
  {
  }

  lemma WrappedHolds(v: int, mod: string, unsigned: bool)
    requires mod == "" || mod == "hh" || mod == "h" || mod == "ll" || mod == "l" || mod == "j" || mod == "t" || mod == "z"
    ensures Holds(Wrapped(v, ModNamed(mod), unsigned), v, SizeOf(mod), !unsigned)
  {
    var m := ModNamed(mod);
    var size := SizeOf(mod);
    ModIs(mod);
    Residue(v, size);
  }

  lemma ModIs(mod: string)
    requires mod == "hh" || mod == "h" || mod == "ll" || mod == "l" || mod == "j" || mod == "t" || mod == "z"
          || mod == ""
    ensures var m := ModNamed(mod);
      && (m == CharMod <==> SizeOf(mod) == 0x100) && (m == ShortMod <==> SizeOf(mod) == 0x1_0000)
      && (m == NoMod <==> SizeOf(mod) == 0x1_0000_0000)
  {
  }

  lemma Residue(v: int, size: int)
    requires size > 0
    ensures 0 <= v % size < size && (v % size - v) % size == 0 && (v % size - size - v) % size == 0
  {
    var q := v / size;
    assert v == q * size + v % size;
    assert v % size - v == -q * size && v % size - size - v == (-q - 1) * size;
    MultipleMod(-q, size);
    MultipleMod(-q - 1, size);
  }

  lemma MultipleMod(k: int, size: int)
    requires size > 0
    ensures (k * size) % size == 0
  {
    var r, q := (k * size) % size, (k * size) / size;
    assert (k - q) * size == r;
    Multiples(k - q, size);
  }

  lemma Multiples(m: int, size: int)
    requires size > 0
    ensures m >= 1 ==> m * size >= size
    ensures m <= -1 ==> m * size <= -size
  {
    if m >= 1 {
      assert (m - 1) * size >= 0;
    } else if m <= -1 {
      assert (-m - 1) * size >= 0;
    }
  }

  // ----- what is printed has the meaning -----

  /** The directive as the formatter understands it has the numbers that are given. */
  predicate Matches(it: Item, r: Numbers, m: Directive) {
    && m.width == r.Width()
    && m.precision == (if r.Precision().Some? then r.Precision().value else NO_PRECISION)
    && m.flags == Flags(r.Left(it.flags), '+' in it.flags, ' ' in it.flags, '#' in it.flags, '0' in it.flags, false, false)
    && m.mod == ModNamed(it.mod)
  }

  lemma CountIs(count: Count, args: seq<Arg>, i: nat) returns (n: int)
    requires GoodCount(count) && (count.Star? ==> i < |args| && args[i].IntArg?)
    ensures count.Valid() && Counts(n, count, args, i)
    ensures n == if count.Given? then DecimalFrom(0, count.digits) else Wrapped(args[i].num, NoMod, false)
  {
    if count.Given? {
      DecimalIs(count.digits);
      n := DecimalFrom(0, count.digits);
    } else {
      WrappedHolds(args[i].num, "", false);
      n := Wrapped(args[i].num, NoMod, false);
    }
  }

  lemma WellFormedValid(it: Item)
    requires WellFormed(it)
    ensures it.Valid()
  {
    hide DecimalFrom, NumberIn, AllDigits;
    FlagsMean(NO_FLAGS, it.flags);
    if it.width.Given? {
      DecimalIs(it.width.digits);
    }
    if it.precision.Some? && it.precision.value.Given? {
      DecimalIs(it.precision.value.digits);
    }
  }

  lemma MostNegative(v: int)
    requires v % 0x1_0000_0000 != 0x8000_0000
    ensures Wrapped(v, NoMod, false) != -INT_MAX - 1
  {
  }

  lemma NumbersOf(it: Item, args: seq<Arg>) returns (r: Numbers)
    requires WellFormed(it) && Fits(it, args)
    ensures it.Valid() && it.Supplied(args) && Matches(it, r, it.Meaning(args)) && AreGiven(it, args, r)
    ensures it.conv in "diouxX" ==> r.value == Wrapped(args[it.Stars()].num, it.Meaning(args).mod, it.conv !in "di")
  {
    hide NumberIn, DecimalFrom, Wrapped, AllDigits, FlagsFrom, Holds, ModNamed, SizeOf;
    WellFormedValid(it);
    var w := CountIs(it.width, args, 0);
    var p, v := None, 0;
    if it.width.Star? {
      MostNegative(args[0].num);
    }
    if it.precision.Some? {
      var q := CountIs(it.precision.value, args, it.width.Taken());
      p := Some(q);
    }
    if it.conv in "diouxX" {
      WrappedHolds(args[it.Stars()].num, it.mod, it.conv !in "di");
      v := Wrapped(args[it.Stars()].num, ModNamed(it.mod), it.conv !in "di");
    }
    r := Numbers(w, p, v);
    hide Item.Meaning, Counts;
    MatchesIt(it, args, r);
  }

  lemma MatchesIt(it: Item, args: seq<Arg>, r: Numbers)
    requires WellFormed(it) && it.Valid() && it.Supplied(args)
    requires r.width == it.WidthOf(args)
    requires r.precision == if it.precision.Some? then Some(it.PrecisionOf(args)) else None
    ensures Matches(it, r, it.Meaning(args))
  {
    hide Item.Valid, Item.Supplied, Item.WidthOf, Item.PrecisionOf, FlagsFrom, ModNamed;
    FlagsMean(NO_FLAGS, it.flags);
    if it.precision.None? {
      NoPrecision(it, args);
    }
  }

  lemma NoPrecision(it: Item, args: seq<Arg>)
    requires it.Valid() && it.Supplied(args) && it.precision.None?
    ensures it.PrecisionOf(args) == NO_PRECISION
  {
  }

  /** The flags as the integer conversions get them. */
  function IntFlags(it: Item, m: Directive): Flags {
    m.flags.(up := it.conv == 'X', unsigned := it.conv !in "di")
  }

  lemma HeadIs(it: Item, r: Numbers, m: Directive)
    requires Matches(it, r, m) && it.conv in "diouxX"
    requires it.conv !in "di" ==> 0 <= r.value < UINTMAX
    ensures SignOf(r.value, IntFlags(it, m)) == SignText(it, r.value)
    ensures PrefixOf(r.value, BaseOf(it.conv), IntFlags(it, m)) == PrefixText(it, r.value)
    ensures Unsigned(r.value, IntFlags(it, m)) == if r.value < 0 then -r.value else r.value
  {
  }

  lemma CountMatches(it: Item, r: Numbers, m: Directive)
    requires Matches(it, r, m) && it.conv in "diouxX"
    requires it.conv !in "di" ==> 0 <= r.value < UINTMAX
    ensures var f := IntFlags(it, m); var n := |Digits(Unsigned(r.value, f), BaseOf(it.conv), f.up)|;
      Max(LeastDigits(r.value, BaseOf(it.conv), m.precision, f), n) == DigitCount(it, r, n)
  {
    hide Digits;
    HeadIs(it, r, m);
    assert BaseOf(it.conv) == 8 <==> it.conv == 'o';
  }

  lemma IntParts(it: Item, r: Numbers, m: Directive)
    requires Matches(it, r, m) && it.conv in "diouxX"
    requires it.conv !in "di" ==> 0 <= r.value < UINTMAX
    ensures ShowsInt(it, r, IntText(r.value, BaseOf(it.conv), m.width, m.precision, IntFlags(it, m)))
  {
    hide Digits, Shortest, SignOf, PrefixOf, SignText, PrefixText, LeastDigits, DigitCount, Unsigned, Table, IntText;
    hide BaseOf, IsNumeral, Denotes;
    var f, base := IntFlags(it, m), BaseOf(it.conv);
    var text, digits := IntText(r.value, base, m.width, m.precision, f), Digits(Unsigned(r.value, f), base, f.up);
    HeadIs(it, r, m);
    CountMatches(it, r, m);
    DigitsShortest(Unsigned(r.value, f), it.conv);
    IntTextLength(r.value, base, m.width, m.precision, f);
    var left, zeros, right := IntTextLayout(r.value, base, m.width, m.precision, f);
    assert Parts(it, r, text, left, zeros, digits, right);
  }

  lemma StrShown(it: Item, r: Numbers, m: Directive, str: Option<string>)
    requires Matches(it, r, m)
    ensures ShowsStr(it, r, str, StrText(str, m.width, m.precision, m.flags))
  {
    var s := StringOf(str);
    var shown := if r.Precision().None? then s else s[..Min(|s|, r.Precision().value)];
    PrefixTaken(s, r.Precision());
    var text := StrText(str, m.width, m.precision, m.flags);
    StrTextIs(str, shown, m);
    hide StrText, StringOf;
    assert |text| == Max(r.Width(), |shown|);
    SamePad(m.width - |shown|, |text| - |shown|);
    assert StrParts(it, r, s, shown, text);
  }

  lemma StrTextIs(str: Option<string>, shown: string, m: Directive)
    requires var s := StringOf(str); shown == if m.precision == NO_PRECISION then s else s[..Min(|s|, Max(m.precision, 0))]
    ensures var pad := Repeat(' ', m.width - |shown|);
      StrText(str, m.width, m.precision, m.flags) == if m.flags.minus then shown + pad else pad + shown
  {
  }

  lemma PrefixTaken(s: string, precision: Option<nat>)
    ensures (if precision.None? then s else s[..Min(|s|, precision.value)]) <= s
  {
  }

  lemma SamePad(a: int, b: int)
    requires b == Max(a, 0)
    ensures Repeat(' ', a) == Repeat(' ', b)
  {
  }

  /** What the conversion writes is what the directive prints. */
  lemma ConvertedPrints(it: Item, args: seq<Arg>)
    requires WellFormed(it) && Fits(it, args)
    ensures it.Valid() && it.Supplied(args)
    ensures var c := Converted(it.conv, it.Meaning(args), args[it.Stars()..]);
      c.Some? && it.Stars() + c.value.1 == Taken(it) && Prints(it, args, c.value.0)
  {
    hide NumberIn, Wrapped, IntText, StrText, Holds, ShowsInt, ShowsStr, Item.Meaning, Item.Valid, Item.Supplied, WellFormed;
    var r := NumbersOf(it, args);
    var m := it.Meaning(args);
    var tail := args[it.Stars()..];
    Skips(it);
    var c := Converted(it.conv, m, tail);
    if it.conv in "diouxX" {
      ValueRange(it, args, r);
      IntParts(it, r, m);
      assert c == Some((IntText(r.value, BaseOf(it.conv), m.width, m.precision, IntFlags(it, m)), 1));
    } else if it.conv == 's' {
      StrShown(it, r, m, tail[0].str);
    }
    assert Shows(it, r, tail, c.value.0);
  }

  lemma Skips(it: Item)
    requires WellFormed(it)
    ensures !OutsideModel(it.conv)
  {
    NotSpecial(it.conv);
  }

  lemma ValueRange(it: Item, args: seq<Arg>, r: Numbers)
    requires WellFormed(it) && Fits(it, args) && AreGiven(it, args, r) && it.conv in "diouxX"
    ensures it.conv !in "di" ==> 0 <= r.value < UINTMAX
    ensures r.value != -(UINTMAX / 2)
  {
  }

  // ----- nothing else is printed -----

  lemma HoldsOnly(a: int, b: int, v: int, size: int, signed: bool)
    requires size > 0 && Holds(a, v, size, signed) && Holds(b, v, size, signed)
    ensures a == b
  {
    var i, j := (a - v) / size, (b - v) / size;
    assert a - v == i * size && b - v == j * size;
    assert a - b == (i - j) * size;
    Multiples(i - j, size);
  }

  lemma {:induction false} Positive(s: string, table: string)
    requires Numeral(s, table) && s[0] != '0' && table != "" && table[0] == '0'
    ensures NumberIn(s, table) > 0
    decreases |s|
  {
    var n := |s| - 1;
    if n == 0 {
      assert s[..0] == "";
    } else {
      Positive(s[..n], table);
      assert NumberIn(s[..n], table) * |table| > 0;
    }
  }

  lemma {:induction false} ShortestOnly(s: string, t: string, table: string, n: int)
    requires Shortest(s, table, n) && Shortest(t, table, n) && |table| >= 2 && table[0] == '0'
    ensures s == t
    decreases |s|
  {
    var i, j, b := |s| - 1, |t| - 1, |table|;
    var head, tail := NumberIn(s[..i], table), NumberIn(t[..j], table);
    SameDigits(head, Place(s[i], table), tail, Place(t[j], table), b);
    assert s[i] == t[j];
    if i == 0 && j == 0 {
    } else if i == 0 {
      assert s[..0] == "";
      Positive(t[..j], table);
    } else if j == 0 {
      assert t[..0] == "";
      Positive(s[..i], table);
    } else {
      ShortestOnly(s[..i], t[..j], table, head);
      assert s == s[..i] + [s[i]] && t == t[..j] + [t[j]];
    }
  }

  lemma SameDigits(a: nat, p: nat, c: nat, q: nat, b: nat)
    requires a * b + p == c * b + q && p < b && q < b
    ensures a == c && p == q
  {
    assert (a - c) * b == q - p;
    Multiples(a - c, b);
  }

  lemma TableStarts(conv: char)
    ensures |Table(conv)| >= 2 && Table(conv)[0] == '0'
  {
  }

  lemma PartsOnly(it: Item, r: Numbers, text: string, left: nat, zeros: nat, digits: string, right: nat,
                  text': string, left': nat, zeros': nat, digits': string, right': nat)
    requires Parts(it, r, text, left, zeros, digits, right) && Parts(it, r, text', left', zeros', digits', right')
    ensures text == text'
  {
    hide Shortest, Table, SignText, PrefixText, DigitCount;
    TableStarts(it.conv);
    ShortestOnly(digits, digits', Table(it.conv), if r.value < 0 then -r.value else r.value);
    assert left + zeros + right == left' + zeros' + right';
  }

  lemma StrOnly(it: Item, r: Numbers, s: string, shown: string, text: string, shown': string, text': string)
    requires StrParts(it, r, s, shown, text) && StrParts(it, r, s, shown', text')
    ensures text == text'
  {
    assert shown == s[..|shown|] && shown' == s[..|shown'|];
  }

  lemma ShowsOnly(it: Item, r: Numbers, args: seq<Arg>, s: string, t: string)
    requires Shows(it, r, args, s) && Shows(it, r, args, t)
    ensures s == t
  {
    hide Parts, StrParts;
    if it.conv in "diouxX" {
      var left: nat, zeros: nat, digits: string, right: nat :| Parts(it, r, s, left, zeros, digits, right);
      var left': nat, zeros': nat, digits': string, right': nat :| Parts(it, r, t, left', zeros', digits', right');
      PartsOnly(it, r, s, left, zeros, digits, right, t, left', zeros', digits', right');
    } else if it.conv == 's' {
      var shown: string :| StrParts(it, r, StringOf(args[0].str), shown, s);
      var shown': string :| StrParts(it, r, StringOf(args[0].str), shown', t);
      StrOnly(it, r, StringOf(args[0].str), shown, s, shown', t);
    } else if it.conv == 'c' {
      OneByte(s[0] as int, t[0] as int, args[0].num);
    }
  }

  lemma OneByte(a: int, b: int, v: int)
    requires 0 <= a < 0x100 && 0 <= b < 0x100 && (a - v) % 0x100 == 0 && (b - v) % 0x100 == 0
    ensures a == b
  {
  }

  lemma CountsOnly(n: int, m: int, count: Count, args: seq<Arg>, i: nat)
    requires Counts(n, count, args, i) && Counts(m, count, args, i)
    ensures n == m
  {
    hide Holds, NumberIn;
    if count.Star? {
      HoldsOnly(n, m, args[i].num, 0x1_0000_0000, true);
    }
  }

  lemma SameNumbers(it: Item, args: seq<Arg>, r: Numbers, q: Numbers)
    requires AreGiven(it, args, r) && AreGiven(it, args, q)
    ensures r.width == q.width && r.precision == q.precision && (it.conv in "diouxX" ==> r.value == q.value)
  {
    hide Counts, Holds, SizeOf;
    CountsOnly(r.width, q.width, it.width, args, 0);
    if it.precision.Some? {
      CountsOnly(r.precision.value, q.precision.value, it.precision.value, args, it.width.Taken());
    }
    if it.conv in "diouxX" {
      HoldsOnly(r.value, q.value, args[it.Stars()].num, SizeOf(it.mod), it.conv in "di");
    }
  }

  /** A directive prints one text. */
  lemma PrintsOnly(it: Item, args: seq<Arg>, s: string, t: string)
    requires Prints(it, args, s) && Prints(it, args, t)
    ensures s == t
  {
    hide AreGiven, Shows;
    var r: Numbers :| AreGiven(it, args, r) && Shows(it, r, args[it.Stars()..], s);
    var q: Numbers :| AreGiven(it, args, q) && Shows(it, q, args[it.Stars()..], t);
    SameNumbers(it, args, r, q);
    Regiven(it, r, q, args[it.Stars()..], t);
    ShowsOnly(it, r, args[it.Stars()..], s, t);
  }

  lemma Regiven(it: Item, r: Numbers, q: Numbers, args: seq<Arg>, t: string)
    requires r.width == q.width && r.precision == q.precision && (it.conv in "diouxX" ==> r.value == q.value)
    requires Shows(it, q, args, t)
    ensures Shows(it, r, args, t)
  {
    hide Parts, StrParts;
    if it.conv == 's' {
      var shown: string :| StrParts(it, q, StringOf(args[0].str), shown, t);
      assert StrParts(it, r, StringOf(args[0].str), shown, t) by {
        SameStr(it, r, q, StringOf(args[0].str), shown, t);
      }
    } else if it.conv in "diouxX" {
      assert r == q;
    }
  }

  lemma SameStr(it: Item, r: Numbers, q: Numbers, s: string, shown: string, t: string)
    requires r.width == q.width && r.precision == q.precision && StrParts(it, q, s, shown, t)
    ensures StrParts(it, r, s, shown, t)
  {
  }

  // ----- formats -----

  /** A part of a format. */
  datatype Piece = Plain(text: string) | Conv(item: Item) {
    predicate Valid() {
      match this
      case Plain(text) => '%' !in text
      case Conv(it) => WellFormed(it)
    }

    function Text(): string { if Plain? then text else item.Text() }

    function Takes(): nat { if Plain? then 0 else Taken(item) }
  }

  function FormatOf(pieces: seq<Piece>): string {
    if pieces == [] then "" else pieces[0].Text() + FormatOf(pieces[1..])
  }

  predicate AllFit(pieces: seq<Piece>, args: seq<Arg>) {
    pieces == []
    || (&& pieces[0].Valid() && pieces[0].Takes() <= |args| && (pieces[0].Conv? ==> Fits(pieces[0].item, args))
        && AllFit(pieces[1..], args[pieces[0].Takes()..]))
  }

  /** The text is printed piece by piece, and each piece takes its arguments from the head of the list. */
  ghost predicate PrintsAll(pieces: seq<Piece>, args: seq<Arg>, text: string)
    decreases |pieces|
  {
    if pieces == [] then text == ""
    else
      && pieces[0].Takes() <= |args|
      && exists k: nat :: k <= |text| && PrintsPiece(pieces[0], args, text[..k])
                          && PrintsAll(pieces[1..], args[pieces[0].Takes()..], text[k..])
  }

  ghost predicate PrintsPiece(p: Piece, args: seq<Arg>, text: string) {
    match p
    case Plain(t) => text == t
    case Conv(it) => Prints(it, args, text)
  }

  lemma {:induction false} PlainRead(s: string, rest: string, args: seq<Arg>, out: string)
    requires '%' !in s
    ensures Run(s + rest, START, args, out) == Run(rest, START, args, out + s)
    decreases |s|
  {
    if s == "" {
      assert s + rest == rest && out + s == out;
    } else {
      assert (s + rest)[1..] == s[1..] + rest;
      PlainRead(s[1..], rest, args, out + [s[0]]);
      assert out + [s[0]] + s[1..] == out + s;
    }
  }

  lemma PieceRead(p: Piece, rest: string, args: seq<Arg>, out: string) returns (text: string)
    requires p.Valid() && p.Takes() <= |args| && (p.Conv? ==> Fits(p.item, args))
    ensures PrintsPiece(p, args, text)
    ensures Run(p.Text() + rest, START, args, out) == Run(rest, START, args[p.Takes()..], out + text)
  {
    hide Run, Converted, Item.Text, WellFormed, Fits, Prints, Item.Meaning;
    if p.Plain? {
      text := p.text;
      PlainRead(p.text, rest, args, out);
      assert args[0..] == args;
    } else {
      ConvertedPrints(p.item, args);
      text := Converted(p.item.conv, p.item.Meaning(args), args[p.item.Stars()..]).value.0;
      DirectiveMeans(p.item, rest, args, out);
    }
  }

  lemma {:induction false} FormatRead(pieces: seq<Piece>, args: seq<Arg>, out: string) returns (text: string)
    requires AllFit(pieces, args)
    ensures PrintsAll(pieces, args, text)
    ensures Run(FormatOf(pieces), START, args, out) == Output(out + text, false)
    decreases |pieces|
  {
    hide Run, Fits, PrintsPiece, Piece.Valid, Piece.Text;
    if pieces == [] {
      text := "";
      EndOfFormat(args, out);
      assert out + text == out;
    } else {
      var head := PieceRead(pieces[0], FormatOf(pieces[1..]), args, out);
      var tail := FormatRead(pieces[1..], args[pieces[0].Takes()..], out + head);
      text := head + tail;
      assert text[..|head|] == head && text[|head|..] == tail;
      assert out + head + tail == out + text;
    }
  }

  lemma EndOfFormat(args: seq<Arg>, out: string)
    ensures Run("", START, args, out) == Output(out, false)
  {
  }

  lemma {:induction false} PrintsAllOnly(pieces: seq<Piece>, args: seq<Arg>, s: string, t: string)
    requires PrintsAll(pieces, args, s) && PrintsAll(pieces, args, t)
    ensures s == t
    decreases |pieces|
  {
    hide Prints;
    if pieces != [] {
      var more := args[pieces[0].Takes()..];
      var i: nat :| i <= |s| && PrintsPiece(pieces[0], args, s[..i]) && PrintsAll(pieces[1..], more, s[i..]);
      var j: nat :| j <= |t| && PrintsPiece(pieces[0], args, t[..j]) && PrintsAll(pieces[1..], more, t[j..]);
      if pieces[0].Conv? {
        PrintsOnly(pieces[0].item, args, s[..i], t[..j]);
      }
      PrintsAllOnly(pieces[1..], more, s[i..], t[j..]);
      assert s == s[..i] + s[i..] && t == t[..j] + t[j..];
    }
  }

  /** A format of plain text and directives writes the one text that its pieces print, and nothing else. */
  lemma FormatMeans(pieces: seq<Piece>, args: seq<Arg>, text: string)
    requires AllFit(pieces, args)
    ensures Formatted(FormatOf(pieces), args) == Output(text, false) <==> PrintsAll(pieces, args, text)
  {
    hide Run, PrintsAll, FormatOf, AllFit;
    var t := FormatRead(pieces, args, "");
    assert "" + t == t;
    if PrintsAll(pieces, args, text) {
      PrintsAllOnly(pieces, args, text, t);
    }
  }

  // ----- where the standard asks for something else -----

  /** The standard prints no digits at all for the value zero under the precision zero, unless the alternative
      form of an octal number asks for one. */
  ghost predicate StandardInt(it: Item, r: Numbers, text: string) {
    if r.value == 0 && r.Precision() == Some(0) && !(it.conv == 'o' && '#' in it.flags) then
      var sign := SignText(it, 0);
      && |text| == Max(r.Width(), |sign|)
      && text == if r.Left(it.flags) then sign + Repeat(' ', |text| - |sign|) else Repeat(' ', |text| - |sign|) + sign
    else ShowsInt(it, r, text)
  }

  /** An integer is printed as the standard says if and only if it is not zero, or its precision is not, or it
      is octal in the alternative form. */
  lemma StandardIntIff(it: Item, r: Numbers, text: string)
    requires it.conv in "diouxX" && ShowsInt(it, r, text)
    ensures StandardInt(it, r, text)
       <==> !(r.value == 0 && r.Precision() == Some(0)) || (it.conv == 'o' && '#' in it.flags)
  {
    if r.value == 0 {
      HasZero(it, r, text);
      forall sign: string, n | sign == SignText(it, 0) ensures '0' !in sign + Repeat(' ', n) && '0' !in Repeat(' ', n) + sign {
      }
    }
  }

  lemma HasZero(it: Item, r: Numbers, text: string)
    requires r.value == 0 && ShowsInt(it, r, text)
    ensures '0' in text
  {
    hide Parts;
    var left: nat, zeros: nat, digits: string, right: nat :| Parts(it, r, text, left, zeros, digits, right);
    ZeroDigits(it, r, text, left, zeros, digits, right);
  }

  lemma ZeroDigits(it: Item, r: Numbers, text: string, left: nat, zeros: nat, digits: string, right: nat)
    requires r.value == 0 && Parts(it, r, text, left, zeros, digits, right)
    ensures '0' in text
  {
    hide Table, SignText, PrefixText, DigitCount;
    TableStarts(it.conv);
    if digits[0] != '0' {
      Positive(digits, Table(it.conv));
    }
    assert text[left + |SignText(it, 0)| + |PrefixText(it, 0)| + zeros] == digits[0];
  }

  /** The standard pads a character to the width. */
  ghost predicate StandardChar(it: Item, r: Numbers, v: int, text: string) {
    && |text| == Max(r.Width(), 1)
    && var c := if r.Left(it.flags) then text[0] else text[|text| - 1];
       && c as int < 0x100 && (c as int - v) % 0x100 == 0
       && text == if r.Left(it.flags) then [c] + Repeat(' ', |text| - 1) else Repeat(' ', |text| - 1) + [c]
  }

  /** A character is printed as the standard says if and only if its width is at most one. */
  lemma StandardCharIff(it: Item, r: Numbers, args: seq<Arg>, text: string)
    requires it.conv == 'c' && Shows(it, r, args, text)
    ensures StandardChar(it, r, args[0].num, text) <==> r.Width() <= 1
  {
  }
}
