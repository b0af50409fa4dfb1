/** What a format and its arguments stand for, without any buffer: integer, string, character and
    percent conversions of snprintf.c. */
module PrintfSpec {
  datatype Option<T> = None | Some(value: T)

  /** An argument: an integer of any type, or a string, which may be missing. */
  datatype Arg = IntArg(num: int) | StrArg(str: Option<string>)

  datatype Flags = Flags(minus: bool, plus: bool, space: bool, alt: bool, zero: bool, up: bool, unsigned: bool)

  const NO_FLAGS := Flags(false, false, false, false, false, false, false)

  /** The length modifiers. */
  datatype Mod = NoMod | CharMod | ShortMod | LongMod | LongLongMod | IntMaxMod | PtrDiffMod | SizeMod

  const INT_MAX := 0x7fff_ffff
  const UINTMAX := 0x1_0000_0000_0000_0000
  const NO_PRECISION := -1

  function Max(a: int, b: int): int { if a >= b then a else b }

  function Min(a: int, b: int): int { if a <= b then a else b }

  function Repeat(c: char, n: int): (r: string)
    ensures |r| == Max(n, 0) && forall i :: 0 <= i < |r| ==> r[i] == c
  {
    seq(Max(n, 0), _ => c)
  }

  // ----- digits -----

  function DigitChar(d: int, up: bool): char
    requires 0 <= d < 16
  {
    if d < 10 then ('0' as int + d) as char
    else if up then ('A' as int + d - 10) as char
    else ('a' as int + d - 10) as char
  }

  predicate Base(b: int) { b == 8 || b == 10 || b == 16 }

  function Digits(v: nat, base: int, up: bool): (r: string)
    requires Base(base)
    ensures r != ""
  {
    if v < base then [DigitChar(v, up)] else Digits(v / base, base, up) + [DigitChar(v % base, up)]
  }

  /** The value of a digit, whatever the case. */
  function DigitValue(c: char): Option<int> {
    if '0' <= c <= '9' then Some(c as int - '0' as int)
    else if 'a' <= c <= 'f' then Some(c as int - 'a' as int + 10)
    else if 'A' <= c <= 'F' then Some(c as int - 'A' as int + 10)
    else None
  }

  predicate IsNumeral(s: string, base: int) {
    s != "" && forall i :: 0 <= i < |s| ==> DigitValue(s[i]).Some? && DigitValue(s[i]).value < base
  }

  /** The number that digits denote. */
  function Denotes(s: string, base: int): int
    requires forall i :: 0 <= i < |s| ==> DigitValue(s[i]).Some?
  {
    if s == "" then 0 else Denotes(s[..|s| - 1], base) * base + DigitValue(s[|s| - 1]).value
  }

  // ----- conversions -----

  /** The string conversion. */
  function StrText(value: Option<string>, width: int, precision: int, flags: Flags): string {
    var s := if value.None? then "(null)" else value.value;
    var shown := if precision == NO_PRECISION then s else s[..Min(|s|, Max(precision, 0))];
    var pad := Repeat(' ', width - |shown|);
    if flags.minus then shown + pad else pad + shown
  }

  function Unsigned(value: int, flags: Flags): nat {
    if flags.unsigned then value % UINTMAX else if value < 0 then -value else value
  }

  function SignOf(value: int, flags: Flags): string {
    if flags.unsigned then ""
    else if value < 0 then "-" else if flags.plus then "+" else if flags.space then " " else ""
  }

  function PrefixOf(value: int, base: int, flags: Flags): string {
    if flags.alt && Unsigned(value, flags) != 0 && base == 16 then if flags.up then "0X" else "0x" else ""
  }

  /** The alternative form of an octal number has a zero in front. */
  function LeastDigits(value: int, base: int, precision: int, flags: Flags): int
    requires Base(base)
  {
    var n := |Digits(Unsigned(value, flags), base, flags.up)|;
    if flags.alt && Unsigned(value, flags) != 0 && base == 8 && precision <= n then n + 1 else precision
  }

  /** The integer conversions. */
  function IntText(value: int, base: int, width: int, precision: int, flags: Flags): string
    requires Base(base)
  {
    var digits := Digits(Unsigned(value, flags), base, flags.up);
    var head := SignOf(value, flags) + PrefixOf(value, base, flags);
    var least := LeastDigits(value, base, precision, flags);
    var zeros := Max(least - |digits|, 0);
    var spaces := Max(width - Max(least, |digits|) - |head|, 0);
    if flags.minus then head + Repeat('0', zeros) + digits + Repeat(' ', spaces)
    else if flags.zero && precision == NO_PRECISION then head + Repeat('0', zeros + spaces) + digits
    else Repeat(' ', spaces) + head + Repeat('0', zeros) + digits
  }

  /** The argument as the type of the conversion holds it. */
  function Wrapped(v: int, m: Mod, unsigned: bool): int {
    var size := match m
      case CharMod => 0x100
      case ShortMod => 0x1_0000
      case NoMod => 0x1_0000_0000
      case _ => UINTMAX;
    var r := v % size;
    if !unsigned && r >= size / 2 then r - size else r
  }

  // ----- the format -----

  datatype Phase = Plain | FlagPhase | WidthPhase | DotPhase | PrecisionPhase | ModPhase | ConvPhase

  /** The directive read so far. */
  datatype Directive = Directive(phase: Phase, flags: Flags, width: int, precision: int, mod: Mod)

  const START := Directive(Plain, NO_FLAGS, 0, NO_PRECISION, NoMod)

  /** The characters written, and whether the format was left because a number in it was too large.
      The rest is not part of this model: an argument that is missing or of another kind, a floating
      point conversion, a character count, the quote flag, or the most negative integer. */
  datatype Output = Output(text: string, overflow: bool) | Unmodelled

  predicate IsDigit(c: char) { '0' <= c <= '9' }

  function DigitOf(c: char): int { c as int - '0' as int }

  function FlagOf(c: char, f: Flags): Option<Flags> {
    if c == '-' then Some(f.(minus := true))
    else if c == '+' then Some(f.(plus := true))
    else if c == ' ' then Some(f.(space := true))
    else if c == '#' then Some(f.(alt := true))
    else if c == '0' then Some(f.(zero := true))
    else None
  }

  /** A length modifier at the head of the format, and how long it is. */
  function ModOf(fmt: string): (r: Option<(Mod, nat)>)
    requires fmt != ""
    ensures r.Some? ==> 1 <= r.value.1 <= |fmt|
  {
    if fmt[0] == 'h' then if |fmt| > 1 && fmt[1] == 'h' then Some((CharMod, 2)) else Some((ShortMod, 1))
    else if fmt[0] == 'l' then if |fmt| > 1 && fmt[1] == 'l' then Some((LongLongMod, 2)) else Some((LongMod, 1))
    else if fmt[0] == 'j' then Some((IntMaxMod, 1))
    else if fmt[0] == 't' then Some((PtrDiffMod, 1))
    else if fmt[0] == 'z' then Some((SizeMod, 1))
    else None
  }

  predicate SignedConv(c: char) { c == 'd' || c == 'i' }

  predicate UnsignedConv(c: char) { c == 'u' || c == 'o' || c == 'x' || c == 'X' }

  function BaseOf(c: char): (b: int)
    ensures Base(b)
  {
    if c == 'x' || c == 'X' then 16 else if c == 'o' then 8 else 10
  }

  /** Conversions that need no argument, and characters that are no conversion at all. */
  predicate OutsideModel(c: char) {
    c in "AFafEeGgpn"
  }

  /** What the conversion character writes, and how many arguments it takes; nothing if that is outside
      this model. */
  function Converted(c: char, d: Directive, args: seq<Arg>): Option<(string, nat)> {
    if c == '%' then Some(("%", 0))
    else if OutsideModel(c) then None
    else if SignedConv(c) || UnsignedConv(c) then
      if args == [] || !args[0].IntArg? then None
      else
        var flags := d.flags.(up := c == 'X', unsigned := UnsignedConv(c));
        var v := Wrapped(args[0].num, d.mod, UnsignedConv(c));
        if v == -(UINTMAX / 2) then None
        else Some((IntText(v, BaseOf(c), d.width, d.precision, flags), 1))
    else if c == 'c' then
      if args == [] || !args[0].IntArg? then None else Some(([(args[0].num % 256) as char], 1))
    else if c == 's' then
      if args == [] || !args[0].StrArg? then None
      else Some((StrText(args[0].str, d.width, d.precision, d.flags), 1))
    else Some(("", 0))
  }

  function Rank(p: Phase): nat {
    match p
    case Plain => 0
    case FlagPhase => 5
    case WidthPhase => 4
    case DotPhase => 3
    case PrecisionPhase => 2
    case ModPhase => 1
    case ConvPhase => 0
  }

  /** The unbounded output. */
  function Run(fmt: string, d: Directive, args: seq<Arg>, out: string): Output
    decreases |fmt|, Rank(d.phase)
  {
    if fmt == "" then Output(out, false)
    else
      match d.phase
      case Plain =>
        if fmt[0] == '%' then Run(fmt[1..], d.(phase := FlagPhase), args, out)
        else Run(fmt[1..], d, args, out + [fmt[0]])
      case FlagPhase =>
        (match FlagOf(fmt[0], d.flags)
         case Some(f) => Run(fmt[1..], d.(flags := f), args, out)
         case None => if fmt[0] == '\'' then Unmodelled else Run(fmt, d.(phase := WidthPhase), args, out))
      case WidthPhase =>
        if IsDigit(fmt[0]) then
          if d.width > (INT_MAX - DigitOf(fmt[0])) / 10 then Output(out, true)
          else Run(fmt[1..], d.(width := 10 * d.width + DigitOf(fmt[0])), args, out)
        else if fmt[0] == '*' then
          if args == [] || !args[0].IntArg? then Unmodelled
          else
            var w := Wrapped(args[0].num, NoMod, false);
            if w == -INT_MAX - 1 then Unmodelled
            else if w < 0 then
              Run(fmt[1..], d.(phase := DotPhase, width := -w, flags := d.flags.(minus := true)), args[1..], out)
            else Run(fmt[1..], d.(phase := DotPhase, width := w), args[1..], out)
        else Run(fmt, d.(phase := DotPhase), args, out)
      case DotPhase =>
        if fmt[0] == '.' then Run(fmt[1..], d.(phase := PrecisionPhase), args, out)
        else Run(fmt, d.(phase := ModPhase), args, out)
      case PrecisionPhase =>
        var p := if d.precision == NO_PRECISION then 0 else d.precision;
        if IsDigit(fmt[0]) then
          if p > (INT_MAX - DigitOf(fmt[0])) / 10 then Output(out, true)
          else Run(fmt[1..], d.(precision := 10 * p + DigitOf(fmt[0])), args, out)
        else if fmt[0] == '*' then
          if args == [] || !args[0].IntArg? then Unmodelled
          else
            var q := Wrapped(args[0].num, NoMod, false);
            Run(fmt[1..], d.(phase := ModPhase, precision := if q < 0 then NO_PRECISION else q), args[1..], out)
        else Run(fmt, d.(phase := ModPhase, precision := p), args, out)
      case ModPhase =>
        if fmt[0] == 'L' then Unmodelled
        else
          (match ModOf(fmt)
           case Some((m, n)) => Run(fmt[n..], d.(phase := ConvPhase, mod := m), args, out)
           case None => Run(fmt, d.(phase := ConvPhase), args, out))
      case ConvPhase =>
        match Converted(fmt[0], d, args)
        case Some((text, n)) => if n > |args| then Unmodelled else Run(fmt[1..], START, args[n..], out + text)
        case None => Unmodelled
  }

  function Formatted(fmt: string, args: seq<Arg>): Output { Run(fmt, START, args, "") }
}
