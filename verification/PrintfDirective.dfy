/** What a directive of the format means: its flags, its width and precision, as digits or from arguments, its
    length modifier and its conversion. */
module PrintfDirective {
  import opened PrintfSpec

  // ----- directives -----

  /** Decimal digits as the format gives a width or a precision. */
  function DecimalFrom(v: int, s: string): int
    requires AllDigits(s)
    decreases |s|
  {
    if s == "" then v else DecimalFrom(10 * v + DigitOf(s[0]), s[1..])
  }

  predicate AllDigits(s: string) { forall i :: 0 <= i < |s| ==> IsDigit(s[i]) }

  lemma {:induction false} DecimalGrows(v: int, s: string)
    requires 0 <= v && AllDigits(s)
    ensures v <= DecimalFrom(v, s)
    decreases |s|
  {
    if s != "" {
      DecimalGrows(10 * v + DigitOf(s[0]), s[1..]);
    }
  }

  predicate IsFlag(c: char) { c == '-' || c == '+' || c == ' ' || c == '#' || c == '0' }

  predicate AllFlags(s: string) { forall i :: 0 <= i < |s| ==> IsFlag(s[i]) }

  function FlagsFrom(f: Flags, s: string): Flags
    requires AllFlags(s)
    decreases |s|
  {
    if s == "" then f else FlagsFrom(FlagOf(s[0], f).value, s[1..])
  }

  lemma {:induction false} FlagsRead(s: string, rest: string, d: Directive, args: seq<Arg>, out: string)
    requires d.phase == FlagPhase && AllFlags(s)
    ensures Run(s + rest, d, args, out) == Run(rest, d.(flags := FlagsFrom(d.flags, s)), args, out)
    decreases |s|
  {
    if s == "" {
      assert s + rest == rest;
    } else {
      assert (s + rest)[1..] == s[1..] + rest;
      FlagsRead(s[1..], rest, d.(flags := FlagOf(s[0], d.flags).value), args, out);
    }
  }

  lemma {:induction false} WidthRead(s: string, rest: string, d: Directive, args: seq<Arg>, out: string)
    requires d.phase == WidthPhase && AllDigits(s) && 0 <= d.width && DecimalFrom(d.width, s) <= INT_MAX
    ensures Run(s + rest, d, args, out) == Run(rest, d.(width := DecimalFrom(d.width, s)), args, out)
    decreases |s|
  {
    if s == "" {
      assert s + rest == rest;
    } else {
      assert (s + rest)[1..] == s[1..] + rest;
      var w := 10 * d.width + DigitOf(s[0]);
      DecimalGrows(w, s[1..]);
      WidthRead(s[1..], rest, d.(width := w), args, out);
    }
  }

  lemma {:induction false} PrecisionRead(s: string, rest: string, d: Directive, args: seq<Arg>, out: string)
    requires d.phase == PrecisionPhase && AllDigits(s) && 0 <= d.precision && DecimalFrom(d.precision, s) <= INT_MAX
    ensures Run(s + rest, d, args, out) == Run(rest, d.(precision := DecimalFrom(d.precision, s)), args, out)
    decreases |s|
  {
    if s == "" {
      assert s + rest == rest;
    } else {
      assert (s + rest)[1..] == s[1..] + rest;
      var p := 10 * d.precision + DigitOf(s[0]);
      DecimalGrows(p, s[1..]);
      PrecisionRead(s[1..], rest, d.(precision := p), args, out);
    }
  }

  /** The length modifier that is written. */
  function ModNamed(mod: string): Mod {
    if mod == "" || ModOf(mod).None? then NoMod else ModOf(mod).value.0
  }

  /** A width or a precision: digits, or an argument's value. */
  datatype Count = Given(digits: string) | Star {
    predicate Valid() { Given? ==> AllDigits(digits) && DecimalFrom(0, digits) <= INT_MAX }

    function Text(): string { if Given? then digits else "*" }

    /** How many arguments it takes. */
    function Taken(): nat { if Given? then 0 else 1 }
  }

  /** A directive of the format, by its parts. */
  datatype Item = Item(flags: string, width: Count, precision: Option<Count>, mod: string, conv: char) {
    predicate Valid() {
      && AllFlags(flags) && width.Valid() && (width.Given? && width.digits != "" ==> width.digits[0] != '0')
      && (precision.Some? ==> precision.value.Valid())
      && (mod == "" || mod == "hh" || mod == "h" || mod == "ll" || mod == "l" || mod == "j" || mod == "t" || mod == "z")
      && ConvChar(conv)
    }

    function PrecisionText(): string { if precision.Some? then "." + precision.value.Text() else "" }

    function Text(): string { "%" + flags + width.Text() + PrecisionText() + mod + [conv] }

    /** How many arguments its width and its precision take. */
    function Stars(): nat { width.Taken() + if precision.Some? then precision.value.Taken() else 0 }

    /** The arguments that the width and the precision take are integers, and the width is not the most
        negative one. */
    predicate Supplied(args: seq<Arg>) {
      && |args| >= Stars() && (forall i :: 0 <= i < Stars() ==> args[i].IntArg?)
      && (width.Star? ==> Wrapped(args[0].num, NoMod, false) != -INT_MAX - 1)
    }

    /** The width that is given, which may be negative, and the precision, which may be negative or missing. */
    function WidthOf(args: seq<Arg>): int
      requires Valid() && Supplied(args)
    {
      if width.Given? then DecimalFrom(0, width.digits) else Wrapped(args[0].num, NoMod, false)
    }

    function PrecisionOf(args: seq<Arg>): int
      requires Valid() && Supplied(args)
    {
      if precision.None? then NO_PRECISION
      else if precision.value.Given? then DecimalFrom(0, precision.value.digits)
      else Wrapped(args[width.Taken()].num, NoMod, false)
    }

    function Meaning(args: seq<Arg>): Directive
      requires Valid() && Supplied(args)
    {
      var w := WidthOf(args);
      var f := FlagsFrom(NO_FLAGS, flags);
      var p := PrecisionOf(args);
      Directive(ConvPhase, if w < 0 then f.(minus := true) else f, if w < 0 then -w else w,
                if p < 0 then NO_PRECISION else p, ModNamed(mod))
    }
  }

  /** A conversion, or a character that is none of the rest of a directive, which is skipped. */
  predicate ConvChar(c: char) { !('0' <= c <= '9') && c !in "-+ #'*.hlLjtzAFafEeGgpn" }

  lemma AfterFlags(fmt: string, d: Directive, args: seq<Arg>, out: string)
    requires fmt != "" && d.phase == FlagPhase && !IsFlag(fmt[0]) && fmt[0] != '\''
    ensures Run(fmt, d, args, out) == Run(fmt, d.(phase := WidthPhase), args, out)
  {
  }

  lemma AfterWidth(fmt: string, d: Directive, args: seq<Arg>, out: string)
    requires fmt != "" && d.phase == WidthPhase && !IsDigit(fmt[0]) && fmt[0] != '*'
    ensures Run(fmt, d, args, out) == Run(fmt, d.(phase := DotPhase), args, out)
  {
  }

  lemma AfterDot(fmt: string, d: Directive, args: seq<Arg>, out: string)
    requires fmt != "" && d.phase == DotPhase && d.precision == NO_PRECISION
    ensures fmt[0] != '.' ==> Run(fmt, d, args, out) == Run(fmt, d.(phase := ModPhase), args, out)
    ensures fmt[0] == '.' && |fmt| > 1 ==>
      Run(fmt, d, args, out) == Run(fmt[1..], d.(phase := PrecisionPhase, precision := 0), args, out)
  {
  }

  lemma AfterPrecision(fmt: string, d: Directive, args: seq<Arg>, out: string)
    requires fmt != "" && d.phase == PrecisionPhase && 0 <= d.precision && !IsDigit(fmt[0]) && fmt[0] != '*'
    ensures Run(fmt, d, args, out) == Run(fmt, d.(phase := ModPhase), args, out)
  {
  }

  lemma ModRead(mod: string, c: char, rest: string, d: Directive, args: seq<Arg>, out: string)
    requires d.phase == ModPhase && d.mod == NoMod && ConvChar(c)
    requires mod == "" || mod == "hh" || mod == "h" || mod == "ll" || mod == "l" || mod == "j" || mod == "t" || mod == "z"
    ensures Run(mod + [c] + rest, d, args, out)
         == Run([c] + rest, d.(phase := ConvPhase, mod := ModNamed(mod)), args, out)
  {
    hide Converted, IsDigit;
    var fmt := mod + [c] + rest;
    if mod == "" {
      assert fmt == [c] + rest;
    } else {
      assert fmt[0] == mod[0] && fmt[|mod|..] == [c] + rest;
      assert |mod| == 1 ==> fmt[1] == c;
      assert |mod| == 2 ==> fmt[1] == mod[1];
    }
  }

  lemma ConvRead(c: char, rest: string, d: Directive, args: seq<Arg>, out: string)
    requires d.phase == ConvPhase && Converted(c, d, args).Some? && Converted(c, d, args).value.1 <= |args|
    ensures Run([c] + rest, d, args, out)
         == Run(rest, START, args[Converted(c, d, args).value.1..], out + Converted(c, d, args).value.0)
  {
    hide Converted;
    assert ([c] + rest)[1..] == rest;
  }

  /** The width, as digits or from an argument. */
  lemma CountedWidth(it: Item, rest: string, f: Flags, args: seq<Arg>, out: string)
    requires it.Valid() && it.Supplied(args)
    requires rest != "" && !IsDigit(rest[0]) && rest[0] != '*'
    ensures var w := it.WidthOf(args); var d := START.(phase := WidthPhase, flags := f);
      Run(it.width.Text() + rest, d, args, out)
      == Run(rest, d.(phase := DotPhase, flags := if w < 0 then f.(minus := true) else f, width := if w < 0 then -w else w),
             args[it.width.Taken()..], out)
  {
    var d := START.(phase := WidthPhase, flags := f);
    if it.width.Given? {
      hide DecimalFrom, Run;
      WidthRead(it.width.digits, rest, d, args, out);
      DecimalGrows(0, it.width.digits);
      AfterWidth(rest, d.(width := it.WidthOf(args)), args, out);
      assert args[0..] == args;
    } else {
      StarRead(rest, d, args, out);
    }
  }

  lemma StarRead(rest: string, d: Directive, args: seq<Arg>, out: string)
    requires d.phase == WidthPhase || d.phase == PrecisionPhase
    requires args != [] && args[0].IntArg?
    requires d.phase == WidthPhase ==> Wrapped(args[0].num, NoMod, false) != -INT_MAX - 1
    ensures var w := Wrapped(args[0].num, NoMod, false);
      Run("*" + rest, d, args, out)
      == if d.phase == PrecisionPhase then
           Run(rest, d.(phase := ModPhase, precision := if w < 0 then NO_PRECISION else w), args[1..], out)
         else if w < 0 then
           Run(rest, d.(phase := DotPhase, flags := d.flags.(minus := true), width := -w), args[1..], out)
         else Run(rest, d.(phase := DotPhase, width := w), args[1..], out)
  {
    hide Wrapped;
    assert ("*" + rest)[1..] == rest && ("*" + rest)[0] == '*';
  }

  /** The precision, if there is one, as digits or from an argument. */
  lemma CountedPrecision(it: Item, rest: string, d: Directive, all: seq<Arg>, out: string)
    requires it.Valid() && it.Supplied(all)
    requires d.phase == DotPhase && d.precision == NO_PRECISION
    requires rest != "" && rest[0] != '.' && !IsDigit(rest[0]) && rest[0] != '*'
    ensures var p := it.PrecisionOf(all);
      Run(it.PrecisionText() + rest, d, all[it.width.Taken()..], out)
      == Run(rest, d.(phase := ModPhase, precision := if p < 0 then NO_PRECISION else p), all[it.Stars()..], out)
  {
    hide Run, DecimalFrom, Wrapped, AllDigits;
    var args := all[it.width.Taken()..];
    var text := it.PrecisionText() + rest;
    AfterDot(text, d, args, out);
    if it.precision.None? {
      assert text == rest;
    } else if it.precision.value.Given? {
      var digits := it.precision.value.digits;
      assert text[1..] == digits + rest;
      var e := d.(phase := PrecisionPhase, precision := 0);
      PrecisionRead(digits, rest, e, args, out);
      DecimalGrows(0, digits);
      AfterPrecision(rest, e.(precision := DecimalFrom(0, digits)), args, out);
    } else {
      assert text[1..] == "*" + rest;
      StarRead(rest, d.(phase := PrecisionPhase, precision := 0), args, out);
      assert args[1..] == all[it.Stars()..];
    }
  }

  /** Whatever its flags, width, precision and length modifier, a directive writes what its conversion
      writes for them, and the rest of the format goes on from there. */
  lemma DirectiveMeans(it: Item, rest: string, args: seq<Arg>, out: string)
    requires it.Valid() && it.Supplied(args)
    requires var r := Converted(it.conv, it.Meaning(args), args[it.Stars()..]);
      r.Some? && it.Stars() + r.value.1 <= |args|
    ensures var r := Converted(it.conv, it.Meaning(args), args[it.Stars()..]).value;
      Run(it.Text() + rest, START, args, out) == Run(rest, START, args[it.Stars() + r.1..], out + r.0)
  {
    hide Run, Converted, DecimalFrom, FlagsFrom, ModNamed, AllDigits, AllFlags, Wrapped;
    var tail := it.mod + [it.conv] + rest;
    var mid := it.PrecisionText() + tail;
    var d := START.(phase := FlagPhase);
    TextParts(it, rest);
    Percent(it.flags + (it.width.Text() + mid), args, out);
    FlagsRead(it.flags, it.width.Text() + mid, d, args, out);
    var f := FlagsFrom(NO_FLAGS, it.flags);
    HeadOf(it, rest);
    AfterFlags(it.width.Text() + mid, d.(flags := f), args, out);
    CountedWidth(it, mid, f, args, out);
    var w, m := it.WidthOf(args), it.Meaning(args);
    CountedPrecision(it, tail, m.(phase := DotPhase, precision := NO_PRECISION, mod := NoMod), args, out);
    ModRead(it.mod, it.conv, rest, m.(phase := ModPhase, mod := NoMod), args[it.Stars()..], out);
    ConvRead(it.conv, rest, m, args[it.Stars()..], out);
    var r := Converted(it.conv, m, args[it.Stars()..]).value;
    assert args[it.Stars()..][r.1..] == args[it.Stars() + r.1..];
  }

  lemma Percent(fmt: string, args: seq<Arg>, out: string)
    ensures Run("%" + fmt, START, args, out) == Run(fmt, START.(phase := FlagPhase), args, out)
  {
    assert ("%" + fmt)[1..] == fmt;
  }

  lemma TextParts(it: Item, rest: string)
    ensures it.Text() + rest
         == "%" + (it.flags + (it.width.Text() + (it.PrecisionText() + (it.mod + [it.conv] + rest))))
  {
  }

  /** What stands at the head of what is left, when the flags, and when the width, have been read. */
  lemma HeadOf(it: Item, rest: string)
    requires it.Valid()
    ensures var tail := it.mod + [it.conv] + rest; var mid := it.PrecisionText() + tail;
      && it.width.Text() + mid != "" && !IsFlag((it.width.Text() + mid)[0]) && (it.width.Text() + mid)[0] != '\''
      && mid != "" && !IsDigit(mid[0]) && mid[0] != '*'
      && tail != "" && tail[0] != '.' && !IsDigit(tail[0]) && tail[0] != '*'
  {
    var tail := it.mod + [it.conv] + rest;
    var mid := it.PrecisionText() + tail;
    NotSpecial(it.conv);
    assert tail[0] == if it.mod == "" then it.conv else it.mod[0];
    assert it.precision.None? ==> mid == tail;
    assert it.precision.Some? ==> mid[0] == '.';
    assert it.width.Text() == "" ==> it.width.Text() + mid == mid;
  }

  lemma NotSpecial(c: char)
    requires ConvChar(c)
    ensures !IsFlag(c) && !IsDigit(c) && c != '\'' && c != '*' && c != '.' && c != 'h' && c != 'l' && c != 'L'
    ensures c != 'j' && c != 't' && c != 'z' && !OutsideModel(c)
  {
    var s := "-+ #'*.hlLjtzAFafEeGgpn";
    assert s[0] == '-' && s[1] == '+' && s[2] == ' ' && s[3] == '#' && s[4] == '\'' && s[5] == '*' && s[6] == '.';
    assert s[7] == 'h' && s[8] == 'l' && s[9] == 'L' && s[10] == 'j' && s[11] == 't' && s[12] == 'z';
    var t := "AFafEeGgpn";
    assert forall i :: 0 <= i < 10 ==> s[13 + i] == t[i];
  }

  // ----- numbers in the format that are too large -----

  lemma {:induction false} WidthOverflows(s: string, rest: string, d: Directive, args: seq<Arg>, out: string)
    requires d.phase == WidthPhase && AllDigits(s) && 0 <= d.width <= INT_MAX && DecimalFrom(d.width, s) > INT_MAX
    ensures Run(s + rest, d, args, out) == Output(out, true)
    decreases |s|
  {
    assert (s + rest)[1..] == s[1..] + rest;
    var w := 10 * d.width + DigitOf(s[0]);
    if w <= INT_MAX {
      WidthOverflows(s[1..], rest, d.(width := w), args, out);
    }
  }

  lemma {:induction false} PrecisionOverflows(s: string, rest: string, d: Directive, args: seq<Arg>, out: string)
    requires d.phase == PrecisionPhase && AllDigits(s) && 0 <= d.precision <= INT_MAX
    requires DecimalFrom(d.precision, s) > INT_MAX
    ensures Run(s + rest, d, args, out) == Output(out, true)
    decreases |s|
  {
    assert (s + rest)[1..] == s[1..] + rest;
    var p := 10 * d.precision + DigitOf(s[0]);
    if p <= INT_MAX {
      PrecisionOverflows(s[1..], rest, d.(precision := p), args, out);
    }
  }

  /** A width that is too large ends the output there, with an error. */
  lemma WidthTooLarge(flags: string, digits: string, rest: string, args: seq<Arg>, out: string)
    requires AllFlags(flags) && AllDigits(digits) && DecimalFrom(0, digits) > INT_MAX && digits != "" && digits[0] != '0'
    ensures Run("%" + flags + digits + rest, START, args, out) == Output(out, true)
  {
    hide Run, DecimalFrom, FlagsFrom, AllFlags;
    var d := START.(phase := FlagPhase, flags := FlagsFrom(NO_FLAGS, flags));
    var text := digits + rest;
    assert "%" + flags + digits + rest == "%" + (flags + text);
    Percent(flags + text, args, out);
    FlagsRead(flags, text, START.(phase := FlagPhase), args, out);
    assert text[0] == digits[0] && IsDigit(digits[0]);
    AfterFlags(text, d, args, out);
    WidthOverflows(digits, rest, d.(phase := WidthPhase), args, out);
  }

  /** So does a precision. */
  lemma PrecisionTooLarge(it: Item, digits: string, rest: string, args: seq<Arg>, out: string)
    requires it.Valid() && it.precision.None? && it.Supplied(args)
    requires AllDigits(digits) && DecimalFrom(0, digits) > INT_MAX
    ensures Run("%" + it.flags + it.width.Text() + "." + digits + rest, START, args, out) == Output(out, true)
  {
    assert digits != "";
    hide Run, DecimalFrom, FlagsFrom, AllFlags, Wrapped, AllDigits;
    var d := START.(phase := FlagPhase, flags := FlagsFrom(NO_FLAGS, it.flags));
    var dot := "." + (digits + rest);
    var text := it.width.Text() + dot;
    assert "%" + it.flags + it.width.Text() + "." + digits + rest == "%" + (it.flags + text);
    Percent(it.flags + text, args, out);
    FlagsRead(it.flags, text, START.(phase := FlagPhase), args, out);
    WidthHead(it.width, dot);
    AfterFlags(text, d, args, out);
    CountedWidth(it, dot, d.flags, args, out);
    var m := it.Meaning(args).(phase := DotPhase, mod := NoMod);
    var left := args[it.width.Taken()..];
    AfterDot(dot, m, left, out);
    assert dot[1..] == digits + rest;
    PrecisionOverflows(digits, rest, m.(phase := PrecisionPhase, precision := 0), left, out);
  }

  lemma WidthHead(width: Count, dot: string)
    requires width.Valid() && (width.Given? && width.digits != "" ==> width.digits[0] != '0')
    requires dot != "" && dot[0] == '.'
    ensures width.Text() + dot != "" && !IsFlag((width.Text() + dot)[0]) && (width.Text() + dot)[0] != '\''
  {
    var text := width.Text() + dot;
    if width.Star? {
      assert text[0] == '*';
    } else if width.digits == "" {
      assert text == dot;
    } else {
      assert text[0] == width.digits[0] && IsDigit(width.digits[0]);
    }
  }
}
