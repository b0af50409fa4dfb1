/** snprintf.c as it runs: characters go to a buffer that may be too small for them. */
module Printf {
  import opened PrintfSpec
  import opened PrintfText

  const MAX_CONVERT_LENGTH := 43

  /** The caller's buffer, of which `size` characters may be used; all that was to be written; and what
      was in the buffer before. */
  class Buffer {
    const str: array<char>
    const size: nat
    var len: nat
    ghost var out: string
    ghost var before: seq<char>

    ghost predicate Valid()
      reads this, str
    {
      && size <= str.Length == |before| && len == |out|
      && forall i :: 0 <= i < str.Length ==> str[i] == if i < len && i + 1 < size then out[i] else before[i]
    }

    constructor (str: array<char>, size: nat)
      requires size <= str.Length
      ensures Valid() && this.str == str && this.size == size && out == "" && before == str[..]
    {
      this.str, this.size, len, out := str, size, 0, "";
      before := str[..];
    }

    /** OUTCHAR. */
    method OutChar(ch: char)
      requires Valid()
      modifies this`len, this`out, str
      ensures Valid() && out == old(out) + [ch]
    {
      if len + 1 < size {
        str[len] := ch;
      }
      len := len + 1;
      out := out + [ch];
    }

    /** A character again and again. */
    method OutRepeat(ch: char, n: int)
      requires Valid()
      modifies this`len, this`out, str
      ensures Valid() && out == old(out) + Repeat(ch, n)
    {
      var left := n;
      assert out + Repeat(ch, 0) == out;
      while left > 0
        invariant Valid() && left <= Max(n, 0) && (n > 0 ==> left >= 0) && (n <= 0 ==> left == n)
        invariant out == old(out) + Repeat(ch, Max(n, 0) - Max(left, 0))
      {
        OutChar(ch);
        left := left - 1;
      }
    }

    method OutText(s: string)
      requires Valid()
      modifies this`len, this`out, str
      ensures Valid() && out == old(out) + s
    {
      var rest := s;
      while rest != ""
        invariant Valid() && out + rest == old(out) + s
        decreases |rest|
      {
        OutChar(rest[0]);
        rest := rest[1..];
      }
    }

    /** fmtstr. */
    method FmtStr(value: Option<string>, width: int, precision: int, flags: Flags)
      requires Valid() && precision >= -1
      modifies this`len, this`out, str
      ensures Valid() && out == old(out) + StrText(value, width, precision, flags)
    {
      hide Valid, StrText, Repeat;
      var s := if value.None? then "(null)" else value.value;
      var noprecision := precision == NO_PRECISION;
      var strln := 0;
      while strln < |s| && (noprecision || strln < precision)
        invariant 0 <= strln <= |s| && (!noprecision ==> strln <= Max(precision, 0))
      {
        strln := strln + 1;
      }
      var padlen := Max(width - strln, 0);
      if flags.minus {
        padlen := -padlen;
      }
      OutRepeat(' ', padlen);
      OutText(s[..strln]);
      OutRepeat(' ', -padlen);
      ghost var shown := s[..strln];
      assert shown == if noprecision then s else s[..Min(|s|, Max(precision, 0))];
      StrPadded(old(out), value, width, precision, flags, shown);
    }

    /** fmtint. */
    method FmtInt(value: int, base: int, width: int, precision: int, flags: Flags)
      requires Valid() && Base(base) && -(UINTMAX / 2) < value < UINTMAX
      modifies this`len, this`out, str
      ensures Valid() && out == old(out) + IntText(value, base, width, precision, flags)
    {
      hide Digits, Valid;
      var uvalue := Unsigned(value, flags);
      var sign := SignOf(value, flags);
      var noprecision := precision == NO_PRECISION;
      var iconvert, pos := Convert(uvalue, base, flags.up);
      var least, hexprefix := precision, PrefixOf(value, base, flags);
      if flags.alt && uvalue != 0 && base == 8 && precision <= pos {
        least := pos + 1;
      }
      var zpadlen := Max(least - pos, 0);
      var spadlen := Max(width - Max(least, pos) - |sign| - |hexprefix|, 0);
      if flags.minus {
        spadlen := -spadlen;
      } else if flags.zero && noprecision {
        zpadlen := zpadlen + spadlen;
        spadlen := 0;
      }
      ghost var was := out;
      OutRepeat(' ', spadlen);
      OutText(sign);
      OutText(hexprefix);
      OutRepeat('0', zpadlen);
      OutReversed(iconvert, pos, Digits(uvalue, base, flags.up));
      OutRepeat(' ', -spadlen);
      Assembled(was, value, base, width, precision, flags, spadlen, zpadlen);
    }

    /** The digits of a number, which stand in the conversion buffer from the last to the first. */
    method OutReversed(buf: array<char>, n: nat, ghost digits: string)
      requires Valid() && buf != str && n <= buf.Length && |digits| == n
      requires forall i :: 0 <= i < n ==> buf[i] == digits[n - 1 - i]
      modifies this`len, this`out, str
      ensures Valid() && out == old(out) + digits
    {
      var pos := n;
      while pos > 0
        invariant 0 <= pos <= n && Valid() && out == old(out) + digits[..n - pos]
        invariant forall i :: 0 <= i < n ==> buf[i] == digits[n - 1 - i]
      {
        pos := pos - 1;
        OutChar(buf[pos]);
        assert digits[..n - pos] == digits[..n - pos - 1] + [digits[n - pos - 1]];
      }
      assert digits[..n] == digits;
    }
  }

  lemma StrPadded(a: string, value: Option<string>, width: int, precision: int, flags: Flags, shown: string)
    requires var s := if value.None? then "(null)" else value.value;
      shown == if precision == NO_PRECISION then s else s[..Min(|s|, Max(precision, 0))]
    ensures var n := Max(width - |shown|, 0); var pad := if flags.minus then -n else n;
      a + Repeat(' ', pad) + shown + Repeat(' ', -pad) == a + StrText(value, width, precision, flags)
  {
    hide Repeat;
    PadSides(a, shown, width - |shown|, flags.minus);
  }

  lemma PadSides(a: string, shown: string, n: int, minus: bool)
    ensures var pad := if minus then -Max(n, 0) else Max(n, 0);
      a + Repeat(' ', pad) + shown + Repeat(' ', -pad)
      == a + if minus then shown + Repeat(' ', n) else Repeat(' ', n) + shown
  {
  }

  lemma Assembled(was: string, value: int, base: int, width: int, precision: int, flags: Flags, spadlen: int, zpadlen: int)
    requires Base(base)
    requires var digits := Digits(Unsigned(value, flags), base, flags.up);
      var least := LeastDigits(value, base, precision, flags);
      var zeros := Max(least - |digits|, 0);
      var spaces := Max(width - Max(least, |digits|) - |SignOf(value, flags)| - |PrefixOf(value, base, flags)|, 0);
      if flags.minus then spadlen == -spaces && zpadlen == zeros
      else if flags.zero && precision == NO_PRECISION then spadlen == 0 && zpadlen == zeros + spaces
      else spadlen == spaces && zpadlen == zeros
    ensures was + Repeat(' ', spadlen) + SignOf(value, flags) + PrefixOf(value, base, flags) + Repeat('0', zpadlen)
            + Digits(Unsigned(value, flags), base, flags.up) + Repeat(' ', -spadlen)
         == was + IntText(value, base, width, precision, flags)
  {
    hide Digits, SignOf, PrefixOf, Unsigned, LeastDigits;
    var digits := Digits(Unsigned(value, flags), base, flags.up);
    var a, b, c, d := SignOf(value, flags), PrefixOf(value, base, flags), Repeat('0', zpadlen), digits;
    if spadlen <= 0 {
      NoLeft(was, spadlen, a, b, c, d);
    } else {
      NoRight(was, spadlen, a, b, c, d);
    }
  }

  lemma NoLeft(was: string, n: int, a: string, b: string, c: string, d: string)
    requires n <= 0
    ensures was + Repeat(' ', n) + a + b + c + d + Repeat(' ', -n) == was + ((a + b) + c + d + Repeat(' ', -n))
    ensures n == 0 ==> (a + b) + c + d + Repeat(' ', -n) == (a + b) + c + d
    ensures n == 0 ==> Repeat(' ', n) + (a + b) + c + d == (a + b) + c + d
  {
  }

  lemma NoRight(was: string, n: int, a: string, b: string, c: string, d: string)
    requires n > 0
    ensures was + Repeat(' ', n) + a + b + c + d + Repeat(' ', -n) == was + (Repeat(' ', n) + (a + b) + c + d)
  {
  }

  lemma LastDigit(v: nat, base: int, caps: bool)
    requires Base(base)
    ensures var s := Digits(v, base, caps);
      && s[|s| - 1] == DigitChar(v % base, caps)
      && (v < base ==> |s| == 1) && (v >= base ==> s[..|s| - 1] == Digits(v / base, base, caps))
  {
  }

  /** convert: digits from the last to the first, as long as there is room, and there always is. */
  method Convert(value: nat, base: int, caps: bool) returns (buf: array<char>, pos: nat)
    requires Base(base) && value < UINTMAX
    ensures fresh(buf) && buf.Length == MAX_CONVERT_LENGTH && pos == |Digits(value, base, caps)| <= buf.Length
    ensures forall i :: 0 <= i < pos ==> buf[i] == Digits(value, base, caps)[pos - 1 - i]
  {
    hide Digits, DigitChar;
    SixtyFourBits(value, base, caps);
    buf := new char[MAX_CONVERT_LENGTH](_ => ' ');
    ghost var all := Digits(value, base, caps);
    var v: nat := value;
    pos := 0;
    while true
      invariant pos + |Digits(v, base, caps)| == |all| && Digits(v, base, caps) == all[..|all| - pos]
      invariant forall i :: 0 <= i < pos ==> buf[i] == all[|all| - 1 - i]
      decreases v
    {
      LastDigit(v, base, caps);
      ghost var s := Digits(v, base, caps);
      assert s[|s| - 1] == all[|all| - 1 - pos];
      buf[pos] := DigitChar(v % base, caps);
      pos := pos + 1;
      if v / base == 0 || pos >= buf.Length {
        break;
      }
      assert s[..|s| - 1] == all[..|all| - pos];
      v := v / base;
    }
  }

  // ----- rpl_vsnprintf -----

  /** What the call leaves in the buffer: as much of the text as there is room for, and a terminator. */
  ghost predicate Stored(str: seq<char>, before: seq<char>, size: nat, text: string) {
    && |str| == |before| && size <= |str|
    && (size > 0 ==>
          && str[..Min(|text|, size - 1)] == text[..Min(|text|, size - 1)]
          && str[Min(|text|, size - 1)] == '\0')
    && forall i :: 0 <= i < |str| && (size == 0 || i > Min(|text|, size - 1)) ==> str[i] == before[i]
  }

  /** The returned length, or -1 for a number or a text that is too large. */
  function Returned(text: string, overflow: bool): int {
    if overflow || |text| >= INT_MAX then -1 else |text|
  }

  /** The conversion character and its argument. */
  method Convey(b: Buffer, c: char, d: Directive, args: seq<Arg>) returns (ok: bool, used: nat)
    requires b.Valid() && 0 <= d.width && d.precision >= -1
    modifies b`len, b`out, b.str
    ensures b.Valid() && (ok <==> Converted(c, d, args).Some?)
    ensures ok ==> Converted(c, d, args).value.1 == used <= |args| && b.out == old(b.out) + Converted(c, d, args).value.0
  {
    hide IntText, StrText, Digits;
    ok, used := true, 0;
    if c == '%' {
      b.OutChar('%');
    } else if OutsideModel(c) {
      ok := false;
    } else if SignedConv(c) || UnsignedConv(c) {
      if args == [] || !args[0].IntArg? {
        return false, 0;
      }
      var v := Wrapped(args[0].num, d.mod, UnsignedConv(c));
      if v == -(UINTMAX / 2) {
        return false, 0;
      }
      b.FmtInt(v, BaseOf(c), d.width, d.precision, d.flags.(up := c == 'X', unsigned := UnsignedConv(c)));
      used := 1;
    } else if c == 'c' {
      if args == [] || !args[0].IntArg? {
        return false, 0;
      }
      b.OutChar((args[0].num % 256) as char);
      used := 1;
    } else if c == 's' {
      if args == [] || !args[0].StrArg? {
        return false, 0;
      }
      b.FmtStr(args[0].str, d.width, d.precision, d.flags);
      used := 1;
    } else {
      assert b.out + "" == b.out;
    }
  }

  /** One turn of the loop: the directive moves on, or its conversion is written. */
  datatype Turn = Turn(d: Directive, skip: nat, used: nat) | Stop(overflow: bool) | Leave

  /** The turns of the loop before a conversion. */
  function ReadTurn(fmt: string, d: Directive, args: seq<Arg>): (r: Turn)
    requires fmt != "" && d.phase != Plain && d.phase != ConvPhase
    ensures r.Turn? ==> r.skip <= |fmt| && r.used <= |args| && (r.skip == 0 ==> Rank(r.d.phase) < Rank(d.phase))
    ensures r.Turn? && 0 <= d.width && -1 <= d.precision ==> 0 <= r.d.width && -1 <= r.d.precision
  {
    match d.phase
    case FlagPhase =>
      (match FlagOf(fmt[0], d.flags)
       case Some(f) => Turn(d.(flags := f), 1, 0)
       case None => if fmt[0] == '\'' then Leave else Turn(d.(phase := WidthPhase), 0, 0))
    case WidthPhase =>
      if IsDigit(fmt[0]) then
        if d.width > (INT_MAX - DigitOf(fmt[0])) / 10 then Stop(true)
        else Turn(d.(width := 10 * d.width + DigitOf(fmt[0])), 1, 0)
      else if fmt[0] == '*' then
        if args == [] || !args[0].IntArg? then Leave
        else
          var w := Wrapped(args[0].num, NoMod, false);
          if w == -INT_MAX - 1 then Leave
          else if w < 0 then Turn(d.(phase := DotPhase, width := -w, flags := d.flags.(minus := true)), 1, 1)
          else Turn(d.(phase := DotPhase, width := w), 1, 1)
      else Turn(d.(phase := DotPhase), 0, 0)
    case DotPhase =>
      if fmt[0] == '.' then Turn(d.(phase := PrecisionPhase), 1, 0) else Turn(d.(phase := ModPhase), 0, 0)
    case PrecisionPhase =>
      var p := if d.precision == NO_PRECISION then 0 else d.precision;
      if IsDigit(fmt[0]) then
        if p > (INT_MAX - DigitOf(fmt[0])) / 10 then Stop(true)
        else Turn(d.(precision := 10 * p + DigitOf(fmt[0])), 1, 0)
      else if fmt[0] == '*' then
        if args == [] || !args[0].IntArg? then Leave
        else
          var q := Wrapped(args[0].num, NoMod, false);
          Turn(d.(phase := ModPhase, precision := if q < 0 then NO_PRECISION else q), 1, 1)
      else Turn(d.(phase := ModPhase, precision := p), 0, 0)
    case ModPhase =>
      if fmt[0] == 'L' then Leave
      else
        match ModOf(fmt)
        case Some((m, n)) => Turn(d.(phase := ConvPhase, mod := m), n, 0)
        case None => Turn(d.(phase := ConvPhase), 0, 0)
  }

  /** The output when the format goes on after a turn. */
  function AfterTurn(t: Turn, fmt: string, args: seq<Arg>, out: string): Output {
    match t
    case Turn(d, skip, used) =>
      if skip <= |fmt| && used <= |args| then Run(fmt[skip..], d, args[used..], out) else Unmodelled
    case Stop(overflow) => Output(out, overflow)
    case Leave => Unmodelled
  }

  lemma ReadTurnRuns(fmt: string, d: Directive, args: seq<Arg>, out: string)
    requires fmt != "" && d.phase != Plain && d.phase != ConvPhase
    ensures Run(fmt, d, args, out) == AfterTurn(ReadTurn(fmt, d, args), fmt, args, out)
  {
    assert fmt[0..] == fmt && args[0..] == args;
  }

  lemma PlainRuns(fmt: string, d: Directive, args: seq<Arg>, out: string)
    requires fmt != "" && d.phase == Plain
    ensures Run(fmt, d, args, out)
         == if fmt[0] == '%' then Run(fmt[1..], d.(phase := FlagPhase), args, out)
            else Run(fmt[1..], d, args, out + [fmt[0]])
  {
  }

  lemma ConvRuns(fmt: string, d: Directive, args: seq<Arg>, out: string)
    requires fmt != "" && d.phase == ConvPhase
    ensures var r := Converted(fmt[0], d, args);
      Run(fmt, d, args, out)
      == if r.Some? && r.value.1 <= |args| then Run(fmt[1..], START, args[r.value.1..], out + r.value.0) else Unmodelled
  {
    hide Converted;
  }

  /** The loop over the format. */
  method Loop(b: Buffer, format: string, args: seq<Arg>) returns (ok: bool, overflow: bool)
    requires b.Valid() && b.out == ""
    modifies b`len, b`out, b.str
    ensures b.Valid() && (ok <==> Formatted(format, args).Output?)
    ensures ok ==> Formatted(format, args) == Output(b.out, overflow)
  {
    hide Run, Converted, ReadTurn;
    var fmt, d, rest := format, START, args;
    while fmt != ""
      invariant b.Valid() && 0 <= d.width && -1 <= d.precision
      invariant Run(fmt, d, rest, b.out) == Formatted(format, args)
      decreases |fmt|, Rank(d.phase)
    {
      if d.phase == Plain {
        PlainRuns(fmt, d, rest, b.out);
        if fmt[0] == '%' {
          d := d.(phase := FlagPhase);
        } else {
          b.OutChar(fmt[0]);
        }
        fmt := fmt[1..];
      } else if d.phase == ConvPhase {
        ConvRuns(fmt, d, rest, b.out);
        var fine, used := Convey(b, fmt[0], d, rest);
        if !fine {
          return false, false;
        }
        fmt, d, rest := fmt[1..], START, rest[used..];
      } else {
        ReadTurnRuns(fmt, d, rest, b.out);
        var turn := ReadTurn(fmt, d, rest);
        match turn {
          case Turn(next, skip, used) =>
            fmt, d, rest := fmt[skip..], next, rest[used..];
          case Stop(over) =>
            return true, over;
          case Leave =>
            return false, false;
        }
      }
    }
    EndRuns(d, rest, b.out);
    return true, false;
  }

  lemma EndRuns(d: Directive, args: seq<Arg>, out: string)
    ensures Run("", d, args, out) == Output(out, false)
  {
  }

  /** rpl_vsnprintf: whatever the size of the buffer, the result is the length of the whole text, and the
      buffer holds as much of the text as there is room for and a terminator; with no room at all it is
      left alone. */
  method Vsnprintf(str: array<char>, size: nat, format: string, args: seq<Arg>) returns (ok: bool, r: int)
    requires size <= str.Length
    modifies str
    ensures ok <==> Formatted(format, args).Output?
    ensures ok ==> var o := Formatted(format, args);
      r == Returned(o.text, o.overflow) && Stored(str[..], old(str[..]), size, o.text)
  {
    hide Formatted;
    var b := new Buffer(str, size);
    var overflow;
    ok, overflow := Loop(b, format, args);
    if !ok {
      return false, -1;
    }
    if b.len < size {
      str[b.len] := '\0';
    } else if size > 0 {
      str[size - 1] := '\0';
    }
    r := if overflow || b.len >= INT_MAX then -1 else b.len;
  }

  /** The result does not depend on the buffer. */
  method SizeDoesNotMatter(a: array<char>, m: nat, b: array<char>, n: nat, format: string, args: seq<Arg>)
    returns (p: int, q: int, ok: bool)
    requires m <= a.Length && n <= b.Length
    modifies a, b
    ensures ok <==> Formatted(format, args).Output?
    ensures ok ==> p == q
    ensures ok && a != b && 0 < m <= n ==> forall i :: 0 <= i < m - 1 && i < |Formatted(format, args).text| ==> a[i] == b[i]
  {
    var f, g;
    f, p := Vsnprintf(a, m, format, args);
    g, q := Vsnprintf(b, n, format, args);
    ok := f && g;
    ghost var text := Formatted(format, args);
    if ok && a != b && 0 < m <= n {
      forall i | 0 <= i < m - 1 && i < |text.text| ensures a[i] == b[i] {
        assert a[..][..Min(|text.text|, m - 1)][i] == text.text[..Min(|text.text|, m - 1)][i];
        assert b[..][..Min(|text.text|, n - 1)][i] == text.text[..Min(|text.text|, n - 1)][i];
      }
    }
  }

  /** rpl_vasprintf: measure, allocate, write; nothing is cut off. */
  method Vasprintf(format: string, args: seq<Arg>) returns (ok: bool, r: int, text: string)
    ensures ok <==> Formatted(format, args).Output?
    ensures ok ==> var o := Formatted(format, args);
      r == Returned(o.text, o.overflow) && (r >= 0 ==> text == o.text && r == |text|)
  {
    hide Formatted;
    var none := new char[0](_ => ' ');
    ok, r := Vsnprintf(none, 0, format, args);
    text := "";
    if !ok || r < 0 {
      return;
    }
    var str := new char[r + 1](_ => ' ');
    var fine, again := Vsnprintf(str, r + 1, format, args);
    text := str[..r];
    assert str[..][..r] == str[..r];
  }
}
