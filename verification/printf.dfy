/** Formatted output (src/libk/vfprintf.c): the digit loops, the field printers, the format parser and the format
    loop, writing to a stream that accepts every byte. */
module Printf {
  import opened Words
  import opened Digits

  /** `struct fmt_specifier`. */
  datatype Spec = Spec(precision: int, width: int, length: int, zeroPad: bool, hasPrecision: bool)

  datatype State = FLAG | WIDTH | PRECISION

  /** An argument: the register of an integer, a string without its null byte, or a double. */
  datatype Arg = Word(bits: u64) | Text(text: string) | Float

  /** Printed; an error, on which `vfprintf` returns EOF; or behaviour the C standard does not define, such as a
      missing argument or a write of negative length. */
  datatype Status = Printed | Error | Undefined

  const PLAIN := Spec(0, 0, 0, false, false)

  /** What is printed for a piece of a format, and what is left of the format and the arguments. */
  datatype Piece = Piece(status: Status, text: string, fmt: string, args: seq<Arg>)

  /** The value an arithmetic result has in a `signed char` and in an `int`. */
  function SignedChar(x: int): int {
    (x + 128) % 256 - 128
  }

  function Int(x: int): int {
    (x + 0x8000_0000) % 0x1_0000_0000 - 0x8000_0000
  }

  // ------------------------------------------------------------------ what the conversions print

  predicate KnownLength(length: int) {
    -2 <= length <= 2
  }

  /** `va_arg` of an unsigned type: 32 bits unless the length says long. */
  function UnsignedArg(length: int, bits: u64): u64 {
    if length <= 0 then bits % 0x1_0000_0000 else bits
  }

  /** `va_arg` of a signed type. */
  function SignedArg(length: int, bits: u64): int {
    if length <= 0 then Int(bits) else if bits >= 0x8000_0000_0000_0000 then bits - 0x1_0000_0000_0000_0000 else bits
  }

  function PadOf(spec: Spec): char {
    if spec.zeroPad then '0' else ' '
  }

  /** The sign goes before the padding, and counts towards the width. */
  function SignedText(width: int, value: int, pad: char): string {
    if value < 0 then "-" + Padded(width - 1, Numeral(-value, 10), pad) else Padded(width, Numeral(value, 10), pad)
  }

  /** How many characters of a string a specifier asks for. */
  function Shown(spec: Spec, text: string): nat {
    if spec.hasPrecision && 0 <= spec.precision < |text| then spec.precision else |text|
  }

  /** What `print_string` prints: each padding blank lowers the precision, and the string is cut again to what is
      left of it. */
  function StringText(spec: Spec, text: string): (Status, string) {
    var chars := Shown(spec, text);
    var blanks := if spec.width > chars then spec.width - chars else 0;
    var left := spec.precision - blanks;
    if spec.hasPrecision && chars > left then
      if left < 0 then (Undefined, Repeat(' ', blanks)) else (Printed, Repeat(' ', blanks) + text[..left])
    else (Printed, Repeat(' ', blanks) + text[..chars])
  }

  /** What a conversion character prints. */
  function Converted(c: char, spec: Spec, args: seq<Arg>): (Status, string) {
    if c == '%' then (Printed, "%")
    else if c !in "diuxpcsfega" then (Error, "")
    else if c in "diux" && !KnownLength(spec.length) then (Error, "")
    else if args == [] then (Undefined, "")
    else
      match args[0]
      case Float => if c in "fega" then (Printed, "?") else (Undefined, "")
      case Text(text) => if c == 's' && |text| < 0x8000_0000 then StringText(spec, text) else (Undefined, "")
      case Word(bits) =>
        if c == 'c' then (Printed, [(bits % 256) as char])
        else if c == 'p' then (Printed, Padded(16, Numeral(bits, 16), '0'))
        else if c !in "diux" then (Undefined, "")
        else if c == 'u' then (Printed, Padded(spec.width, Numeral(UnsignedArg(spec.length, bits), 10), PadOf(spec)))
        else if c == 'x' then (Printed, Padded(spec.width, Numeral(UnsignedArg(spec.length, bits), 16), PadOf(spec)))
        else (Printed, SignedText(spec.width, SignedArg(spec.length, bits), PadOf(spec)))
  }

  // ------------------------------------------------------------------ what a format prints

  /** The characters that only change the specifier (lines 265-307). */
  predicate IsModifier(c: char) {
    c in "hlzjt." || '0' <= c <= '9'
  }

  function Modified(c: char, spec: Spec, state: State): (Spec, State)
    requires IsModifier(c)
  {
    if c == 'h' then (spec.(length := SignedChar(spec.length - 1)), state)
    else if c == 'l' then (spec.(length := SignedChar(spec.length + 1)), state)
    else if c in "zjt" then (spec.(length := 1), state)
    else if c == '.' then (spec.(hasPrecision := true), PRECISION)
    else if c == '0' && state == FLAG then (spec.(zeroPad := true), WIDTH)
    else
      var d := c as int - '0' as int;
      if state == PRECISION then (spec.(precision := Int(spec.precision * 10 + d)), PRECISION)
      else (spec.(width := SignedChar(spec.width * 10 + d)), WIDTH)
  }

  /** The rest of a conversion specification, after the '%'. The null byte that ends the format is an error. */
  function Parsed(fmt: string, spec: Spec, state: State, args: seq<Arg>): (p: Piece)
    ensures |p.fmt| <= |fmt|
  {
    if fmt == "" then Piece(Error, "", "", args)
    else if IsModifier(fmt[0]) then
      var (spec', state') := Modified(fmt[0], spec, state);
      Parsed(fmt[1..], spec', state', args)
    else
      var (status, text) := Converted(fmt[0], spec, args);
      Piece(status, text, fmt[1..], if fmt[0] == '%' || args == [] then args else args[1..])
  }

  /** All that a format prints, up to its end or a null byte. */
  function Rendered(fmt: string, args: seq<Arg>): (Status, string)
    decreases |fmt|
  {
    if fmt == "" || fmt[0] == '\0' then (Printed, "")
    else if fmt[0] != '%' then
      var (status, text) := Rendered(fmt[1..], args);
      (status, [fmt[0]] + text)
    else
      var p := Parsed(fmt[1..], PLAIN, FLAG, args);
      if !p.status.Printed? then (p.status, p.text)
      else
        var (status, text) := Rendered(p.fmt, p.args);
        (status, p.text + text)
  }

  // ------------------------------------------------------------------ properties

  /** The length of a printed number is the larger of the width and its digits with the sign. */
  lemma FieldLength(width: int, value: int, pad: char)
    ensures |SignedText(width, value, pad)| ==
            var needed := |Numeral(if value < 0 then -value else value, 10)| + (if value < 0 then 1 else 0);
            if width > needed then width else needed
  {
  }

  /** Reads a signed number: the sign, then blanks, then digits. */
  function ReadSigned(s: string): int {
    if s != "" && s[0] == '-' then -(ReadNumber(s[1..], 10) as int) else ReadNumber(s, 10)
  }

  /** A signed number reads back as itself, whatever its width and padding. */
  lemma SignedReadsBack(width: int, value: int, pad: char)
    requires pad in {' ', '0'}
    ensures ReadSigned(SignedText(width, value, pad)) == value
  {
    hide Padded, ReadNumber;
    if value < 0 {
      FieldReadsBack(width - 1, -value, 10, pad);
      assert SignedText(width, value, pad)[1..] == Padded(width - 1, Numeral(-value, 10), pad);
    } else {
      FieldReadsBack(width, value, 10, pad);
      NotNegative(width, value, pad);
    }
  }

  lemma NotNegative(width: int, value: nat, pad: char)
    requires pad in {' ', '0'}
    ensures Padded(width, Numeral(value, 10), pad)[0] != '-'
  {
  }

  /** The whole two's complement range is printed correctly, the least 64-bit integer included. */
  lemma SignedRange(length: int, bits: u64)
    ensures -0x8000_0000_0000_0000 <= SignedArg(length, bits) < 0x8000_0000_0000_0000
    ensures SignedArg(length, bits) % 0x1_0000_0000 == bits % 0x1_0000_0000
    ensures length <= 0 ==> -0x8000_0000 <= SignedArg(length, bits) < 0x8000_0000
    ensures length > 0 ==> SignedArg(length, bits) % 0x1_0000_0000_0000_0000 == bits
  {
  }

  /** Widths and lengths are kept in a signed char and precisions in an int, modulo their size. */
  lemma FieldsWrap(x: int)
    ensures -128 <= SignedChar(x) < 128 && (SignedChar(x) - x) % 256 == 0
    ensures -0x8000_0000 <= Int(x) < 0x8000_0000 && (Int(x) - x) % 0x1_0000_0000 == 0
  {
  }

  lemma SignedBounds(length: int, bits: u64)
    ensures -0x8000_0000_0000_0000 <= SignedArg(length, bits) < 0x8000_0000_0000_0000
  {
  }

  /** A string with a precision is printed as the C standard asks if and only if the padding leaves the precision
      alone: it is not needed, or the precision is at least the width. */
  lemma StringPadding(spec: Spec, text: string)
    requires spec.hasPrecision ==> spec.precision >= 0
    ensures StringText(spec, text) == (Printed, Padded(spec.width, text[..Shown(spec, text)], ' ')) <==>
            !spec.hasPrecision || spec.width <= Shown(spec, text) || spec.precision >= spec.width
  {
  }

  /** Width 5 and precision 3: the two blanks of the padding take two of the three characters away. */
  lemma StringPaddingExample()
    ensures var spec := PLAIN.(width := 5, precision := 3, hasPrecision := true);
      StringText(spec, "abcdef") == (Printed, "  a") && Padded(5, "abcdef"[..Shown(spec, "abcdef")], ' ') == "  abc"
  {
    assert Repeat(' ', 2) == "  ";
    assert "abcdef"[..1] == "a" && "abcdef"[..3] == "abc";
    assert "  " + "a" == "  a" && "  " + "abc" == "  abc";
  }

  lemma DigitModifies(d: nat, spec: Spec, state: State)
    requires d < 10 && (state == FLAG ==> d > 0)
    ensures IsModifier(Digit(d))
    ensures Modified(Digit(d), spec, state) ==
            if state == PRECISION then (spec.(precision := Int(spec.precision * 10 + d)), PRECISION)
            else (spec.(width := SignedChar(spec.width * 10 + d)), WIDTH)
  {
  }

  lemma ParsedDigit(d: nat, rest: string, spec: Spec, state: State, args: seq<Arg>)
    requires d < 10 && state != PRECISION && (state == FLAG ==> d > 0)
    ensures Parsed([Digit(d)] + rest, spec, state, args) ==
              Parsed(rest, spec.(width := SignedChar(spec.width * 10 + d)), WIDTH, args)
  {
    hide Parsed;
    DigitModifies(d, spec, state);
    ParsedModifier(Digit(d), rest, spec, state, args);
    hide *;
  }

  /** A width is read as the number its digits say. */
  lemma {:induction false} ParsedWidth(w: nat, rest: string, spec: Spec, state: State, args: seq<Arg>)
    requires 0 < w <= 127 && spec.width == 0 && state != PRECISION
    ensures Parsed(Numeral(w, 10) + rest, spec, state, args) == Parsed(rest, spec.(width := w), WIDTH, args)
  {
    hide Parsed, Digit;
    if w < 10 {
      ParsedDigit(w, rest, spec, state, args);
    } else {
      var c := Digit(w % 10);
      ParsedWidth(w / 10, [c] + rest, spec, state, args);
      ParsedDigit(w % 10, rest, spec.(width := w / 10), WIDTH, args);
      assert Numeral(w, 10) + rest == Numeral(w / 10, 10) + ([c] + rest);
    }
  }

  lemma ParsedPrecisionDigit(d: nat, rest: string, spec: Spec, args: seq<Arg>)
    requires d < 10
    ensures Parsed([Digit(d)] + rest, spec, PRECISION, args)
         == Parsed(rest, spec.(precision := Int(spec.precision * 10 + d)), PRECISION, args)
  {
    hide Parsed;
    DigitModifies(d, spec, PRECISION);
    ParsedModifier(Digit(d), rest, spec, PRECISION, args);
    hide *;
  }

  lemma {:induction false} ParsedPrecision(p: nat, rest: string, spec: Spec, args: seq<Arg>)
    requires p < 0x8000_0000 && spec.precision == 0
    ensures Parsed(Numeral(p, 10) + rest, spec, PRECISION, args) == Parsed(rest, spec.(precision := p), PRECISION, args)
  {
    hide Parsed, Digit;
    if p < 10 {
      ParsedPrecisionDigit(p, rest, spec, args);
    } else {
      var c := Digit(p % 10);
      ParsedPrecision(p / 10, [c] + rest, spec, args);
      ParsedPrecisionDigit(p % 10, rest, spec.(precision := p / 10), args);
      assert Numeral(p, 10) + rest == Numeral(p / 10, 10) + ([c] + rest);
    }
  }

  /** A dot and a number set the precision to that number, whatever stands before it. */
  lemma PrecisionMeans(p: nat, rest: string, spec: Spec, state: State, args: seq<Arg>)
    requires p < 0x8000_0000 && spec.precision == 0
    ensures Parsed("." + (Numeral(p, 10) + rest), spec, state, args)
         == Parsed(rest, spec.(precision := p, hasPrecision := true), PRECISION, args)
  {
    hide Parsed, Numeral;
    ParsedModifier('.', Numeral(p, 10) + rest, spec, state, args);
    ParsedPrecision(p, rest, spec.(hasPrecision := true), args);
  }

  /** The length modifiers and the lengths they stand for. */
  const MODIFIERS := map["" := 0, "hh" := -2, "h" := -1, "l" := 1, "ll" := 2, "z" := 1, "j" := 1, "t" := 1]

  lemma ParsedModifier(m: char, rest: string, spec: Spec, state: State, args: seq<Arg>)
    requires IsModifier(m)
    ensures var (spec', state') := Modified(m, spec, state);
            Parsed([m] + rest, spec, state, args) == Parsed(rest, spec', state', args)
  {
  }

  lemma ParsedLength(mods: string, rest: string, spec: Spec, state: State, args: seq<Arg>)
    requires mods in MODIFIERS && spec.length == 0
    ensures Parsed(mods + rest, spec, state, args) == Parsed(rest, spec.(length := MODIFIERS[mods]), state, args)
  {
    hide Parsed;
    if mods == "" {
      assert mods + rest == rest;
    } else if |mods| == 1 {
      assert mods == [mods[0]];
      ParsedModifier(mods[0], rest, spec, state, args);
    } else {
      var spec' := Modified(mods[0], spec, state).0;
      assert mods + rest == [mods[0]] + ([mods[1]] + rest);
      ParsedModifier(mods[0], [mods[1]] + rest, spec, state, args);
      ParsedModifier(mods[1], rest, spec', state, args);
    }
  }

  /** A "%" directive: an optional "0", a width, a length modifier and a conversion character. */
  function Directive(zero: bool, w: nat, mods: string, c: char): string {
    (if zero then "0" else "") + (if w > 0 then Numeral(w, 10) else "") + mods + [c]
  }

  lemma ParsedConversion(c: char, rest: string, spec: Spec, state: State, args: seq<Arg>)
    requires !IsModifier(c)
    ensures var p := Parsed([c] + rest, spec, state, args);
      && (p.status, p.text) == Converted(c, spec, args)
      && p.fmt == rest && p.args == if c == '%' || args == [] then args else args[1..]
  {
  }

  lemma ParsedStart(zero: bool, w: nat, tail: string, args: seq<Arg>)
    requires w <= 127
    ensures Parsed((if zero then "0" else "") + ((if w > 0 then Numeral(w, 10) else "") + tail), PLAIN, FLAG, args)
         == Parsed(tail, PLAIN.(zeroPad := zero, width := w), if zero || w > 0 then WIDTH else FLAG, args)
  {
    hide Parsed, Numeral;
    var digits := (if w > 0 then Numeral(w, 10) else "") + tail;
    if w > 0 {
      ParsedWidth(w, tail, PLAIN.(zeroPad := zero), if zero then WIDTH else FLAG, args);
    } else {
      assert digits == tail;
    }
    if zero {
      ParsedModifier('0', digits, PLAIN, FLAG, args);
    } else {
      assert "" + digits == digits;
    }
  }

  /** Every directive with a width that a signed char holds is parsed as it is meant. */
  lemma DirectiveMeans(zero: bool, w: nat, mods: string, c: char, rest: string, args: seq<Arg>)
    requires w <= 127 && mods in MODIFIERS && !IsModifier(c)
    ensures var p := Parsed(Directive(zero, w, mods, c) + rest, PLAIN, FLAG, args);
      && (p.status, p.text) == Converted(c, Spec(0, w, MODIFIERS[mods], zero, false), args)
      && p.fmt == rest && p.args == if c == '%' || args == [] then args else args[1..]
  {
    DirectiveParts(zero, w, mods, c, rest);
    hide Parsed, Numeral, Directive, Converted, IsModifier;
    var spec, state := PLAIN.(zeroPad := zero, width := w), if zero || w > 0 then WIDTH else FLAG;
    ParsedStart(zero, w, mods + ([c] + rest), args);
    ParsedLength(mods, [c] + rest, spec, state, args);
    ParsedConversion(c, rest, spec.(length := MODIFIERS[mods]), state, args);
  }

  lemma DirectiveParts(zero: bool, w: nat, mods: string, c: char, rest: string)
    ensures Directive(zero, w, mods, c) + rest ==
            (if zero then "0" else "") + ((if w > 0 then Numeral(w, 10) else "") + (mods + ([c] + rest)))
  {
  }

  // ------------------------------------------------------------------ what directives print

  /** A directive prints its conversion, and the rest of the format what it prints with the arguments left. */
  lemma RenderedOn(zero: bool, w: nat, mods: string, c: char, rest: string, args: seq<Arg>)
    requires w <= 127 && mods in MODIFIERS && !IsModifier(c)
    ensures var (s, t) := Converted(c, Spec(0, w, MODIFIERS[mods], zero, false), args);
            var (status, text) := Rendered(rest, if c == '%' || args == [] then args else args[1..]);
      Rendered("%" + (Directive(zero, w, mods, c) + rest), args) ==
      if s.Printed? then (status, t + text) else (s, t)
  {
    hide Directive, Converted, Parsed, IsModifier;
    var d := Directive(zero, w, mods, c) + rest;
    DirectiveMeans(zero, w, mods, c, rest, args);
    assert ("%" + d)[1..] == d && ("%" + d)[0] == '%';
  }

  lemma RenderedOne(zero: bool, w: nat, mods: string, c: char, args: seq<Arg>, text: string)
    requires w <= 127 && mods in MODIFIERS && !IsModifier(c)
    requires Converted(c, Spec(0, w, MODIFIERS[mods], zero, false), args) == (Printed, text)
    ensures Rendered("%" + Directive(zero, w, mods, c), args) == (Printed, text)
  {
    hide Directive, Converted, IsModifier;
    RenderedOn(zero, w, mods, c, "", args);
    assert Directive(zero, w, mods, c) + "" == Directive(zero, w, mods, c) && text + "" == text;
  }

  /** Text without directives is printed as it stands. */
  lemma {:induction false} RenderedPlain(s: string, rest: string, args: seq<Arg>)
    requires '%' !in s && '\0' !in s
    ensures var (status, text) := Rendered(rest, args); Rendered(s + rest, args) == (status, s + text)
  {
    var text := Rendered(rest, args).1;
    if s == "" {
      assert s + rest == rest && s + text == text;
    } else {
      assert (s + rest)[1..] == s[1..] + rest && (s + rest)[0] == s[0];
      RenderedPlain(s[1..], rest, args);
      assert [s[0]] + (s[1..] + text) == s + text;
    }
  }

  /** What %u, %x, %d and %i print, written out: the flag 0 selects the padding; the modifiers l, ll, z, j and t take
      the argument whole, none and h and hh take its low 32 bits. */
  lemma PrintedUnsigned(zero: bool, w: nat, mods: string, c: char, bits: u64)
    requires w <= 127 && mods in {"", "h", "hh", "l", "ll", "z", "j", "t"} && (c == 'u' || c == 'x')
    ensures var format := "%" + (if zero then "0" else "") + (if w > 0 then Numeral(w, 10) else "") + mods + [c];
            var value: nat := if mods in {"", "h", "hh"} then bits % 0x1_0000_0000 else bits;
            var digits := Numeral(value, if c == 'x' then 16 else 10);
            var blanks := if w > |digits| then w - |digits| else 0;
            var pad := if zero then '0' else ' ';
      Rendered(format, [Word(bits)]) == (Printed, Repeat(pad, blanks) + digits)
  {
    var value: nat := if mods in {"", "h", "hh"} then bits % 0x1_0000_0000 else bits;
    var digits := Numeral(value, if c == 'x' then 16 else 10);
    var pad := if zero then '0' else ' ';
    hide Numeral, Padded, Rendered, Converted, Repeat, Directive;
    LengthOf(mods, bits);
    UnsignedConverts(zero, w, MODIFIERS[mods], c, bits);
    FormatIs(zero, w, mods, c);
    FieldIs(w, digits, pad);
    RenderedOne(zero, w, mods, c, [Word(bits)], Padded(w, digits, pad));
  }

  lemma PrintedSigned(zero: bool, w: nat, mods: string, c: char, bits: u64)
    requires w <= 127 && mods in {"", "h", "hh", "l", "ll", "z", "j", "t"} && (c == 'd' || c == 'i')
    ensures var format := "%" + (if zero then "0" else "") + (if w > 0 then Numeral(w, 10) else "") + mods + [c];
            var value: int := if mods in {"", "h", "hh"} then
                                (if bits % 0x1_0000_0000 < 0x8000_0000 then bits % 0x1_0000_0000
                                 else bits % 0x1_0000_0000 - 0x1_0000_0000)
                              else if bits < 0x8000_0000_0000_0000 then bits else bits - 0x1_0000_0000_0000_0000;
            var sign := if value < 0 then "-" else "";
            var digits := Numeral(if value < 0 then -value else value, 10);
            var blanks := if w > |sign| + |digits| then w - |sign| - |digits| else 0;
            var pad := if zero then '0' else ' ';
      Rendered(format, [Word(bits)]) == (Printed, sign + Repeat(pad, blanks) + digits)
  {
    hide Numeral, Rendered, SignedArg, Repeat;
    SignedIs(mods, bits);
    SignedField(zero, w, mods, c, bits, SignedArg(MODIFIERS[mods], bits));
  }

  lemma SignedField(zero: bool, w: nat, mods: string, c: char, bits: u64, value: int)
    requires w <= 127 && mods in MODIFIERS && KnownLength(MODIFIERS[mods]) && (c == 'd' || c == 'i')
    requires value == SignedArg(MODIFIERS[mods], bits)
    ensures var format := "%" + (if zero then "0" else "") + (if w > 0 then Numeral(w, 10) else "") + mods + [c];
            var sign := if value < 0 then "-" else "";
            var digits := Numeral(if value < 0 then -value else value, 10);
            var blanks := if w > |sign| + |digits| then w - |sign| - |digits| else 0;
            var pad := if zero then '0' else ' ';
      Rendered(format, [Word(bits)]) == (Printed, sign + Repeat(pad, blanks) + digits)
  {
    hide Numeral, SignedText, Rendered, SignedArg, Converted, Repeat, Directive;
    var pad := if zero then '0' else ' ';
    SignedConverts(zero, w, MODIFIERS[mods], c, bits);
    FormatIs(zero, w, mods, c);
    SignedTextIs(w, value, pad);
    RenderedOne(zero, w, mods, c, [Word(bits)], SignedText(w, value, pad));
  }

  lemma SignedTextIs(w: nat, value: int, pad: char)
    ensures var sign := if value < 0 then "-" else "";
            var digits := Numeral(if value < 0 then -value else value, 10);
            var blanks := if w > |sign| + |digits| then w - |sign| - |digits| else 0;
      SignedText(w, value, pad) == sign + Repeat(pad, blanks) + digits
  {
    hide Numeral, Padded;
    var digits := Numeral(if value < 0 then -value else value, 10);
    FieldIs(if value < 0 then w - 1 else w, digits, pad);
    if value < 0 {
      var blanks := if w > 1 + |digits| then w - 1 - |digits| else 0;
      assert "-" + Repeat(pad, blanks) + digits == "-" + (Repeat(pad, blanks) + digits);
    } else {
      var blanks := if w > |digits| then w - |digits| else 0;
      assert "" + Repeat(pad, blanks) + digits == Repeat(pad, blanks) + digits;
    }
  }

  lemma LengthOf(mods: string, bits: u64)
    requires mods in {"", "h", "hh", "l", "ll", "z", "j", "t"}
    ensures mods in MODIFIERS && KnownLength(MODIFIERS[mods])
    ensures UnsignedArg(MODIFIERS[mods], bits) == if mods in {"", "h", "hh"} then bits % 0x1_0000_0000 else bits
  {
  }

  lemma SignedIs(mods: string, bits: u64)
    requires mods in {"", "h", "hh", "l", "ll", "z", "j", "t"}
    ensures mods in MODIFIERS && KnownLength(MODIFIERS[mods])
    ensures SignedArg(MODIFIERS[mods], bits) ==
            if mods in {"", "h", "hh"} then
              (if bits % 0x1_0000_0000 < 0x8000_0000 then bits % 0x1_0000_0000
               else bits % 0x1_0000_0000 - 0x1_0000_0000)
            else if bits < 0x8000_0000_0000_0000 then bits else bits - 0x1_0000_0000_0000_0000
  {
    LengthOf(mods, bits);
  }

  lemma FormatIs(zero: bool, w: nat, mods: string, c: char)
    ensures "%" + Directive(zero, w, mods, c) ==
            "%" + (if zero then "0" else "") + (if w > 0 then Numeral(w, 10) else "") + mods + [c]
  {
  }

  lemma FieldIs(w: int, digits: string, pad: char)
    ensures Padded(w, digits, pad) == Repeat(pad, if w > |digits| then w - |digits| else 0) + digits
  {
  }

  lemma UnsignedConverts(zero: bool, w: nat, length: int, c: char, bits: u64)
    requires KnownLength(length) && (c == 'u' || c == 'x')
    ensures Converted(c, Spec(0, w, length, zero, false), [Word(bits)]) ==
            var digits := Numeral(UnsignedArg(length, bits), if c == 'x' then 16 else 10);
              (Printed, Padded(w, digits, if zero then '0' else ' '))
  {
    hide Padded, Numeral, UnsignedArg;
  }

  lemma SignedConverts(zero: bool, w: nat, length: int, c: char, bits: u64)
    requires KnownLength(length) && (c == 'd' || c == 'i')
    ensures Converted(c, Spec(0, w, length, zero, false), [Word(bits)]) ==
            (Printed, SignedText(w, SignedArg(length, bits), if zero then '0' else ' '))
  {
    hide SignedText, SignedArg;
  }

  /** What the other conversions print: %c the low byte, %p sixteen hexadecimal digits, %% itself without an argument,
      the floating-point ones a question mark. */
  lemma PrintedOthers(zero: bool, w: nat, mods: string, bits: u64, args: seq<Arg>)
    requires w <= 127 && mods in MODIFIERS
    ensures Rendered("%" + Directive(zero, w, mods, 'c'), [Word(bits)]) == (Printed, [(bits % 256) as char])
    ensures |Numeral(bits, 16)| <= 16
    ensures Rendered("%" + Directive(zero, w, mods, 'p'), [Word(bits)]) ==
            (Printed, Repeat('0', 16 - |Numeral(bits, 16)|) + Numeral(bits, 16))
    ensures Rendered("%" + Directive(zero, w, mods, '%'), args) == (Printed, "%")
    ensures forall c :: c in "fega" ==> Rendered("%" + Directive(zero, w, mods, c), [Float]) == (Printed, "?")
  {
    hide Numeral, Padded, Rendered, Directive;
    NumeralFits(bits);
    FieldIs(16, Numeral(bits, 16), '0');
    RenderedOne(zero, w, mods, 'c', [Word(bits)], [(bits % 256) as char]);
    RenderedOne(zero, w, mods, 'p', [Word(bits)], Padded(16, Numeral(bits, 16), '0'));
    RenderedOne(zero, w, mods, '%', args, "%");
    forall c | c in "fega" ensures Rendered("%" + Directive(zero, w, mods, c), [Float]) == (Printed, "?") {
      RenderedOne(zero, w, mods, c, [Float], "?");
    }
  }

  /** What %s prints without a precision: the whole string behind its padding blanks, whatever the flag. */
  lemma PrintedString(zero: bool, w: nat, mods: string, t: string)
    requires w <= 127 && mods in MODIFIERS && |t| < 0x8000_0000
    ensures Rendered("%" + Directive(zero, w, mods, 's'), [Text(t)]) ==
            (Printed, Repeat(' ', if w > |t| then w - |t| else 0) + t)
  {
    hide Rendered, Directive;
    var blanks := if w > |t| then w - |t| else 0;
    assert Repeat(' ', blanks) == Repeat(' ', blanks) && t[..|t|] == t;
    RenderedOne(zero, w, mods, 's', [Text(t)], Repeat(' ', blanks) + t);
  }

  /** With precision p the string is cut to p characters, and then p is lowered by the padding and cuts again. */
  lemma PrintedPrecise(w: nat, p: nat, t: string)
    requires 0 < w <= 127 && p < 0x8000_0000 && |t| < 0x8000_0000
    ensures var chars := if p < |t| then p else |t|;
            var blanks := if w > chars then w - chars else 0;
            var format := "%" + Numeral(w, 10) + "." + Numeral(p, 10) + "s";
      Rendered(format, [Text(t)]) ==
      if chars <= p - blanks then (Printed, Repeat(' ', blanks) + t[..chars])
      else if p >= blanks then (Printed, Repeat(' ', blanks) + t[..p - blanks])
      else (Undefined, Repeat(' ', blanks))
  {
    hide Numeral, Parsed, Rendered, Converted, Repeat;
    var chars := if p < |t| then p else |t|;
    var blanks := if w > chars then w - chars else 0;
    var tail, spec := "." + (Numeral(p, 10) + "s"), PLAIN.(width := w);
    ParsedWidth(w, tail, PLAIN, FLAG, [Text(t)]);
    PrecisionMeans(p, "s", spec, WIDTH, [Text(t)]);
    assert ['s'] + "" == "s";
    ParsedConversion('s', "", spec.(precision := p, hasPrecision := true), PRECISION, [Text(t)]);
    assert "%" + (Numeral(w, 10) + tail) == "%" + Numeral(w, 10) + "." + Numeral(p, 10) + "s";
    PreciseText(spec.(precision := p, hasPrecision := true), t, chars, blanks);
    OnlyDirective(Numeral(w, 10) + tail, [Text(t)]);
  }

  lemma PreciseText(spec: Spec, t: string, chars: nat, blanks: nat)
    requires spec.hasPrecision && spec.precision >= 0 && |t| < 0x8000_0000
    requires chars == (if spec.precision < |t| then spec.precision else |t|)
    requires blanks == if spec.width > chars then spec.width - chars else 0
    ensures Converted('s', spec, [Text(t)]) ==
            if chars <= spec.precision - blanks then (Printed, Repeat(' ', blanks) + t[..chars])
            else if spec.precision >= blanks then (Printed, Repeat(' ', blanks) + t[..spec.precision - blanks])
            else (Undefined, Repeat(' ', blanks))
  {
  }

  lemma OnlyDirective(d: string, args: seq<Arg>)
    ensures var p := Parsed(d, PLAIN, FLAG, args);
      p.fmt == "" ==> Rendered("%" + d, args) == (p.status, p.text)
  {
    var p := Parsed(d, PLAIN, FLAG, args);
    assert ("%" + d)[1..] == d && ("%" + d)[0] == '%' && p.text + "" == p.text;
    hide Parsed;
  }

  /** A character that is no conversion, or the end of the format, is an error. */
  lemma MalformedDirective(zero: bool, w: nat, mods: string, c: char, rest: string, args: seq<Arg>)
    requires w <= 127 && mods in MODIFIERS && c !in "diuxpcsfega%" && !IsModifier(c)
    ensures Rendered("%" + (Directive(zero, w, mods, c) + rest), args) == (Error, "")
    ensures Rendered("%", args) == (Error, "")
  {
    hide Directive;
    RenderedOn(zero, w, mods, c, rest, args);
    assert "%"[1..] == "";
  }

  /** The lengths of three h and of three l are unknown. */
  lemma UnknownLengths(c: char, args: seq<Arg>)
    requires c in "diux"
    ensures Rendered("%hhh" + [c], args) == Rendered("%lll" + [c], args) == (Error, "")
  {
    hide Parsed, Rendered;
    assert "%hhh" + [c] == "%" + ("hh" + ("h" + [c])) && "%lll" + [c] == "%" + ("ll" + ("l" + [c]));
    assert "h" + [c] == ['h'] + [c] && "l" + [c] == ['l'] + [c] && [c] + "" == [c];
    ParsedLength("hh", "h" + [c], PLAIN, FLAG, args);
    ParsedModifier('h', [c], PLAIN.(length := -2), FLAG, args);
    ParsedConversion(c, "", PLAIN.(length := -3), FLAG, args);
    OnlyDirective("hh" + ("h" + [c]), args);
    ParsedLength("ll", "l" + [c], PLAIN, FLAG, args);
    ParsedModifier('l', [c], PLAIN.(length := 2), FLAG, args);
    ParsedConversion(c, "", PLAIN.(length := 3), FLAG, args);
    OnlyDirective("ll" + ("l" + [c]), args);
  }

  /** A format that is one signed directive prints a text that reads back as the argument. */
  lemma PrintedThenRead(zero: bool, w: nat, mods: string, c: char, bits: u64)
    requires w <= 127 && mods in {"", "h", "hh", "l", "ll", "z", "j", "t"} && (c == 'd' || c == 'i')
    ensures var (status, text) := Rendered("%" + Directive(zero, w, mods, c), [Word(bits)]);
      && status.Printed?
      && ReadSigned(text) == if mods in {"", "h", "hh"} then
                               (if bits % 0x1_0000_0000 < 0x8000_0000 then bits % 0x1_0000_0000
                                else bits % 0x1_0000_0000 - 0x1_0000_0000)
                             else if bits < 0x8000_0000_0000_0000 then bits else bits - 0x1_0000_0000_0000_0000
  {
    SignedIs(mods, bits);
    hide SignedArg, SignedText, Rendered, Directive, ReadSigned, Converted;
    SignedConverts(zero, w, MODIFIERS[mods], c, bits);
    var pad := if zero then '0' else ' ';
    RenderedOne(zero, w, mods, c, [Word(bits)], SignedText(w, SignedArg(MODIFIERS[mods], bits), pad));
    SignedReadsBack(w, SignedArg(MODIFIERS[mods], bits), pad);
  }

  /** The same for an unsigned directive, decimal or hexadecimal. */
  lemma PrintedThenReadUnsigned(zero: bool, w: nat, mods: string, c: char, bits: u64)
    requires w <= 127 && mods in {"", "h", "hh", "l", "ll", "z", "j", "t"} && (c == 'u' || c == 'x')
    ensures var (status, text) := Rendered("%" + Directive(zero, w, mods, c), [Word(bits)]);
      && status.Printed?
      && ReadNumber(text, if c == 'x' then 16 else 10) ==
         if mods in {"", "h", "hh"} then bits % 0x1_0000_0000 else bits
  {
    LengthOf(mods, bits);
    hide Rendered, Directive, Padded, Numeral, ReadNumber, UnsignedArg, Converted;
    UnsignedConverts(zero, w, MODIFIERS[mods], c, bits);
    var pad, base, value := if zero then '0' else ' ', if c == 'x' then 16 else 10, UnsignedArg(MODIFIERS[mods], bits);
    RenderedOne(zero, w, mods, c, [Word(bits)], Padded(w, Numeral(value, base), pad));
    FieldReadsBack(w, value, base, pad);
  }

  // ------------------------------------------------------------------ the code

  /** A `FILE` that takes every byte, with all that was written to it. */
  class Stream {
    var text: string

    constructor ()
      ensures text == ""
    {
      text := "";
    }

    method Put(c: char)
      modifies this
      ensures text == old(text) + [c]
    {
      text := text + [c];
    }

    method Write(s: string)
      modifies this
      ensures text == old(text) + s
    {
      text := text + s;
    }
  }

  /** `digit_count_base_10` and `digit_count_base_16` (lines 19-45). */
  method DigitCount(value: u64, base: nat) returns (count: nat)
    requires base == 10 || base == 16
    ensures count == |Numeral(value, base)|
  {
    if value == 0 {
      return 1;
    }
    hide Numeral, Quot;
    count := 0;
    var v: u64 := value;
    while v > 0
      invariant |Numeral(value, base)| == count + if v > 0 then |Numeral(v, base)| else 0
      decreases v
    {
      NumeralEnds(v, base);
      v := Quot(v, base);
      count := count + 1;
    }
  }

  /** `print_num_10` and `print_num_16` (lines 64-96): the digits are put into a 32-byte buffer from its end. */
  method PrintNum(stream: Stream, value: u64, base: nat) returns (n: nat)
    requires base == 10 || base == 16
    modifies stream
    ensures stream.text == old(stream.text) + Numeral(value, base) && n == |Numeral(value, base)|
  {
    hide Numeral, Digit, Quot, Rem, Filled;
    var buffer := new char[32](_ => '\0');
    var length := DigitCount(value, base);
    NumeralFits(value);
    var v: u64 := value;
    ghost var s := Numeral(value, base);
    FilledNext(buffer[..], s, 0);
    for i := 0 to length
      invariant length == |s| <= 32 && Filled(buffer[..], s, i)
      invariant if i < length then Numeral(v, base) == s[..length - i] else v == 0
      modifies buffer
    {
      FilledNext(buffer[..], s, i);
      NumeralEnds(v, base);
      ghost var was := buffer[..];
      buffer[length - 1 - i] := Digit(Rem(v, base));
      assert buffer[..] == was[length - 1 - i := s[length - 1 - i]];
      v := Quot(v, base);
    }
    FilledNext(buffer[..], s, length);
    stream.Write(buffer[..length]);
    return length;
  }

  /** The last i characters of s are in the buffer, at their place. */
  ghost predicate Filled(buffer: seq<char>, s: string, i: nat) {
    |s| <= |buffer| && forall k :: 0 <= k < |s| && k + i >= |s| ==> buffer[k] == s[k]
  }

  lemma FilledNext(buffer: seq<char>, s: string, i: nat)
    requires |s| <= |buffer| && i <= |s|
    ensures Filled(buffer, s, 0)
    ensures i < |s| && Filled(buffer, s, i) ==> Filled(buffer[|s| - 1 - i := s[|s| - 1 - i]], s, i + 1)
    ensures i < |s| ==> s[..|s| - i][..|s| - i - 1] == s[..|s| - i - 1] && s[..|s| - i][|s| - i - 1] == s[|s| - i - 1]
    ensures Filled(buffer, s, |s|) ==> buffer[..|s|] == s
    ensures s[..|s|] == s
  {
  }

  /** `while (afmt.width > digits)` with one padding character a turn, in all of the field printers. */
  method Pad(stream: Stream, width: int, digits: nat, pad: char) returns (printed: nat)
    modifies stream
    ensures printed == (if width > digits then width - digits else 0)
              && stream.text == old(stream.text) + Repeat(pad, printed)
  {
    printed := 0;
    var left := width;
    while left > digits
      invariant left == width - printed && (printed > 0 ==> left >= digits)
      invariant stream.text == old(stream.text) + Repeat(pad, printed)
      decreases left - digits
    {
      left := left - 1;
      printed := printed + 1;
      stream.Put(pad);
    }
  }

  /** The padding and the digits of a number, after `taken` characters of its field were printed. */
  method PrintField(stream: Stream, width: int, taken: nat, value: u64, base: nat, pad: char) returns (n: nat)
    requires base == 10 || base == 16
    modifies stream
    ensures stream.text == old(stream.text) + Padded(width - taken, Numeral(value, base), pad)
    ensures n == |Padded(width - taken, Numeral(value, base), pad)|
  {
    hide Padded, Numeral, Repeat;
    n := 0;
    PaddedPieces(old(stream.text), width - taken, Numeral(value, base), pad);
    if width > 0 {
      var digits := DigitCount(value, base);
      n := Pad(stream, width - taken, digits, pad);
    }
    var m := PrintNum(stream, value, base);
    n := n + m;
  }

  lemma PaddedPieces(before: string, width: int, text: string, pad: char)
    ensures before + Repeat(pad, if width > |text| then width - |text| else 0) + text ==
              before + Padded(width, text, pad)
    ensures width <= 0 ==> Padded(width, text, pad) == text
  {
  }

  /** `print_unsigned` (lines 98-129) in base 10 and `print_hex` (lines 196-227) in base 16. */
  method PrintUnsigned(stream: Stream, spec: Spec, bits: u64, base: nat) returns (status: Status, n: nat)
    requires base == 10 || base == 16
    modifies stream
    ensures status == if KnownLength(spec.length) then Printed else Error
    ensures var text := if status.Printed?
                        then Padded(spec.width, Numeral(UnsignedArg(spec.length, bits), base), PadOf(spec))
                        else "";
      stream.text == old(stream.text) + text && n == |text|
  {
    hide UnsignedArg, Padded, Numeral;
    if !KnownLength(spec.length) {
      return Error, 0;
    }
    n := PrintField(stream, spec.width, 0, UnsignedArg(spec.length, bits), base, PadOf(spec));
    return Printed, n;
  }

  /** `print_signed` (lines 131-171). The negation is taken to wrap around, which the least 64-bit
      value survives. */
  method PrintSigned(stream: Stream, spec: Spec, bits: u64) returns (status: Status, n: nat)
    modifies stream
    ensures status == if KnownLength(spec.length) then Printed else Error
    ensures var text := if status.Printed?
                        then SignedText(spec.width, SignedArg(spec.length, bits), PadOf(spec))
                        else "";
      stream.text == old(stream.text) + text && n == |text|
  {
    hide SignedArg, Padded, Numeral;
    if !KnownLength(spec.length) {
      return Error, 0;
    }
    SignedBounds(spec.length, bits);
    var value := SignedArg(spec.length, bits);
    if value < 0 {
      stream.Put('-');
      n := PrintField(stream, spec.width, 1, -value, 10, PadOf(spec));
      n := n + 1;
    } else {
      n := PrintField(stream, spec.width, 0, value, 10, PadOf(spec));
    }
    return Printed, n;
  }

  /** `print_string` (lines 173-194). */
  method PrintString(stream: Stream, spec: Spec, str: string) returns (status: Status, n: nat)
    requires |str| < 0x8000_0000
    modifies stream
    ensures var (s, text) := StringText(spec, str);
      status == s && stream.text == old(stream.text) + text && (status.Printed? ==> n == |text|)
  {
    var chars: int := Shown(spec, str);
    n := Pad(stream, spec.width, chars, ' ');
    var precision := spec.precision - n;
    if spec.hasPrecision && chars > precision {
      chars := precision;
    }
    if chars < 0 {
      return Undefined, n;
    }
    stream.Write(str[..chars]);
    return Printed, n + chars;
  }

  /** The conversions of `parse_format_str` (lines 247-263 and 309-318). */
  method Convert(stream: Stream, c: char, spec: Spec, args: seq<Arg>) returns (status: Status, n: nat)
    modifies stream
    ensures var (s, text) := Converted(c, spec, args);
      status == s && stream.text == old(stream.text) + text && (status.Printed? ==> n == |text|)
  {
    hide Padded, Numeral, SignedText, StringText, SignedArg, Repeat;
    if c == '%' {
      stream.Put('%');
      return Printed, 1;
    }
    if c !in "diuxpcsfega" || (c in "diux" && !KnownLength(spec.length)) {
      return Error, 0;
    }
    if args == [] {
      return Undefined, 0;
    }
    match args[0] {
    case Float =>
      if c in "fega" {
        stream.Put('?');
        return Printed, 1;
      }
    case Text(text) =>
      if c == 's' && |text| < 0x8000_0000 {
        status, n := PrintString(stream, spec, text);
        return;
      }
    case Word(bits) =>
      if c == 'd' || c == 'i' {
        status, n := PrintSigned(stream, spec, bits);
        return;
      } else if c == 'u' {
        status, n := PrintUnsigned(stream, spec, bits, 10);
        return;
      } else if c == 'x' {
        status, n := PrintUnsigned(stream, spec, bits, 16);
        return;
      } else if c == 'p' {
        status, n := PrintUnsigned(stream, Spec(spec.precision, 16, 2, true, spec.hasPrecision), bits, 16);
        return;
      } else if c == 'c' {
        stream.Put((bits % 256) as char);
        return Printed, 1;
      }
    }
    return Undefined, 0;
  }

  /** `parse_format_str` (lines 238-321), from position i of the format on. */
  method ParseFormat(stream: Stream, fmt: string, i: nat, args: seq<Arg>)
      returns (status: Status, n: nat, next: nat, rest: seq<Arg>)
    requires i <= |fmt|
    modifies stream
    ensures var p := Parsed(fmt[i..], PLAIN, FLAG, args);
      && status == p.status && stream.text == old(stream.text) + p.text && (status.Printed? ==> n == |p.text|)
      && i <= next <= |fmt| && fmt[next..] == p.fmt && rest == p.args
  {
    hide Converted, Modified, IsModifier;
    var afmt, state := PLAIN, FLAG;
    next := i;
    while next < |fmt| && IsModifier(fmt[next])
      invariant i <= next <= |fmt|
      invariant Parsed(fmt[i..], PLAIN, FLAG, args) == Parsed(fmt[next..], afmt, state, args)
      modifies {}
    {
      assert fmt[next..][1..] == fmt[next + 1..];
      var (spec, after) := Modified(fmt[next], afmt, state);
      afmt, state := spec, after;
      next := next + 1;
    }
    if next == |fmt| {
      return Error, 0, next, args;
    }
    assert fmt[next..][1..] == fmt[next + 1..];
    var c := fmt[next];
    status, n := Convert(stream, c, afmt, args);
    next := next + 1;
    rest := if c == '%' || args == [] then args else args[1..];
  }

  /** `vfprintf` (lines 323-345): prints what the format means; without an error, the result is exactly the number of
      bytes written, and with one it is EOF. */
  method VFPrintf(stream: Stream, fmt: string, args: seq<Arg>) returns (status: Status, written: int)
    modifies stream
    ensures var (s, text) := Rendered(fmt, args);
      && status == s && stream.text == old(stream.text) + text
      && (status.Printed? ==> written == |text|) && (status.Error? ==> written == -1)
  {
    hide Parsed, Rendered, Left;
    var i, rest := 0, args;
    written := 0;
    ghost var done := "";
    LeftStart(fmt, args);
    while i < |fmt| && fmt[i] != '\0'
      invariant 0 <= i <= |fmt| && stream.text == old(stream.text) + done && written == |done|
      invariant Left(fmt, args, i, rest, done)
      decreases |fmt| - i
    {
      LeftStep(fmt, args, i, rest, done);
      var c := fmt[i];
      i := i + 1;
      if c != '%' {
        stream.Put(c);
        written := written + 1;
        done := done + [c];
      } else {
        var n;
        done := done + Parsed(fmt[i..], PLAIN, FLAG, rest).text;
        status, n, i, rest := ParseFormat(stream, fmt, i, rest);
        if !status.Printed? {
          return status, -1;
        }
        written := written + n;
      }
    }
    LeftEnd(fmt, args, i, rest, done);
    return Printed, written;
  }

  /** What is printed for the format is `done` and then what the rest of the format prints. */
  ghost predicate Left(fmt: string, args: seq<Arg>, i: nat, rest: seq<Arg>, done: string) {
    i <= |fmt| && var (status, text) := Rendered(fmt[i..], rest); Rendered(fmt, args) == (status, done + text)
  }

  lemma LeftStart(fmt: string, args: seq<Arg>)
    ensures Left(fmt, args, 0, args, "")
  {
    var text := Rendered(fmt, args).1;
    assert fmt[0..] == fmt && "" + text == text;
    hide Rendered;
  }

  lemma LeftEnd(fmt: string, args: seq<Arg>, i: nat, rest: seq<Arg>, done: string)
    ensures Left(fmt, args, i, rest, done) && (i == |fmt| || (i < |fmt| && fmt[i] == '\0')) ==>
              Rendered(fmt, args) == (Printed, done)
  {
    assert i == |fmt| ==> fmt[i..] == "";
    assert i < |fmt| ==> fmt[i..][0] == fmt[i];
    assert done + "" == done;
  }

  lemma LeftStep(fmt: string, args: seq<Arg>, i: nat, rest: seq<Arg>, done: string)
    requires i < |fmt| && fmt[i] != '\0'
    ensures Left(fmt, args, i, rest, done) && fmt[i] != '%' ==> Left(fmt, args, i + 1, rest, done + [fmt[i]])
    ensures Left(fmt, args, i, rest, done) && fmt[i] == '%' ==>
              var p := Parsed(fmt[i + 1..], PLAIN, FLAG, rest);
              && (p.status.Printed? ==>
                    forall k: nat :: k <= |fmt| && fmt[k..] == p.fmt ==> Left(fmt, args, k, p.args, done + p.text))
              && (!p.status.Printed? ==> Rendered(fmt, args) == (p.status, done + p.text))
  {
    hide Parsed;
    assert fmt[i..][1..] == fmt[i + 1..] && fmt[i..][0] == fmt[i];
    if fmt[i] != '%' {
      var text := Rendered(fmt[i + 1..], rest).1;
      assert done + ([fmt[i]] + text) == done + [fmt[i]] + text;
    } else {
      var p := Parsed(fmt[i + 1..], PLAIN, FLAG, rest);
      var text := Rendered(p.fmt, p.args).1;
      assert done + (p.text + text) == done + p.text + text;
    }
  }
}
