/** What the two formatters of the kernel print: `mini_vsnprintf` (kernel/panic.c:39-96) into a bounded
    buffer, `kvprintf` (kernel/log.c:107-203) to the serial port. A C string is the text before its null
    character, and the variable arguments are a sequence of typed values. */
module Format {
  import opened Bits
  import opened Digits
  import opened Wrappers

  datatype Printer = Panic | Serial

  datatype Arg =
    | Str(s: Option<string>)
    | Chr(c: char)
    | Unsigned(u: nat)
    | Signed(d: int)
    | Pointer(p: u64)

  datatype Length = Plain | Long | LongLong | Size

  datatype Item =
    | Literal(c: char)
    | Conversion(letter: char, length: Length, width: nat, zero: bool)

  // ----- reading a format -----

  function SkipLs(s: string): (r: string)
    ensures |r| <= |s|
  {
    if s != "" && s[0] == 'l' then SkipLs(s[1..]) else s
  }

  function SkipZeros(s: string): (r: string)
    ensures |r| <= |s|
  {
    if s != "" && s[0] == '0' then SkipZeros(s[1..]) else s
  }

  predicate IsDigit(c: char) { '0' <= c <= '9' }

  function SkipDigits(s: string): (r: string)
    ensures |r| <= |s|
  {
    if s != "" && IsDigit(s[0]) then SkipDigits(s[1..]) else s
  }

  /** The width read so far is `w`. */
  function WidthOf(s: string, w: nat): nat {
    if s != "" && IsDigit(s[0]) then WidthOf(s[1..], w * 10 + (s[0] as int) - ('0' as int)) else w
  }

  /** Reading on does not make a width smaller. */
  lemma {:induction false} WidthGrows(s: string, w: nat)
    ensures w <= WidthOf(s, w)
  {
    if s != "" && IsDigit(s[0]) {
      WidthGrows(s[1..], w * 10 + (s[0] as int) - ('0' as int));
    }
  }

  function LengthOf(s: string): Length {
    if s == "" then Plain
    else if s[0] == 'z' then Size
    else if s[0] == 'l' then if |s| > 1 && s[1] == 'l' then LongLong else Long
    else Plain
  }

  function SkipLength(s: string): (r: string)
    ensures |r| <= |s|
  {
    match LengthOf(s)
    case Plain => s
    case LongLong => s[2..]
    case _ => s[1..]
  }

  /** A conversion from its letter on. */
  function FromLetter(printer: Printer, fmt: string): (r: string)
    requires fmt != ""
    ensures |r| < |fmt|
  {
    match printer
    case Panic => SkipLs(fmt[1..])
    case Serial => SkipLength(SkipDigits(SkipZeros(fmt[1..])))
  }

  /** The format does not end inside a conversion. */
  predicate Complete(printer: Printer, fmt: string)
    requires fmt != ""
  {
    fmt[0] == '%' ==> FromLetter(printer, fmt) != ""
  }

  function Parse(printer: Printer, fmt: string): Item
    requires fmt != "" && Complete(printer, fmt)
  {
    if fmt[0] != '%' then Literal(fmt[0])
    else
      var letter := FromLetter(printer, fmt)[0];
      match printer
      case Panic =>
        var ls := |fmt| - 1 - |FromLetter(printer, fmt)|;
        Conversion(letter, if ls >= 2 then LongLong else if ls == 1 then Long else Plain, 0, false)
      case Serial =>
        var afterZeros := SkipZeros(fmt[1..]);
        Conversion(letter, LengthOf(SkipDigits(afterZeros)), WidthOf(afterZeros, 0), |afterZeros| < |fmt| - 1)
  }

  function Rest(printer: Printer, fmt: string): (r: string)
    requires fmt != "" && Complete(printer, fmt)
    ensures |r| < |fmt|
  {
    if fmt[0] != '%' then fmt[1..] else FromLetter(printer, fmt)[1..]
  }

  // ----- one item -----

  predicate Takes(printer: Printer, item: Item) {
    item.Conversion? && (item.letter in "scpxXud" || (printer == Serial && item.letter == 'i'))
  }

  function Limit(length: Length): nat {
    if length.Plain? then 0x1_0000_0000 else TWO_64
  }

  /** The argument has the type the conversion reads. The most negative number is excluded. */
  predicate Accepts(item: Item, arg: Arg)
    requires item.Conversion?
  {
    match item.letter
    case 's' => arg.Str?
    case 'c' => arg.Chr?
    case 'p' => arg.Pointer?
    case 'u' => arg.Unsigned? && arg.u < Limit(item.length)
    case 'x' => arg.Unsigned? && arg.u < Limit(item.length)
    case 'X' => arg.Unsigned? && arg.u < Limit(item.length)
    case _ =>
      if item.length.Size? then arg.Unsigned? && arg.u < TWO_64 && arg.u != TWO_64 / 2
      else arg.Signed? && 0 - Limit(item.length) <= 2 * arg.d < Limit(item.length) && 0 - 2 * arg.d != TWO_64
  }

  /** `%zd` reads a `size_t` and prints it as a signed number. */
  function SignedValue(arg: Arg): int
    requires arg.Signed? || arg.Unsigned?
  {
    if arg.Signed? then arg.d else if arg.u < TWO_64 / 2 then arg.u else arg.u - TWO_64
  }

  function StringOf(s: Option<string>): string {
    match s
    case None => "(null)"
    case Some(t) => t
  }

  function CrLf(s: string): string {
    if s == "" then "" else (if s[0] == '\n' then "\r\n" else [s[0]]) + CrLf(s[1..])
  }

  function Fill(n: int, c: char): string {
    if n <= 0 then "" else [c] + Fill(n - 1, c)
  }

  function PadChar(zero: bool): char { if zero then '0' else ' ' }

  /** `write_uint_padded`. */
  function Padded(v: nat, base: nat, width: int, zero: bool, upper: bool): string
    requires IsBase(base)
  {
    Fill(width - |Text(v, base, upper)|, PadChar(zero)) + Text(v, base, upper)
  }

  /** `write_int_padded`: the sign comes before the padding. */
  function PaddedInt(d: int, width: int, zero: bool): string {
    if d < 0 then "-" + Padded(-d, 10, if width > 0 then width - 1 else 0, zero, false)
    else Padded(d, 10, width, zero, false)
  }

  /** The text of a conversion that takes an argument. */
  function Converted(printer: Printer, item: Item, arg: Arg): string
    requires Takes(printer, item) && Accepts(item, arg)
  {
    match item.letter
    case 's' => if printer == Serial then CrLf(StringOf(arg.s)) else StringOf(arg.s)
    case 'c' => [arg.c]
    case 'p' => "0x" + if printer == Serial then Padded(arg.p, 16, 16, true, false) else Text(arg.p, 16, false)
    case 'u' => Padded(arg.u, 10, item.width, item.zero, false)
    case 'x' => Padded(arg.u, 16, item.width, item.zero, false)
    case 'X' => Padded(arg.u, 16, item.width, item.zero, true)
    case _ => PaddedInt(SignedValue(arg), item.width, item.zero)
  }

  /** The text of an item that takes none: a literal, a per cent sign, or an unknown conversion as it stands. */
  function Plainly(printer: Printer, item: Item): string {
    match item
    case Literal(c) => if printer == Serial then CrLf([c]) else [c]
    case Conversion(letter, _, _, _) => if letter == '%' then "%" else "%" + [letter]
  }

  // ----- a whole format -----

  /** The width of a conversion can be held in an `int`, which the serial printer reads it into. */
  predicate WidthFits(item: Item) { item.Conversion? ==> item.width < 0x8000_0000 }

  /** The arguments fit the format. */
  predicate Fits(printer: Printer, fmt: string, args: seq<Arg>)
    decreases |fmt|
  {
    fmt == "" ||
    (Complete(printer, fmt) &&
     var item := Parse(printer, fmt);
     WidthFits(item) &&
     if Takes(printer, item) then args != [] && Accepts(item, args[0]) && Fits(printer, Rest(printer, fmt), args[1..])
     else Fits(printer, Rest(printer, fmt), args))
  }

  /** The unbounded rendering. */
  function Render(printer: Printer, fmt: string, args: seq<Arg>): string
    requires Fits(printer, fmt, args)
    decreases |fmt|
  {
    if fmt == "" then ""
    else
      var item := Parse(printer, fmt);
      if Takes(printer, item) then Converted(printer, item, args[0]) + Render(printer, Rest(printer, fmt), args[1..])
      else Plainly(printer, item) + Render(printer, Rest(printer, fmt), args)
  }

  /** One step of a rendering. */
  lemma RenderTaking(printer: Printer, fmt: string, args: seq<Arg>, text: string)
    requires fmt != "" && Fits(printer, fmt, args) && Takes(printer, Parse(printer, fmt))
    ensures text + Render(printer, fmt, args) ==
            (text + Converted(printer, Parse(printer, fmt), args[0])) + Render(printer, Rest(printer, fmt), args[1..])
  {
    Regroup(text, Converted(printer, Parse(printer, fmt), args[0]), Render(printer, Rest(printer, fmt), args[1..]));
  }

  lemma RenderPlain(printer: Printer, fmt: string, args: seq<Arg>, text: string)
    requires fmt != "" && Fits(printer, fmt, args) && !Takes(printer, Parse(printer, fmt))
    ensures text + Render(printer, fmt, args) ==
            (text + Plainly(printer, Parse(printer, fmt))) + Render(printer, Rest(printer, fmt), args)
  {
    Regroup(text, Plainly(printer, Parse(printer, fmt)), Render(printer, Rest(printer, fmt), args));
  }

  // ----- carriage returns -----

  lemma {:induction false} CrLfAppend(a: string, b: string)
    ensures CrLf(a + b) == CrLf(a) + CrLf(b)
  {
    if a == "" {
      assert a + b == b;
    } else {
      CrLfAppend(a[1..], b);
      assert (a + b)[1..] == a[1..] + b;
      Regroup(if a[0] == '\n' then "\r\n" else [a[0]], CrLf(a[1..]), CrLf(b));
    }
  }

  lemma {:induction false} CrLfPlain(s: string)
    requires '\n' !in s
    ensures CrLf(s) == s
  {
    if s != "" {
      CrLfPlain(s[1..]);
    }
  }

  // ----- widths -----

  /** Without a width there is no padding. */
  lemma NoPadding(v: nat, base: nat, zero: bool, upper: bool)
    requires IsBase(base)
    ensures Padded(v, base, 0, zero, upper) == Text(v, base, upper)
    ensures CrLf(Text(v, base, upper)) == Text(v, base, upper)
  {
    NoLeadingZero(v, base, upper);
    DigitsHaveNoNewline(v, base, upper);
    CrLfPlain(Text(v, base, upper));
  }

  lemma NoIntPadding(d: int, zero: bool)
    ensures PaddedInt(d, 0, zero) == IntText(d) && CrLf(IntText(d)) == IntText(d)
  {
    if d < 0 {
      NoPadding(-d, 10, zero, false);
      CrLfAppend("-", Text(-d, 10, false));
      CrLfPlain("-");
    } else {
      NoPadding(d, 10, zero, false);
    }
  }

  lemma {:induction false} FillLength(n: int, c: char)
    ensures |Fill(n, c)| == if n > 0 then n else 0
  {
    if n > 0 {
      FillLength(n - 1, c);
    }
  }

  lemma PaddedLength(v: nat, base: nat, width: int, zero: bool, upper: bool)
    requires IsBase(base)
    ensures var n := |Text(v, base, upper)|;
            |Padded(v, base, width, zero, upper)| == if width > n then width else n
  {
    FillLength(width - |Text(v, base, upper)|, PadChar(zero));
  }

  /** A padded number is as long as the larger of the width and the number itself, sign included. */
  lemma PaddedIntLength(d: int, width: int, zero: bool)
    ensures |PaddedInt(d, width, zero)| == if width > |IntText(d)| then width else |IntText(d)|
  {
    if d < 0 {
      NoLeadingZero(-d, 10, false);
      PaddedLength(-d, 10, if width > 0 then width - 1 else 0, zero, false);
    } else {
      PaddedLength(d, 10, width, zero, false);
    }
  }

  lemma {:induction false} FillSnoc(n: nat, c: char)
    ensures Fill(n + 1, c) == Fill(n, c) + [c]
  {
    if n > 0 {
      FillSnoc(n - 1, c);
    }
  }

  lemma {:induction false} OnlyZeros(n: int, base: nat)
    ensures Value(Fill(n, '0'), base) == 0
  {
    if n > 0 {
      OnlyZeros(n - 1, base);
      FillSnoc(n - 1, '0');
      var all := Fill(n, '0');
      assert all[..|all| - 1] == Fill(n - 1, '0');
    }
  }

  lemma {:induction false} ZerosInFront(n: int, s: string, base: nat)
    ensures Value(Fill(n, '0') + s, base) == Value(s, base)
    decreases s
  {
    if s == "" {
      OnlyZeros(n, base);
      assert Fill(n, '0') + "" == Fill(n, '0');
    } else {
      var all, front := Fill(n, '0') + s, s[..|s| - 1];
      assert all[..|all| - 1] == Fill(n, '0') + front;
      ZerosInFront(n, front, base);
    }
  }

  /** A zero-padded number reads back as the number. */
  lemma PaddedRead(v: nat, base: nat, width: int, upper: bool)
    requires IsBase(base)
    ensures Value(Padded(v, base, width, true, upper), base) == v
  {
    TextRead(v, base, upper);
    ZerosInFront(width - |Text(v, base, upper)|, Text(v, base, upper), base);
  }
}
