/** What a format string asks for and what must be printed for it, without the printers' own functions: the
    conversions as the comments and the callers of `kvprintf` and `mini_vsnprintf` write them. */
module FormatMeaning {
  import opened Bits
  import opened Digits
  import opened Format
  import opened Wrappers

  // ----- writing a format -----

  ghost function LengthLetters(length: Length): string {
    match length
    case Plain => ""
    case Long => "l"
    case LongLong => "ll"
    case Size => "z"
  }

  /** An item as the author of a format writes it: flag, width, length, letter. */
  ghost function Spelled(item: Item): string {
    match item
    case Literal(c) => [c]
    case Conversion(letter, length, width, zero) =>
      "%" + (if zero then "0" else "") + (if width > 0 then Text(width, 10, false) else "") + LengthLetters(length) +
      [letter]
  }

  /** Items that can be written like this. The panic printer knows no flag, no width and no `z`. */
  ghost predicate Spellable(printer: Printer, item: Item) {
    match item
    case Literal(c) => c != '%'
    case Conversion(letter, length, width, zero) =>
      if printer == Panic then letter != 'l' && length != Size && width == 0 && !zero
      else letter != 'l' && letter != 'z' && !('0' <= letter <= '9')
  }

  /** `rest` starts with no digit. */
  ghost predicate NoDigit(rest: string) { rest == "" || !('0' <= rest[0] <= '9') }

  ghost predicate Decimal(s: string) { forall i | 0 <= i < |s| :: '0' <= s[i] <= '9' }

  lemma {:induction false} DigitsReadBack(done: string, s: string, rest: string)
    requires Decimal(s) && NoDigit(rest)
    ensures WidthOf(s + rest, Value(done, 10)) == Value(done + s, 10) && SkipDigits(s + rest) == rest
    decreases |s|
  {
    if s == "" {
      assert s + rest == rest && done + s == done;
    } else {
      assert (s + rest)[1..] == s[1..] + rest;
      assert done + s == (done + [s[0]]) + s[1..];
      ValueSnoc(done, s[0], 10);
      DigitsReadBack(done + [s[0]], s[1..], rest);
    }
  }

  lemma DecimalText(v: nat)
    ensures Decimal(Text(v, 10, false))
  {
    TextInAlphabet(v, 10, false);
    var s := Text(v, 10, false);
    forall i | 0 <= i < |s|
      ensures '0' <= s[i] <= '9'
    {
      assert s[i] in Alphabet(10, false);
    }
  }

  /** A width is read as the number it shows. */
  lemma WidthReadBack(width: nat, rest: string)
    requires NoDigit(rest)
    ensures var s := if width > 0 then Text(width, 10, false) else "";
            SkipZeros(s + rest) == s + rest && WidthOf(s + rest, 0) == width && SkipDigits(s + rest) == rest
  {
    if width > 0 {
      var s := Text(width, 10, false);
      DecimalText(width);
      NoLeadingZero(width, 10, false);
      TextRead(width, 10, false);
      DigitsReadBack("", s, rest);
      assert "" + s == s;
    } else {
      assert "" + rest == rest;
    }
  }

  lemma LengthReadBack(length: Length, letter: char, rest: string)
    requires letter != 'l' && letter != 'z'
    ensures var s := LengthLetters(length) + ([letter] + rest);
            LengthOf(s) == length && SkipLength(s) == [letter] + rest
  {
    var tail := [letter] + rest;
    assert ("l" + tail)[1..] == tail && ("z" + tail)[1..] == tail && ("ll" + tail)[2..] == tail;
    assert "" + tail == tail;
  }

  /** A written conversion from the character behind the per cent sign on. */
  lemma BehindPercent(flag: string, width: string, letters: string, letter: char, rest: string)
    ensures var fmt := ("%" + flag + width + letters + [letter]) + rest;
            fmt[0] == '%' && fmt[1..] == flag + (width + (letters + ([letter] + rest)))
  {
    Regroup("%" + flag + width + letters, [letter], rest);
    Regroup("%" + flag + width, letters, [letter] + rest);
    Regroup("%" + flag, width, letters + ([letter] + rest));
    Regroup("%", flag, width + (letters + ([letter] + rest)));
  }

  lemma FlagReadBack(zero: bool, after: string)
    requires SkipZeros(after) == after
    ensures SkipZeros((if zero then "0" else "") + after) == after
  {
    assert ("0" + after)[1..] == after && "" + after == after;
  }

  /** The serial printer reads a written conversion as what was written. */
  lemma SerialReadBack(letter: char, length: Length, width: nat, zero: bool, rest: string)
    requires Spellable(Serial, Conversion(letter, length, width, zero))
    ensures var fmt := Spelled(Conversion(letter, length, width, zero)) + rest;
            && fmt != "" && FromLetter(Serial, fmt) == [letter] + rest
            && Parse(Serial, fmt) == Conversion(letter, length, width, zero)
  {
    var flag, digits, letters := if zero then "0" else "", if width > 0 then Text(width, 10, false) else "",
                                 LengthLetters(length);
    BehindPercent(flag, digits, letters, letter, rest);
    LengthReadBack(length, letter, rest);
    WidthReadBack(width, letters + ([letter] + rest));
    FlagReadBack(zero, digits + (letters + ([letter] + rest)));
  }

  lemma LsReadBack(length: Length, letter: char, rest: string)
    requires letter != 'l' && !length.Size?
    ensures SkipLs(LengthLetters(length) + ([letter] + rest)) == [letter] + rest
  {
    var tail := [letter] + rest;
    assert ("l" + tail)[1..] == tail && ("ll" + tail)[1..] == "l" + tail;
    assert "" + tail == tail;
    assert SkipLs(tail) == tail && SkipLs("l" + tail) == tail;
  }

  lemma PanicReadBack(letter: char, length: Length, rest: string)
    requires Spellable(Panic, Conversion(letter, length, 0, false))
    ensures var fmt := Spelled(Conversion(letter, length, 0, false)) + rest;
            && fmt != "" && FromLetter(Panic, fmt) == [letter] + rest
            && Parse(Panic, fmt) == Conversion(letter, length, 0, false)
  {
    BehindPercent("", "", LengthLetters(length), letter, rest);
    LsReadBack(length, letter, rest);
    assert "" + ("" + (LengthLetters(length) + ([letter] + rest))) == LengthLetters(length) + ([letter] + rest);
  }

  /** Reading a written item gives the item back, and goes on after it. */
  lemma ReadBack(printer: Printer, item: Item, rest: string)
    requires Spellable(printer, item)
    ensures var fmt := Spelled(item) + rest;
            fmt != "" && Complete(printer, fmt) && Parse(printer, fmt) == item && Rest(printer, fmt) == rest
  {
    match item
    case Literal(c) =>
    case Conversion(letter, length, width, zero) =>
      if printer == Panic {
        PanicReadBack(letter, length, rest);
      } else {
        SerialReadBack(letter, length, width, zero, rest);
      }
  }

  // ----- what must be printed -----

  /** `s` shows `v`: digits of the base in the case asked for, as few as possible. */
  ghost predicate Shows(s: string, v: nat, base: nat, upper: bool) {
    && s != "" && (forall c | c in s :: c in Alphabet(base, upper))
    && Value(s, base) == v && (s[0] == '0' ==> |s| == 1)
  }

  /** `s` is `k` times `pad`, then `v`; padded, it has the width exactly. */
  ghost predicate ShowsBehind(s: string, k: nat, v: nat, base: nat, upper: bool, width: int, pad: char) {
    && k < |s| && Shows(s[k..], v, base, upper) && (forall i | 0 <= i < k :: s[i] == pad)
    && width <= |s| && (k > 0 ==> |s| == width)
  }

  /** `s` shows `v` behind as many `pad` as bring it to the width, and no more. */
  ghost predicate ShowsWide(s: string, v: nat, base: nat, upper: bool, width: int, pad: char) {
    exists k: nat :: ShowsBehind(s, k, v, base, upper, width, pad)
  }

  /** A signed number has its sign first and the padding after it. */
  ghost predicate ShowsSigned(s: string, d: int, width: int, pad: char) {
    if d >= 0 then ShowsWide(s, d, 10, false, width, pad)
    else s != "" && s[0] == '-' && ShowsWide(s[1..], -d, 10, false, if width > 0 then width - 1 else 0, pad)
  }

  /** Without the `\r` of every `\r\n`. */
  ghost function Stripped(s: string): string {
    if s == "" then ""
    else if s[0] == '\r' && |s| > 1 && s[1] == '\n' then ['\n'] + Stripped(s[2..])
    else [s[0]] + Stripped(s[1..])
  }

  /** `s` is `t` with a carriage return put before every newline. */
  ghost predicate WithReturns(s: string, t: string) {
    Stripped(s) == t && forall i | 0 <= i < |s| && s[i] == '\n' :: i > 0 && s[i - 1] == '\r'
  }

  /** An argument as the number that `d` and `i` print. */
  ghost function Number(arg: Arg): int
    requires arg.Signed? || arg.Unsigned?
  {
    match arg
    case Signed(d) => d
    case Unsigned(u) => if u < 0x8000_0000_0000_0000 then u else u - 0x1_0000_0000_0000_0000
  }

  ghost predicate ReadsArgument(printer: Printer, letter: char) {
    letter in "scpxXud" || (printer == Serial && letter == 'i')
  }

  ghost predicate ShowsString(printer: Printer, s: string, t: Option<string>) {
    match t
    case None => s == "(null)"
    case Some(value) => if printer == Panic then s == value else WithReturns(s, value)
  }

  /** A pointer has all its 16 digits on the stream. */
  ghost predicate ShowsPointer(printer: Printer, s: string, p: u64) {
    |s| >= 2 && s[0] == '0' && s[1] == 'x' &&
    if printer == Panic then Shows(s[2..], p, 16, false) else |s| == 18 && ShowsWide(s[2..], p, 16, false, 16, '0')
  }

  /** The text for a conversion and its argument. */
  ghost predicate Prints(printer: Printer, item: Item, arg: Arg, s: string)
    requires item.Conversion? && Accepts(item, arg)
  {
    var pad := if item.zero then '0' else ' ';
    match item.letter
    case 's' => ShowsString(printer, s, arg.s)
    case 'c' => s == [arg.c]
    case 'p' => ShowsPointer(printer, s, arg.p)
    case 'u' => ShowsWide(s, arg.u, 10, false, item.width, pad)
    case 'x' => ShowsWide(s, arg.u, 16, false, item.width, pad)
    case 'X' => ShowsWide(s, arg.u, 16, true, item.width, pad)
    case _ => ShowsSigned(s, Number(arg), item.width, pad)
  }

  /** The text for an item that reads no argument. */
  ghost predicate PrintsPlainly(printer: Printer, item: Item, s: string) {
    match item
    case Literal(c) => if printer == Serial && c == '\n' then s == "\r\n" else s == [c]
    case Conversion(letter, _, _, _) => if letter == '%' then s == "%" else s == ['%', letter]
  }

  lemma TextShows(v: nat, base: nat, upper: bool)
    requires IsBase(base)
    ensures Shows(Text(v, base, upper), v, base, upper)
  {
    TextRead(v, base, upper);
    TextInAlphabet(v, base, upper);
    NoLeadingZero(v, base, upper);
  }

  lemma {:induction false} FillIs(n: int, c: char)
    ensures forall i | 0 <= i < |Fill(n, c)| :: Fill(n, c)[i] == c
  {
    if n > 0 {
      FillIs(n - 1, c);
    }
  }

  lemma PaddedShows(v: nat, base: nat, width: int, zero: bool, upper: bool)
    requires IsBase(base)
    ensures ShowsWide(Padded(v, base, width, zero, upper), v, base, upper, width, if zero then '0' else ' ')
  {
    var text := Text(v, base, upper);
    var k := if width > |text| then width - |text| else 0;
    FillLength(width - |text|, PadChar(zero));
    FillIs(width - |text|, PadChar(zero));
    TextShows(v, base, upper);
    assert Padded(v, base, width, zero, upper)[k..] == text;
    assert ShowsBehind(Padded(v, base, width, zero, upper), k, v, base, upper, width, if zero then '0' else ' ');
  }

  lemma SignInFront(padded: string, d: int, width: int, pad: char)
    requires d < 0 && ShowsWide(padded, -d, 10, false, if width > 0 then width - 1 else 0, pad)
    ensures ShowsSigned("-" + padded, d, width, pad)
  {
    assert ("-" + padded)[1..] == padded;
  }

  lemma PaddedIntShows(d: int, width: int, zero: bool)
    ensures ShowsSigned(PaddedInt(d, width, zero), d, width, if zero then '0' else ' ')
  {
    if d < 0 {
      var inner := if width > 0 then width - 1 else 0;
      PaddedShows(-d, 10, inner, zero, false);
      SignInFront(Padded(-d, 10, inner, zero, false), d, width, if zero then '0' else ' ');
    } else {
      PaddedShows(d, 10, width, zero, false);
    }
  }

  lemma {:induction false} ReturnsPut(t: string)
    ensures WithReturns(CrLf(t), t) && (CrLf(t) != "" ==> CrLf(t)[0] != '\n')
  {
    if t != "" {
      var s, tail := CrLf(t), CrLf(t[1..]);
      ReturnsPut(t[1..]);
      if t[0] == '\n' {
        assert s[2..] == tail;
        assert forall i | 2 <= i < |s| :: s[i] == tail[i - 2];
      } else {
        assert s[1..] == tail;
        assert forall i | 1 <= i < |s| :: s[i] == tail[i - 1];
      }
    }
  }

  lemma PointerShows(p: u64)
    ensures ShowsPointer(Panic, "0x" + Text(p, 16, false), p)
    ensures ShowsPointer(Serial, "0x" + Padded(p, 16, 16, true, false), p)
  {
    TextShows(p, 16, false);
    WordDigits(p, false);
    PaddedLength(p, 16, 16, true, false);
    PaddedShows(p, 16, 16, true, false);
    assert ("0x" + Text(p, 16, false))[2..] == Text(p, 16, false);
    assert ("0x" + Padded(p, 16, 16, true, false))[2..] == Padded(p, 16, 16, true, false);
  }

  lemma StringShows(printer: Printer, t: Option<string>)
    ensures ShowsString(printer, if printer == Serial then CrLf(StringOf(t)) else StringOf(t), t)
  {
    if t.Some? {
      ReturnsPut(t.value);
    } else {
      CrLfPlain("(null)");
    }
  }

  lemma TakesIff(printer: Printer, item: Item)
    ensures Takes(printer, item) <==> item.Conversion? && ReadsArgument(printer, item.letter)
  {
  }

  lemma TextPrints(printer: Printer, item: Item, arg: Arg)
    requires Takes(printer, item) && Accepts(item, arg) && item.letter in {'s', 'c', 'p'}
    ensures Prints(printer, item, arg, Converted(printer, item, arg))
  {
    if item.letter == 's' {
      StringShows(printer, arg.s);
    } else if item.letter == 'p' {
      PointerShows(arg.p);
    }
  }

  lemma UnsignedPrints(printer: Printer, item: Item, arg: Arg)
    requires Takes(printer, item) && Accepts(item, arg) && item.letter in {'u', 'x', 'X'}
    ensures Prints(printer, item, arg, Converted(printer, item, arg))
  {
    PaddedShows(arg.u, if item.letter == 'u' then 10 else 16, item.width, item.zero, item.letter == 'X');
  }

  lemma SignedNumber(printer: Printer, item: Item, arg: Arg)
    requires Takes(printer, item) && Accepts(item, arg) && item.letter in {'d', 'i'}
    ensures Converted(printer, item, arg) == PaddedInt(Number(arg), item.width, item.zero)
  {
  }

  lemma PrintsSigned(printer: Printer, item: Item, arg: Arg, s: string)
    requires item.Conversion? && Accepts(item, arg) && item.letter in {'d', 'i'}
    requires ShowsSigned(s, Number(arg), item.width, if item.zero then '0' else ' ')
    ensures Prints(printer, item, arg, s)
  {
  }

  lemma SignedPrints(printer: Printer, item: Item, arg: Arg)
    requires Takes(printer, item) && Accepts(item, arg) && item.letter in {'d', 'i'}
    ensures Prints(printer, item, arg, Converted(printer, item, arg))
  {
    SignedNumber(printer, item, arg);
    PaddedIntShows(Number(arg), item.width, item.zero);
    PrintsSigned(printer, item, arg, Converted(printer, item, arg));
  }

  lemma LetterCases(printer: Printer, letter: char)
    requires ReadsArgument(printer, letter)
    ensures letter in {'s', 'c', 'p'} || letter in {'u', 'x', 'X'} || letter in {'d', 'i'}
  {
  }

  /** Every conversion that reads an argument prints what it must. */
  lemma ConversionPrints(printer: Printer, item: Item, arg: Arg)
    requires item.Conversion? && ReadsArgument(printer, item.letter) && Accepts(item, arg)
    ensures Takes(printer, item) && Prints(printer, item, arg, Converted(printer, item, arg))
  {
    TakesIff(printer, item);
    LetterCases(printer, item.letter);
    if item.letter in {'s', 'c', 'p'} {
      TextPrints(printer, item, arg);
    } else if item.letter in {'u', 'x', 'X'} {
      UnsignedPrints(printer, item, arg);
    } else {
      SignedPrints(printer, item, arg);
    }
  }

  lemma PlainPrints(printer: Printer, item: Item)
    requires item.Conversion? ==> !ReadsArgument(printer, item.letter)
    ensures !Takes(printer, item) && PrintsPlainly(printer, item, Plainly(printer, item))
  {
    if item.Literal? {
      assert CrLf([item.c][1..]) == "";
    }
  }

  // ----- a whole format -----

  ghost predicate Reads(printer: Printer, item: Item) {
    item.Conversion? && ReadsArgument(printer, item.letter)
  }

  ghost function SpelledOut(items: seq<Item>): string {
    if items == [] then "" else Spelled(items[0]) + SpelledOut(items[1..])
  }

  /** The items can be written, their widths fit an `int`, and the arguments are of the types they read. */
  ghost predicate Suits(printer: Printer, items: seq<Item>, args: seq<Arg>) {
    items == [] ||
    (Spellable(printer, items[0]) && WidthFits(items[0]) &&
     if Reads(printer, items[0])
     then args != [] && Accepts(items[0], args[0]) && Suits(printer, items[1..], args[1..])
     else Suits(printer, items[1..], args))
  }

  /** `out` is the texts of the items, one after the other, with the arguments in order. */
  ghost predicate PrintsAll(printer: Printer, items: seq<Item>, args: seq<Arg>, out: string)
    requires Suits(printer, items, args)
  {
    if items == [] then out == ""
    else if Reads(printer, items[0]) then
      exists n | 0 <= n <= |out| ::
        Prints(printer, items[0], args[0], out[..n]) && PrintsAll(printer, items[1..], args[1..], out[n..])
    else
      exists n | 0 <= n <= |out| ::
        PrintsPlainly(printer, items[0], out[..n]) && PrintsAll(printer, items[1..], args, out[n..])
  }

  lemma Parts(a: string, b: string)
    ensures (a + b)[..|a|] == a && (a + b)[|a|..] == b
  {
  }

  /** For every format and all arguments that suit it, what a printer renders is what the format asks for. */
  lemma {:induction false} RenderPrints(printer: Printer, items: seq<Item>, args: seq<Arg>)
    requires Suits(printer, items, args)
    ensures Fits(printer, SpelledOut(items), args)
    ensures PrintsAll(printer, items, args, Render(printer, SpelledOut(items), args))
  {
    if items != [] {
      var item, fmt := items[0], SpelledOut(items);
      ReadBack(printer, item, SpelledOut(items[1..]));
      if Reads(printer, item) {
        ConversionPrints(printer, item, args[0]);
        RenderPrints(printer, items[1..], args[1..]);
        Parts(Converted(printer, item, args[0]), Render(printer, SpelledOut(items[1..]), args[1..]));
      } else {
        PlainPrints(printer, item);
        RenderPrints(printer, items[1..], args);
        Parts(Plainly(printer, item), Render(printer, SpelledOut(items[1..]), args));
      }
    }
  }
}
