/** The two formatters print the same text on the conversions they share: literals and `%c %s %d %u %x %X %%`
    with no, one or two `l`, up to the carriage returns the serial port adds. */
module FormatAgreement {
  import opened Format

  /** At most two `l`. */
  predicate FewLs(s: string) {
    |s| <= |SkipLs(s)| + 2
  }

  predicate Shared(fmt: string)
    decreases |fmt|
  {
    fmt == "" ||
    (Complete(Panic, fmt) &&
     (fmt[0] == '%' ==> FewLs(fmt[1..]) && FromLetter(Panic, fmt)[0] in "csduxX%") &&
     Shared(Rest(Panic, fmt)))
  }

  /** How many `%c` print a newline. */
  function NewlineChars(fmt: string, args: seq<Arg>): nat
    requires Fits(Panic, fmt, args)
    decreases |fmt|
  {
    if fmt == "" then 0
    else
      var item := Parse(Panic, fmt);
      if Takes(Panic, item) then
        (if item.letter == 'c' && args[0].c == '\n' then 1 else 0) + NewlineChars(Rest(Panic, fmt), args[1..])
      else NewlineChars(Rest(Panic, fmt), args)
  }

  lemma SkipTwoLs(s: string)
    requires FewLs(s) && SkipLs(s) != "" && SkipLs(s)[0] in "csduxX%"
    ensures SkipLength(s) == SkipLs(s) && SkipDigits(s) == s && SkipZeros(s) == s
    ensures LengthOf(s) == (match |s| - |SkipLs(s)| case 0 => Plain case 1 => Long case _ => LongLong)
  {
    if s[0] == 'l' && SkipLs(s) != s[1..] {
      assert s[1..][1..] == s[2..];
      assert SkipLs(s[2..]) == s[2..];
    }
  }

  /** Both read a shared item alike. */
  lemma SameItem(fmt: string)
    requires fmt != "" && Shared(fmt)
    ensures Complete(Serial, fmt) && Parse(Serial, fmt) == Parse(Panic, fmt) && Rest(Serial, fmt) == Rest(Panic, fmt)
    ensures Takes(Serial, Parse(Serial, fmt)) == Takes(Panic, Parse(Panic, fmt))
  {
    if fmt[0] == '%' {
      SkipTwoLs(fmt[1..]);
    }
  }

  lemma OneChar(c: char)
    ensures CrLf([c]) == if c == '\n' then "\r\n" else [c]
  {
    assert CrLf([c][1..]) == "";
  }

  /** A shared conversion: the same text but for newlines, unless it prints a newline character. */
  lemma SameConversion(fmt: string, arg: Arg)
    requires fmt != "" && Shared(fmt) && Takes(Panic, Parse(Panic, fmt)) && Accepts(Parse(Panic, fmt), arg)
    ensures Takes(Serial, Parse(Panic, fmt))
    ensures var item := Parse(Panic, fmt);
            var panic, serial := Converted(Panic, item, arg), Converted(Serial, item, arg);
            if item.letter == 'c' && arg.c == '\n' then serial == "\n" && CrLf(panic) == "\r\n"
            else serial == CrLf(panic)
  {
    var item := Parse(Panic, fmt);
    match item.letter
    case 's' =>
    case 'c' => OneChar(arg.c);
    case 'u' => NoPadding(arg.u, 10, item.zero, false);
    case 'x' => NoPadding(arg.u, 16, item.zero, false);
    case 'X' => NoPadding(arg.u, 16, item.zero, true);
    case _ => NoIntPadding(SignedValue(arg), item.zero);
  }

  lemma SamePlain(fmt: string)
    requires fmt != "" && Shared(fmt) && !Takes(Panic, Parse(Panic, fmt))
    ensures Plainly(Serial, Parse(Panic, fmt)) == CrLf(Plainly(Panic, Parse(Panic, fmt)))
  {
    CrLfPlain("%");
  }

  /** The serial text is the panic text with carriage returns, short of one for every newline that a `%c`
      prints. */
  lemma {:induction false} SerialText(fmt: string, args: seq<Arg>)
    requires Shared(fmt) && Fits(Panic, fmt, args)
    ensures Fits(Serial, fmt, args)
    ensures |CrLf(Render(Panic, fmt, args))| == |Render(Serial, fmt, args)| + NewlineChars(fmt, args)
    ensures NewlineChars(fmt, args) == 0 ==> Render(Serial, fmt, args) == CrLf(Render(Panic, fmt, args))
    decreases |fmt|
  {
    if fmt != "" {
      SameItem(fmt);
      var item := Parse(Panic, fmt);
      if Takes(Panic, item) {
        SameConversion(fmt, args[0]);
        SerialText(Rest(Panic, fmt), args[1..]);
        CrLfAppend(Converted(Panic, item, args[0]), Render(Panic, Rest(Panic, fmt), args[1..]));
      } else {
        SamePlain(fmt);
        SerialText(Rest(Panic, fmt), args);
        CrLfAppend(Plainly(Panic, item), Render(Panic, Rest(Panic, fmt), args));
      }
    }
  }

  /** On the shared conversions the two formatters agree, up to `\r\n`, if and only if no `%c` prints a newline. */
  lemma FormattersAgree(fmt: string, args: seq<Arg>)
    requires Shared(fmt) && Fits(Panic, fmt, args)
    ensures Fits(Serial, fmt, args)
    ensures Render(Serial, fmt, args) == CrLf(Render(Panic, fmt, args)) <==> NewlineChars(fmt, args) == 0
  {
    SerialText(fmt, args);
  }
}
