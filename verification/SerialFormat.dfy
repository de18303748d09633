/** `kvprintf` and its number output (kernel/log.c), with the serial port as the sequence of bytes sent. */
module SerialFormat {
  import opened Bits
  import opened Digits
  import opened Format

  lemma FirstLowDigit(v: nat, base: nat, upper: bool)
    requires IsBase(base)
    ensures Text(v, base, upper) == DigitText(v / base, base, upper) + Reversed([DigitChar(v % base, upper)])
  {
    assert [DigitChar(v % base, upper)][1..] == "";
  }

  /** The port a log goes to, once one is set. */
  class SerialPort {
    const ready: bool
    var sent: string

    constructor (ready: bool)
      ensures this.ready == ready && sent == ""
    {
      this.ready, sent := ready, "";
    }

    /** Since the port had sent `start`, it was given `text`. */
    ghost predicate Given(start: string, text: string)
      reads this
    {
      sent == if ready then start + text else start
    }

    /** `putc_serial`. */
    method Putc(c: char, ghost start: string, ghost text: string)
      requires Given(start, text)
      modifies this
      ensures Given(start, text + [c])
    {
      if ready {
        Regroup(start, text, [c]);
        sent := sent + [c];
      }
    }

    /** A string with `\r` before every `\n`: the `%s` loop, and `serial_write`. */
    method PutCrLf(s: string, ghost start: string, ghost text: string)
      requires Given(start, text)
      modifies this
      ensures Given(start, text + CrLf(s))
    {
      var p := s;
      ghost var done := "";
      assert text + "" == text;
      while p != ""
        invariant Given(start, text + done) && CrLf(s) == done + CrLf(p)
        decreases |p|
      {
        ghost var head := if p[0] == '\n' then "\r\n" else [p[0]];
        ghost var before := done;
        Regroup(done, head, CrLf(p[1..]));
        Regroup(text, done, head);
        if p[0] == '\n' {
          Putc('\r', start, text + done);
          assert text + done + "\r" + "\n" == text + done + "\r\n";
          Putc('\n', start, text + done + "\r");
        } else {
          Putc(p[0], start, text + done);
        }
        done, p := done + head, p[1..];
      }
      assert done + "" == done;
    }

    /** The padding loop. */
    method PutFill(n: int, c: char, ghost start: string, ghost text: string)
      requires Given(start, text)
      modifies this
      ensures Given(start, text + Fill(n, c))
    {
      var i := n;
      ghost var done := "";
      assert text + "" == text;
      while i > 0
        invariant Given(start, text + done) && Fill(n, c) == done + Fill(i, c)
        decreases i
      {
        Regroup(done, [c], Fill(i - 1, c));
        Regroup(text, done, [c]);
        Putc(c, start, text + done);
        done, i := done + [c], i - 1;
      }
      assert done + "" == done;
    }

    /** The do-while loop of `write_uint_padded`: at least one digit. */
    static method DigitsOf(tmp: array<char>, v: u64, base: nat, upper: bool) returns (n: nat)
      requires IsBase(base) && tmp.Length == 32
      modifies tmp
      ensures n == |Text(v, base, upper)| <= 20 && Reversed(tmp[..n]) == Text(v, base, upper)
    {
      WordDigits(v, upper);
      LastDigit(v, base);
      var rest: nat := v / base;
      tmp[0] := DigitChar(v % base, upper);
      FirstLowDigit(v, base, upper);
      n := MoreDigits(tmp, rest, base, upper, Text(v, base, upper));
    }

    /** Its turns after the first. */
    static method MoreDigits(tmp: array<char>, v: nat, base: nat, upper: bool, ghost all: string) returns (n: nat)
      requires IsBase(base) && |all| <= 20 < tmp.Length
      requires all == DigitText(v, base, upper) + Reversed([tmp[0]])
      modifies tmp
      ensures n == |all| && Reversed(tmp[..n]) == all
    {
      var rest: nat := v;
      ghost var got := [tmp[0]];
      n := 1;
      while rest > 0
        invariant n == |got| <= |all| && tmp[..n] == got
        invariant all == DigitText(rest, base, upper) + Reversed(got)
      {
        NextLowDigit(all, rest, base, upper, got);
        var digit, next := DigitChar(rest % base, upper), rest / base;
        tmp[n] := digit;
        n, rest, got := n + 1, next, got + [digit];
      }
    }

    /** The last loop of `write_uint_padded`. */
    method PutBackwards(tmp: array<char>, n: nat, ghost start: string, ghost text: string)
      requires n <= tmp.Length && Given(start, text)
      modifies this
      ensures Given(start, text + Reversed(tmp[..n]))
    {
      var i := n;
      ghost var done, all := "", Reversed(tmp[..n]);
      assert text + "" == text;
      while i > 0
        invariant 0 <= i <= n && Given(start, text + done) && all == done + Reversed(tmp[..i])
      {
        ghost var front, c := tmp[..i - 1], tmp[i - 1];
        assert tmp[..i] == front + [c];
        ReversedSnoc(front, c);
        Regroup(done, [c], Reversed(front));
        Regroup(text, done, [c]);
        Putc(tmp[i - 1], start, text + done);
        done, i := done + [c], i - 1;
      }
      assert done + "" == done;
    }

    /** `write_uint_padded`. */
    method WriteUintPadded(v: u64, base: nat, width: int, zero: bool, upper: bool, ghost start: string,
                           ghost text: string)
      requires IsBase(base) && Given(start, text)
      modifies this
      ensures Given(start, text + Padded(v, base, width, zero, upper))
    {
      var tmp := new char[32];
      var n := DigitsOf(tmp, v, base, upper);
      var pad := if width > n then width - n else 0;
      PutFill(pad, PadChar(zero), start, text);
      PutBackwards(tmp, n, start, text + Fill(pad, PadChar(zero)));
      Regroup(text, Fill(pad, PadChar(zero)), Text(v, base, upper));
    }

    /** `write_int_padded`. */
    method WriteIntPadded(d: int, width: int, zero: bool, ghost start: string, ghost text: string)
      requires -0x8000_0000_0000_0000 < d < 0x8000_0000_0000_0000 && Given(start, text)
      modifies this
      ensures Given(start, text + PaddedInt(d, width, zero))
    {
      if d < 0 {
        Putc('-', start, text);
        var magnitude, innerWidth := -d, if width > 0 then width - 1 else 0;
        ghost var padded := Padded(magnitude, 10, innerWidth, zero, false);
        assert PaddedInt(d, width, zero) == "-" + padded;
        WriteUintPadded(magnitude, 10, innerWidth, zero, false, start, text + "-");
        Regroup(text, "-", padded);
      } else {
        WriteUintPadded(d, 10, width, zero, false, start, text);
      }
    }

    /** The conversions that read an argument. */
    method WriteConversion(item: Item, arg: Arg, ghost start: string, ghost text: string)
      requires Takes(Serial, item) && Accepts(item, arg) && Given(start, text)
      modifies this
      ensures Given(start, text + Converted(Serial, item, arg))
    {
      match item.letter
      case 's' => PutCrLf(StringOf(arg.s), start, text);
      case 'c' => Putc(arg.c, start, text);
      case 'p' =>
        PutCrLf("0x", start, text);
        CrLfPlain("0x");
        WriteUintPadded(arg.p, 16, 16, true, false, start, text + "0x");
        Regroup(text, "0x", Padded(arg.p, 16, 16, true, false));
      case 'u' => WriteUintPadded(arg.u, 10, item.width, item.zero, false, start, text);
      case 'x' => WriteUintPadded(arg.u, 16, item.width, item.zero, false, start, text);
      case 'X' => WriteUintPadded(arg.u, 16, item.width, item.zero, true, start, text);
      case _ => WriteIntPadded(SignedValue(arg), item.width, item.zero, start, text);
    }

    /** Flags, width and length between a per cent sign and the conversion letter. */
    static method Scan(fmt: string) returns (item: Item, p: string)
      requires fmt != "" && fmt[0] == '%' && Complete(Serial, fmt) && WidthFits(Parse(Serial, fmt))
      ensures item == Parse(Serial, fmt) && p == FromLetter(Serial, fmt)
    {
      var zero: bool, width: i32 := false, 0;
      p := fmt[1..];
      while p != "" && p[0] == '0'
        invariant SkipZeros(p) == SkipZeros(fmt[1..]) && zero == (|p| < |fmt| - 1) && |p| < |fmt|
        decreases |p|
      {
        zero, p := true, p[1..];
      }
      ghost var afterZeros := p;
      while p != "" && IsDigit(p[0])
        invariant width >= 0
        invariant SkipDigits(p) == SkipDigits(afterZeros) && WidthOf(p, width) == WidthOf(afterZeros, 0)
        decreases |p|
      {
        WidthGrows(p[1..], width * 10 + (p[0] as int) - ('0' as int));
        width, p := width * 10 + (p[0] as int) - ('0' as int), p[1..];
      }
      var length := Plain;
      if p != "" && p[0] == 'z' {
        length, p := Size, p[1..];
      } else if p != "" && p[0] == 'l' {
        if |p| > 1 && p[1] == 'l' {
          length, p := LongLong, p[2..];
        } else {
          length, p := Long, p[1..];
        }
      }
      item := Conversion(p[0], length, width, zero);
    }

    /** `kvprintf`. */
    method Kvprintf(fmt: string, args: seq<Arg>)
      requires Fits(Serial, fmt, args)
      modifies this
      ensures sent == if ready then old(sent) + Render(Serial, fmt, args) else old(sent)
    {
      ghost var start, text := sent, "";
      var p, rest := fmt, args;
      assert start + "" == start;
      while p != ""
        invariant Fits(Serial, p, rest) && Given(start, text)
        invariant Render(Serial, fmt, args) == text + Render(Serial, p, rest)
        decreases |p|
      {
        ghost var at := p;
        if p[0] != '%' {
          RenderPlain(Serial, at, rest, text);
          PutCrLf([p[0]], start, text);
          text, p := text + CrLf([p[0]]), p[1..];
          continue;
        }
        var item;
        item, p := Scan(p);
        if Takes(Serial, item) {
          RenderTaking(Serial, at, rest, text);
          WriteConversion(item, rest[0], start, text);
          text, rest := text + Converted(Serial, item, rest[0]), rest[1..];
        } else {
          RenderPlain(Serial, at, rest, text);
          Putc('%', start, text);
          if p[0] != '%' {
            Putc(p[0], start, text + "%");
            Regroup(text, "%", [p[0]]);
          }
          text := text + Plainly(Serial, item);
        }
        p := p[1..];
      }
      assert text + "" == text;
    }
  }
}
