/** `mini_vsnprintf` (kernel/panic.c:39-96): formatting into a buffer that may be too small. The array is the
    `cap` bytes the caller gave, so every write is shown to stay inside them. */
module PanicFormat {
  import opened Bits
  import opened Digits
  import opened Format

  function Min(a: nat, b: nat): nat { if a < b then a else b }

  /** The output so far is `text`: its length is counted, and as much as leaves room for the terminator is
      in the buffer. */
  predicate Written(out: array<char>, w: nat, text: string)
    reads out
  {
    w == |text| && forall k | 0 <= k < w && k + 1 < out.Length :: out[k] == text[k]
  }

  /** `PUT`. */
  method Put(out: array<char>, w: nat, ch: char, ghost text: string) returns (w': nat)
    requires Written(out, w, text)
    modifies out
    ensures Written(out, w', text + [ch])
  {
    if w + 1 < out.Length {
      out[w] := ch;
    }
    w' := w + 1;
  }

  method PutAll(out: array<char>, w: nat, s: string, ghost text: string) returns (w': nat)
    requires Written(out, w, text)
    modifies out
    ensures Written(out, w', text + s)
  {
    w' := w;
    for i := 0 to |s|
      invariant Written(out, w', text + s[..i])
    {
      assert text + s[..i + 1] == text + s[..i] + [s[i]];
      w' := Put(out, w', s[i], text + s[..i]);
    }
    assert s[..|s|] == s;
  }

  /** A number by way of the scratch buffer `tmp`. */
  method PutNumber(out: array<char>, w: nat, v: u64, base: nat, upper: bool, ghost text: string) returns (w': nat)
    requires IsBase(base) && Written(out, w, text)
    modifies out
    ensures Written(out, w', text + Text(v, base, upper))
  {
    var tmp := new char[32];
    var n := ToText(tmp, 0, v, base, upper);
    w' := PutAll(out, w, tmp[..n], text);
  }

  method PutSigned(out: array<char>, w: nat, d: int, ghost text: string) returns (w': nat)
    requires -0x8000_0000_0000_0000 < d < 0x8000_0000_0000_0000 && Written(out, w, text)
    modifies out
    ensures Written(out, w', text + IntText(d))
  {
    var tmp := new char[32];
    var n := ToSignedText(tmp, d);
    w' := PutAll(out, w, tmp[..n], text);
  }

  lemma NoWidth(item: Item, arg: Arg)
    requires Takes(Panic, item) && Accepts(item, arg) && item.width == 0
    ensures item.letter == 'u' ==> Converted(Panic, item, arg) == Text(arg.u, 10, false)
    ensures item.letter in "xX" ==> Converted(Panic, item, arg) == Text(arg.u, 16, item.letter == 'X')
    ensures item.letter == 'd' ==> Converted(Panic, item, arg) == IntText(SignedValue(arg))
  {
    match item.letter
    case 'u' => NoPadding(arg.u, 10, item.zero, false);
    case 'x' => NoPadding(arg.u, 16, item.zero, false);
    case 'X' => NoPadding(arg.u, 16, item.zero, true);
    case 'd' => NoIntPadding(SignedValue(arg), item.zero);
    case _ =>
  }

  /** The conversions that read an argument. */
  method PutConversion(out: array<char>, w: nat, item: Item, arg: Arg, ghost text: string) returns (w': nat)
    requires Takes(Panic, item) && Accepts(item, arg) && item.width == 0 && Written(out, w, text)
    modifies out
    ensures Written(out, w', text + Converted(Panic, item, arg))
  {
    NoWidth(item, arg);
    match item.letter
    case 's' => w' := PutAll(out, w, StringOf(arg.s), text);
    case 'c' => w' := Put(out, w, arg.c, text);
    case 'p' =>
      w' := Put(out, w, '0', text);
      w' := Put(out, w', 'x', text + "0");
      assert text + "0" + "x" == text + "0x";
      w' := PutNumber(out, w', arg.p, 16, false, text + "0x");
      Regroup(text, "0x", Text(arg.p, 16, false));
    case 'u' => w' := PutNumber(out, w, arg.u, 10, false, text);
    case 'x' => w' := PutNumber(out, w, arg.u, 16, false, text);
    case 'X' => w' := PutNumber(out, w, arg.u, 16, true, text);
    case _ => w' := PutSigned(out, w, SignedValue(arg), text);
  }

  /** Counting the `l` after a per cent sign. */
  method CountLs(fmt: string) returns (longCount: nat, p: string)
    requires fmt != "" && fmt[0] == '%' && Complete(Panic, fmt)
    ensures p == FromLetter(Panic, fmt) && longCount == |fmt| - 1 - |p|
  {
    longCount, p := 0, fmt[1..];
    while p != "" && p[0] == 'l'
      invariant SkipLs(p) == SkipLs(fmt[1..]) && longCount == |fmt| - 1 - |p|
      decreases |p|
    {
      longCount, p := longCount + 1, p[1..];
    }
  }

  /** The cast of a length to `int`. */
  function AsInt(w: nat): i32 {
    var low := w % 0x1_0000_0000;
    if low < 0x8000_0000 then low else low - 0x1_0000_0000
  }

  /** The length returned is the true one exactly for texts shorter than 2 GiB. */
  lemma LengthIsTrue(w: nat)
    ensures AsInt(w) == w <==> w < 0x8000_0000
    ensures (AsInt(w) - w) % 0x1_0000_0000 == 0
  {
  }

  /** `mini_vsnprintf`: the longest prefix of the rendering that fits with a terminator, and the full length. */
  method MiniVsnprintf(out: array<char>, fmt: string, args: seq<Arg>) returns (length: i32)
    requires Fits(Panic, fmt, args)
    modifies out
    ensures length == AsInt(|Render(Panic, fmt, args)|)
    ensures out.Length > 0 ==>
              var n := Min(|Render(Panic, fmt, args)|, out.Length - 1);
              out[..n] == Render(Panic, fmt, args)[..n] && out[n] == '\0'
  {
    var w: nat := 0;
    var p, rest := fmt, args;
    ghost var text := "";
    while p != ""
      invariant Fits(Panic, p, rest) && Written(out, w, text)
      invariant Render(Panic, fmt, args) == text + Render(Panic, p, rest)
      decreases |p|
    {
      ghost var at := p;
      if p[0] != '%' {
        RenderPlain(Panic, at, rest, text);
        w := Put(out, w, p[0], text);
        text, p := text + [p[0]], p[1..];
        continue;
      }
      var longCount;
      longCount, p := CountLs(p);
      var size := if longCount >= 2 then LongLong else if longCount == 1 then Long else Plain;
      var item := Conversion(p[0], size, 0, false);
      assert item == Parse(Panic, at);
      if Takes(Panic, item) {
        RenderTaking(Panic, at, rest, text);
        w := PutConversion(out, w, item, rest[0], text);
        text, rest := text + Converted(Panic, item, rest[0]), rest[1..];
      } else {
        RenderPlain(Panic, at, rest, text);
        w := Put(out, w, '%', text);
        if p[0] != '%' {
          w := Put(out, w, p[0], text + "%");
          Regroup(text, "%", [p[0]]);
        }
        text := text + Plainly(Panic, item);
      }
      p := p[1..];
    }
    assert text + "" == text;
    if out.Length > 0 {
      out[if w < out.Length then w else out.Length - 1] := '\0';
    }
    length := AsInt(w);
  }
}
