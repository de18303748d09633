/** Numbers as digit text, in base 10 or 16: what both formatters print (kernel/panic.c:19-37,
    kernel/log.c:19-50). */
module Digits {
  import opened Bits
  import opened Division

  predicate IsBase(base: nat) { base == 10 || base == 16 }

  function DigitChar(d: nat, upper: bool): char
    requires d < 16
  {
    if upper then "0123456789ABCDEF"[d] else "0123456789abcdef"[d]
  }

  /** What a digit is worth. */
  ghost function DigitValue(c: char): nat {
    if '0' <= c <= '9' then (c as int) - ('0' as int)
    else if 'a' <= c <= 'f' then (c as int) - ('a' as int) + 10
    else if 'A' <= c <= 'F' then (c as int) - ('A' as int) + 10
    else 0
  }

  /** The digits of `v`, none for zero. */
  function DigitText(v: nat, base: nat, upper: bool): string
    requires IsBase(base)
  {
    if v == 0 then "" else DigitText(v / base, base, upper) + [DigitChar(v % base, upper)]
  }

  function Text(v: nat, base: nat, upper: bool): string
    requires IsBase(base)
  {
    if v == 0 then "0" else DigitText(v, base, upper)
  }

  function IntText(d: int): string {
    if d < 0 then "-" + Text(-d, 10, false) else Text(d, 10, false)
  }

  /** Reading digit text back. */
  ghost function Value(s: string, base: nat): nat {
    if s == "" then 0 else Value(s[..|s| - 1], base) * base + DigitValue(s[|s| - 1])
  }

  ghost function IntValue(s: string): int {
    if s != "" && s[0] == '-' then 0 - (Value(s[1..], 10) as int) else Value(s, 10) as int
  }

  lemma DigitRead(d: nat, upper: bool)
    requires d < 16
    ensures DigitValue(DigitChar(d, upper)) == d
    ensures DigitChar(d, upper) != '-' && DigitChar(d, upper) != '\n' && (DigitChar(d, upper) == '0' ==> d == 0)
  {
  }

  /** The digits of a base, in the case asked for. */
  ghost function Alphabet(base: nat, upper: bool): string {
    if base == 10 then "0123456789" else if upper then "0123456789ABCDEF" else "0123456789abcdef"
  }

  lemma DigitInAlphabet(d: nat, base: nat, upper: bool)
    requires IsBase(base) && d < base
    ensures DigitChar(d, upper) in Alphabet(base, upper)
  {
    assert DigitChar(d, upper) == Alphabet(base, upper)[d];
  }

  lemma LastDigit(v: nat, base: nat)
    requires IsBase(base)
    ensures v == v / base * base + v % base && 0 <= v % base < 16 && 0 <= v / base && (v > 0 ==> v / base < v)
  {
    if base == 10 {
      DivMod(v, 10);
    } else {
      DivMod(v, 16);
    }
  }

  lemma ValueSnoc(s: string, c: char, base: nat)
    ensures Value(s + [c], base) == Value(s, base) * base + DigitValue(c)
  {
    assert (s + [c])[..|s|] == s;
  }

  lemma {:induction false} DigitsRead(v: nat, base: nat, upper: bool)
    requires IsBase(base)
    ensures Value(DigitText(v, base, upper), base) == v
  {
    if v > 0 {
      LastDigit(v, base);
      DigitsRead(v / base, base, upper);
      DigitRead(v % base, upper);
      ValueSnoc(DigitText(v / base, base, upper), DigitChar(v % base, upper), base);
    }
  }

  /** Printing and reading back gives the number. */
  lemma TextRead(v: nat, base: nat, upper: bool)
    requires IsBase(base)
    ensures Value(Text(v, base, upper), base) == v
  {
    DigitsRead(v, base, upper);
    assert Value("0", base) == 0 by {
      assert "0"[..0] == "";
    }
  }

  lemma {:induction false} FirstDigit(v: nat, base: nat, upper: bool)
    requires IsBase(base) && v > 0
    ensures var s := DigitText(v, base, upper); s != "" && s[0] != '0' && s[0] != '-'
  {
    DigitRead(v % base, upper);
    if v / base > 0 {
      FirstDigit(v / base, base, upper);
    }
  }

  lemma {:induction false} DigitsInAlphabet(v: nat, base: nat, upper: bool)
    requires IsBase(base)
    ensures forall c | c in DigitText(v, base, upper) :: c in Alphabet(base, upper)
  {
    if v > 0 {
      LastDigit(v, base);
      DigitsInAlphabet(v / base, base, upper);
      DigitInAlphabet(v % base, base, upper);
    }
  }

  /** Only digits of the base are printed, in the case asked for. */
  lemma TextInAlphabet(v: nat, base: nat, upper: bool)
    requires IsBase(base)
    ensures forall c | c in Text(v, base, upper) :: c in Alphabet(base, upper)
  {
    DigitsInAlphabet(v, base, upper);
    assert "0"[0] == Alphabet(base, upper)[0];
  }

  /** Only zero starts with a zero. */
  lemma NoLeadingZero(v: nat, base: nat, upper: bool)
    requires IsBase(base)
    ensures var s := Text(v, base, upper); s != "" && s[0] != '-' && (s[0] == '0' <==> v == 0)
  {
    if v > 0 {
      FirstDigit(v, base, upper);
    }
  }

  lemma IntTextRead(d: int)
    ensures IntValue(IntText(d)) == d
  {
    var text := Text(if d < 0 then -d else d, 10, false);
    TextRead(if d < 0 then -d else d, 10, false);
    NoLeadingZero(if d < 0 then -d else d, 10, false);
    if d < 0 {
      assert IntText(d)[1..] == text;
    }
  }

  function Power(base: nat, k: nat): nat {
    if k == 0 then 1 else base * Power(base, k - 1)
  }

  lemma QuotientBelow(v: nat, base: nat, p: nat)
    requires IsBase(base) && v < base * p
    ensures v / base < p
  {
    if base == 10 {
      DivMod(v, 10);
    } else {
      DivMod(v, 16);
    }
  }

  lemma {:induction false} DigitCount(v: nat, base: nat, upper: bool, k: nat)
    requires IsBase(base) && v < Power(base, k)
    ensures |DigitText(v, base, upper)| <= k
  {
    if v > 0 {
      QuotientBelow(v, base, Power(base, k - 1));
      DigitCount(v / base, base, upper, k - 1);
    }
  }

  lemma {:induction false} PowerAdds(base: nat, m: nat, n: nat)
    ensures Power(base, m + n) == Power(base, m) * Power(base, n)
  {
    if m > 0 {
      PowerAdds(base, m - 1, n);
      MulAssociates(base, Power(base, m - 1), Power(base, n));
    }
  }

  /** A 64-bit number has at most 16 hexadecimal or 20 decimal digits: the buffers of the kernel suffice. */
  lemma WordDigits(v: u64, upper: bool)
    ensures 1 <= |Text(v, 16, upper)| <= 16 && |DigitText(v, 16, upper)| <= 16
    ensures 1 <= |Text(v, 10, upper)| <= 20 && |DigitText(v, 10, upper)| <= 20
  {
    assert Power(16, 4) == 0x1_0000 && Power(10, 5) == 100_000;
    PowerAdds(16, 4, 4);
    PowerAdds(16, 8, 8);
    PowerAdds(10, 5, 5);
    PowerAdds(10, 10, 10);
    DigitCount(v, 16, upper, 16);
    DigitCount(v, 10, upper, 20);
    NoLeadingZero(v, 16, upper);
    NoLeadingZero(v, 10, upper);
  }

  lemma {:induction false} DigitsHaveNoNewline(v: nat, base: nat, upper: bool)
    requires IsBase(base)
    ensures '\n' !in DigitText(v, base, upper)
  {
    if v > 0 {
      DigitsHaveNoNewline(v / base, base, upper);
      DigitRead(v % base, upper);
    }
  }

  // ----- the digit loops -----

  function Reversed(s: string): (r: string)
    ensures |r| == |s|
  {
    if s == "" then "" else Reversed(s[1..]) + [s[0]]
  }

  lemma {:induction false} ReversedAt(s: string, k: nat)
    requires k < |s|
    ensures Reversed(s)[k] == s[|s| - 1 - k]
  {
    if k < |s| - 1 {
      ReversedAt(s[1..], k);
    }
  }

  lemma {:induction false} ReversedSnoc(s: string, c: char)
    ensures Reversed(s + [c]) == [c] + Reversed(s)
  {
    if s != "" {
      assert (s + [c])[1..] == s[1..] + [c];
      ReversedSnoc(s[1..], c);
    }
  }

  lemma Regroup(a: string, b: string, c: string)
    ensures (a + b) + c == a + (b + c)
  {
  }

  lemma NextLowDigit(all: string, rest: nat, base: nat, upper: bool, got: string)
    requires IsBase(base) && rest > 0 && all == DigitText(rest, base, upper) + Reversed(got)
    ensures all == DigitText(rest / base, base, upper) + Reversed(got + [DigitChar(rest % base, upper)])
    ensures |got| < |all| && 0 <= rest / base < rest && 0 <= rest % base < 16
  {
    LastDigit(rest, base);
    var d := DigitChar(rest % base, upper);
    ReversedSnoc(got, d);
    Regroup(DigitText(rest / base, base, upper), [d], Reversed(got));
  }

  /** The loop both formatters share: digits of `v` into `buf`, lowest first. */
  method LowDigits(buf: array<char>, v: u64, base: nat, upper: bool) returns (n: nat)
    requires IsBase(base) && |DigitText(v, base, upper)| <= buf.Length
    modifies buf
    ensures n == |DigitText(v, base, upper)| && Reversed(buf[..n]) == DigitText(v, base, upper)
  {
    n := 0;
    var rest: nat := v;
    ghost var all, got: string := DigitText(v, base, upper), "";
    while rest > 0
      invariant n == |got| <= buf.Length && buf[..n] == got
      invariant all == DigitText(rest, base, upper) + Reversed(got)
    {
      NextLowDigit(all, rest, base, upper, got);
      var digit, next := DigitChar(rest % base, upper), rest / base;
      buf[n] := digit;
      n, rest, got := n + 1, next, got + [digit];
    }
  }

  /** `buf[n - 1], ..., buf[0]` to `dst`, from `at` on. */
  method CopyBackwards(dst: array<char>, at: nat, buf: array<char>, n: nat)
    requires dst != buf && n <= buf.Length && at + n <= dst.Length
    modifies dst
    ensures dst[at..at + n] == Reversed(buf[..n])
    ensures forall k | 0 <= k < dst.Length && !(at <= k < at + n) :: dst[k] == old(dst[k])
  {
    for i := 0 to n
      invariant forall k | at <= k < at + i :: dst[k] == buf[n - 1 - (k - at)]
      invariant forall k | 0 <= k < dst.Length && !(at <= k < at + i) :: dst[k] == old(dst[k])
    {
      dst[at + i] := buf[n - 1 - i];
    }
    forall k | 0 <= k < n
      ensures dst[at..at + n][k] == Reversed(buf[..n])[k]
    {
      ReversedAt(buf[..n], k);
    }
  }

  /** `u64_to_hex` (base 16) and `u_to_dec` (base 10), which differ in the size of `buf` only. */
  method ToText(dst: array<char>, at: nat, v: u64, base: nat, upper: bool) returns (n: nat)
    requires IsBase(base) && at + 20 <= dst.Length
    modifies dst
    ensures n == |Text(v, base, upper)| <= 20 && dst[at..at + n] == Text(v, base, upper)
    ensures forall k | 0 <= k < dst.Length && !(at <= k < at + n) :: dst[k] == old(dst[k])
  {
    WordDigits(v, upper);
    if v == 0 {
      dst[at] := '0';
      return 1;
    }
    var buf := new char[if base == 16 then 16 else 20];
    n := LowDigits(buf, v, base, upper);
    CopyBackwards(dst, at, buf, n);
  }

  /** `i_to_dec`. */
  method ToSignedText(dst: array<char>, d: int) returns (n: nat)
    requires -0x8000_0000_0000_0000 < d < 0x8000_0000_0000_0000 && dst.Length >= 21
    modifies dst
    ensures n == |IntText(d)| <= 21 && dst[..n] == IntText(d)
  {
    if d < 0 {
      dst[0] := '-';
      var m := ToText(dst, 1, -d, 10, false);
      assert dst[..m + 1] == [dst[0]] + dst[1..m + 1];
      return 1 + m;
    }
    n := ToText(dst, 0, d, 10, false);
  }
}
