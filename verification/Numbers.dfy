/** The C library's conversions from text to numbers. */
module Numbers {
  import opened Common

  const ULONG_MAX := 0xFFFF_FFFF_FFFF_FFFF
  const LLONG_MAX := 0x7FFF_FFFF_FFFF_FFFF

  function DigitValue(c: char): nat {
    if '0' <= c <= '9' then c as nat - '0' as nat
    else if 'a' <= c <= 'z' then c as nat - 'a' as nat + 10
    else if 'A' <= c <= 'Z' then c as nat - 'A' as nat + 10
    else 36
  }

  /** A text that begins with a number, and what is behind it. */
  datatype Number = Number(value: nat, rest: string)

  function Digits(s: string, base: nat, value: nat): Number {
    if s == "" || DigitValue(s[0]) >= base then Number(value, s)
    else Digits(s[1..], base, value * base + DigitValue(s[0]))
  }

  function SkipSpace(s: string): string {
    if s != "" && IsSpace(s[0]) then SkipSpace(s[1..]) else s
  }

  predicate HasSign(s: string) { s != "" && (s[0] == '-' || s[0] == '+') }

  /** In base 16 a number may begin with 0x. */
  function SkipBase(s: string, base: nat): string {
    if base == 16 && |s| > 2 && s[0] == '0' && s[1] in {'x', 'X'} && DigitValue(s[2]) < 16 then s[2..] else s
  }

  /** Space, a sign, digits; without digits nothing is consumed. */
  datatype Converted = Converted(negative: bool, value: nat, rest: string)

  function Convert(s: string, base: nat): Converted {
    var t := SkipSpace(s);
    var u := SkipBase(if HasSign(t) then t[1..] else t, base);
    if u == "" || DigitValue(u[0]) >= base then Converted(false, 0, s)
    else
      var n := Digits(u, base, 0);
      Converted(HasSign(t) && t[0] == '-', n.value, n.rest)
  }

  /** An overlong number saturates and a minus sign wraps around. */
  function Strtoul(s: string, base: nat): nat {
    var c := Convert(s, base);
    if c.value > ULONG_MAX then ULONG_MAX else if c.negative && c.value != 0 then ULONG_MAX + 1 - c.value else c.value
  }

  /** An overlong number saturates. */
  function Strtoll(s: string, base: nat): int {
    var c := Convert(s, base);
    var v: int := if c.negative then 0 - c.value else c.value;
    if v < -LLONG_MAX - 1 then -LLONG_MAX - 1 else if v > LLONG_MAX then LLONG_MAX else v
  }

  // ---- Printing ----

  function DigitChar(d: nat): (c: char)
    requires d < 16
    ensures DigitValue(c) == d && (d < 10 ==> '0' <= c <= '9') && !IsSpace(c) && c !in "-+xX=;:\n"
  {
    if d < 10 then '0' + d as char else 'a' + (d - 10) as char
  }

  /** The digits of a number, as printf has them. */
  function Printed(n: nat, base: nat): (s: string)
    requires 2 <= base <= 16
    ensures s != "" && forall c :: c in s ==> DigitValue(c) < base && !IsSpace(c) && c !in "-+xX=;:\n"
  {
    if n < base then [DigitChar(n)]
    else
      assert n / base < n;
      Printed(n / base, base) + [DigitChar(n % base)]
  }

  lemma OneDigit(d: nat, base: nat, value: nat, rest: string)
    requires d < base <= 16
    ensures Digits([DigitChar(d)] + rest, base, value) == Digits(rest, base, value * base + d)
  {
    assert ([DigitChar(d)] + rest)[1..] == rest;
    hide DigitChar;
  }

  lemma Divided(n: nat, base: nat)
    requires 2 <= base <= n
    ensures n / base < n && (n / base) * base + n % base == n && n % base < base
  {
  }

  /** Printed digits are read back, whatever follows. */
  lemma {:induction false} DigitsOfPrinted(n: nat, base: nat, rest: string)
    requires 2 <= base <= 16
    ensures Digits(Printed(n, base) + rest, base, 0) == Digits(rest, base, n)
    decreases n
  {
    hide Digits, DigitChar;
    if n < base {
      OneDigit(n, base, 0, rest);
    } else {
      Divided(n, base);
      var q, d := n / base, n % base;
      assert Printed(n, base) == Printed(q, base) + [DigitChar(d)];
      hide Printed;
      Assoc(Printed(q, base), [DigitChar(d)], rest);
      DigitsOfPrinted(q, base, [DigitChar(d)] + rest);
      OneDigit(d, base, q, rest);
    }
  }

  /** A printed number, with something behind it that is no digit, is converted to that number. */
  lemma ConvertPrinted(n: nat, base: nat, rest: string)
    requires 2 <= base <= 16 && (rest == "" || DigitValue(rest[0]) >= base)
    ensures rest == "" || rest[0] !in "xX" ==> Convert(Printed(n, base) + rest, base) == Converted(false, n, rest)
  {
    var digits := Printed(n, base);
    var s := digits + rest;
    assert s[0] == digits[0] && digits[0] in digits;
    assert |s| > 1 ==> s[1] in digits || (rest != "" && s[1] == rest[0]);
    DigitsOfPrinted(n, base, rest);
    hide Digits, Printed, IsSpace;
  }
}
