/** Conversion between numbers and their texts as the C library does it: strtoll, and sprintf
    with "%lld" and "0x%llx". */
module Numbers {

  const LLONG_MAX: int := 0x7FFF_FFFF_FFFF_FFFF
  const LLONG_MIN: int := -0x8000_0000_0000_0000
  const TWO_TO_64: int := 0x1_0000_0000_0000_0000

  type LongLong = n: int | LLONG_MIN <= n <= LLONG_MAX

  predicate IsSpace(c: char) {
    c in " \t\n\r" || c == 11 as char || c == 12 as char
  }

  /** The value of a digit in base 10 or 16, or 99. */
  function DigitValue(c: char): (d: nat)
  {
    if '0' <= c <= '9' then c as int - '0' as int
    else if 'a' <= c <= 'f' then c as int - 'a' as int + 10
    else if 'A' <= c <= 'F' then c as int - 'A' as int + 10
    else 99
  }

  function DigitChar(d: nat): (c: char)
    requires d < 16
    ensures DigitValue(c) == d
    ensures !IsSpace(c) && c != '-' && c != '+' && c != 'x' && c != 'X'
    ensures d == 0 <==> c == '0'
  {
    if d < 10 then '0' + d as char else 'a' + (d - 10) as char
  }

  function Clamp(n: int): LongLong {
    if n > LLONG_MAX then LLONG_MAX else if n < LLONG_MIN then LLONG_MIN else n
  }

  /** The number that the leading digits of `s` denote, appended to `acc`. */
  function Digits(s: string, base: nat, acc: nat): nat {
    if s != [] && DigitValue(s[0]) < base then Digits(s[1..], base, acc * base + DigitValue(s[0])) else acc
  }

  function SkipSpaces(s: string): string {
    if s != [] && IsSpace(s[0]) then SkipSpaces(s[1..]) else s
  }

  /** "0x" is a prefix in base 16 if a digit follows. */
  function SkipPrefix(s: string, base: nat): string {
    if base == 16 && |s| > 2 && s[0] == '0' && s[1] in "xX" && DigitValue(s[2]) < 16 then s[2..] else s
  }

  /** strtoll */
  function StrToLL(s: string, base: nat): LongLong {
    var t := SkipSpaces(s);
    if t != [] && t[0] == '-' then Clamp(0 - Digits(SkipPrefix(t[1..], base), base, 0))
    else if t != [] && t[0] == '+' then Clamp(Digits(SkipPrefix(t[1..], base), base, 0))
    else Clamp(Digits(SkipPrefix(t, base), base, 0))
  }

  /** The digits of `n`, most significant first. */
  function NatText(n: nat, base: nat): (s: string)
    requires base == 10 || base == 16
    ensures s != []
    decreases n
  {
    if n < base then [DigitChar(n)] else NatText(n / base, base) + [DigitChar(n % base)]
  }

  /** sprintf "%lld" */
  function DecText(n: int): string {
    if n < 0 then "-" + NatText(-n, 10) else NatText(n, 10)
  }

  /** sprintf "0x%llx": the argument is taken as unsigned. */
  function HexText(n: LongLong): string {
    "0x" + NatText(if n < 0 then n + TWO_TO_64 else n, 16)
  }

  predicate AllDigits(s: string, base: nat) {
    forall i :: 0 <= i < |s| ==> DigitValue(s[i]) < base
  }

  lemma {:induction false} NatTextDigits(n: nat, base: nat)
    requires base == 10 || base == 16
    ensures AllDigits(NatText(n, base), base)
    ensures forall c :: c in NatText(n, base) ==> !IsSpace(c) && c != '-' && c != '+' && c != 'x' && c != 'X'
    decreases n
  {
    if n >= base {
      NatTextDigits(n / base, base);
    }
  }

  lemma {:induction false} DigitsAppend(s: string, c: char, base: nat, acc: nat)
    requires AllDigits(s, base)
    ensures Digits(s + [c], base, acc) ==
            if DigitValue(c) < base then Digits(s, base, acc) * base + DigitValue(c) else Digits(s, base, acc)
    decreases |s|
  {
    if s == [] {
      assert s + [c] == [c];
    } else {
      assert (s + [c])[1..] == s[1..] + [c];
      DigitsAppend(s[1..], c, base, acc * base + DigitValue(s[0]));
    }
  }

  lemma {:induction false} DigitsOfNatText(n: nat, base: nat)
    requires base == 10 || base == 16
    ensures Digits(NatText(n, base), base, 0) == n
    decreases n
  {
    if n >= base {
      DigitsOfNatText(n / base, base);
      NatTextDigits(n / base, base);
      DigitsAppend(NatText(n / base, base), DigitChar(n % base), base, 0);
    } else {
      var s := [DigitChar(n)];
      assert s[1..] == [];
      assert Digits(s[1..], base, 0 * base + n) == n;
    }
  }

  /** Reading back a printed decimal number gives the number. */
  lemma DecTextRoundTrip(n: LongLong)
    ensures StrToLL(DecText(n), 10) == n
  {
    var k: int := n;
    var m: nat := if k < 0 then -k else k;
    var s := NatText(m, 10);
    DigitsOfNatText(m, 10);
    NatTextDigits(m, 10);
    assert s[0] in s;
    if n < 0 {
      assert DecText(n)[1..] == s;
    }
  }

  /** Reading back a printed hexadecimal number gives the number exactly when it is not negative:
      a negative one is printed as a large unsigned number, on which strtoll saturates. */
  lemma HexTextRoundTrip(n: LongLong)
    ensures StrToLL(HexText(n), 16) == if n < 0 then LLONG_MAX else n
    ensures StrToLL(HexText(n), 16) == n <==> n >= 0
  {
    var m: nat := if n < 0 then n + TWO_TO_64 else n;
    var s := NatText(m, 16);
    DigitsOfNatText(m, 16);
    NatTextDigits(m, 16);
    var h := HexText(n);
    assert h[0] == '0' && h[1] == 'x' && h[2] == s[0] && h[2..] == s;
    assert s[0] in s;
    assert !IsSpace('0');
    assert SkipSpaces(h) == h;
    assert SkipPrefix(h, 16) == s;
  }

  // ---------------------------------------------------------------- what else is read

  /** White space in front does not matter, nor does a plus sign in front of digits. */
  lemma IgnoredInFront(c: char, s: string, base: nat)
    ensures IsSpace(c) ==> StrToLL([c] + s, base) == StrToLL(s, base)
    ensures s != "" && DigitValue(s[0]) < 16 ==> StrToLL("+" + s, base) == StrToLL(s, base)
  {
    assert ([c] + s)[1..] == s && ("+" + s)[1..] == s;
    assert !IsSpace('+');
    if s != "" && DigitValue(s[0]) < 16 {
      assert !IsSpace(s[0]) && s[0] != '+' && s[0] != '-';
      assert SkipSpaces(s) == s;
    }
  }

  lemma {:induction false} DigitsStop(s: string, rest: string, base: nat, acc: nat)
    requires AllDigits(s, base) && (rest == "" || DigitValue(rest[0]) >= base)
    ensures Digits(s + rest, base, acc) == Digits(s, base, acc)
    decreases |s|
  {
    if s == "" {
      assert s + rest == rest;
    } else {
      assert (s + rest)[1..] == s[1..] + rest;
      DigitsStop(s[1..], rest, base, acc * base + DigitValue(s[0]));
    }
  }

  lemma NoSign(s: string)
    requires s != "" && DigitValue(s[0]) < 10
    ensures SkipSpaces(s) == s && s[0] != '-' && s[0] != '+' && !IsSpace('-')
  {
  }

  /** What follows the digits does not matter, and too large a number saturates. */
  lemma DecimalsAreRead(s: string, rest: string)
    requires s != "" && AllDigits(s, 10) && (rest == "" || DigitValue(rest[0]) >= 10)
    ensures StrToLL(s + rest, 10) == Clamp(Digits(s, 10, 0)) && StrToLL("-" + (s + rest), 10) == Clamp(0 - Digits(s, 10, 0))
  {
    var t, m := s + rest, "-" + (s + rest);
    assert t[0] == s[0] && DigitValue(s[0]) < 10 && m[0] == '-' && m[1..] == t;
    NoSign(t);
    DigitsStop(s, rest, 10, 0);
    assert SkipSpaces(m) == m;
    hide Digits, Clamp, DigitValue, IsSpace, AllDigits;
  }

  /** Numbers are printed with lower case digits and without leading zeros. */
  lemma {:induction false} PrintedDigits(n: nat, base: nat)
    requires base == 10 || base == 16
    ensures forall c :: c in NatText(n, base) ==> '0' <= c <= '9' || (base == 16 && 'a' <= c <= 'f')
    ensures n > 0 ==> NatText(n, base)[0] != '0'
    decreases n
  {
    if n >= base {
      PrintedDigits(n / base, base);
    }
  }
}
