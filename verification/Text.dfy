/**
 C strings, and the library functions that print and read numbers.
 */
module Text {

  type Byte = b: int | 0 <= b < 256

  const CRLF := "\r\n"

  /** What an array holds up to its terminator: everything before the first zero. */
  function Terminated<T(==)>(memory: seq<T>, zero: T): (s: seq<T>)
    ensures s <= memory && zero !in s && (|s| < |memory| ==> memory[|s|] == zero)
  {
    if memory == [] || memory[0] == zero then [] else [memory[0]] + Terminated(memory[1..], zero)
  }

  /** The C string that starts at the beginning of `memory`. */
  function CString(memory: string): (s: string)
    ensures s <= memory && '\0' !in s
    ensures |s| < |memory| ==> memory[|s|] == '\0'
  {
    Terminated(memory, '\0')
  }

  lemma {:induction false} CStringOf(s: string, rest: string)
    requires '\0' !in s && (rest == "" || rest[0] == '\0')
    ensures CString(s + rest) == s
  {
    if s == "" {
      assert s + rest == rest;
    } else {
      assert (s + rest)[1..] == s[1..] + rest;
      CStringOf(s[1..], rest);
    }
  }

  /** A terminator behind a string does not change it. */
  lemma {:induction false} CStringStop(s: string, rest: string)
    requires rest == "" || rest[0] == '\0'
    ensures CString(s + rest) == CString(s)
  {
    if s == "" {
      assert s + rest == rest;
    } else {
      assert (s + rest)[1..] == s[1..] + rest;
      CStringStop(s[1..], rest);
    }
  }

  lemma {:induction false} CStringPrefix(s: string, rest: string)
    requires '\0' in s
    ensures CString(s + rest) == CString(s) && |CString(s)| < |s|
  {
    if s[0] != '\0' {
      assert (s + rest)[1..] == s[1..] + rest;
      CStringPrefix(s[1..], rest);
    }
  }

  function Concat(pieces: seq<string>): string {
    if pieces == [] then "" else pieces[0] + Concat(pieces[1..])
  }

  // ---------------------------------------------------------------- numbers

  const DIGITS := "0123456789abcdef"

  /** The value of a digit, upper or lower case; 16 for anything else. */
  function DigitValue(c: char): (d: nat)
    ensures d <= 16
  {
    if '0' <= c <= '9' then (c - '0') as nat
    else if 'a' <= c <= 'f' then (c - 'a') as nat + 10
    else if 'A' <= c <= 'F' then (c - 'A') as nat + 10
    else 16
  }

  lemma DigitBack(d: nat)
    requires d < 16
    ensures DigitValue(DIGITS[d]) == d
  {
    assert forall k :: 0 <= k < 10 ==> DIGITS[k] == '0' + k as char;
    assert forall k :: 10 <= k < 16 ==> DIGITS[k] == 'a' + (k - 10) as char;
  }

  lemma DivShrinks(n: nat, base: nat)
    requires 2 <= base <= n
    ensures 0 < n / base < n && n / base * base + n % base == n
  {
  }

  /** The printf conversions %x and, for non-negative numbers, %d. */
  function PrintNat(n: nat, base: nat): (s: string)
    requires 2 <= base <= 16
    ensures |s| > 0
    decreases n
  {
    if n < base then [DIGITS[n]]
    else
      DivShrinks(n, base);
      PrintNat(n / base, base) + [DIGITS[n % base]]
  }

  /** A printed number starts with a digit, and with a zero only if it is zero. */
  lemma {:induction false} PrintedStart(n: nat, base: nat)
    requires 2 <= base <= 16
    ensures DigitValue(PrintNat(n, base)[0]) < 16
    ensures DigitValue(PrintNat(n, base)[0]) == 0 ==> n == 0 && |PrintNat(n, base)| == 1
    decreases n
  {
    hide DigitValue;
    if n < base {
      DigitBack(n);
    } else {
      DivShrinks(n, base);
      PrintedStart(n / base, base);
    }
  }

  /** Reads digits as long as there are any, after a number `n` already read. */
  function ReadDigits(s: string, base: nat, n: nat): nat
    requires 2 <= base <= 16
    decreases |s|
  {
    if s == "" || DigitValue(s[0]) >= base then n else ReadDigits(s[1..], base, n * base + DigitValue(s[0]))
  }

  lemma {:induction false} ReadPrinted(n: nat, base: nat, rest: string)
    requires 2 <= base <= 16
    ensures ReadDigits(PrintNat(n, base) + rest, base, 0) == ReadDigits(rest, base, n)
    decreases n
  {
    hide DigitValue;
    if n < base {
      DigitBack(n);
      assert ([DIGITS[n]] + rest)[1..] == rest;
    } else {
      DivShrinks(n, base);
      var q, d := n / base, n % base;
      DigitBack(d);
      var last := [DIGITS[d]] + rest;
      assert PrintNat(n, base) + rest == PrintNat(q, base) + last;
      ReadPrinted(q, base, last);
      assert last[0] == DIGITS[d] && last[1..] == rest;
    }
  }

  predicate IsSpace(c: char) {
    c == ' ' || '\t' <= c <= '\r'
  }

  function SkipSpace(s: string): string {
    if s != "" && IsSpace(s[0]) then SkipSpace(s[1..]) else s
  }

  const LONG_MAX := 0x7FFF_FFFF_FFFF_FFFF

  /** strtol with a 64-bit long: white space, a sign, for base 16 an optional 0x, digits; clamped. */
  function StrToL(s: string, base: nat): int
    requires 2 <= base <= 16
  {
    var t := SkipSpace(s);
    var signed := t != "" && (t[0] == '-' || t[0] == '+');
    var u := if signed then t[1..] else t;
    var prefixed := base == 16 && |u| > 2 && u[0] == '0' && (u[1] == 'x' || u[1] == 'X') && DigitValue(u[2]) < 16;
    var n: int := ReadDigits(if prefixed then u[2..] else u, base, 0);
    if signed && t[0] == '-' then (if n > LONG_MAX + 1 then -LONG_MAX - 1 else -n)
    else (if n > LONG_MAX then LONG_MAX else n)
  }

  /** Conversion of a long to a 32-bit int. */
  function ToInt32(x: int): (r: int)
    ensures -0x8000_0000 <= r < 0x8000_0000
  {
    var m := x % 0x1_0000_0000;
    if m < 0x8000_0000 then m else m - 0x1_0000_0000
  }

  predicate IsInt32(x: int) {
    -0x8000_0000 <= x < 0x8000_0000
  }

  /** The printf conversion %d. */
  function PrintInt(x: int): string {
    if x < 0 then "-" + PrintNat(-x, 10) else PrintNat(x, 10)
  }

  function AToI(s: string): int {
    ToInt32(StrToL(s, 10))
  }

  lemma DigitIsNoSign(c: char)
    ensures DigitValue(c) < 16 ==> !IsSpace(c) && c != '-' && c != '+'
    ensures c == '0' ==> DigitValue(c) == 0
  {
  }

  lemma {:induction false} ReadAllPrinted(n: nat, base: nat)
    requires 2 <= base <= 16
    ensures ReadDigits(PrintNat(n, base), base, 0) == n
  {
    ReadPrinted(n, base, "");
    assert PrintNat(n, base) + "" == PrintNat(n, base);
  }

  /** strtol gives back a printed number. */
  lemma NatBack(n: nat, base: nat)
    requires 2 <= base <= 16 && n <= LONG_MAX
    ensures StrToL(PrintNat(n, base), base) == n
  {
    hide DigitValue, PrintNat, ReadDigits, IsSpace;
    PrintedStart(n, base);
    DigitIsNoSign(PrintNat(n, base)[0]);
    ReadAllPrinted(n, base);
  }

  /** strtol in base 16 after %x gives back every non-negative int. */
  lemma HexBack(n: nat)
    requires IsInt32(n)
    ensures ToInt32(StrToL(PrintNat(n, 16), 16)) == n
  {
    hide StrToL;
    NatBack(n, 16);
  }

  /** atoi after %d gives back every int. */
  lemma IntBack(x: int)
    requires IsInt32(x)
    ensures AToI(PrintInt(x)) == x
  {
    hide DigitValue, PrintNat, ReadDigits;
    if x < 0 {
      assert PrintInt(x)[1..] == PrintNat(-x, 10);
      ReadAllPrinted(-x, 10);
    } else {
      NatBack(x, 10);
    }
  }

  /** A printed number consists of digits. */
  lemma {:induction false} PrintedDigits(n: nat, base: nat)
    requires 2 <= base <= 16
    ensures forall i :: 0 <= i < |PrintNat(n, base)| ==> DigitValue(PrintNat(n, base)[i]) < 16
    decreases n
  {
    hide DigitValue;
    if n < base {
      DigitBack(n);
    } else {
      DivShrinks(n, base);
      DigitBack(n % base);
      PrintedDigits(n / base, base);
    }
  }

  /** An unsigned int takes at most eight hexadecimal digits. */
  lemma HexLength(n: nat)
    requires n < 0x1_0000_0000
    ensures |PrintNat(n, 16)| <= 8
  {
    HexLengthUpTo(n, 8, 0x1_0000_0000);
  }

  lemma {:induction false} HexLengthUpTo(n: nat, k: nat, bound: nat)
    requires 0 < k <= 8 && n < bound && bound == [1, 0x10, 0x100, 0x1000, 0x1_0000, 0x10_0000, 0x100_0000, 0x1000_0000, 0x1_0000_0000][k]
    ensures |PrintNat(n, 16)| <= k
    decreases k
  {
    if n >= 16 {
      HexLengthUpTo(n / 16, k - 1, bound / 16);
    }
  }

  function PowerOfTen(k: nat): nat {
    if k == 0 then 1 else 10 * PowerOfTen(k - 1)
  }

  lemma {:induction false} DecimalLength(n: nat, k: nat)
    requires 0 < k && n < PowerOfTen(k)
    ensures |PrintNat(n, 10)| <= k
    decreases k
  {
    if n >= 10 {
      DecimalLength(n / 10, k - 1);
    }
  }

  /** A printed int: its length, and that it has nothing but digits and a sign. */
  lemma IntText(x: int)
    requires IsInt32(x)
    ensures |PrintInt(x)| <= 11
    ensures forall i :: 0 <= i < |PrintInt(x)| ==> DigitValue(PrintInt(x)[i]) < 16 || PrintInt(x)[i] == '-'
  {
    hide PrintNat, DigitValue;
    var n := if x < 0 then -x else x;
    assert PowerOfTen(3) == 1000 && PowerOfTen(6) == 1000_000 && PowerOfTen(9) == 1000_000_000;
    DecimalLength(n, 10);
    PrintedDigits(n, 10);
  }
}
