/**
 What strtol reads, told by tables of digits and powers of the base: the meaning of the
 library function for every text, not only for printed numbers.
 */
module NumberTexts {
  import opened Lists
  import opened Text

  const UPPER_DIGITS := "0123456789ABCDEF"
  const SPACES := " \t\n\U{b}\U{c}\r"

  /** The digit with the value `d`, in either case. */
  ghost predicate Spelled(c: char, d: nat) {
    d < 16 && (c == DIGITS[d] || c == UPPER_DIGITS[d])
  }

  ghost predicate DigitIn(c: char, base: nat) {
    exists d :: 0 <= d < base && Spelled(c, d)
  }

  lemma DecimalTable(d: nat)
    requires d < 10
    ensures DIGITS[d] == UPPER_DIGITS[d] == '0' + d as char
  {
  }

  lemma LetterTable(d: nat)
    requires 10 <= d < 16
    ensures DIGITS[d] == 'a' + (d - 10) as char && UPPER_DIGITS[d] == 'A' + (d - 10) as char
  {
  }

  lemma SpelledValue(c: char, d: nat)
    requires Spelled(c, d)
    ensures DigitValue(c) == d
  {
    if d < 10 {
      DecimalTable(d);
    } else {
      LetterTable(d);
    }
  }

  lemma ValueSpelled(c: char)
    requires DigitValue(c) < 16
    ensures Spelled(c, DigitValue(c))
  {
    var d := DigitValue(c);
    if d < 10 {
      DecimalTable(d);
    } else {
      LetterTable(d);
    }
  }

  /** DigitValue is the table. */
  lemma DigitMeans(c: char, d: nat)
    requires d < 16
    ensures DigitValue(c) == d <==> Spelled(c, d)
  {
    hide DigitValue;
    if Spelled(c, d) {
      SpelledValue(c, d);
    }
    if DigitValue(c) == d {
      ValueSpelled(c);
    }
  }

  lemma NoDigitMeans(c: char, base: nat)
    requires 2 <= base <= 16
    ensures DigitIn(c, base) <==> DigitValue(c) < base
  {
    hide DigitValue, Spelled;
    if DigitValue(c) < base {
      DigitMeans(c, DigitValue(c));
    }
    if d :| 0 <= d < base && Spelled(c, d) {
      DigitMeans(c, d);
    }
  }

  function Power(base: nat, k: nat): nat {
    if k == 0 then 1 else base * Power(base, k - 1)
  }

  /** The positional sum. */
  function Positional(digits: seq<nat>, base: nat): nat {
    if digits == [] then 0 else digits[0] * Power(base, |digits| - 1) + Positional(digits[1..], base)
  }

  lemma {:induction false} PositionalFits(digits: seq<nat>, base: nat)
    requires forall i :: 0 <= i < |digits| ==> digits[i] < base
    ensures Positional(digits, base) < Power(base, |digits|)
    decreases |digits|
  {
    if digits != [] {
      PositionalFits(digits[1..], base);
      OneDigitMore(digits[0], base, Power(base, |digits| - 1));
    }
  }

  lemma OneDigitMore(d: nat, base: nat, power: nat)
    requires d < base
    ensures d * power + power <= base * power
  {
    assert (d + 1) * power <= base * power;
  }

  ghost predicate Spells(s: string, digits: seq<nat>, base: nat) {
    |s| == |digits| && forall i :: 0 <= i < |s| ==> digits[i] < base && Spelled(s[i], digits[i])
  }

  /** Nothing that a number could go on with. */
  ghost predicate NoDigit(rest: string, base: nat) {
    rest == "" || !DigitIn(rest[0], base)
  }

  lemma Regroup(n: nat, base: nat, d: nat, power: nat, more: nat)
    ensures (n * base + d) * power + more == n * (base * power) + (d * power + more)
  {
  }

  lemma {:induction false} ReadDigitsMeans(s: string, digits: seq<nat>, base: nat, n: nat, rest: string)
    requires 2 <= base <= 16 && Spells(s, digits, base) && NoDigit(rest, base)
    ensures ReadDigits(s + rest, base, n) == n * Power(base, |s|) + Positional(digits, base)
    decreases |s|
  {
    hide DigitValue, Spelled, DigitIn;
    if s == "" {
      assert s + rest == rest;
      if rest != "" {
        NoDigitMeans(rest[0], base);
      }
    } else {
      DigitMeans(s[0], digits[0]);
      assert (s + rest)[1..] == s[1..] + rest && (s + rest)[0] == s[0];
      ReadDigitsMeans(s[1..], digits[1..], base, n * base + digits[0], rest);
      Regroup(n, base, digits[0], Power(base, |s| - 1), Positional(digits[1..], base));
    }
  }

  lemma SpaceMeans(c: char)
    ensures IsSpace(c) <==> c in SPACES
  {
    assert SPACES[0] == ' ' && SPACES[1] == '\t' && SPACES[2] == '\n' && SPACES[3] == '\U{b}' && SPACES[4] == '\U{c}' && SPACES[5] == '\r';
    assert IsSpace(c) ==> c == ' ' || c == '\t' || c == '\n' || c == '\U{b}' || c == '\U{c}' || c == '\r';
  }

  lemma {:induction false} SkipsSpace(space: string, rest: string)
    requires (forall c :: c in space ==> c in SPACES) && (rest == "" || rest[0] !in SPACES)
    ensures SkipSpace(space + rest) == rest
    decreases |space|
  {
    hide IsSpace;
    if space == "" {
      assert space + rest == rest;
      if rest != "" {
        SpaceMeans(rest[0]);
      }
    } else {
      assert (space + rest)[1..] == space[1..] + rest && (space + rest)[0] == space[0];
      SpaceMeans(space[0]);
      SkipsSpace(space[1..], rest);
    }
  }

  predicate Sign(s: string) {
    s == "" || s == "+" || s == "-"
  }

  predicate Prefix(s: string, base: nat) {
    s == "" || (base == 16 && (s == "0x" || s == "0X"))
  }

  /** A zero that is itself the beginning of a hexadecimal prefix. */
  ghost predicate ReadAsPrefix(s: string, rest: string, base: nat) {
    base == 16 && s == "0" && |rest| >= 2 && (rest[0] == 'x' || rest[0] == 'X') && DigitIn(rest[1], 16)
  }

  /** The value, clamped to a long. */
  function Clamp(negative: bool, n: int): int {
    if negative then (if n > LONG_MAX + 1 then -LONG_MAX - 1 else -n)
    else (if n > LONG_MAX then LONG_MAX else n)
  }

  lemma DigitIsPlain(c: char)
    requires DigitIn(c, 16)
    ensures c !in SPACES && c != '+' && c != '-' && c != 'x' && c != 'X'
  {
    hide Spelled, IsSpace;
    NoDigitMeans(c, 16);
    SpaceMeans(c);
    ValueIsPlain(c);
  }

  lemma ValueIsPlain(c: char)
    requires DigitValue(c) < 16
    ensures !IsSpace(c) && c != '+' && c != '-' && c != 'x' && c != 'X'
  {
  }

  /** What StrToL does behind white space. */
  function AfterSpace(t: string, base: nat): int
    requires 2 <= base <= 16
  {
    var signed := t != "" && (t[0] == '-' || t[0] == '+');
    AfterSign(signed && t[0] == '-', if signed then t[1..] else t, base)
  }

  function AfterSign(negative: bool, u: string, base: nat): int
    requires 2 <= base <= 16
  {
    var prefixed := base == 16 && |u| > 2 && u[0] == '0' && (u[1] == 'x' || u[1] == 'X') && DigitValue(u[2]) < 16;
    Clamp(negative, ReadDigits(if prefixed then u[2..] else u, base, 0))
  }

  lemma StrToLSplits(space: string, t: string, base: nat)
    requires 2 <= base <= 16 && (forall c :: c in space ==> c in SPACES) && (t == "" || t[0] !in SPACES)
    ensures StrToL(space + t, base) == AfterSpace(t, base)
  {
    hide DigitValue, ReadDigits;
    SkipsSpace(space, t);
  }

  lemma SignSplits(sign: string, u: string, base: nat)
    requires 2 <= base <= 16 && Sign(sign) && (sign == "" ==> u == "" || (u[0] != '+' && u[0] != '-'))
    ensures AfterSpace(sign + u, base) == AfterSign(sign == "-", u, base)
  {
    hide DigitValue, ReadDigits, AfterSign;
    var t := sign + u;
    if sign == "" {
      assert t == u;
    } else {
      assert t[0] == sign[0] && t[1..] == u;
    }
  }

  lemma NoPrefix(s: string, digits: seq<nat>, rest: string, base: nat)
    requires 2 <= base <= 16 && s != "" && Spells(s, digits, base) && !ReadAsPrefix(s, rest, base)
    ensures var u := s + rest;
            !(base == 16 && |u| > 2 && u[0] == '0' && (u[1] == 'x' || u[1] == 'X') && DigitValue(u[2]) < 16)
  {
    hide DigitValue, Spelled, DigitIn;
    var u := s + rest;
    if base == 16 && |u| > 2 {
      NoDigitMeans(u[2], 16);
      if |s| > 1 {
        assert u[1] == s[1];
        SpelledIsDigit(s[1], digits[1]);
        DigitIsPlain(s[1]);
      } else {
        assert u[0] == s[0] && u[1] == rest[0] && u[2] == rest[1];
        assert s == [s[0]] && "0" == ['0'];
      }
    }
  }

  lemma NumberSplits(negative: bool, prefix: string, s: string, digits: seq<nat>, rest: string, base: nat)
    requires 2 <= base <= 16 && Prefix(prefix, base) && s != "" && Spells(s, digits, base) && NoDigit(rest, base)
    requires prefix == "" ==> !ReadAsPrefix(s, rest, base)
    ensures AfterSign(negative, prefix + (s + rest), base) == Clamp(negative, Positional(digits, base))
  {
    hide DigitValue, ReadDigits, Spelled, Clamp, ReadAsPrefix, NoDigit;
    var u := prefix + (s + rest);
    ReadDigitsMeans(s, digits, base, 0, rest);
    if prefix == "" {
      assert u == s + rest;
      NoPrefix(s, digits, rest, base);
    } else {
      assert u[0] == '0' && u[1] == prefix[1] && u[2..] == s + rest && u[2] == s[0];
      DigitMeans(s[0], digits[0]);
    }
  }

  lemma SpelledIsDigit(c: char, d: nat)
    requires Spelled(c, d)
    ensures DigitIn(c, 16)
  {
  }

  /**
   strtol on any text with a number: white space, a sign, for base 16 a prefix, and as many
   digits as there are, in either case and with leading zeros.
   */
  lemma StrToLMeans(space: string, sign: string, prefix: string, s: string, digits: seq<nat>, rest: string, base: nat)
    requires 2 <= base <= 16 && (forall c :: c in space ==> c in SPACES) && Sign(sign) && Prefix(prefix, base)
    requires s != "" && Spells(s, digits, base) && NoDigit(rest, base) && (prefix == "" ==> !ReadAsPrefix(s, rest, base))
    ensures StrToL(space + (sign + (prefix + (s + rest))), base) == Clamp(sign == "-", Positional(digits, base))
  {
    hide StrToL, AfterSpace, AfterSign, Spelled, Clamp;
    var u := prefix + (s + rest);
    SpelledIsDigit(s[0], digits[0]);
    DigitIsPlain(s[0]);
    assert u[0] == (if prefix == "" then s[0] else '0');
    assert DIGITS[0] == '0' && "0"[0] == '0';
    ZeroIsPlain();
    assert (sign + u)[0] == if sign == "" then u[0] else sign[0];
    StrToLSplits(space, sign + u, base);
    SignSplits(sign, u, base);
    NumberSplits(sign == "-", prefix, s, digits, rest, base);
  }

  lemma ZeroIsPlain()
    ensures '0' !in SPACES && '+' !in SPACES && '-' !in SPACES
  {
  }

  /** A text without a number is read as zero. */
  lemma StrToLNothing(space: string, sign: string, rest: string, base: nat)
    requires 2 <= base <= 16 && (forall c :: c in space ==> c in SPACES) && Sign(sign) && NoDigit(rest, base)
    requires sign == "" ==> rest == "" || (rest[0] !in SPACES && rest[0] != '+' && rest[0] != '-')
    ensures StrToL(space + (sign + rest), base) == 0
  {
    hide StrToL, AfterSpace, AfterSign, ReadDigits;
    ZeroIsPlain();
    assert sign + rest == "" || (sign + rest)[0] == if sign == "" then rest[0] else sign[0];
    StrToLSplits(space, sign + rest, base);
    SignSplits(sign, rest, base);
    NothingAfterSign(sign == "-", rest, base);
  }

  lemma NothingAfterSign(negative: bool, rest: string, base: nat)
    requires 2 <= base <= 16 && NoDigit(rest, base)
    ensures AfterSign(negative, rest, base) == 0
  {
    hide DigitIn;
    ReadDigitsMeans("", [], base, 0, rest);
    assert "" + rest == rest;
    if rest != "" && rest[0] == '0' {
      assert DIGITS[0] == '0';
      assert Spelled(rest[0], 0);
      ZeroIsDigit(rest[0], base);
    }
  }

  lemma ZeroIsDigit(c: char, base: nat)
    requires 2 <= base && Spelled(c, 0)
    ensures DigitIn(c, base)
  {
  }

  /** A long made an int: the one of the same remainder. */
  lemma IntWraps(x: int)
    ensures IsInt32(ToInt32(x)) && (x - ToInt32(x)) % 0x1_0000_0000 == 0
  {
  }
}
