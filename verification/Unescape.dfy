/**
 stripcslashes of the SOAP client: replaces C escape sequences in a buffer, in place.
 */
module Unescape {
  import opened NumberTexts
  import opened Text

  /** The number of leading digits, at most `most`. */
  function Digits(s: string, base: nat, most: nat): (k: nat)
    ensures k <= most && k <= |s|
    decreases most
  {
    if most == 0 || s == "" || DigitValue(s[0]) >= base then 0 else 1 + Digits(s[1..], base, most - 1)
  }

  /** Digits as strtol reads them, cut to a byte. */
  function ByteOf(digits: string, base: nat): char
    requires 2 <= base <= 16
  {
    (StrToL(digits, base) % 0x100) as char
  }

  const NAMES := "nratvbf\\"
  const NAMED := "\n\r\U{7}\t\U{b}\U{8}\U{c}\\"

  function NameIndex(c: char): (i: nat)
    ensures i < |NAMES| ==> NAMES[i] == c
    ensures i >= |NAMES| ==> c !in NAMES
  {
    if c == 'n' then 0 else if c == 'r' then 1 else if c == 'a' then 2 else if c == 't' then 3
    else if c == 'v' then 4 else if c == 'b' then 5 else if c == 'f' then 6 else if c == '\\' then 7 else 8
  }

  /** What an escape sequence without its backslash stands for, and its length. */
  function Escape(s: string): (r: (char, nat))
    requires s != ""
    ensures 0 < r.1 <= |s|
  {
    if NameIndex(s[0]) < |NAMES| then (NAMED[NameIndex(s[0])], 1) else Numeric(s)
  }

  function Numeric(s: string): (r: (char, nat))
    requires s != ""
    ensures 0 < r.1 <= |s|
  {
    var hex := if s[0] == 'x' then Digits(s[1..], 16, 2) else 0;
    var octal := Digits(s, 8, 3);
    if hex > 0 then (ByteOf(s[1..1 + hex], 16), 1 + hex)
    else if octal > 0 then (ByteOf(s[..octal], 8), octal)
    else (s[0], 1)
  }

  /** The byte that a text begins with once unescaped, and how much of the text stands for it. */
  function First(s: string): (r: (char, nat))
    requires s != ""
    ensures 0 < r.1 <= |s| && (r.1 == 1 <==> s[0] != '\\' || |s| == 1)
  {
    if s[0] != '\\' || |s| == 1 then (s[0], 1) else (Escape(s[1..]).0, 1 + Escape(s[1..]).1)
  }

  function Unescape(s: string): (r: string)
    ensures |r| <= |s|
    ensures r == "" <==> s == ""
  {
    if s == "" then "" else [First(s).0] + Unescape(s[First(s).1..])
  }

  lemma NextDigit(s: string, base: nat, i: nat, most: nat)
    requires i <= |s| && i <= most
    ensures Digits(s[i..], base, most - i)
         == if i < |s| && i < most && DigitValue(s[i]) < base then 1 + Digits(s[i + 1..], base, most - i - 1) else 0
  {
    if i < |s| {
      assert s[i..][1..] == s[i + 1..];
    }
  }

  lemma OctalDigit(c: char)
    ensures '0' <= c <= '7' <==> DigitValue(c) < 8
  {
  }

  /** The loop that collects up to three octal digits. */
  method OctalDigits(str: array<char>, source: nat, end: nat) returns (numtmp: string)
    requires source <= end <= str.Length
    ensures numtmp == str[source..end][..Digits(str[source..end], 8, 3)]
  {
    hide Digits, DigitValue;
    ghost var s := str[source..end];
    var i := 0;
    numtmp := "";
    assert s[0..] == s;
    while source + i < end && '0' <= str[source + i] <= '7' && i < 3
      invariant i <= 3 && i <= |s| && numtmp == s[..i]
      invariant Digits(s, 8, 3) == i + Digits(s[i..], 8, 3 - i)
    {
      NextDigit(s, 8, i, 3);
      OctalDigit(s[i]);
      assert str[source + i] == s[i] && s[..i + 1] == s[..i] + [s[i]];
      numtmp := numtmp + [str[source + i]];
      i := i + 1;
    }
    NextDigit(s, 8, i, 3);
    if i < |s| {
      OctalDigit(s[i]);
    }
  }

  /** The digits after `\x`, at least one, at most two. */
  method HexDigits(str: array<char>, source: nat, end: nat) returns (numtmp: string)
    requires source < end <= str.Length && DigitValue(str[source]) < 16
    ensures numtmp == str[source..end][..Digits(str[source..end], 16, 2)] && numtmp != ""
  {
    ghost var s := str[source..end];
    assert s[1..] == str[source + 1..end];
    assert Digits(s, 16, 2) == 1 + Digits(s[1..], 16, 1);
    numtmp := [str[source]];
    if source + 1 < end && DigitValue(str[source + 1]) < 16 {
      assert Digits(s[1..], 16, 1) == 1 + Digits(s[1..][1..], 16, 0);
      numtmp := numtmp + [str[source + 1]];
    }
  }

  /** What the escape sequence at `source` stands for, its length, and by how much `nlen` drops. */
  method ReadEscape(str: array<char>, source: nat, end: nat) returns (c: char, size: nat, drop: nat)
    requires source < end <= str.Length
    ensures (c, size) == Escape(str[source..end]) && drop == size
  {
    hide Numeric;
    size, drop := 1, 1;
    match str[source]
    case 'n' => c := '\n';
    case 'r' => c := '\r';
    case 'a' => c := '\U{7}';
    case 't' => c := '\t';
    case 'v' => c := '\U{b}';
    case 'b' => c := '\U{8}';
    case 'f' => c := '\U{c}';
    case '\\' => c := '\\';
    case _ => c, size, drop := ReadNumeric(str, source, end);
  }

  /** The cases 'x' and, which it falls through to, default. */
  method ReadNumeric(str: array<char>, source: nat, end: nat) returns (c: char, size: nat, drop: nat)
    requires source < end <= str.Length
    ensures (c, size) == Numeric(str[source..end]) && drop == size
  {
    hide ByteOf, DigitValue;
    ghost var s := str[source..end];
    if str[source] == 'x' && source + 1 < end && DigitValue(str[source + 1]) < 16 {
      assert s[1..] == str[source + 1..end];
      var hex := HexDigits(str, source + 1, end);
      assert hex == s[1..][..|hex|] == s[1..1 + |hex|];
      return ByteOf(hex, 16), 1 + |hex|, 1 + |hex|;
    }
    var octal := OctalDigits(str, source, end);
    if octal != "" {
      return ByteOf(octal, 8), |octal|, |octal|;
    }
    return str[source], 1, 1;
  }

  /** A character, or an escape sequence if it is a backslash with something behind it. */
  method ReadFirst(str: array<char>, source: nat, end: nat) returns (c: char, size: nat, drop: nat)
    requires source < end <= str.Length
    ensures (c, size) == First(str[source..end]) && drop == size - 1
  {
    hide Escape;
    ghost var rest := str[source..end];
    FirstUnfolds(rest);
    c, size, drop := str[source], 1, 0;
    if str[source] == '\\' && source + 1 < end {
      c, size, drop := ReadEscape(str, source + 1, end);
      assert str[source + 1..end] == rest[1..];
      size := size + 1;
    }
  }

  /**
   stripcslashes: the buffer then holds the unescaped text, terminated unless it is empty;
   what lies behind is as before. The write index never passes the read index.
   */
  method StripSlashes(str: array<char>, len: nat) returns (nlen: nat)
    requires len < str.Length
    modifies str
    ensures nlen == |Unescape(old(str[..len]))| && str[..nlen] == Unescape(old(str[..len]))
    ensures nlen != 0 ==> str[nlen] == '\0'
    ensures forall k :: nlen < k < str.Length || k == nlen == 0 ==> str[k] == old(str[k])
  {
    hide First, Escape, Unescape;
    nlen := len;
    var source, target := 0, 0;
    ghost var was := str[..];
    while source < len
      invariant target <= source <= len && nlen == len - (source - target)
      invariant forall k :: target <= k < str.Length ==> str[k] == was[k]
      invariant str[..target] + Unescape(was[source..len]) == Unescape(was[..len])
    {
      ghost var rest, done := was[source..len], str[..target];
      UnescapeStep(rest, done);
      assert str[source..len] == rest;
      var c, size, drop := ReadFirst(str, source, len);
      assert rest[size..] == was[source + size..len];
      str[target] := c;
      assert str[..target + 1] == done + [c];
      source, target, nlen := source + size, target + 1, nlen - drop;
    }
    if nlen != 0 {
      str[target] := '\0';
    }
  }

  lemma UnescapeUnfolds(s: string)
    requires s != ""
    ensures Unescape(s) == [First(s).0] + Unescape(s[First(s).1..])
  {
    hide First;
  }

  /** One round of the loop. */
  lemma UnescapeStep(rest: string, done: string)
    requires rest != ""
    ensures rest[0] != '\\' || |rest| == 1 ==> First(rest) == (rest[0], 1)
    ensures rest[0] == '\\' && |rest| > 1 ==> First(rest) == (Escape(rest[1..]).0, 1 + Escape(rest[1..]).1)
    ensures done + Unescape(rest) == done + [First(rest).0] + Unescape(rest[First(rest).1..])
  {
    hide Escape, First, Unescape;
    UnescapeUnfolds(rest);
    FirstUnfolds(rest);
  }

  lemma FirstUnfolds(rest: string)
    requires rest != ""
    ensures rest[0] != '\\' || |rest| == 1 ==> First(rest) == (rest[0], 1)
    ensures rest[0] == '\\' && |rest| > 1 ==> First(rest) == (Escape(rest[1..]).0, 1 + Escape(rest[1..]).1)
  {
    hide Escape;
  }

  // ---------------------------------------------------------------- what it undoes

  /** The ways to write a byte in an escaped text. */
  datatype Style = AsIs | Named | Octal | Hex

  const OCTAL_DIGITS := "01234567"

  /** A byte written in a style; AsIs and Named give way where they cannot be used. */
  function Code(c: char, style: Style): (code: string)
    requires c as int < 0x100
    ensures code != ""
  {
    var n := c as int;
    match style
    case AsIs => if c == '\\' then "\\\\" else [c]
    case Named => if NamedIndex(c) < |NAMES| then ['\\', NAMES[NamedIndex(c)]] else [c]
    case Octal => "\\" + [OCTAL_DIGITS[n / 64], OCTAL_DIGITS[n / 8 % 8], OCTAL_DIGITS[n % 8]]
    case Hex => "\\x" + [DIGITS[n / 16], DIGITS[n % 16]]
  }

  function NamedIndex(c: char): (i: nat)
    ensures i < |NAMES| ==> NAMED[i] == c
    ensures i >= |NAMES| ==> c !in NAMED
  {
    if c == '\n' then 0 else if c == '\r' then 1 else if c == '\U{7}' then 2 else if c == '\t' then 3
    else if c == '\U{b}' then 4 else if c == '\U{8}' then 5 else if c == '\U{c}' then 6 else if c == '\\' then 7 else 8
  }

  /** A text with each byte written in its own style. */
  function Escaped(s: string, styles: seq<Style>): string
    requires |s| == |styles| && forall i :: 0 <= i < |s| ==> s[i] as int < 0x100
  {
    if s == "" then "" else Code(s[0], styles[0]) + Escaped(s[1..], styles[1..])
  }

  lemma OctalBack(n: nat, rest: string)
    requires n < 0x100
    ensures First(Code(n as char, Octal) + rest) == (n as char, 4)
  {
    hide Digits, ByteOf, DigitValue;
    var digits := [OCTAL_DIGITS[n / 64], OCTAL_DIGITS[n / 8 % 8], OCTAL_DIGITS[n % 8]];
    var s := Code(n as char, Octal) + rest;
    assert s[1..] == digits + rest && s[1..][..3] == digits;
    ReadOctal(n, digits);
    NumberRun(digits, rest, 8, 3);
  }

  /** A run of one more digit. */
  lemma ReadMore(d: char, digits: string, base: nat, n: nat)
    requires 2 <= base <= 16 && DigitValue(d) < base
    ensures ReadDigits([d] + digits, base, n) == ReadDigits(digits, base, n * base + DigitValue(d))
  {
    assert ([d] + digits)[1..] == digits;
  }

  /** strtol on a short run of digits only reads digits. */
  lemma ReadsDigits(digits: string, base: nat)
    requires 2 <= base <= 16 && 0 < |digits| <= 3 && DigitValue(digits[0]) < base
    requires base == 16 ==> |digits| <= 2
    requires 0 <= ReadDigits(digits, base, 0) <= LONG_MAX
    ensures StrToL(digits, base) == ReadDigits(digits, base, 0)
  {
    hide DigitValue, IsSpace, ReadDigits;
    DigitIsNoSign(digits[0]);
  }

  lemma OctalDigitBack(d: nat)
    requires d < 8
    ensures DigitValue(OCTAL_DIGITS[d]) == d && NameIndex(OCTAL_DIGITS[d]) == 8 && OCTAL_DIGITS[d] != 'x'
  {
    assert OCTAL_DIGITS[d] == '0' + d as char;
  }

  /** Three digits, read one after the other. */
  lemma ReadThree(a: nat, b: nat, c: nat, digits: string)
    requires a < 8 && b < 8 && c < 8 && digits == [OCTAL_DIGITS[a], OCTAL_DIGITS[b], OCTAL_DIGITS[c]]
    ensures forall i :: 0 <= i < 3 ==> DigitValue(digits[i]) < 8
    ensures NameIndex(digits[0]) == 8 && digits[0] != 'x' && ReadDigits(digits, 8, 0) == 64 * a + 8 * b + c
  {
    hide DigitValue, NameIndex, ReadDigits;
    OctalDigitBack(a);
    OctalDigitBack(b);
    OctalDigitBack(c);
    var two, one := [digits[1], digits[2]], [digits[2]];
    assert digits == [digits[0]] + two && two == [digits[1]] + one && one == [digits[2]] + "";
    ReadMore(digits[0], two, 8, 0);
    ReadMore(digits[1], one, 8, a);
    ReadMore(digits[2], "", 8, 8 * a + b);
    ReadNothing(8, 64 * a + 8 * b + c);
  }

  lemma OctalSplit(n: nat)
    requires n < 0x100
    ensures n / 64 < 8 && n == 64 * (n / 64) + 8 * (n / 8 % 8) + n % 8
  {
  }

  lemma ReadOctal(n: nat, digits: string)
    requires n < 0x100 && digits == [OCTAL_DIGITS[n / 64], OCTAL_DIGITS[n / 8 % 8], OCTAL_DIGITS[n % 8]]
    ensures forall i :: 0 <= i < 3 ==> DigitValue(digits[i]) < 8
    ensures NameIndex(digits[0]) == 8 && digits[0] != 'x' && ByteOf(digits, 8) == n as char
  {
    hide DigitValue, StrToL, NameIndex, ReadDigits;
    OctalSplit(n);
    ReadThree(n / 64, n / 8 % 8, n % 8, digits);
    ReadsDigits(digits, 8);
  }

  lemma ReadNothing(base: nat, n: nat)
    requires 2 <= base <= 16
    ensures ReadDigits("", base, n) == n
  {
  }

  lemma ReadHex(n: nat, digits: string)
    requires n < 0x100 && digits == [DIGITS[n / 16], DIGITS[n % 16]]
    ensures forall i :: 0 <= i < 2 ==> DigitValue(digits[i]) < 16
    ensures ByteOf(digits, 16) == n as char
  {
    hide DigitValue, StrToL, ReadDigits;
    DigitBack(n / 16);
    DigitBack(n % 16);
    var one := [digits[1]];
    assert digits == [digits[0]] + one && one == [digits[1]] + "";
    ReadMore(digits[0], one, 16, 0);
    ReadMore(digits[1], "", 16, n / 16);
    ReadNothing(16, n);
    ReadsDigits(digits, 16);
  }

  lemma HexBack(n: nat, rest: string)
    requires n < 0x100
    ensures First(Code(n as char, Hex) + rest) == (n as char, 4)
  {
    hide Digits, ByteOf, DigitValue;
    var digits := [DIGITS[n / 16], DIGITS[n % 16]];
    var s := Code(n as char, Hex) + rest;
    var t := s[1..];
    assert t == "x" + digits + rest && t[1..] == digits + rest && t[1..3] == digits;
    ReadHex(n, digits);
    NumberRun(digits, rest, 16, 2);
    assert Numeric(t) == (n as char, 3);
  }

  lemma {:induction false} NumberRun(digits: string, rest: string, base: nat, most: nat)
    requires |digits| == most && forall i :: 0 <= i < most ==> DigitValue(digits[i]) < base
    ensures Digits(digits + rest, base, most) == most
  {
    if digits != "" {
      assert (digits + rest)[1..] == digits[1..] + rest;
      NumberRun(digits[1..], rest, base, most - 1);
    }
  }

  lemma CodeBack(c: char, style: Style, rest: string)
    requires c as int < 0x100
    ensures First(Code(c, style) + rest) == (c, |Code(c, style)|)
  {
    hide Numeric;
    match style
    case Octal => OctalBack(c as int, rest);
    case Hex => HexBack(c as int, rest);
    case AsIs =>
    case Named =>
  }

  /** Whatever style each byte is written in, unescaping gives back the bytes. */
  lemma {:induction false} EscapedComesBack(s: string, styles: seq<Style>)
    requires |s| == |styles| && forall i :: 0 <= i < |s| ==> s[i] as int < 0x100
    ensures Unescape(Escaped(s, styles)) == s
  {
    if s != "" {
      hide First, Code;
      var code, rest := Code(s[0], styles[0]), Escaped(s[1..], styles[1..]);
      CodeBack(s[0], styles[0], rest);
      assert (code + rest)[|code|..] == rest;
      EscapedComesBack(s[1..], styles[1..]);
    }
  }

  /** A text is left as it is if and only if it has no backslash, except perhaps at its end. */
  lemma {:induction false} LeftAsItIs(s: string)
    ensures Unescape(s) == s <==> forall i :: 0 <= i < |s| - 1 ==> s[i] != '\\'
  {
    if s != "" {
      hide First;
      FirstUnfolds(s);
      LeftAsItIs(s[1..]);
      if s[0] != '\\' || |s| == 1 {
        assert s == [s[0]] + s[1..];
        assert forall i :: 0 <= i < |s| - 2 ==> s[1..][i] == s[i + 1];
        assert forall i :: 0 < i < |s| - 1 ==> s[i] == s[1..][i - 1];
      } else {
        assert |Unescape(s)| < |s|;
      }
    }
  }

  // ---------------------------------------------------------------- any text

  /**
   A piece of an escaped text: a character as it is, a name behind a backslash, one to three
   octal digits, one or two hexadecimal digits behind an x, or a backslash that means nothing.
   */
  datatype Piece =
    | Char(c: char)
    | Name(i: nat)
    | OctalPiece(s: string, digits: seq<nat>)
    | HexPiece(s: string, digits: seq<nat>)
    | Other(c: char)

  function Write(p: Piece): string {
    match p
    case Char(c) => [c]
    case Name(i) => if i < |NAMES| then ['\\', NAMES[i]] else ""
    case OctalPiece(s, _) => "\\" + s
    case HexPiece(s, _) => "\\x" + s
    case Other(c) => ['\\', c]
  }

  function Meaning(p: Piece): char {
    match p
    case Char(c) => c
    case Name(i) => if i < |NAMES| then NAMED[i] else '\0'
    case OctalPiece(_, digits) => (Positional(digits, 8) % 0x100) as char
    case HexPiece(_, digits) => (Positional(digits, 16) % 0x100) as char
    case Other(c) => c
  }

  /** The piece is read as such in front of `rest`: it takes as many digits as it can. */
  ghost predicate ReadsAs(p: Piece, rest: string) {
    match p
    case Char(c) => c != '\\' || rest == ""
    case Name(i) => i < |NAMES|
    case OctalPiece(s, digits) => 1 <= |s| <= 3 && Spells(s, digits, 8) && (|s| < 3 ==> NoDigit(rest, 8))
    case HexPiece(s, digits) => 1 <= |s| <= 2 && Spells(s, digits, 16) && (|s| < 2 ==> NoDigit(rest, 16))
    case Other(c) => c !in NAMES && !DigitIn(c, 8) && (c == 'x' ==> NoDigit(rest, 16))
  }

  /** As many digits as there are. */
  lemma {:induction false} DigitsTaken(s: string, digits: seq<nat>, rest: string, base: nat, most: nat)
    requires 2 <= base <= 16 && Spells(s, digits, base) && |s| <= most && (|s| < most ==> NoDigit(rest, base))
    ensures Digits(s + rest, base, most) == |s|
    decreases |s|
  {
    hide DigitValue, Spelled, DigitIn;
    if s == "" {
      assert s + rest == rest;
      if rest != "" {
        NoDigitMeans(rest[0], base);
      }
    } else {
      DigitMeans(s[0], digits[0]);
      assert (s + rest)[1..] == s[1..] + rest && (s + rest)[0] == s[0];
      DigitsTaken(s[1..], digits[1..], rest, base, most - 1);
    }
  }

  lemma ByteOfMeans(s: string, digits: seq<nat>, base: nat)
    requires (base == 8 || base == 16) && 1 <= |s| <= 3 && Spells(s, digits, base)
    ensures ByteOf(s, base) == (Positional(digits, base) % 0x100) as char
  {
    hide StrToL, Spells, Positional;
    StrToLMeans("", "", "", s, digits, "", base);
    assert "" + ("" + ("" + (s + ""))) == s;
    SmallSum(s, digits, base);
  }

  lemma SmallSum(s: string, digits: seq<nat>, base: nat)
    requires (base == 8 || base == 16) && 1 <= |s| <= 3 && Spells(s, digits, base)
    ensures Positional(digits, base) < 0x1000
  {
    hide Spelled, Positional;
    PositionalFits(digits, base);
    assert Power(8, 1) == 8 && Power(8, 2) == 64 && Power(8, 3) == 512;
    assert Power(16, 1) == 16 && Power(16, 2) == 256 && Power(16, 3) == 4096;
  }

  lemma NameMeans(i: nat)
    requires i < |NAMES|
    ensures NameIndex(NAMES[i]) == i && NAMES[i] != 'x'
  {
  }

  lemma NoName(c: char)
    ensures c !in NAMES ==> NameIndex(c) == |NAMES|
    ensures DigitIn(c, 8) ==> c !in NAMES && c != 'x'
  {
    hide Spelled, NameIndex;
    NoDigitMeans(c, 8);
    if DigitIn(c, 8) {
      OctalNoName(c);
    }
    NameIndexEnds(c);
  }

  lemma NameIndexEnds(c: char)
    ensures c !in NAMES ==> NameIndex(c) == |NAMES|
  {
  }

  lemma OctalNoName(c: char)
    requires DigitValue(c) < 8
    ensures c !in NAMES && c != 'x'
  {
  }

  lemma OctalReads(s: string, digits: seq<nat>, rest: string)
    requires 1 <= |s| <= 3 && Spells(s, digits, 8) && (|s| < 3 ==> NoDigit(rest, 8))
    ensures Escape(s + rest) == ((Positional(digits, 8) % 0x100) as char, |s|)
  {
    hide Digits, ByteOf, Spelled, DigitIn, NameIndex, Positional;
    DigitsTaken(s, digits, rest, 8, 3);
    ByteOfMeans(s, digits, 8);
    DigitInOf(s[0], digits[0]);
    NoName(s[0]);
    assert (s + rest)[0] == s[0] && (s + rest)[..|s|] == s;
  }

  lemma DigitInOf(c: char, d: nat)
    requires d < 8 && Spelled(c, d)
    ensures DigitIn(c, 8)
  {
  }

  lemma HexReads(s: string, digits: seq<nat>, rest: string)
    requires 1 <= |s| <= 2 && Spells(s, digits, 16) && (|s| < 2 ==> NoDigit(rest, 16))
    ensures Escape("x" + s + rest) == ((Positional(digits, 16) % 0x100) as char, 1 + |s|)
  {
    hide Digits, ByteOf, Spelled, DigitIn, NameIndex, Positional;
    DigitsTaken(s, digits, rest, 16, 2);
    ByteOfMeans(s, digits, 16);
    var t := "x" + s + rest;
    XIsNoName();
    assert t[0] == 'x' && t[1..] == s + rest && t[1..1 + |s|] == s;
  }

  lemma XIsNoName()
    ensures NameIndex('x') == |NAMES|
  {
  }

  lemma OtherReads(c: char, rest: string)
    requires c !in NAMES && !DigitIn(c, 8) && (c == 'x' ==> NoDigit(rest, 16))
    ensures Escape([c] + rest) == (c, 1)
  {
    hide DigitIn, DigitValue, NameIndex;
    var t := [c] + rest;
    NoName(c);
    NoDigitMeans(c, 8);
    assert t[0] == c && t[1..] == rest;
    if c == 'x' && rest != "" {
      NoDigitMeans(rest[0], 16);
    }
  }

  /** One piece. */
  lemma PieceReads(p: Piece, rest: string)
    requires ReadsAs(p, rest)
    ensures Write(p) != "" && First(Write(p) + rest) == (Meaning(p), |Write(p)|)
  {
    hide Escape, Spells, NoDigit, DigitIn, Positional;
    var s := Write(p) + rest;
    match p
    case Char(c) => assert s[0] == c;
    case Name(i) =>
      NameMeans(i);
      assert s[0] == '\\' && s[1..] == [NAMES[i]] + rest;
      NameReads(i, rest);
    case OctalPiece(o, digits) =>
      assert s[0] == '\\' && s[1..] == o + rest;
      OctalReads(o, digits, rest);
    case HexPiece(h, digits) =>
      assert s[0] == '\\' && s[1..] == "x" + h + rest;
      HexReads(h, digits, rest);
    case Other(c) =>
      assert s[0] == '\\' && s[1..] == [c] + rest;
      OtherReads(c, rest);
  }

  lemma NameReads(i: nat, rest: string)
    requires i < |NAMES|
    ensures Escape([NAMES[i]] + rest) == (NAMED[i], 1)
  {
    hide Numeric, NameIndex;
    NameMeans(i);
  }

  function WriteAll(pieces: seq<Piece>): string {
    if pieces == [] then "" else Write(pieces[0]) + WriteAll(pieces[1..])
  }

  function Meanings(pieces: seq<Piece>): string {
    if pieces == [] then "" else [Meaning(pieces[0])] + Meanings(pieces[1..])
  }

  ghost predicate ReadAsPieces(pieces: seq<Piece>) {
    pieces == [] || (ReadsAs(pieces[0], WriteAll(pieces[1..])) && ReadAsPieces(pieces[1..]))
  }

  /** Every text of such pieces is unescaped piece by piece. */
  lemma {:induction false} UnescapeMeans(pieces: seq<Piece>)
    requires ReadAsPieces(pieces)
    ensures Unescape(WriteAll(pieces)) == Meanings(pieces)
    decreases |pieces|
  {
    hide First, Write, Meaning, ReadsAs;
    if pieces != [] {
      var rest := WriteAll(pieces[1..]);
      PieceReads(pieces[0], rest);
      UnescapeUnfolds(WriteAll(pieces));
      assert WriteAll(pieces)[|Write(pieces[0])|..] == rest;
      UnescapeMeans(pieces[1..]);
    }
  }
}
