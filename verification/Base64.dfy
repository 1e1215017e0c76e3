/**
 The base64 codec, with the C strings it works on; shifts and masks of bytes are written
 as divisions and remainders.
 */
module Base64 {
  import opened Lists
  import opened Text

  type Sextet = b: int | 0 <= b < 64

  /* The alphabet, and the table that the decoder indexes with a character's code less 43. */
  const CB64_0 := "ABCDEFGHIJKLMNOPQRSTUVWXYZ"
  const CB64_1 := "abcdefghijklmnopqrstuvwxyz"
  const CB64_2 := "0123456789+/"
  const CB64 := CB64_0 + CB64_1 + CB64_2
  const CD64_0 := "|$$$}rstuvwxyz{$$$$$$$"
  const CD64_1 := ">?@ABCDEFGHIJKLMNOPQRSTUVW"
  const CD64_2 := "$$$$$$"
  const CD64_3 := "XYZ[\\]^_`abcdefghijklmnopq"
  const CD64 := CD64_0 + CD64_1 + CD64_2 + CD64_3

  // ---------------------------------------------------------------- the standard

  function Symbol(q: Sextet): char {
    CB64[q]
  }

  /** A 24-bit group as four sextets, most significant first. */
  function Sextets(n: nat): (q: seq<Sextet>)
    requires n < 0x100_0000
    ensures |q| == 4
  {
    [n / 0x4_0000, n / 0x1000 % 64, n / 64 % 64, n % 64]
  }

  /** Three bytes as a 24-bit number. */
  function Joined(b0: Byte, b1: Byte, b2: Byte): (n: nat)
    ensures n < 0x100_0000
  {
    var (x0: int, x1: int, x2: int) := (b0, b1, b2);
    x0 * 0x1_0000 + x1 * 0x100 + x2
  }

  /** The sextets of three bytes, as the encoder computes them. */
  lemma SextetsOf(b0: Byte, b1: Byte, b2: Byte)
    ensures Sextets(Joined(b0, b1, b2)) == [b0 / 4, b0 % 4 * 16 + b1 / 16, b1 % 16 * 4 + b2 / 64, b2 % 64]
  {
    SextetsAre(b0 / 4, b0 % 4 * 16 + b1 / 16, b1 % 16 * 4 + b2 / 64, b2 % 64);
  }

  lemma SextetsAre(q0: Sextet, q1: Sextet, q2: Sextet, q3: Sextet)
    ensures (var n: int := (q0 as int) * 0x4_0000 + (q1 as int) * 0x1000 + (q2 as int) * 64 + q3;
             0 <= n < 0x100_0000 && Sextets(n) == [q0, q1, q2, q3])
  {
    var n: int := (q0 as int) * 0x4_0000 + (q1 as int) * 0x1000 + (q2 as int) * 64 + q3;
    assert n / 64 == (q0 as int) * 0x1000 + (q1 as int) * 64 + q2;
    assert n / 0x1000 == (q0 as int) * 64 + q1;
    assert n / 0x4_0000 == q0;
  }

  /** RFC 4648, section 4: the encoding of one group of one to three bytes, padded with zero bits and "=". */
  function EncodeGroup(group: seq<Byte>): (s: string)
    requires 1 <= |group| <= 3
    ensures |s| == 4
  {
    var q := Sextets(Joined(group[0], if |group| > 1 then group[1] else 0, if |group| > 2 then group[2] else 0));
    [Symbol(q[0]), Symbol(q[1]), if |group| > 1 then Symbol(q[2]) else '=', if |group| > 2 then Symbol(q[3]) else '=']
  }

  function Encode(bytes: seq<Byte>): string {
    if bytes == [] then ""
    else if |bytes| <= 3 then EncodeGroup(bytes)
    else EncodeGroup(bytes[..3]) + Encode(bytes[3..])
  }

  // ---------------------------------------------------------------- the encoder

  method EncodeBlock(input: array<Byte>, out: array<char>, len: nat)
    requires input.Length == 3 && out.Length == 4 && 1 <= len <= 3
    requires forall k :: len <= k < 3 ==> input[k] == 0
    modifies out
    ensures out[..] == EncodeGroup(input[..len])
  {
    hide Sextets, Symbol;
    SextetsOf(input[0], input[1], input[2]);
    out[0] := Symbol(input[0] / 4);
    out[1] := Symbol(input[0] % 4 * 16 + input[1] / 16);
    out[2] := if len > 1 then Symbol(input[1] % 16 * 4 + input[2] / 64) else '=';
    out[3] := if len > 2 then Symbol(input[2] % 64) else '=';
  }

  /** Fills a block with up to three bytes; behind the end of the string it stays on the terminator. */
  method ReadBlock(instr: array<Byte>, start: nat, input: array<Byte>, ghost s: seq<Byte>) returns (p: nat, len: nat)
    requires input.Length == 3 && input != instr && s == Terminated(instr[..], 0) && start <= |s| < instr.Length
    modifies input
    ensures len == (if |s| - start < 3 then |s| - start else 3) && p == start + len
    ensures input[..len] == s[start..p] && forall k :: len <= k < 3 ==> input[k] == 0
  {
    p, len := start, 0;
    var i := 0;
    while i < 3
      invariant i <= 3 && p == start + len <= |s| && len == if |s| - start < i then |s| - start else i
      invariant forall k :: 0 <= k < len ==> input[k] == s[start + k]
      invariant forall k :: len <= k < i ==> input[k] == 0
    {
      assert instr[p] == instr[..][p] && (p < |s| ==> instr[p] == s[p] != 0);
      input[i] := instr[p];
      if input[i] != 0 {
        len, p := len + 1, p + 1;
      }
      i := i + 1;
    }
  }

  /** One round of the encoder's loop. */
  method EncodeNext(instr: array<Byte>, p: nat, input: array<Byte>, out: array<char>, outstr: array<char>, o: nat,
                    ghost s: seq<Byte>)
    returns (q: nat, o': nat)
    requires input.Length == 3 && out.Length == 4 && input != instr && out != outstr
    requires s == Terminated(instr[..], 0) && p < |s| < instr.Length && o + 4 <= outstr.Length
    modifies input, out, outstr
    ensures o' == o + 4 && p < q <= |s| && q - p == (if |s| - p < 3 then |s| - p else 3)
    ensures outstr[..o'] == old(outstr[..o]) + EncodeGroup(s[p..q]) && outstr[o'..] == old(outstr[o'..])
  {
    hide EncodeGroup, Terminated;
    var len;
    q, len := ReadBlock(instr, p, input, s);
    o' := o;
    if len > 0 {
      EncodeBlock(input, out, len);
      WriteOut(outstr, o, out);
      o' := o + 4;
    }
  }

  /** base64_encode_string: the encoding of the C string, without a terminator. */
  method EncodeString(instr: array<Byte>, outstr: array<char>)
    requires |Terminated(instr[..], 0)| < instr.Length
    requires |Encode(Terminated(instr[..], 0))| <= outstr.Length
    modifies outstr
    ensures var e := Encode(Terminated(instr[..], 0));
            outstr[..] == e + old(outstr[|e|..])
  {
    hide EncodeGroup, Encode, Terminated;
    var input, out := new Byte[3], new char[4];
    var p: nat, o: nat := 0, 0;
    ghost var s := Terminated(instr[..], 0);
    assert s[0..] == s;
    while instr[p] != 0
      invariant p <= |s| && s == Terminated(instr[..], 0)
      invariant o + |Encode(s[p..])| == |Encode(s)| && outstr[..o] + Encode(s[p..]) == Encode(s)
      invariant outstr[o..] == old(outstr[o..])
      decreases |s| - p
    {
      var q;
      ghost var before := outstr[..o];
      EncodeStep(s, p, if |s| - p < 3 then |s| - p else 3);
      q, o := EncodeNext(instr, p, input, out, outstr, o, s);
      Assoc(before, EncodeGroup(s[p..q]), Encode(s[q..]));
      p := q;
    }
    NothingToEncode();
    assert p == |s| && s[p..] == [];
    assert outstr[..] == outstr[..o] + outstr[o..];
  }

  lemma NothingToEncode()
    ensures Encode([]) == ""
  {
  }

  /** Copies a block to the output. */
  method WriteOut<T>(outstr: array<T>, o: nat, out: array<T>)
    requires o + out.Length <= outstr.Length && out != outstr
    modifies outstr
    ensures outstr[..o + out.Length] == old(outstr[..o]) + out[..]
    ensures outstr[o + out.Length..] == old(outstr[o + out.Length..])
  {
    forall k | 0 <= k < out.Length {
      outstr[o + k] := out[k];
    }
  }

  lemma EncodeStep(s: seq<Byte>, p: nat, len: nat)
    requires p < |s| && len == if |s| - p < 3 then |s| - p else 3
    ensures Encode(s[p..]) == EncodeGroup(s[p..p + len]) + Encode(s[p + len..])
  {
    assert s[p..][..len] == s[p..p + len] && s[p..][len..] == s[p + len..];
    if |s| - p <= 3 {
      assert s[p..p + len] == s[p..] && s[p + len..] == [];
    }
  }

  // ---------------------------------------------------------------- the decoder

  /** What the decoder's table says of a character: one more than its sextet, zero if it has none. */
  function Lookup(c: char): (v: nat)
    ensures v <= 64
  {
    if c < 43 as char || c > 122 as char then 0
    else
      LookupInRange(c);
      var d := CD64[c as int - 43];
      if d == '$' then 0 else d as int - 61
  }

  /** The table, range by range. */
  lemma LookupInRange(c: char)
    requires 43 <= c as int <= 122
    ensures var d := CD64[c as int - 43];
            (d == '$' || 62 <= d as int <= 125)
            && ('A' <= c <= 'Z' ==> d == '>' + (c - 'A'))
            && ('a' <= c <= 'z' ==> d == 'X' + (c - 'a'))
            && ('0' <= c <= '9' ==> d == 'r' + (c - '0'))
            && (c == '+' ==> d == '|') && (c == '/' ==> d == '}') && (c == '=' ==> d == '$')
  {
    var i := c as int - 43;
    if i < 22 {
      Digits(i);
      assert CD64[i] == CD64_0[i];
    } else if i < 48 {
      UpperCase(i - 22);
      assert CD64[i] == CD64_1[i - 22];
    } else if i < 54 {
      Gap(i - 48);
      assert CD64[i] == CD64_2[i - 48];
    } else {
      LowerCase(i - 54);
      assert CD64[i] == CD64_3[i - 54];
    }
  }

  lemma Digits(i: nat)
    requires i < 22
    ensures CD64_0[i] == if i == 0 then '|' else if i == 4 then '}' else if 5 <= i < 15 then 'r' + (i - 5) as char else '$'
  {
  }

  lemma UpperCase(i: nat)
    requires i < 26
    ensures CD64_1[i] == '>' + i as char
  {
  }

  lemma Gap(i: nat)
    requires i < 6
    ensures CD64_2[i] == '$'
  {
  }

  lemma LowerCase(i: nat)
    requires i < 26
    ensures CD64_3[i] == 'X' + i as char
  {
  }

  lemma SymbolInRange(q: Sextet)
    ensures q < 26 ==> Symbol(q) == 'A' + q as char
    ensures 26 <= q < 52 ==> Symbol(q) == 'a' + (q - 26) as char
    ensures 52 <= q < 62 ==> Symbol(q) == '0' + (q - 52) as char
    ensures q == 62 ==> Symbol(q) == '+'
    ensures q == 63 ==> Symbol(q) == '/'
  {
    if q < 26 {
      assert CB64[q] == CB64_0[q];
    } else if q < 52 {
      assert CB64[q] == CB64_1[q - 26];
    } else {
      assert CB64[q] == CB64_2[q - 52];
    }
  }

  /** Skips to the next character that has a sextet: its table value (0 at the end), and the rest. */
  function NextSymbol(t: string): (r: (nat, string))
    ensures r.0 <= 64 && |r.1| <= |t| && (t != "" ==> |r.1| < |t|) && (r.0 == 0 ==> r.1 == "")
  {
    if t == "" then (0, "")
    else if Lookup(t[0]) != 0 then (Lookup(t[0]), t[1..])
    else NextSymbol(t[1..])
  }

  /** The sextets of a block of at most `n` symbols. A symbol that ends the text is not counted. */
  function ReadSymbols(t: string, n: nat): (r: (seq<Sextet>, string))
    ensures |r.0| <= n && |r.1| <= |t| && (t != "" && n > 0 ==> |r.1| < |t|)
    decreases n
  {
    if n == 0 || t == "" then ([], t)
    else
      var (v, rest) := NextSymbol(t);
      if rest == "" then ([], rest)
      else
        var (more, rest') := ReadSymbols(rest, n - 1);
        ([v - 1] + more, rest')
  }

  /** The three bytes of four sextets. */
  function Bytes(q0: Sextet, q1: Sextet, q2: Sextet, q3: Sextet): (bytes: seq<Byte>)
    ensures |bytes| == 3
  {
    var (x0: int, x1: int, x2: int, x3: int) := (q0, q1, q2, q3);
    [x0 * 4 + x1 / 16, x1 % 16 * 16 + x2 / 4, x2 % 4 * 64 + x3]
  }

  /** A block gives one byte fewer than it has sextets. */
  function DecodeBlock(q: seq<Sextet>): (bytes: seq<Byte>)
    requires |q| <= 4
    ensures |bytes| == if q == [] then 0 else |q| - 1
  {
    if q == [] then []
    else Bytes(q[0], if |q| > 1 then q[1] else 0, if |q| > 2 then q[2] else 0, if |q| > 3 then q[3] else 0)[..|q| - 1]
  }

  function Decode(t: string): (bytes: seq<Byte>)
    decreases |t|
  {
    if t == "" then []
    else
      var (q, rest) := ReadSymbols(t, 4);
      DecodeBlock(q) + Decode(rest)
  }

  method SkipToSymbol(instr: array<char>, start: nat, ghost t: string) returns (p: nat, v: nat)
    requires t == CString(instr[..]) && start < |t| < instr.Length
    ensures start < p <= |t| && (v, t[p..]) == NextSymbol(t[start..])
  {
    p, v := start, 0;
    assert instr[p] == t[p];
    while instr[p] != '\0' && v == 0
      invariant start <= p <= |t| && (p == start ==> v == 0)
      invariant if v == 0 then NextSymbol(t[p..]) == NextSymbol(t[start..]) else (v, t[p..]) == NextSymbol(t[start..])
      decreases |t| - p
    {
      assert instr[p] == instr[..][p] == t[p] && t[p..][1..] == t[p + 1..];
      v := Lookup(instr[p]);
      p := p + 1;
    }
    assert p < |t| ==> instr[p] == instr[..][p] == t[p];
  }

  lemma ReadOneSymbol(t: string, n: nat)
    requires t != "" && n > 0
    ensures var (v, rest) := NextSymbol(t);
            ReadSymbols(t, n)
            == if rest == "" then ([], "") else ([v - 1] + ReadSymbols(rest, n - 1).0, ReadSymbols(rest, n - 1).1)
    ensures NextSymbol(t).1 != "" ==> NextSymbol(t).0 > 0
  {
    hide Lookup, NextSymbol;
  }

  lemma ReadNoSymbols(t: string, n: nat)
    ensures n == 0 || t == "" ==> ReadSymbols(t, n) == ([], t)
  {
  }

  /** Reads a block; only the first `len` entries of `input` count. */
  method ReadGroup(instr: array<char>, start: nat, input: array<Sextet>, ghost t: string) returns (p: nat, len: nat)
    requires t == CString(instr[..]) && start < |t| < instr.Length && input.Length == 4
    modifies input
    ensures start < p <= |t| && len <= 4 && (input[..len], t[p..]) == ReadSymbols(t[start..], 4)
  {
    hide Terminated, NextSymbol, ReadSymbols;
    p, len := start, 0;
    var i := 0;
    ghost var goal := ReadSymbols(t[start..], 4);
    assert input[..0] + goal.0 == goal.0;
    assert instr[p] == instr[..][p] == t[p];
    while i < 4 && instr[p] != '\0'
      invariant i <= 4 && start <= p <= |t| && (p < |t| ==> len == i) && len <= i && (i == 0 ==> p == start) && (i > 0 ==> p > start)
      invariant goal == (input[..len] + ReadSymbols(t[p..], 4 - i).0, ReadSymbols(t[p..], 4 - i).1)
    {
      assert instr[p] == instr[..][p];
      ReadOneSymbol(t[p..], 4 - i);
      var v;
      ghost var before := input[..len];
      p, v := SkipToSymbol(instr, p, t);
      assert p < |t| ==> instr[p] == instr[..][p] == t[p];
      if instr[p] != '\0' {
        len := len + 1;
        if v != 0 {
          input[i] := v - 1;
        }
        assert input[..len] == before + [v - 1];
        Assoc(before, [v - 1], ReadSymbols(t[p..], 3 - i).0);
      } else {
        input[i] := 0;
        assert input[..len] == before;
        assert t[p..] == "";
        ReadNoSymbols(t[p..], 3 - i);
      }
      i := i + 1;
    }
    assert p == |t| ==> t[p..] == "";
    ReadNoSymbols(t[p..], 4 - i);
    assert input[..len] + [] == input[..len];
  }

  /** One round of the decoder's loop. */
  method DecodeNext(instr: array<char>, p: nat, input: array<Sextet>, outstr: array<Byte>, o: nat, ghost t: string)
    returns (q: nat, o': nat)
    requires t == CString(instr[..]) && p < |t| < instr.Length && input.Length == 4
    requires o + |DecodeBlock(ReadSymbols(t[p..], 4).0)| <= outstr.Length
    modifies input, outstr
    ensures p < q <= |t| && t[q..] == ReadSymbols(t[p..], 4).1
    ensures o' == o + |DecodeBlock(ReadSymbols(t[p..], 4).0)|
    ensures outstr[..o'] == old(outstr[..o]) + DecodeBlock(ReadSymbols(t[p..], 4).0)
    ensures outstr[o'..] == old(outstr[o'..])
  {
    hide Terminated, DecodeBlock, ReadSymbols;
    var len;
    q, len := ReadGroup(instr, p, input, t);
    o' := o;
    if len > 0 {
      var out := DecodeToArray(input, len);
      WriteOut(outstr, o, out);
      o' := o + out.Length;
    } else {
      NoSymbols();
      assert input[..0] == [];
    }
  }

  lemma DecodeStep(t: string)
    requires t != ""
    ensures Decode(t) == DecodeBlock(ReadSymbols(t, 4).0) + Decode(ReadSymbols(t, 4).1)
  {
    hide DecodeBlock, ReadSymbols;
  }

  lemma NothingToDecode()
    ensures Decode("") == []
  {
  }

  /** base64_decode_string, without a terminator. */
  method DecodeString(instr: array<char>, outstr: array<Byte>)
    requires |CString(instr[..])| < instr.Length
    requires |Decode(CString(instr[..]))| <= outstr.Length
    modifies outstr
    ensures var d := Decode(CString(instr[..]));
            outstr[..] == d + old(outstr[|d|..])
  {
    hide Terminated, DecodeBlock, ReadSymbols, Decode;
    var input := new Sextet[4](_ => 0);
    var p: nat, o: nat := 0, 0;
    ghost var t := CString(instr[..]);
    assert t[0..] == t;
    while instr[p] != '\0'
      invariant p <= |t| && t == CString(instr[..])
      invariant o + |Decode(t[p..])| == |Decode(t)| && outstr[..o] + Decode(t[p..]) == Decode(t)
      invariant outstr[o..] == old(outstr[o..])
      decreases |t| - p
    {
      assert instr[p] == instr[..][p] && p < |t|;
      var q;
      ghost var before := outstr[..o];
      DecodeStep(t[p..]);
      q, o := DecodeNext(instr, p, input, outstr, o, t);
      Assoc(before, DecodeBlock(ReadSymbols(t[p..], 4).0), Decode(t[q..]));
      p := q;
    }
    NothingToDecode();
    assert p == |t| && t[p..] == "";
    assert outstr[..] == outstr[..o] + outstr[o..];
  }

  lemma NoSymbols()
    ensures DecodeBlock([]) == []
  {
  }

  /** _decodeblock, and the bytes of it that are used. */
  method DecodeToArray(input: array<Sextet>, len: nat) returns (out: array<Byte>)
    requires input.Length == 4 && 1 <= len <= 4
    ensures fresh(out) && out.Length == len - 1 && out[..] == DecodeBlock(input[..len])
  {
    ShiftedOut(input[1], input[2]);
    var bytes := new Byte[3];
    var (x0: int, x1: int, x2: int, x3: int) := (input[0], input[1], input[2], input[3]);
    bytes[0] := x0 * 4 + x1 / 16;
    bytes[1] := x1 * 16 % 256 + x2 / 4;
    bytes[2] := x2 * 64 % 256 + x3;
    assert bytes[..] == Bytes(input[0], input[1], input[2], input[3]);
    out := new Byte[len - 1](k requires 0 <= k < len - 1 reads bytes => bytes[k]);
    assert out[..] == bytes[..len - 1];
    UsedBytes(input[..]);
    assert input[..][..len] == input[..len];
  }

  lemma ShiftedOut(q1: Sextet, q2: Sextet)
    ensures (q1 as int) * 16 % 256 == q1 % 16 * 16 && (q2 as int) * 64 % 256 == q2 % 4 * 64
  {
  }

  /** Bytes that depend on missing sextets are not used. */
  lemma UsedBytes(q: seq<Sextet>)
    requires |q| == 4
    ensures forall len :: 1 <= len <= 4 ==> DecodeBlock(q[..len]) == Bytes(q[0], q[1], q[2], q[3])[..len - 1]
  {
  }

  // ---------------------------------------------------------------- round trip

  lemma LookupBack(q: Sextet)
    ensures Lookup(Symbol(q)) == q + 1 && Symbol(q) != '=' && Symbol(q) != '\0'
  {
    hide Symbol, Lookup;
    SymbolInRange(q);
    LookupOf(Symbol(q));
  }

  /** The table's value for each character of the alphabet. */
  lemma LookupOf(c: char)
    ensures 'A' <= c <= 'Z' ==> Lookup(c) == (c - 'A') as nat + 1
    ensures 'a' <= c <= 'z' ==> Lookup(c) == (c - 'a') as nat + 27
    ensures '0' <= c <= '9' ==> Lookup(c) == (c - '0') as nat + 53
    ensures c == '+' ==> Lookup(c) == 63
    ensures c == '/' ==> Lookup(c) == 64
  {
    if 43 <= c as int <= 122 {
      LookupInRange(c);
    }
  }

  lemma NextOf(q: Sextet, rest: string)
    ensures NextSymbol([Symbol(q)] + rest) == (q + 1, rest)
  {
    LookupBack(q);
    assert ([Symbol(q)] + rest)[1..] == rest;
  }

  /** Symbols that do not end the text are read back. */
  lemma {:induction false} SymbolsBack(q: seq<Sextet>, rest: string, n: nat)
    requires |q| <= n && rest != ""
    ensures ReadSymbols(Symbols(q) + rest, n) == (q + ReadSymbols(rest, n - |q|).0, ReadSymbols(rest, n - |q|).1)
    decreases |q|
  {
    hide NextSymbol, ReadSymbols, Symbol;
    var t := Symbols(q) + rest;
    if q == [] {
      assert t == rest && [] + ReadSymbols(rest, n).0 == ReadSymbols(rest, n).0;
    } else {
      var tail := Symbols(q[1..]) + rest;
      assert t == [Symbol(q[0])] + tail;
      NextOf(q[0], tail);
      ReadOneSymbol(t, n);
      SymbolsBack(q[1..], rest, n - 1);
      assert q == [q[0]] + q[1..];
      assert [q[0]] + (q[1..] + ReadSymbols(rest, n - |q|).0) == q + ReadSymbols(rest, n - |q|).0;
    }
  }

  function Symbols(q: seq<Sextet>): (s: string)
    ensures |s| == |q|
  {
    if q == [] then "" else [Symbol(q[0])] + Symbols(q[1..])
  }

  /** The sextets of a group that carry its bytes: one more than bytes. */
  function Used(group: seq<Byte>): (q: seq<Sextet>)
    requires 1 <= |group| <= 3
    ensures |q| == |group| + 1
  {
    Sextets(Joined(group[0], if |group| > 1 then group[1] else 0, if |group| > 2 then group[2] else 0))[..|group| + 1]
  }

  lemma GroupText(group: seq<Byte>)
    requires 1 <= |group| <= 3
    ensures EncodeGroup(group) == Symbols(Used(group)) + (if |group| == 1 then "==" else if |group| == 2 then "=" else "")
  {
    hide Symbol, Sextets;
    var u := Used(group);
    SymbolsFrom(u, 0);
    SymbolsFrom(u, 1);
    SymbolsFrom(u, 2);
    if |u| > 2 {
      SymbolsFrom(u, 3);
    }
    if |u| > 3 {
      SymbolsFrom(u, 4);
    }
    assert u[0..] == u;
  }

  lemma SymbolsFrom(u: seq<Sextet>, k: nat)
    requires k <= |u|
    ensures Symbols(u[k..]) == if k == |u| then "" else [Symbol(u[k])] + Symbols(u[k + 1..])
  {
    assert k < |u| ==> u[k..][1..] == u[k + 1..];
  }

  /** All sextets of a group together give back its bytes; without the last one, its last byte is missing. */
  lemma GroupBack(group: seq<Byte>)
    requires 1 <= |group| <= 3
    ensures DecodeBlock(Used(group)) == group
    ensures DecodeBlock(Used(group)[..|group|]) == group[..|group| - 1]
  {
    var (b0, b1, b2) := (group[0], if |group| > 1 then group[1] else 0, if |group| > 2 then group[2] else 0);
    SextetsOf(b0, b1, b2);
    SextetBytes(b0, b1, b2);
    var q := Sextets(Joined(b0, b1, b2));
    UsedBytes(q);
    assert Used(group)[..|group|] == q[..|group|];
    assert Bytes(q[0], q[1], q[2], q[3])[..|group|] == group;
  }

  lemma SextetBytes(b0: Byte, b1: Byte, b2: Byte)
    ensures Bytes(b0 / 4, b0 % 4 * 16 + b1 / 16, b1 % 16 * 4 + b2 / 64, b2 % 64) == [b0, b1, b2]
  {
    FirstByte(b0, b1);
    SecondByte(b0, b1, b2);
    ThirdByte(b1, b2);
  }

  lemma FirstByte(b0: Byte, b1: Byte)
    ensures b0 / 4 * 4 + (b0 % 4 * 16 + b1 / 16) / 16 == b0
  {
  }

  lemma SecondByte(b0: Byte, b1: Byte, b2: Byte)
    ensures (b0 % 4 * 16 + b1 / 16) % 16 * 16 + (b1 % 16 * 4 + b2 / 64) / 4 == b1
  {
  }

  lemma ThirdByte(b1: Byte, b2: Byte)
    ensures (b1 % 16 * 4 + b2 / 64) % 4 * 64 + b2 % 64 == b2
  {
  }

  /** The bytes without the last one if they fill their groups of three. */
  function Trimmed(bytes: seq<Byte>): seq<Byte> {
    if bytes != [] && |bytes| % 3 == 0 then bytes[..|bytes| - 1] else bytes
  }

  /** Decoding what was encoded: the last byte is lost when there is no padding. */
  lemma {:induction false} DecodeEncoded(bytes: seq<Byte>)
    ensures Decode(Encode(bytes)) == Trimmed(bytes)
    decreases |bytes|
  {
    hide EncodeGroup, DecodeBlock, ReadSymbols, Symbols, Used;
    if bytes == [] {
    } else if |bytes| > 3 {
      var group, rest := bytes[..3], bytes[3..];
      GroupText(group);
      GroupBack(group);
      assert Encode(bytes) == Symbols(Used(group)) + Encode(rest);
      SymbolsBack(Used(group), Encode(rest), 4);
      ReadNoSymbols(Encode(rest), 0);
      assert Used(group) + [] == Used(group);
      DecodeEncoded(rest);
      assert bytes == group + rest;
      assert Trimmed(bytes) == group + Trimmed(rest);
    } else {
      LastGroup(bytes);
    }
  }

  lemma LastGroup(group: seq<Byte>)
    requires 1 <= |group| <= 3
    ensures Decode(EncodeGroup(group)) == Trimmed(group)
  {
    hide Used, Sextets, Symbol, Bytes, EncodeGroup, ReadSymbols, DecodeBlock;
    GroupText(group);
    GroupBack(group);
    var u := Used(group);
    var padding := if |group| == 1 then "==" else if |group| == 2 then "=" else "";
    if |group| < 3 {
      PaddingIsEnd(padding, 4 - |u|);
      SymbolsBack(u, padding, 4);
      assert u + [] == u;
      assert Decode(EncodeGroup(group)) == DecodeBlock(u) + Decode("");
    } else {
      var last := [Symbol(u[3])];
      SymbolsSplit(u);
      assert Symbols(u) + "" == Symbols(u);
      SymbolsBack(u[..3], last, 4);
      NextOf(u[3], "");
      assert last + "" == last;
      ReadOneSymbol(last, 1);
      assert u[..3] + [] == u[..3];
      assert Decode(EncodeGroup(group)) == DecodeBlock(u[..3]) + Decode("");
    }
  }

  lemma {:induction false} SymbolsSplit(u: seq<Sextet>)
    requires |u| > 0
    ensures Symbols(u) == Symbols(u[..|u| - 1]) + [Symbol(u[|u| - 1])]
  {
    if |u| > 1 {
      SymbolsSplit(u[1..]);
      assert u[1..][..|u| - 2] == u[..|u| - 1][1..];
    }
  }

  lemma PaddingIsEnd(padding: string, n: nat)
    requires (padding == "=" || padding == "==") && n > 0
    ensures ReadSymbols(padding, n) == ([], "")
  {
    LookupInRange('=');
    assert padding[1..] == "" || padding[1..] == "=";
    assert "="[1..] == "";
    assert NextSymbol(padding[1..]) == (0, "");
  }

  /** The round trip holds if and only if the length is zero or not divisible by three. */
  lemma RoundTrip(bytes: seq<Byte>)
    ensures Decode(Encode(bytes)) == bytes <==> bytes == [] || |bytes| % 3 != 0
  {
    hide Encode, Decode;
    DecodeEncoded(bytes);
  }

  // ---------------------------------------------------------------- any text

  ghost predicate InAlphabet(c: char) {
    exists q: Sextet :: Symbol(q) == c
  }

  lemma LookupOther(c: char)
    requires !('A' <= c <= 'Z' || 'a' <= c <= 'z' || '0' <= c <= '9' || c == '+' || c == '/')
    ensures Lookup(c) == 0
  {
    if 43 <= c as int <= 122 {
      var i := c as int - 43;
      if i < 22 {
        Digits(i);
        assert CD64[i] == CD64_0[i];
      } else {
        Gap(i - 48);
        assert CD64[i] == CD64_2[i - 48];
      }
    }
  }

  lemma SymbolsOf(c: char)
    ensures 'A' <= c <= 'Z' ==> Symbol((c - 'A') as int) == c
    ensures 'a' <= c <= 'z' ==> Symbol((c - 'a') as int + 26) == c
    ensures '0' <= c <= '9' ==> Symbol((c - '0') as int + 52) == c
    ensures c == '+' ==> Symbol(62) == c
    ensures c == '/' ==> Symbol(63) == c
  {
    hide Symbol;
    if 'A' <= c <= 'Z' {
      SymbolInRange((c - 'A') as int);
    } else if 'a' <= c <= 'z' {
      SymbolInRange((c - 'a') as int + 26);
    } else if '0' <= c <= '9' {
      SymbolInRange((c - '0') as int + 52);
    }
    SymbolInRange(62);
    SymbolInRange(63);
  }

  /** The decoder's table says of every character whether and where it is in the alphabet. */
  lemma LookupMeans(c: char)
    ensures Lookup(c) == 0 <==> !InAlphabet(c)
    ensures Lookup(c) > 0 ==> Symbol(Lookup(c) - 1) == c
  {
    hide Symbol, Lookup;
    LookupOf(c);
    SymbolsOf(c);
    if 'A' <= c <= 'Z' || 'a' <= c <= 'z' || '0' <= c <= '9' || c == '+' || c == '/' {
      assert Symbol(Lookup(c) - 1) == c;
    } else {
      LookupOther(c);
    }
    if q: Sextet :| Symbol(q) == c {
      LookupBack(q);
    }
  }

  /** The sextets of the characters in the alphabet; all others do not count. */
  function SextetsIn(t: string): seq<Sextet> {
    if t == "" then [] else (if Lookup(t[0]) == 0 then [] else [Lookup(t[0]) - 1]) + SextetsIn(t[1..])
  }

  /** The last character never counts. */
  function Counted(t: string): seq<Sextet> {
    if t == "" then [] else SextetsIn(t[..|t| - 1])
  }

  lemma {:induction false} NextCounted(t: string)
    requires t != ""
    ensures var (v, rest) := NextSymbol(t);
            if Counted(t) == [] then rest == ""
            else rest != "" && v > 0 && Counted(t) == [v - 1] + Counted(rest)
    decreases |t|
  {
    hide Lookup;
    if |t| > 1 {
      assert t[..|t| - 1][1..] == t[1..][..|t| - 2] && t[..|t| - 1][0] == t[0];
      if Lookup(t[0]) == 0 {
        NextCounted(t[1..]);
      }
    } else {
      assert t[1..] == "" && NextSymbol("").1 == "";
    }
  }

  lemma {:induction false} ReadCounted(t: string, n: nat)
    ensures var (q, rest) := ReadSymbols(t, n);
            var m := if |Counted(t)| < n then |Counted(t)| else n;
            q == Counted(t)[..m] && Counted(rest) == Counted(t)[m..]
    decreases n
  {
    hide NextSymbol, Counted;
    if n == 0 || t == "" {
      ReadNoSymbols(t, n);
      NothingCounted();
    } else {
      ReadOneSymbol(t, n);
      NextCounted(t);
      NothingCounted();
      var (v, rest) := NextSymbol(t);
      if rest != "" {
        ReadCounted(rest, n - 1);
        var m := if |Counted(t)| < n then |Counted(t)| else n;
        assert Counted(t)[..m] == [v - 1] + Counted(rest)[..m - 1] && Counted(t)[m..] == Counted(rest)[m - 1..];
      }
    }
  }

  lemma NothingCounted()
    ensures Counted("") == []
  {
  }

  /** The bytes of sextets in blocks of four. */
  function Blocks(q: seq<Sextet>): seq<Byte>
    decreases |q|
  {
    if q == [] then [] else if |q| < 4 then DecodeBlock(q) else DecodeBlock(q[..4]) + Blocks(q[4..])
  }

  /**
   Decoding any text: only the characters of the alphabet matter, in blocks of four; what is
   between or behind them, line breaks for example, does not, but for its last character.
   */
  lemma {:induction false} DecodeMeans(t: string)
    ensures Decode(t) == Blocks(Counted(t))
    decreases |t|
  {
    hide ReadSymbols, DecodeBlock, Counted;
    if t == "" {
      NothingToDecode();
      NothingCounted();
    } else {
      DecodeStep(t);
      ReadCounted(t, 4);
      var (q, rest) := ReadSymbols(t, 4);
      DecodeMeans(rest);
      NoSymbols();
      if |Counted(t)| < 4 {
        assert q == Counted(t) && Counted(rest) == [];
        assert DecodeBlock(q) + [] == DecodeBlock(q);
      }
    }
  }

  lemma {:induction false} SextetsJoin(a: string, b: string)
    ensures SextetsIn(a + b) == SextetsIn(a) + SextetsIn(b)
  {
    hide Lookup;
    if a == "" {
      assert a + b == b;
    } else {
      assert (a + b)[1..] == a[1..] + b && (a + b)[0] == a[0];
      SextetsJoin(a[1..], b);
    }
  }

  /** So an encoding with line breaks in it, and one behind it, gives back all its bytes. */
  lemma BrokenLines(bytes: seq<Byte>, t: string, last: char)
    requires SextetsIn(t) == SextetsIn(Encode(bytes)) && !InAlphabet(last)
    ensures Decode(t + [last]) == bytes
  {
    hide Lookup, Decode, Encode, Blocks, InAlphabet;
    LookupMeans('=');
    DecodeMeans(t + [last]);
    assert (t + [last])[..|t|] == t;
    EncodedSextets(bytes);
  }

  lemma {:induction false} SymbolSextets(q: seq<Sextet>)
    ensures SextetsIn(Symbols(q)) == q
  {
    hide Lookup, Symbol;
    if q != [] {
      LookupBack(q[0]);
      assert Symbols(q)[1..] == Symbols(q[1..]) && q == [q[0]] + q[1..];
      SymbolSextets(q[1..]);
    }
  }

  lemma PaddingHasNone()
    ensures SextetsIn("") == [] && SextetsIn("=") == [] && SextetsIn("==") == []
  {
    LookupInRange('=');
    assert "=="[1..] == "=" && "="[1..] == "";
  }

  lemma GroupSextets(group: seq<Byte>)
    requires 1 <= |group| <= 3
    ensures SextetsIn(EncodeGroup(group)) == Used(group)
  {
    hide Lookup, Symbol, Used, SextetsIn;
    GroupText(group);
    var padding := if |group| == 1 then "==" else if |group| == 2 then "=" else "";
    SextetsJoin(Symbols(Used(group)), padding);
    SymbolSextets(Used(group));
    PaddingHasNone();
    assert Used(group) + [] == Used(group);
  }

  lemma {:induction false} EncodedSextets(bytes: seq<Byte>)
    ensures Blocks(SextetsIn(Encode(bytes))) == bytes
    decreases |bytes|
  {
    hide Lookup, EncodeGroup, DecodeBlock, Used, SextetsIn;
    if bytes == [] {
      PaddingHasNone();
    } else if |bytes| > 3 {
      var group, rest := bytes[..3], bytes[3..];
      GroupSextets(group);
      GroupBack(group);
      SextetsJoin(EncodeGroup(group), Encode(rest));
      EncodedSextets(rest);
      assert (Used(group) + SextetsIn(Encode(rest)))[..4] == Used(group);
      assert (Used(group) + SextetsIn(Encode(rest)))[4..] == SextetsIn(Encode(rest));
      assert bytes == group + rest;
    } else {
      GroupSextets(bytes);
      GroupBack(bytes);
      var q := Used(bytes);
      if |q| == 4 {
        assert q[..4] == q && q[4..] == [] && DecodeBlock(q) + [] == DecodeBlock(q);
      }
    }
  }
}
