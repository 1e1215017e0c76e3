/**
 The chunked transfer coding of RFC 2616, section 3.6.1: the writer, the stateful
 reader, and what the reader makes of what the writer wrote.
 */
module Chunked {
  import opened Lists
  import opened NumberTexts
  import opened Sockets
  import opened Text

  // ---------------------------------------------------------------- writing

  /* What http_output_stream_flush sends. */
  const LAST_CHUNK := "0\r\n\r\n"

  /** One call of http_output_stream_write. */
  function EncodeWrite(bytes: string): string {
    PrintNat(|bytes|, 16) + CRLF + bytes + CRLF
  }

  function EncodeWrites(writes: seq<string>): string {
    if writes == [] then "" else EncodeWrite(writes[0]) + EncodeWrites(writes[1..])
  }

  class OutputStream {
    const sock: Socket
    const chunked: bool

    constructor (sock: Socket, chunked: bool)
      ensures this.sock == sock && this.chunked == chunked
    {
      this.sock, this.chunked := sock, chunked;
    }

    method Write(bytes: string)
      modifies sock
      ensures sock.sent == old(sock.sent) + if chunked then EncodeWrite(bytes) else bytes
      ensures sock.inbox == old(sock.inbox)
    {
      if chunked {
        sock.Send(PrintNat(|bytes|, 16) + CRLF);
      }
      if |bytes| > 0 {
        sock.Send(bytes);
      }
      if chunked {
        sock.Send(CRLF);
      }
    }

    method Flush()
      modifies sock
      ensures sock.sent == old(sock.sent) + if chunked then LAST_CHUNK else ""
      ensures sock.inbox == old(sock.inbox)
    {
      if chunked {
        sock.Send(LAST_CHUNK);
      }
    }
  }

  // ---------------------------------------------------------------- reading

  /* chunk[25]: the last index at which a byte of the size line may be stored. */
  const MAX_LINE := 24
  /* Bytes tolerated before the line feed behind a chunk. */
  const MAX_SKIP := 100

  /** Reads a chunk-size line; `line` is what has been stored of it. The rest of the inbox, and the size. */
  function ReadSize(line: string, inbox: string): Option<(int, string)>
    decreases |inbox|
  {
    if inbox == "" then None
    else if inbox[0] == '\n' then Some((ToInt32(StrToL(CString(line), 16)), inbox[1..]))
    else if |line| == MAX_LINE then None
    else ReadSize(line + [if inbox[0] == '\r' || inbox[0] == ';' then '\0' else inbox[0]], inbox[1..])
  }

  /** Skips the rest of a line, but not more than `counter` bytes. */
  function SkipLine(inbox: string, counter: nat): Option<string>
    decreases |inbox|
  {
    if inbox == "" then None
    else if inbox[0] == '\n' then Some(inbox[1..])
    else if counter == 0 then None
    else SkipLine(inbox[1..], counter - 1)
  }

  /** chunk_size and received; both are -1 before the first chunk. */
  datatype InState = InState(chunkSize: int, received: int) {
    predicate Valid() {
      (chunkSize == -1 && received == -1) || 0 <= received <= chunkSize
    }

    /** How many of `size` bytes are taken from the unfinished chunk. */
    function Portion(size: nat): (k: nat)
      requires 0 <= received < chunkSize
      ensures k <= size && k <= chunkSize - received && (k == size || k == chunkSize - received)
    {
      if chunkSize - received < size then chunkSize - received else size
    }
  }

  const INITIAL := InState(-1, -1)

  /** The next chunk size, after the line end of the chunk before. */
  function NextChunk(first: bool, inbox: string): Option<(int, string)> {
    var start := if first then Some(inbox) else SkipLine(inbox, MAX_SKIP);
    if start.None? then None else ReadSize("", start.value)
  }

  /** The bytes of a read, behind those read before. */
  function Prepend(bytes: string, r: Option<(string, InState, string)>): Option<(string, InState, string)> {
    match r
    case None => None
    case Some((more, st, inbox)) => Some((bytes + more, st, inbox))
  }

  /** A read: the bytes, the state afterwards and the rest of the inbox; None is an error. */
  function ReadChunked(st: InState, inbox: string, size: nat): (r: Option<(string, InState, string)>)
    requires st.Valid()
    ensures r.Some? ==> r.value.1.Valid() && |r.value.0| <= size
    decreases size
  {
    if size == 0 then Some(("", st, inbox))
    else if st.received == st.chunkSize then
      var next := NextChunk(st.chunkSize == -1, inbox);
      if next.None? || next.value.0 < 0 then None
      else if next.value.0 == 0 then Some(("", InState(0, 0), next.value.1))
      else TakeChunk(InState(next.value.0, 0), next.value.1, size)
    else TakeChunk(st, inbox, size)
  }

  /** The part of a read that takes bytes from an unfinished chunk. */
  function TakeChunk(st: InState, inbox: string, size: nat): (r: Option<(string, InState, string)>)
    requires 0 <= st.received < st.chunkSize && 0 < size
    ensures r.Some? ==> r.value.1.Valid() && |r.value.0| <= size
    decreases size, 0
  {
    var k := st.Portion(size);
    if |inbox| < k then None
    else
      Prepend(inbox[..k], ReadChunked(InState(st.chunkSize, st.received + k), inbox[k..], size - k))
  }

  /**
   What http_input_stream_read returns: the number of bytes; or -1 for most errors, but for a
   negative chunk size that number.
   */
  function ReadCode(st: InState, inbox: string, size: nat): int
    requires st.Valid()
    decreases size
  {
    if size == 0 then 0
    else if st.received == st.chunkSize then
      var next := NextChunk(st.chunkSize == -1, inbox);
      if next.None? then -1
      else if next.value.0 <= 0 then next.value.0
      else TakeCode(InState(next.value.0, 0), next.value.1, size)
    else TakeCode(st, inbox, size)
  }

  function TakeCode(st: InState, inbox: string, size: nat): int
    requires 0 <= st.received < st.chunkSize && 0 < size
    decreases size, 0
  {
    var k := st.Portion(size);
    if |inbox| < k then -1
    else Behind(k, ReadCode(InState(st.chunkSize, st.received + k), inbox[k..], size - k))
  }

  /** What is returned when `n` bytes have been read before. */
  function Behind(n: nat, code: int): int {
    if code < 0 then code else n + code
  }

  // ---------------------------------------------------------------- negative chunk sizes

  /** A read fails if and only if it returns a negative number; otherwise it returns the number of bytes. */
  lemma {:induction false} CodeOfRead(st: InState, inbox: string, size: nat)
    requires st.Valid()
    ensures ReadChunked(st, inbox, size).None? <==> ReadCode(st, inbox, size) < 0
    ensures ReadChunked(st, inbox, size).Some? ==> ReadCode(st, inbox, size) == |ReadChunked(st, inbox, size).value.0|
    decreases size
  {
    hide NextChunk;
    if size > 0 {
      if st.received == st.chunkSize {
        var next := NextChunk(st.chunkSize == -1, inbox);
        if next.Some? && next.value.0 > 0 {
          CodeOfTake(InState(next.value.0, 0), next.value.1, size);
        }
      } else {
        CodeOfTake(st, inbox, size);
      }
    }
  }

  lemma {:induction false} CodeOfTake(st: InState, inbox: string, size: nat)
    requires 0 <= st.received < st.chunkSize && 0 < size
    ensures TakeChunk(st, inbox, size).None? <==> TakeCode(st, inbox, size) < 0
    ensures TakeChunk(st, inbox, size).Some? ==> TakeCode(st, inbox, size) == |TakeChunk(st, inbox, size).value.0|
    decreases size, 0
  {
    hide ReadChunked, ReadCode;
    var k := st.Portion(size);
    if |inbox| >= k {
      CodeOfRead(InState(st.chunkSize, st.received + k), inbox[k..], size - k);
    }
  }

  /** Behind `n` bytes a chunk size is expected, and `c` is found. */
  ghost predicate SizeBehind(st: InState, inbox: string, n: nat, c: int)
    requires st.Valid()
  {
    var r := ReadChunked(st, inbox, n);
    && r.Some? && |r.value.0| == n && r.value.1.received == r.value.1.chunkSize
    && var next := NextChunk(r.value.1.chunkSize == -1, r.value.2);
       next.Some? && next.value.0 == c
  }

  lemma SizeBehindNothing(st: InState, inbox: string, c: int)
    requires st.Valid()
    ensures SizeBehind(st, inbox, 0, c)
            <==> st.received == st.chunkSize && NextChunk(st.chunkSize == -1, inbox).Some?
                 && NextChunk(st.chunkSize == -1, inbox).value.0 == c
  {
    hide NextChunk;
  }

  /** The same behind `k` bytes of an unfinished chunk. */
  lemma SizeBehindChunk(st: InState, inbox: string, k: nat, n: nat, c: int)
    requires 0 <= st.received < st.chunkSize && 0 < k <= st.chunkSize - st.received && k <= |inbox|
    requires k < n ==> k == st.chunkSize - st.received
    requires k <= n
    ensures SizeBehind(st, inbox, n, c) <==> SizeBehind(InState(st.chunkSize, st.received + k), inbox[k..], n - k, c)
  {
    hide ReadChunked, NextChunk;
    var st' := InState(st.chunkSize, st.received + k);
    ReadTakes(st, inbox, n);
    var r := ReadChunked(st', inbox[k..], n - k);
    if r.Some? {
      assert |inbox[..k] + r.value.0| == k + |r.value.0|;
    }
  }

  lemma ReadTakes(st: InState, inbox: string, n: nat)
    requires 0 <= st.received < st.chunkSize && 0 < n
    ensures ReadChunked(st, inbox, n) == TakeChunk(st, inbox, n)
    ensures ReadCode(st, inbox, n) == TakeCode(st, inbox, n)
  {
  }
  /** Where a chunk size is expected: the chunk found, or nothing. */
  lemma SizeBehindStart(st: InState, inbox: string, n: nat, c: int)
    requires st.Valid() && st.received == st.chunkSize && c < 0
    ensures var next := NextChunk(st.chunkSize == -1, inbox);
            SizeBehind(st, inbox, n, c) <==>
              next.Some? && if next.value.0 == c then n == 0
                            else next.value.0 > 0 && SizeBehind(InState(next.value.0, 0), next.value.1, n, c)
  {
    hide NextChunk;
    if n > 0 {
      var next := NextChunk(st.chunkSize == -1, inbox);
      if next.Some? && next.value.0 > 0 {
        ReadTakes(InState(next.value.0, 0), next.value.1, n);
      }
    }
  }

  /** In an unfinished chunk, a chunk size is expected behind its last byte only. */
  lemma SizeBehindTake(st: InState, inbox: string, n: nat, c: int)
    requires 0 <= st.received < st.chunkSize
    ensures var remain := st.chunkSize - st.received;
            SizeBehind(st, inbox, n, c) <==>
              n >= remain && |inbox| >= remain && SizeBehind(InState(st.chunkSize, st.chunkSize), inbox[remain..], n - remain, c)
  {
    hide ReadChunked, NextChunk, SizeBehind;
    var remain := st.chunkSize - st.received;
    if n == 0 {
      SizeBehindNothing(st, inbox, c);
    } else if |inbox| < st.Portion(n) {
      TooShort(st, inbox, n, c);
    } else if n < remain {
      SizeBehindChunk(st, inbox, n, n, c);
      SizeBehindNothing(InState(st.chunkSize, st.received + n), inbox[n..], c);
    } else {
      SizeBehindChunk(st, inbox, remain, n, c);
    }
  }

  lemma TooShort(st: InState, inbox: string, n: nat, c: int)
    requires 0 <= st.received < st.chunkSize && 0 < n && |inbox| < st.Portion(n)
    ensures !SizeBehind(st, inbox, n, c)
  {
    ReadTakes(st, inbox, n);
  }

  /**
   A read returns a negative number other than -1 if and only if it comes to a size line with
   that number; all other failing reads return -1, by CodeOfRead.
   */
  lemma {:induction false} NegativeSize(st: InState, inbox: string, size: nat, c: int)
    requires st.Valid() && c < -1
    ensures ReadCode(st, inbox, size) == c <==> exists n :: 0 <= n < size && SizeBehind(st, inbox, n, c)
    decreases size
  {
    hide NextChunk, SizeBehind, TakeCode;
    if size > 0 {
      if st.received == st.chunkSize {
        var next := NextChunk(st.chunkSize == -1, inbox);
        forall n: nat {
          SizeBehindStart(st, inbox, n, c);
        }
        if next.Some? && next.value.0 == c {
          assert SizeBehind(st, inbox, 0, c);
        } else if next.Some? && next.value.0 > 0 {
          NegativeTake(InState(next.value.0, 0), next.value.1, size, c);
          if n :| 0 <= n < size && SizeBehind(InState(next.value.0, 0), next.value.1, n, c) {
            assert SizeBehind(st, inbox, n, c);
          }
        }
      } else {
        NegativeTake(st, inbox, size, c);
      }
    }
  }

  lemma {:induction false} NegativeTake(st: InState, inbox: string, size: nat, c: int)
    requires 0 <= st.received < st.chunkSize && 0 < size && c < -1
    ensures TakeCode(st, inbox, size) == c <==> exists n :: 0 <= n < size && SizeBehind(st, inbox, n, c)
    decreases size, 0
  {
    hide ReadCode, SizeBehind;
    var remain := st.chunkSize - st.received;
    forall n: nat {
      SizeBehindTake(st, inbox, n, c);
    }
    if remain < size && |inbox| >= remain {
      var st', inbox' := InState(st.chunkSize, st.chunkSize), inbox[remain..];
      NegativeSize(st', inbox', size - remain, c);
      if m :| 0 <= m < size - remain && SizeBehind(st', inbox', m, c) {
        assert SizeBehind(st, inbox, m + remain, c);
      }
    } else if remain >= size && |inbox| >= size {
      CodeOfNothing(InState(st.chunkSize, st.received + size), inbox[size..]);
    }
  }

  lemma CodeOfNothing(st: InState, inbox: string)
    requires st.Valid()
    ensures ReadCode(st, inbox, 0) == 0
  {
  }

  // ---------------------------------------------------------------- round trip

  /** Bytes that the size line stores as they are. */
  lemma {:induction false} ReadSizeText(line: string, a: string, rest: string)
    requires |line| + |a| <= MAX_LINE
    requires forall i :: 0 <= i < |a| ==> a[i] != '\r' && a[i] != '\n' && a[i] != ';'
    ensures ReadSize(line, a + rest) == ReadSize(line + a, rest)
    decreases |a|
  {
    if a == "" {
      assert a + rest == rest && line + a == line;
    } else {
      assert (a + rest)[1..] == a[1..] + rest;
      ReadSizeText(line + [a[0]], a[1..], rest);
      assert line + [a[0]] + a[1..] == line + a;
    }
  }

  /** A size line with any unsigned number of 32 bits; strtol's result is made an int. */
  lemma SizeLine(n: nat, rest: string)
    requires n < 0x1_0000_0000
    ensures ReadSize("", PrintNat(n, 16) + CRLF + rest) == Some((ToInt32(n), rest))
  {
    hide ToInt32, StrToL;
    var hex := PrintNat(n, 16);
    HexLength(n);
    PrintedDigits(n, 16);
    assert hex + CRLF + rest == hex + (CRLF + rest);
    ReadSizeText("", hex, CRLF + rest);
    assert "" + hex == hex;
    ReadSizeEnd(hex, rest);
    CStringOf(hex, "\0");
    NatBack(n, 16);
  }

  lemma SizeLineBack(n: nat, rest: string)
    requires IsInt32(n)
    ensures ReadSize("", PrintNat(n, 16) + CRLF + rest) == Some((n, rest))
  {
    hide ReadSize, PrintNat;
    SizeLine(n, rest);
  }

  /** A size line as it is stored: carriage returns and semicolons become terminators. */
  function Stored(line: string): (r: string)
    ensures |r| == |line| && forall i :: 0 <= i < |r| ==> r[i] == if line[i] == '\r' || line[i] == ';' then '\0' else line[i]
  {
    seq(|line|, i requires 0 <= i < |line| => if line[i] == '\r' || line[i] == ';' then '\0' else line[i])
  }

  lemma {:induction false} ReadSizeStores(done: string, line: string, rest: string)
    requires '\n' !in line && |done| <= MAX_LINE
    ensures ReadSize(done, line + "\n" + rest)
         == if |done| + |line| <= MAX_LINE then Some((ToInt32(StrToL(CString(done + Stored(line)), 16)), rest)) else None
    decreases |line|
  {
    hide StrToL, CString, ToInt32;
    var s := line + "\n" + rest;
    if line == "" {
      assert s[0] == '\n' && s[1..] == rest && done + Stored(line) == done;
    } else {
      var c := Stored(line)[0];
      assert s[0] == line[0] && s[1..] == line[1..] + "\n" + rest;
      assert done + [c] + Stored(line[1..]) == done + Stored(line);
      if |done| < MAX_LINE {
        ReadSizeStores(done + [c], line[1..], rest);
      }
    }
  }

  /** Every size line: the number in front of the first carriage return, semicolon or terminator; lines of more than 24 bytes are errors. */
  lemma SizeLineMeans(text: string, ext: string, rest: string)
    requires '\n' !in text && '\r' !in text && ';' !in text && '\0' !in text && '\n' !in ext
    requires ext == "" || ext[0] == '\r' || ext[0] == ';' || ext[0] == '\0'
    ensures ReadSize("", text + ext + "\n" + rest)
         == if |text| + |ext| <= MAX_LINE then Some((ToInt32(StrToL(text, 16)), rest)) else None
  {
    hide StrToL, CString, ToInt32, ReadSize;
    ReadSizeStores("", text + ext, rest);
    assert "" + Stored(text + ext) == text + Stored(ext);
    CStringOf(text, Stored(ext));
  }

  /**
   The size line of RFC 2616, section 3.6.1: hexadecimal digits in either case, with leading
   zeros or not, and a chunk extension.
   */
  lemma HexSizeLine(hex: string, digits: seq<nat>, ext: string, rest: string)
    requires hex != "" && Spells(hex, digits, 16) && '\n' !in ext && (ext == "" || ext[0] == ';')
    ensures ReadSize("", hex + ext + CRLF + rest)
         == if |hex| + |ext| < MAX_LINE then Some((ToInt32(Clamp(false, Positional(digits, 16))), rest)) else None
    ensures |hex| + |ext| < MAX_LINE && IsInt32(Positional(digits, 16)) ==>
              ReadSize("", hex + ext + CRLF + rest) == Some((Positional(digits, 16), rest))
  {
    hide StrToL, ReadSize, Spells, Positional, Clamp, ToInt32;
    HexIsText(hex, digits);
    HexValue(hex, digits);
    LineTail(hex, ext, rest);
    SizeLineMeans(hex, ext + "\r", rest);
    SmallValue(Positional(digits, 16));
  }

  lemma LineTail(hex: string, ext: string, rest: string)
    requires '\n' !in ext && (ext == "" || ext[0] == ';')
    ensures hex + ext + CRLF + rest == hex + (ext + "\r") + "\n" + rest
    ensures '\n' !in ext + "\r" && ((ext + "\r")[0] == '\r' || (ext + "\r")[0] == ';')
  {
  }

  lemma SmallValue(n: nat)
    ensures IsInt32(n) ==> ToInt32(Clamp(false, n)) == n
  {
  }

  lemma HexValue(hex: string, digits: seq<nat>)
    requires hex != "" && Spells(hex, digits, 16)
    ensures StrToL(hex, 16) == Clamp(false, Positional(digits, 16))
  {
    hide StrToL, Spells, Positional, Clamp;
    StrToLMeans("", "", "", hex, digits, "", 16);
    assert "" + ("" + ("" + (hex + ""))) == hex;
  }

  lemma HexIsText(hex: string, digits: seq<nat>)
    requires Spells(hex, digits, 16)
    ensures '\n' !in hex && '\r' !in hex && ';' !in hex && '\0' !in hex
  {
    hide Spelled, DigitValue;
    forall i | 0 <= i < |hex|
      ensures hex[i] != '\n' && hex[i] != '\r' && hex[i] != ';' && hex[i] != '\0'
    {
      DigitMeans(hex[i], digits[i]);
      NoBreak(hex[i]);
    }
  }

  lemma NoBreak(c: char)
    requires DigitValue(c) < 16
    ensures c != '\n' && c != '\r' && c != ';' && c != '\0'
  {
  }

  /** Sizes of 2 to the 31 and more become negative; a first read returns them. */
  lemma LargeSizeLine(n: nat, rest: string, size: nat)
    requires 0x8000_0000 <= n < 0x1_0000_0000 && size > 0
    ensures ReadCode(INITIAL, PrintNat(n, 16) + CRLF + rest, size) == n - 0x1_0000_0000
  {
    hide ReadSize, PrintNat;
    SizeLine(n, rest);
  }

  lemma ReadSizeEnd(line: string, rest: string)
    requires |line| < MAX_LINE
    ensures ReadSize(line, CRLF + rest) == Some((ToInt32(StrToL(CString(line + "\0"), 16)), rest))
  {
    hide StrToL, CString, ToInt32;
    var s := CRLF + rest;
    assert s[0] == '\r' && s[1..][0] == '\n' && s[1..][1..] == rest;
  }

  lemma SkipCrLf(rest: string)
    ensures SkipLine(CRLF + rest, MAX_SKIP) == Some(rest)
  {
    var s := CRLF + rest;
    assert s[1..][0] == '\n' && s[1..][1..] == rest;
  }

  /** Chunk sizes that fit an int; an empty write would end the message. */
  ghost predicate Sendable(writes: seq<string>) {
    forall w :: w in writes ==> w != "" && IsInt32(|w|)
  }

  /** The wire from the next chunk on; `tail` is what follows the size line of the last chunk. */
  function Wire(writes: seq<string>, tail: string): string {
    EncodeWrites(writes) + "0\r\n" + tail
  }

  /** The reader is in the middle of the message: `rest` of a chunk is unread, then `writes` follow. */
  ghost predicate Within(st: InState, inbox: string, rest: string, writes: seq<string>, tail: string) {
    if st == INITIAL then rest == "" && inbox == Wire(writes, tail)
    else 0 <= st.received <= st.chunkSize && 0 < st.chunkSize && st.chunkSize - st.received == |rest|
         && inbox == rest + (CRLF + Wire(writes, tail))
  }

  /** The reader has seen the last chunk. */
  ghost predicate AtEnd(st: InState, inbox: string, tail: string) {
    st == InState(0, 0) && inbox == tail
  }

  /** Where a chunk size is expected, the next one is found. */
  lemma NextChunkOnWire(st: InState, inbox: string, writes: seq<string>, tail: string)
    requires Within(st, inbox, "", writes, tail) && Sendable(writes)
    ensures NextChunk(st.chunkSize == -1, inbox)
         == Some(if writes == [] then (0, tail) else (|writes[0]|, writes[0] + (CRLF + Wire(writes[1..], tail))))
  {
    hide ReadSize;
    var wire := Wire(writes, tail);
    if st != INITIAL {
      assert inbox == CRLF + wire;
      SkipCrLf(wire);
    }
    if writes == [] {
      SizeLineBack(0, tail);
      assert PrintNat(0, 16) == "0";
      assert wire == PrintNat(0, 16) + CRLF + tail;
    } else {
      var w := writes[0];
      assert w in writes;
      SizeLineBack(|w|, w + (CRLF + Wire(writes[1..], tail)));
      assert wire == PrintNat(|w|, 16) + CRLF + (w + (CRLF + Wire(writes[1..], tail)));
    }
  }

  /** A read of the wire: full, or short because the last chunk was met. */
  ghost predicate GoodRead(r: Option<(string, InState, string)>, size: nat, payload: string,
                           rest: string, writes: seq<string>, tail: string) {
    && r.Some?
    && r.value.0 + (rest + Concat(writes)) == payload
    && if |r.value.0| < size then rest == "" && writes == [] && AtEnd(r.value.1, r.value.2, tail)
       else |r.value.0| == size && Within(r.value.1, r.value.2, rest, writes, tail)
  }

  lemma {:induction false} ReadOnWire(st: InState, inbox: string, rest: string, writes: seq<string>, tail: string, size: nat)
    returns (rest': string, writes': seq<string>)
    requires st.Valid() && Within(st, inbox, rest, writes, tail) && Sendable(writes)
    ensures Sendable(writes')
    ensures GoodRead(ReadChunked(st, inbox, size), size, rest + Concat(writes), rest', writes', tail)
    decreases size
  {
    hide NextChunk;
    if size == 0 {
      rest', writes' := rest, writes;
    } else if st.received == st.chunkSize {
      assert st != INITIAL ==> rest == "";
      NextChunkOnWire(st, inbox, writes, tail);
      if writes == [] {
        rest', writes' := "", [];
      } else {
        var w := writes[0];
        assert w in writes;
        rest', writes' := TakeOnWire(InState(|w|, 0), w + (CRLF + Wire(writes[1..], tail)), w, writes[1..], tail, size);
        assert rest + Concat(writes) == w + Concat(writes[1..]);
      }
    } else {
      rest', writes' := TakeOnWire(st, inbox, rest, writes, tail, size);
    }
  }

  lemma {:induction false} TakeOnWire(st: InState, inbox: string, rest: string, writes: seq<string>, tail: string, size: nat)
    returns (rest': string, writes': seq<string>)
    requires 0 <= st.received < st.chunkSize && 0 < size
    requires Within(st, inbox, rest, writes, tail) && Sendable(writes)
    ensures Sendable(writes')
    ensures GoodRead(TakeChunk(st, inbox, size), size, rest + Concat(writes), rest', writes', tail)
    decreases size, 0
  {
    hide ReadChunked, Wire, Concat;
    var k := if |rest| < size then |rest| else size;
    assert inbox[..k] == rest[..k] && inbox[k..] == rest[k..] + (CRLF + Wire(writes, tail));
    rest', writes' := ReadOnWire(InState(st.chunkSize, st.received + k), inbox[k..], rest[k..], writes, tail, size - k);
    var bytes := ReadChunked(InState(st.chunkSize, st.received + k), inbox[k..], size - k).value.0;
    var later := rest' + Concat(writes');
    assert rest + Concat(writes) == rest[..k] + (rest[k..] + Concat(writes));
    assert rest[..k] + bytes + later == rest[..k] + (bytes + later);
  }

  /** Reads of the given sizes while the stream is ready: all bytes, the state and what is left in the inbox. */
  function Session(st: InState, inbox: string, sizes: seq<nat>): Option<(string, InState, string)>
    requires st.Valid()
    decreases |sizes|
  {
    if sizes == [] || st.chunkSize == 0 then Some(("", st, inbox))
    else
      match ReadChunked(st, inbox, sizes[0])
      case None => None
      case Some((bytes, st', inbox')) => Prepend(bytes, Session(st', inbox', sizes[1..]))
  }

  function Sum(sizes: seq<nat>): nat {
    if sizes == [] then 0 else sizes[0] + Sum(sizes[1..])
  }

  lemma {:induction false} SessionOnWire(st: InState, inbox: string, rest: string, writes: seq<string>, tail: string, sizes: seq<nat>)
    requires st.Valid() && Within(st, inbox, rest, writes, tail) && Sendable(writes)
    ensures var payload := rest + Concat(writes);
            match Session(st, inbox, sizes)
            case None => false
            case Some((bytes, st', inbox')) =>
              if Sum(sizes) <= |payload| then bytes == payload[..Sum(sizes)] && st'.chunkSize != 0
              else bytes == payload && AtEnd(st', inbox', tail)
    decreases |sizes|
  {
    hide ReadChunked, Within;
    WithinIsReady(st, inbox, rest, writes, tail);
    var payload := rest + Concat(writes);
    if sizes != [] {
      var rest', writes' := ReadOnWire(st, inbox, rest, writes, tail, sizes[0]);
      var (bytes, st', inbox') := ReadChunked(st, inbox, sizes[0]).value;
      var payload' := rest' + Concat(writes');
      if |bytes| == sizes[0] {
        SessionOnWire(st', inbox', rest', writes', tail, sizes[1..]);
        if Sum(sizes) <= |payload| {
          assert payload[..Sum(sizes)] == bytes + payload'[..Sum(sizes[1..])];
        }
      } else {
        SessionIsOver(st', inbox', sizes[1..]);
        assert bytes + "" == bytes && bytes + payload' == bytes;
      }
    }
  }

  lemma SessionIsOver(st: InState, inbox: string, sizes: seq<nat>)
    requires st.Valid() && st.chunkSize == 0
    ensures Session(st, inbox, sizes) == Some(("", st, inbox))
  {
  }

  lemma WithinIsReady(st: InState, inbox: string, rest: string, writes: seq<string>, tail: string)
    requires Within(st, inbox, rest, writes, tail)
    ensures st.chunkSize != 0
  {
  }

  /** The writes before the first empty one. */
  function UpToEmpty(writes: seq<string>): seq<string> {
    if writes == [] || writes[0] == "" then [] else [writes[0]] + UpToEmpty(writes[1..])
  }

  /** What follows the size line of the first last-chunk on the wire. */
  function TailOf(writes: seq<string>, after: string): string {
    if writes == [] then CRLF + after
    else if writes[0] == "" then CRLF + EncodeWrites(writes[1..]) + LAST_CHUNK + after
    else TailOf(writes[1..], after)
  }

  lemma WireOfEmpty(writes: seq<string>, after: string)
    requires writes != [] && writes[0] == ""
    ensures EncodeWrites(writes) + LAST_CHUNK + after == Wire([], CRLF + EncodeWrites(writes[1..]) + LAST_CHUNK + after)
  {
    hide EncodeWrites, EncodeWrite;
    EncodeEmpty();
    EncodeCons(writes);
    assert "0\r\n\r\n" + EncodeWrites(writes[1..]) + LAST_CHUNK + after
        == "" + "0\r\n" + (CRLF + EncodeWrites(writes[1..]) + LAST_CHUNK + after);
  }

  lemma WireCons(w: string, writes: seq<string>, tail: string)
    ensures Wire([w] + writes, tail) == EncodeWrite(w) + Wire(writes, tail)
  {
    hide EncodeWrites, EncodeWrite;
    EncodeCons([w] + writes);
    assert ([w] + writes)[1..] == writes;
  }

  lemma {:induction false} WireOf(writes: seq<string>, after: string)
    ensures EncodeWrites(writes) + LAST_CHUNK + after == Wire(UpToEmpty(writes), TailOf(writes, after))
  {
    hide EncodeWrites, EncodeWrite, Wire;
    EncodeCons(writes);
    if writes == [] {
      LastWire(after);
    } else if writes[0] == "" {
      WireOfEmpty(writes, after);
    } else {
      WireOf(writes[1..], after);
      WireCons(writes[0], UpToEmpty(writes[1..]), TailOf(writes[1..], after));
      assert EncodeWrite(writes[0]) + EncodeWrites(writes[1..]) + LAST_CHUNK + after
          == EncodeWrite(writes[0]) + (EncodeWrites(writes[1..]) + LAST_CHUNK + after);
    }
  }

  lemma LastWire(after: string)
    ensures "" + LAST_CHUNK + after == Wire([], CRLF + after)
  {
  }

  lemma EncodeCons(writes: seq<string>)
    ensures EncodeWrites([]) == ""
    ensures writes != [] ==> EncodeWrites(writes) == EncodeWrite(writes[0]) + EncodeWrites(writes[1..])
  {
  }

  /** An empty write looks like the end of the message. */
  lemma EncodeEmpty()
    ensures EncodeWrite("") == LAST_CHUNK && EncodeWrites([]) == ""
  {
    assert PrintNat(0, 16) == "0";
  }

  lemma {:induction false} UpToEmptySendable(writes: seq<string>)
    requires forall w :: w in writes ==> IsInt32(|w|)
    ensures Sendable(UpToEmpty(writes))
  {
    if writes != [] && writes[0] != "" {
      UpToEmptySendable(writes[1..]);
    }
  }

  /**
   Round trip of the coding. Any writes and the flush, read back by reads of any sizes,
   give the bytes written before the first empty write, up to the number asked for.
   A read beyond them ends the stream, with all behind the last chunk's size line unread.
   */
  lemma ChunkedRoundTrip(writes: seq<string>, after: string, sizes: seq<nat>)
    requires forall w :: w in writes ==> IsInt32(|w|)
    ensures var payload := Concat(UpToEmpty(writes));
            match Session(INITIAL, EncodeWrites(writes) + LAST_CHUNK + after, sizes)
            case None => false
            case Some((bytes, st, inbox)) =>
              if Sum(sizes) <= |payload| then bytes == payload[..Sum(sizes)] && st.chunkSize != 0
              else bytes == payload && AtEnd(st, inbox, TailOf(writes, after))
  {
    hide Session;
    WireOf(writes, after);
    UpToEmptySendable(writes);
    SessionOnWire(INITIAL, EncodeWrites(writes) + LAST_CHUNK + after, "", UpToEmpty(writes), TailOf(writes, after), sizes);
    assert "" + Concat(UpToEmpty(writes)) == Concat(UpToEmpty(writes));
  }

  /** Without empty writes, exactly the final CRLF and what follows the message is left unread. */
  lemma {:induction false} FinalCrLfIsLeft(writes: seq<string>, after: string)
    requires forall w :: w in writes ==> w != ""
    ensures TailOf(writes, after) == CRLF + after
  {
    if writes != [] {
      assert writes[0] in writes && forall w :: w in writes[1..] ==> w in writes;
      FinalCrLfIsLeft(writes[1..], after);
    }
  }

  /** Nothing is lost if and only if no bytes are written after an empty write. */
  lemma {:induction false} NothingLost(writes: seq<string>)
    ensures Concat(UpToEmpty(writes)) == Concat(writes)
            <==> forall i, j :: 0 <= i < j < |writes| && writes[i] == "" ==> writes[j] == ""
  {
    if writes != [] {
      var rest := writes[1..];
      NothingLost(rest);
      if writes[0] == "" {
        assert "" + Concat(rest) == Concat(rest);
        ConcatEmpty(rest);
        assert forall j :: 0 < j < |writes| ==> writes[j] == rest[j - 1];
        assert forall j :: 0 <= j < |rest| ==> rest[j] == writes[j + 1];
      } else {
        assert UpToEmpty(writes)[1..] == UpToEmpty(rest);
        assert Concat(UpToEmpty(writes)) == writes[0] + Concat(UpToEmpty(rest));
        assert Concat(writes)[|writes[0]|..] == Concat(rest);
        assert Concat(UpToEmpty(writes))[|writes[0]|..] == Concat(UpToEmpty(rest));
        OrderedTail(writes);
      }
    }
  }

  lemma OrderedTail(writes: seq<string>)
    requires writes != [] && writes[0] != ""
    ensures (forall i, j :: 0 <= i < j < |writes| && writes[i] == "" ==> writes[j] == "")
            <==> forall i, j :: 0 <= i < j < |writes| - 1 && writes[1..][i] == "" ==> writes[1..][j] == ""
  {
    var rest := writes[1..];
    assert forall i :: 0 < i < |writes| ==> writes[i] == rest[i - 1];
    assert forall i :: 0 <= i < |rest| ==> rest[i] == writes[i + 1];
  }

  lemma {:induction false} ConcatEmpty(pieces: seq<string>)
    ensures Concat(pieces) == "" <==> forall i :: 0 <= i < |pieces| ==> pieces[i] == ""
  {
    if pieces != [] {
      ConcatEmpty(pieces[1..]);
      assert forall i :: 0 < i < |pieces| ==> pieces[i] == pieces[1..][i - 1];
    }
  }

  // ---------------------------------------------------------------- the stream object

  class InputStream {
    const sock: Socket
    var chunkSize: int
    var received: int

    constructor (sock: Socket)
      ensures this.sock == sock && State() == INITIAL
    {
      this.sock, chunkSize, received := sock, -1, -1;
    }

    function State(): InState
      reads this
    {
      InState(chunkSize, received)
    }

    predicate IsReady()
      reads this
    {
      chunkSize != 0
    }

    method ReadChunkSize() returns (ok: bool, size: int)
      modifies sock
      ensures var r := ReadSize("", old(sock.inbox));
              ok == r.Some? && if ok then r.value == (size, sock.inbox) else size == -1
    {
      hide CString, StrToL, ToInt32;
      var chunk := new char[MAX_LINE + 1];
      var i: nat := 0;
      size := -1;
      assert chunk[..0] == "";
      while true
        invariant i <= MAX_LINE && ReadSize(chunk[..i], sock.inbox) == ReadSize("", old(sock.inbox))
        decreases |sock.inbox|
      {
        ghost var line := chunk[..i];
        ok := sock.Recv(chunk, i, 1);
        if !ok {
          return false, -1;
        }
        assert chunk[..i] == line && chunk[i] == chunk[i..i + 1][0];
        if chunk[i] == '\r' || chunk[i] == ';' {
          chunk[i] := '\0';
        } else if chunk[i] == '\n' {
          chunk[i] := '\0';
          CStringStop(line, "\0" + chunk[i + 1..]);
          assert line + ("\0" + chunk[i + 1..]) == chunk[..];
          return true, ToInt32(StrToL(CString(chunk[..]), 16));
        }
        if i == MAX_LINE {
          return false, -1;
        }
        assert chunk[..i + 1] == line + [chunk[i]];
        i := i + 1;
      }
    }

    /** Skips the line end behind a chunk. */
    method SkipLineEnd() returns (ok: bool)
      modifies sock
      ensures SkipLine(old(sock.inbox), MAX_SKIP) == if ok then Some(sock.inbox) else None
    {
      var ch := new char[1];
      var counter: nat := MAX_SKIP;
      while true
        invariant SkipLine(sock.inbox, counter) == SkipLine(old(sock.inbox), MAX_SKIP)
        decreases |sock.inbox|
      {
        ok := sock.Recv(ch, 0, 1);
        if !ok {
          return false;
        }
        assert ch[0] == ch[0..1][0];
        if ch[0] == '\n' {
          return true;
        }
        if counter == 0 {
          return false;
        }
        counter := counter - 1;
      }
    }

    /** Makes sure that a chunk with unread bytes is at hand; `over` says that the last chunk was met instead. */
    method NextIfNeeded(ghost size: nat) returns (code: int, over: bool)
      requires State().Valid() && size > 0
      modifies this, sock
      ensures code >= 0 && !over ==>
                && 0 <= received < chunkSize
                && ReadChunked(old(State()), old(sock.inbox), size) == TakeChunk(State(), sock.inbox, size)
                && ReadCode(old(State()), old(sock.inbox), size) == TakeCode(State(), sock.inbox, size)
      ensures code >= 0 && over ==>
                && State() == InState(0, 0)
                && ReadChunked(old(State()), old(sock.inbox), size) == Some(("", State(), sock.inbox))
                && ReadCode(old(State()), old(sock.inbox), size) == 0
      ensures code < 0 ==> ReadCode(old(State()), old(sock.inbox), size) == code
    {
      hide ReadSize, SkipLine;
      code, over := 0, false;
      if chunkSize == received {
        if chunkSize != -1 {
          var skipped := SkipLineEnd();
          if !skipped {
            return -1, over;
          }
        }
        var ok;
        ok, chunkSize := ReadChunkSize();
        received := 0;
        if chunkSize < 0 {
          return chunkSize, over;
        }
        over := chunkSize == 0;
      }
    }

    /** Reads up to `size` bytes into `dest`; n < size only at the last chunk. After an error the stream is not usable. */
    method Read(dest: array<char>, size: nat) returns (n: int)
      requires State().Valid() && size <= dest.Length
      modifies this, sock, dest
      ensures n == ReadCode(old(State()), old(sock.inbox), size)
      ensures n >= 0 ==> n <= size && State().Valid()
      ensures ReadChunked(old(State()), old(sock.inbox), size)
           == if n >= 0 then Some((dest[..n], State(), sock.inbox)) else None
    {
      hide ReadChunked, ReadCode, TakeCode;
      var read: nat, left: nat := 0, size;
      ghost var goal, code := ReadChunked(State(), sock.inbox, size), ReadCode(State(), sock.inbox, size);
      CodeOfRead(State(), sock.inbox, size);
      PrependNothing(goal);
      assert dest[..0] == "";
      while left > 0
        invariant read + left == size && State().Valid()
        invariant Prepend(dest[..read], ReadChunked(State(), sock.inbox, left)) == goal
        invariant Behind(read, ReadCode(State(), sock.inbox, left)) == code
        decreases left
      {
        var failure, over := NextIfNeeded(left);
        if failure < 0 {
          return failure;
        }
        if over {
          assert dest[..read] + "" == dest[..read];
          return read;
        }
        var k := State().Portion(left);
        ghost var before, inbox := dest[..read], sock.inbox;
        TakeCodeStep(State(), inbox, left);
        var ok := sock.Recv(dest, read, k);
        if !ok {
          return -1;
        }
        assert dest[..read] == before && dest[..read + k] == before + inbox[..k];
        PrependTwice(before, inbox[..k], ReadChunked(InState(chunkSize, received + k), inbox[k..], left - k));
        read, left, received := read + k, left - k, received + k;
      }
      ReadNothing(State(), sock.inbox);
      CodeOfNothing(State(), sock.inbox);
      assert dest[..read] + "" == dest[..read];
      n := read;
    }
  }

  lemma TakeCodeStep(st: InState, inbox: string, size: nat)
    requires 0 <= st.received < st.chunkSize && 0 < size
    ensures var k := st.Portion(size);
            TakeCode(st, inbox, size) == if |inbox| < k then -1
                                         else Behind(k, ReadCode(InState(st.chunkSize, st.received + k), inbox[k..], size - k))
  {
    hide ReadCode;
  }

  lemma PrependNothing(r: Option<(string, InState, string)>)
    ensures Prepend("", r) == r
  {
    if r.Some? {
      assert "" + r.value.0 == r.value.0;
    }
  }

  lemma PrependTwice(a: string, b: string, r: Option<(string, InState, string)>)
    ensures Prepend(a, Prepend(b, r)) == Prepend(a + b, r)
  {
    if r.Some? {
      assert a + (b + r.value.0) == a + b + r.value.0;
    }
  }

  lemma ReadNothing(st: InState, inbox: string)
    requires st.Valid()
    ensures ReadChunked(st, inbox, 0) == Some(("", st, inbox))
  {
  }

  // ---------------------------------------------------------------- any stream

  /** Up to 100 bytes in front of the line feed behind a chunk are skipped. */
  lemma {:induction false} SkipLineMeans(junk: string, rest: string, counter: nat)
    requires '\n' !in junk
    ensures SkipLine(junk + "\n" + rest, counter) == if |junk| <= counter then Some(rest) else None
    decreases |junk|
  {
    var s := junk + "\n" + rest;
    if junk == "" {
      assert s[0] == '\n' && s[1..] == rest;
    } else {
      assert s[0] == junk[0] && s[1..] == junk[1..] + "\n" + rest;
      if counter > 0 {
        SkipLineMeans(junk[1..], rest, counter - 1);
      }
    }
  }

  /** The end of `inbox` that a read has left, as far as the first `n` bytes go. */
  ghost predicate LeftOf(cut: string, left: string, inbox: string, n: nat)
    requires n <= |inbox|
  {
    |left| <= |inbox| && left == inbox[|inbox| - |left|..] && |inbox| - |left| <= n && cut == inbox[|inbox| - |left|..n]
  }

  lemma {:induction false} CutSize(line: string, inbox: string, n: nat)
    requires n <= |inbox|
    ensures var cut, whole := ReadSize(line, inbox[..n]), ReadSize(line, inbox);
            cut.Some? ==> whole.Some? && cut.value.0 == whole.value.0 && LeftOf(cut.value.1, whole.value.1, inbox, n)
    decreases n
  {
    hide StrToL, CString, ToInt32;
    if n > 0 {
      assert inbox[..n][1..] == inbox[1..][..n - 1];
      if inbox[0] != '\n' && |line| != MAX_LINE {
        CutSize(line + [if inbox[0] == '\r' || inbox[0] == ';' then '\0' else inbox[0]], inbox[1..], n - 1);
      }
    }
  }

  lemma {:induction false} CutSkip(inbox: string, n: nat, counter: nat)
    requires n <= |inbox|
    ensures var cut, whole := SkipLine(inbox[..n], counter), SkipLine(inbox, counter);
            cut.Some? ==> whole.Some? && LeftOf(cut.value, whole.value, inbox, n)
    decreases n
  {
    if n > 0 {
      assert inbox[..n][1..] == inbox[1..][..n - 1];
      if inbox[0] != '\n' && counter > 0 {
        CutSkip(inbox[1..], n - 1, counter - 1);
      }
    }
  }

  /** What is left of what is left. */
  lemma LeftTwice(cut: string, left: string, inbox: string, n: nat, cut': string, left': string)
    requires n <= |inbox| && LeftOf(cut, left, inbox, n)
    requires |cut| <= |left| && cut == left[..|cut|] && LeftOf(cut', left', left, |cut|)
    ensures LeftOf(cut', left', inbox, n)
  {
    assert left' == inbox[|inbox| - |left'|..];
    assert cut' == left[|left| - |left'|..|cut|] == inbox[|inbox| - |left'|..n];
  }

  lemma LeftIsPrefix(cut: string, left: string, inbox: string, n: nat)
    requires n <= |inbox| && LeftOf(cut, left, inbox, n)
    ensures |cut| <= |left| && cut == left[..|cut|]
  {
  }

  lemma CutNext(first: bool, inbox: string, n: nat)
    requires n <= |inbox|
    ensures var cut, whole := NextChunk(first, inbox[..n]), NextChunk(first, inbox);
            cut.Some? ==> whole.Some? && cut.value.0 == whole.value.0 && LeftOf(cut.value.1, whole.value.1, inbox, n)
  {
    hide ReadSize, SkipLine, LeftOf;
    if first {
      CutSize("", inbox, n);
    } else {
      CutSkip(inbox, n, MAX_SKIP);
      var cut := SkipLine(inbox[..n], MAX_SKIP);
      if cut.Some? {
        var left := SkipLine(inbox, MAX_SKIP).value;
        LeftIsPrefix(cut.value, left, inbox, n);
        CutSize("", left, |cut.value|);
        if ReadSize("", cut.value).Some? {
          LeftTwice(cut.value, left, inbox, n, ReadSize("", cut.value).value.1, ReadSize("", left).value.1);
        }
      }
    }
  }

  ghost predicate CutSame(cut: Option<(string, InState, string)>, whole: Option<(string, InState, string)>, inbox: string, n: nat)
    requires n <= |inbox|
  {
    cut.Some? ==> whole.Some? && cut.value.0 == whole.value.0 && cut.value.1 == whole.value.1
                  && LeftOf(cut.value.2, whole.value.2, inbox, n)
  }

  /**
   A connection that breaks off: a read of the first `n` bytes of any stream either fails, or
   gives the bytes and the state that it would have given on the whole; never fewer bytes.
   */
  lemma {:induction false} CutRead(st: InState, inbox: string, n: nat, size: nat)
    requires st.Valid() && n <= |inbox|
    ensures CutSame(ReadChunked(st, inbox[..n], size), ReadChunked(st, inbox, size), inbox, n)
    decreases size
  {
    hide NextChunk, LeftOf, TakeChunk;
    if size == 0 {
      LeftAll(inbox, n);
    } else if st.received == st.chunkSize {
      CutNext(st.chunkSize == -1, inbox, n);
      var cut := NextChunk(st.chunkSize == -1, inbox[..n]);
      if cut.Some? && cut.value.0 > 0 {
        var left := NextChunk(st.chunkSize == -1, inbox).value.1;
        LeftIsPrefix(cut.value.1, left, inbox, n);
        CutTake(InState(cut.value.0, 0), left, |cut.value.1|, size);
        var r := TakeChunk(InState(cut.value.0, 0), cut.value.1, size);
        if r.Some? {
          LeftTwice(cut.value.1, left, inbox, n, r.value.2, TakeChunk(InState(cut.value.0, 0), left, size).value.2);
        }
      }
    } else {
      CutTake(st, inbox, n, size);
    }
  }

  lemma LeftAll(inbox: string, n: nat)
    requires n <= |inbox|
    ensures LeftOf(inbox[..n], inbox, inbox, n)
  {
  }

  lemma {:induction false} CutTake(st: InState, inbox: string, n: nat, size: nat)
    requires 0 <= st.received < st.chunkSize && 0 < size && n <= |inbox|
    ensures CutSame(TakeChunk(st, inbox[..n], size), TakeChunk(st, inbox, size), inbox, n)
    decreases size, 0
  {
    hide ReadChunked, LeftOf;
    var k := st.Portion(size);
    if k <= n {
      var st' := InState(st.chunkSize, st.received + k);
      assert inbox[..n][..k] == inbox[..k] && inbox[..n][k..] == inbox[k..][..n - k];
      CutRead(st', inbox[k..], n - k, size - k);
      LeftBehind(inbox, n, k);
      var r, r' := ReadChunked(st', inbox[k..][..n - k], size - k), ReadChunked(st', inbox[k..], size - k);
      if r.Some? {
        LeftIsPrefix(inbox[k..n], inbox[k..], inbox, n);
        LeftTwice(inbox[k..n], inbox[k..], inbox, n, r.value.2, r'.value.2);
      }
    }
  }

  lemma LeftBehind(inbox: string, n: nat, k: nat)
    requires k <= n <= |inbox|
    ensures LeftOf(inbox[k..n], inbox[k..], inbox, n) && inbox[k..][..n - k] == inbox[k..n]
  {
  }
}
