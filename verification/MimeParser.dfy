/**
 The multipart parser: its meaning as a function of the whole stream, and the
 buffered, backtracking scanner that computes it from any fragmentation.
 */
module MimeParser {
  import opened MimeReader

  const PARSER_BUFFER_SIZE := 1054
  /* The buffer is flushed once fewer than 150 bytes are free. */
  const FLUSH_SIZE := PARSER_BUFFER_SIZE - 150
  /* "\n--" and the boundary, with its terminator, fit the parser's 150-byte array. */
  const MAX_DELIM := 149

  /** The callbacks, in the order in which they are called. */
  datatype Event = ParseBegin | PartBegin | PartEnd | ParseEnd | Received(bytes: string)

  datatype ParserStatus = IncompleteMessage | ReadFailure | ParserOk

  datatype Outcome = Outcome(events: seq<Event>, status: ParserStatus) {
    function After(before: seq<Event>): Outcome {
      Outcome(before + events, status)
    }
  }

  /** The contents of a MimeBuffer; bytes of `data` beyond `size` are left over from earlier use. */
  datatype Buf = Buf(data: string, size: nat) {
    ghost predicate Valid() {
      |data| == PARSER_BUFFER_SIZE && size < FLUSH_SIZE
    }

    function Content(): string
      requires size <= |data|
    {
      data[..size]
    }

    function Add(c: char): Buf
      requires size < |data|
    {
      Buf(data[size := c], size + 1)
    }

    /** The memcpy goes to the start of `data`, while `size` grows as if it had appended. */
    function AddBytes(bytes: string): Buf
      requires |bytes| <= |data|
    {
      Buf(bytes + data[|bytes|..], size + |bytes|)
    }

    /** Events and buffer after the test for a full buffer. */
    function FlushIfFull(): (r: (seq<Event>, Buf))
      requires size <= |data|
    {
      if size >= FLUSH_SIZE then ([Received(Content())], Buf(data, 0)) else ([], this)
    }

    /** Events before the callback of the next boundary: no part_end on an empty buffer. */
    function EndOfPart(): seq<Event>
      requires size <= |data|
    {
      if size == 0 then [] else [Received(Content()), PartEnd]
    }
  }

  /**
   AddBytes appends if and only if the buffer is empty, or else begins with the bytes already
   and happens to hold, behind its contents, what should have been appended.
   */
  lemma AppendsIfEmpty(b: Buf, bytes: string)
    requires bytes != "" && b.size + |bytes| <= |b.data|
    ensures var wanted := b.Content() + bytes;
            b.AddBytes(bytes).Content() == wanted <==>
              b.size == 0 || (bytes <= wanted && b.data[|bytes|..b.size + |bytes|] == wanted[|bytes|..])
  {
    var r, wanted := b.AddBytes(bytes), b.Content() + bytes;
    assert r.Content() == bytes + b.data[|bytes|..b.size + |bytes|];
    if b.size == 0 {
      assert r.Content() == bytes == wanted;
    } else if r.Content() == wanted {
      assert r.Content()[..|bytes|] == bytes && r.Content()[|bytes|..] == b.data[|bytes|..b.size + |bytes|];
    } else if bytes <= wanted {
      assert wanted == bytes + wanted[|bytes|..];
    }
  }

  /** Length of the longest common prefix. */
  function Lcp(a: string, b: string): (n: nat)
    ensures n <= |a| && n <= |b| && a[..n] == b[..n]
    ensures n < |a| && n < |b| ==> a[n] != b[n]
  {
    if a == "" || b == "" || a[0] != b[0] then 0 else 1 + Lcp(a[1..], b[1..])
  }

  lemma LcpUnique(a: string, b: string, n: nat)
    requires n <= |a| && n <= |b| && a[..n] == b[..n]
    requires n == |a| || n == |b| || a[n] != b[n]
    ensures Lcp(a, b) == n
  {
    if n > 0 {
      assert a[0] == a[..n][0] == b[..n][0] == b[0];
      assert a[1..][..n - 1] == a[..n][1..] && b[1..][..n - 1] == b[..n][1..];
      LcpUnique(a[1..], b[1..], n - 1);
    }
  }

  function StatusOf(ending: ReadStatus): ParserStatus {
    if ending == ReadError then ReadFailure else IncompleteMessage
  }

  /** One round of the parser's loop: it ends, or skips bytes and goes on. */
  datatype Move =
    | Stop(events: seq<Event>, status: ParserStatus)
    | Go(events: seq<Event>, skip: nat, ignore: bool, buf: Buf)

  /** What follows a complete delimiter; `q` is the stream behind it, `s` begins with the delimiter's CR. */
  function AfterDelimiter(s: string, q: string, delim: string, b: Buf, ending: ReadStatus): (r: Move)
    requires b.Valid() && |delim| <= MAX_DELIM && |s| == 1 + |delim| + |q|
    ensures r.Go? ==> r.buf.Valid() && r.skip <= |s| && (r.skip > 0 || r.ignore)
  {
    if q == "" then Stop([], StatusOf(ending))
    else if q[0] == '\r' then
      if |q| == 1 then Stop([], StatusOf(ending))
      else if q[1] == '\n' then Go(b.EndOfPart() + [PartBegin], |delim| + 3, false, Buf(b.data, 0))
      else
        var (events, b') := b.AddBytes(s[..|delim| + 2]).FlushIfFull();
        Go(events, |delim| + 2, false, b')
    else if q[0] == '-' then
      if |q| == 1 then Stop([], StatusOf(ending))
      else if q[1] == '-' then Stop(b.EndOfPart() + [ParseEnd], ParserOk)
      else Go([], 0, true, b)
    else Go([], 0, true, b)
  }

  /**
   What a round does when the marker is at the first byte of the rest `s` of the
   stream. `delim` is "\n--" and the boundary; `ignore` says that this byte has
   already been tried as the start of a delimiter.
   */
  function Round(s: string, delim: string, ignore: bool, b: Buf, ending: ReadStatus): (r: Move)
    requires b.Valid() && |delim| <= MAX_DELIM
    ensures r.Go? ==> r.buf.Valid() && r.skip <= |s| && (r.skip > 0 || (r.ignore && !ignore))
  {
    if s == "" then Stop([], StatusOf(ending))
    else if s[0] == '\r' && !ignore then
      var m := Lcp(s[1..], delim);
      if m == |delim| then AfterDelimiter(s, s[1 + m..], delim, b, ending)
      else if 1 + m == |s| then Stop([], StatusOf(ending))
      else Go([], 0, true, b)
    else
      var (events, b') := b.Add(s[0]).FlushIfFull();
      Go(events, 1, false, b')
  }

  /** The whole parse of the rest `s` of the stream. */
  function Run(s: string, delim: string, ignore: bool, b: Buf, ending: ReadStatus): Outcome
    requires b.Valid() && |delim| <= MAX_DELIM
    decreases |s|, if ignore then 0 else 1
  {
    match Round(s, delim, ignore, b, ending)
    case Stop(events, status) => Outcome(events, status)
    case Go(events, skip, ignore', b') => Run(s[skip..], delim, ignore', b', ending).After(events)
  }

  class MimeBuffer {
    const data: array<char>
    var size: nat

    ghost predicate Valid()
      reads this
    {
      data.Length == PARSER_BUFFER_SIZE && size <= PARSER_BUFFER_SIZE
    }

    ghost function View(): Buf
      reads this, data
    {
      Buf(data[..], size)
    }

    constructor ()
      ensures Valid() && fresh(data)
    {
      data := new char[PARSER_BUFFER_SIZE];
      size := 0;
    }

    method Clear()
      modifies this
      ensures size == 0
    {
      size := 0;
    }

    method Add(ch: char)
      requires Valid() && size < PARSER_BUFFER_SIZE
      modifies this, data
      ensures Valid() && View() == old(View()).Add(ch)
    {
      data[size] := ch;
      size := size + 1;
    }

    method AddBytes(bytes: array<char>, n: nat)
      requires Valid() && n <= bytes.Length && size + n <= PARSER_BUFFER_SIZE
      modifies this, data
      ensures Valid() && View() == old(View()).AddBytes(old(bytes[..n]))
    {
      forall k | 0 <= k < n {
        data[k] := bytes[k];
      }
      size := size + n;
    }

    predicate IsFull()
      reads this
    {
      size + 150 >= PARSER_BUFFER_SIZE
    }

    predicate IsEmpty()
      reads this
    {
      size == 0
    }

    /** The test for a full buffer that follows every addition. */
    method FlushIfFull() returns (events: seq<Event>)
      requires Valid()
      modifies this
      ensures Valid() && (events, View()) == old(View()).FlushIfFull()
    {
      events := [];
      if IsFull() {
        events := [Received(data[..size])];
        Clear();
      }
    }

    /** What is called at a boundary before the part_begin or parse_end callback. */
    method EndOfPart() returns (events: seq<Event>)
      requires Valid()
      modifies this
      ensures Valid() && View() == Buf(data[..], 0) && events == old(View()).EndOfPart()
    {
      events := [];
      if !IsEmpty() {
        events := [Received(data[..size])];
        Clear();
        events := events + [PartEnd];
      }
    }
  }

  /** The inner loop: compares the bytes after a carriage return with `delim`. */
  method MatchDelimiter(reader: Reader, ch: array<char>, delim: string) returns (status: ReadStatus, n: nat)
    requires reader.Valid() && reader.Mark() >= 0 && reader.Pos() == reader.Mark() + 1
    requires |delim| <= MAX_DELIM && ch.Length == 153 && ch != reader.buffer
    modifies reader, reader.buffer, reader.source, ch
    ensures n == Lcp(reader.stream[old(reader.Pos())..], delim)
    ensures status == if n < |delim| && old(reader.Pos()) + n == |reader.stream| then reader.source.ending else ReadOk
    ensures status == ReadOk ==> reader.Valid() && reader.Mark() == old(reader.Mark())
    ensures status == ReadOk && n == |delim| ==> reader.Pos() == old(reader.Pos()) + n
  {
    n, status := 0, ReadOk;
    ghost var s := reader.stream[reader.Pos()..];
    while n < |delim|
      invariant n <= |delim| && n <= |s| && s[..n] == delim[..n] && status == ReadOk
      invariant reader.Valid() && reader.Mark() == old(reader.Mark()) && reader.Pos() == old(reader.Pos()) + n
    {
      status := reader.Read(ch, 0, 1);
      if status != ReadOk {
        LcpUnique(s, delim, n);
        return;
      }
      assert ch[0] == s[n];
      if ch[0] != delim[n] {
        LcpUnique(s, delim, n);
        return;
      }
      n := n + 1;
    }
    LcpUnique(s, delim, n);
  }

  /** A delimiter with a carriage return that is not followed by a line feed: `n` bytes from the marker are content. */
  method KeepDelimiter(reader: Reader, ch: array<char>, n: nat, buffer: MimeBuffer) returns (events: seq<Event>)
    requires reader.Valid() && buffer.Valid() && buffer.View().Valid()
    requires 0 < n <= MAX_DELIM + 2 && ch.Length == 153 && ch != reader.buffer
    requires ch != buffer.data && buffer.data != reader.buffer
    requires 0 <= reader.Mark() && reader.Mark() + n <= |reader.stream|
    modifies reader, reader.buffer, reader.source, ch, buffer, buffer.data
    ensures var s := reader.stream[old(reader.Mark())..];
            && (events, buffer.View()) == old(buffer.View()).AddBytes(s[..n]).FlushIfFull() && buffer.Valid()
            && reader.Valid() && reader.Pos() == old(reader.Mark()) + n
  {
    reader.JumpMarker();
    ghost var s := reader.stream[reader.Pos()..];
    var read := reader.Read(ch, 0, n);
    assert ch[..n] == s[..n];
    buffer.AddBytes(ch, n);
    events := buffer.FlushIfFull();
  }

  /** Behind the carriage return that follows a complete delimiter. */
  method ReadAfterCr(reader: Reader, ch: array<char>, delim: string, buffer: MimeBuffer)
    returns (done: bool, status: ParserStatus, events: seq<Event>)
    requires reader.Valid() && buffer.Valid() && buffer.View().Valid()
    requires |delim| <= MAX_DELIM && ch.Length == 153 && ch != reader.buffer
    requires ch != buffer.data && buffer.data != reader.buffer
    requires 0 <= reader.Mark() && reader.Pos() == reader.Mark() + 2 + |delim| && reader.stream[reader.Pos() - 1] == '\r'
    modifies reader, reader.buffer, reader.source, ch, buffer, buffer.data
    ensures var s := reader.stream[old(reader.Mark())..];
            var r := AfterDelimiter(s, s[1 + |delim|..], delim, old(buffer.View()), reader.source.ending);
            && done == r.Stop? && events == r.events
            && (done ==> status == r.status)
            && (!done ==> !r.ignore && buffer.View() == r.buf && buffer.Valid())
            && (!done ==> reader.Valid() && reader.Pos() == old(reader.Mark()) + r.skip)
  {
    done, status, events := false, ParserOk, [];
    ghost var s := reader.stream[reader.Mark()..];
    ghost var q := s[1 + |delim|..];
    assert q[0] == '\r';
    var read := reader.Read(ch, 0, 1);
    if read != ReadOk {
      return true, StatusOf(read), events;
    }
    assert ch[0] == q[1];
    if ch[0] == '\n' {
      events := buffer.EndOfPart();
      events := events + [PartBegin];
    } else {
      events := KeepDelimiter(reader, ch, |delim| + 2, buffer);
    }
  }

  /** Behind a hyphen that follows a complete delimiter. */
  method ReadAfterHyphen(reader: Reader, ch: array<char>, delim: string, buffer: MimeBuffer)
    returns (done: bool, status: ParserStatus, events: seq<Event>)
    requires reader.Valid() && buffer.Valid() && buffer.View().Valid()
    requires |delim| <= MAX_DELIM && ch.Length == 153 && ch != reader.buffer
    requires ch != buffer.data && buffer.data != reader.buffer
    requires 0 <= reader.Mark() && reader.Pos() == reader.Mark() + 2 + |delim| && reader.stream[reader.Pos() - 1] == '-'
    modifies reader, reader.buffer, reader.source, ch, buffer
    ensures var s := reader.stream[old(reader.Mark())..];
            var r := AfterDelimiter(s, s[1 + |delim|..], delim, old(buffer.View()), reader.source.ending);
            && done == r.Stop? && events == r.events
            && (done ==> status == r.status)
            && (!done ==> r == Go([], 0, true, old(buffer.View())) && buffer.View() == r.buf && buffer.Valid())
            && (!done ==> reader.Valid() && reader.Mark() == old(reader.Mark()))
  {
    done, status, events := false, ParserOk, [];
    ghost var s := reader.stream[reader.Mark()..];
    ghost var q := s[1 + |delim|..];
    assert q[0] == '-';
    var read := reader.Read(ch, 0, 1);
    if read != ReadOk {
      return true, StatusOf(read), events;
    }
    assert ch[0] == q[1];
    if ch[0] == '-' {
      events := buffer.EndOfPart();
      events := events + [ParseEnd];
      done := true;
    }
  }

  /** The cases in which the first byte decides. */
  lemma FirstDecides(s: string, q: string, delim: string, b: Buf, ending: ReadStatus)
    requires b.Valid() && |delim| <= MAX_DELIM && |s| == 1 + |delim| + |q|
    ensures q == "" ==> AfterDelimiter(s, q, delim, b, ending) == Stop([], StatusOf(ending))
    ensures q != "" && q[0] != '\r' && q[0] != '-' ==> AfterDelimiter(s, q, delim, b, ending) == Go([], 0, true, b)
  {
  }

  /** The reading that follows a complete delimiter, with its four ways on. */
  method ReadAfterDelimiter(reader: Reader, ch: array<char>, delim: string, buffer: MimeBuffer)
    returns (done: bool, status: ParserStatus, events: seq<Event>, ignore: bool, setMarker: bool)
    requires reader.Valid() && buffer.Valid() && buffer.View().Valid()
    requires |delim| <= MAX_DELIM && ch.Length == 153 && ch != reader.buffer
    requires ch != buffer.data && buffer.data != reader.buffer
    requires 0 <= reader.Mark() && reader.Pos() == reader.Mark() + 1 + |delim|
    modifies reader, reader.buffer, reader.source, ch, buffer, buffer.data
    ensures var s := reader.stream[old(reader.Mark())..];
            var r := AfterDelimiter(s, s[1 + |delim|..], delim, old(buffer.View()), reader.source.ending);
            && done == r.Stop? && events == r.events
            && (done ==> status == r.status)
            && (!done ==> ignore == r.ignore && buffer.View() == r.buf && buffer.Valid())
            && (!done ==> reader.Valid() && reader.Pos() == old(reader.Mark()) + r.skip)
            && (!done && !setMarker ==> reader.Mark() == reader.Pos())
  {
    hide AfterDelimiter;
    done, status, events, ignore, setMarker := false, ParserOk, [], false, true;
    ghost var s := reader.stream[reader.Mark()..];
    ghost var q := s[1 + |delim|..];
    FirstDecides(s, q, delim, buffer.View(), reader.source.ending);
    var read := reader.Read(ch, 0, 1);
    if read != ReadOk {
      return true, StatusOf(read), events, ignore, setMarker;
    }
    assert ch[0] == q[0];
    if ch[0] == '\r' {
      done, status, events := ReadAfterCr(reader, ch, delim, buffer);
      return;
    }
    if ch[0] == '-' {
      done, status, events := ReadAfterHyphen(reader, ch, delim, buffer);
      if done {
        return;
      }
    }
    reader.JumpMarker();
    ignore, setMarker := true, false;
  }

  /** One round of the parser's loop, from its marker. */
  method ReadRound(reader: Reader, ch: array<char>, delim: string, buffer: MimeBuffer, ignored: bool)
    returns (done: bool, status: ParserStatus, events: seq<Event>, ignore: bool, setMarker: bool)
    requires reader.Valid() && buffer.Valid() && buffer.View().Valid()
    requires |delim| <= MAX_DELIM && ch.Length == 153 && ch != reader.buffer
    requires ch != buffer.data && buffer.data != reader.buffer
    requires 0 <= reader.Mark() == reader.Pos()
    modifies reader, reader.buffer, reader.source, ch, buffer, buffer.data
    ensures var r := Round(reader.stream[old(reader.Pos())..], delim, ignored, old(buffer.View()), reader.source.ending);
            && done == r.Stop? && events == r.events
            && (done ==> status == r.status)
            && (!done ==> ignore == r.ignore && buffer.View() == r.buf && buffer.Valid())
            && (!done ==> reader.Valid() && reader.Pos() == old(reader.Pos()) + r.skip)
            && (!done && !setMarker ==> reader.Mark() == reader.Pos())
  {
    done, status, events, ignore, setMarker := false, ParserOk, [], false, true;
    ghost var s := reader.stream[reader.Pos()..];
    var read := reader.Read(ch, 0, 1);
    if read != ReadOk {
      return true, StatusOf(read), events, ignore, setMarker;
    }
    assert ch[0] == s[0];
    if ch[0] == '\r' && !ignored {
      assert s[1..] == reader.stream[reader.Pos()..];
      var n;
      read, n := MatchDelimiter(reader, ch, delim);
      if read != ReadOk {
        return true, StatusOf(read), events, ignore, setMarker;
      }
      if n < |delim| {
        reader.JumpMarker();
        ignore, setMarker := true, false;
      } else {
        done, status, events, ignore, setMarker := ReadAfterDelimiter(reader, ch, delim, buffer);
      }
    } else {
      buffer.Add(ch[0]);
      events := buffer.FlushIfFull();
    }
  }

  /** Run, unfolded by one round. */
  lemma RunUnfolds(s: string, delim: string, ignore: bool, b: Buf, ending: ReadStatus, before: seq<Event>, r: Move)
    requires b.Valid() && |delim| <= MAX_DELIM && r == Round(s, delim, ignore, b, ending)
    ensures r.Stop? ==>
              Run(s, delim, ignore, b, ending).After(before) == Outcome(before + r.events, r.status)
    ensures r.Go? ==>
              (Run(s, delim, ignore, b, ending).After(before)
               == Run(s[r.skip..], delim, r.ignore, r.buf, ending).After(before + r.events))
  {
    if r.Go? {
      var rest := Run(s[r.skip..], delim, r.ignore, r.buf, ending);
      assert before + (r.events + rest.events) == before + r.events + rest.events;
    }
  }

  /** The parser's loop. */
  method Scan(reader: Reader, ch: array<char>, delim: string, buffer: MimeBuffer)
    returns (status: ParserStatus, events: seq<Event>)
    requires reader.Valid() && buffer.Valid() && buffer.View().Valid()
    requires |delim| <= MAX_DELIM && ch.Length == 153 && ch != reader.buffer
    requires ch != buffer.data && buffer.data != reader.buffer
    modifies reader, reader.buffer, reader.source, ch, buffer, buffer.data
    ensures Outcome(events, status)
         == Run(reader.stream[old(reader.Pos())..], delim, false, old(buffer.View()), reader.source.ending)
  {
    var ignore, setMarker, done := false, true, false;
    events := [];
    ghost var s, ending := reader.stream[reader.Pos()..], reader.source.ending;
    ghost var goal := Run(s, delim, false, buffer.View(), ending);
    assert goal.After([]) == goal;
    while true
      invariant reader.Valid() && buffer.Valid() && buffer.View().Valid()
      invariant s == reader.stream[reader.Pos()..]
      invariant setMarker || reader.Mark() == reader.Pos()
      invariant Run(s, delim, ignore, buffer.View(), ending).After(events) == goal
      decreases |s|, if ignore then 0 else 1
    {
      if setMarker {
        reader.SetMarker();
      }
      ghost var r := Round(s, delim, ignore, buffer.View(), ending);
      RunUnfolds(s, delim, ignore, buffer.View(), ending, events, r);
      var more: seq<Event>;
      done, status, more, ignore, setMarker := ReadRound(reader, ch, delim, buffer, ignore);
      events := events + more;
      if done {
        return;
      }
      s := s[r.skip..];
    }
  }

  /**
   The parser. Its callbacks and its status are those of Run on the whole stream,
   however the source cuts the stream into pieces; every read stays within the
   reader's window and every index within the three fixed-size arrays.
   */
  method Parse(source: Source, boundary: string, buffer: MimeBuffer)
    returns (status: ParserStatus, events: seq<Event>)
    requires source.ending != ReadOk && buffer.Valid() && |boundary| + 3 <= MAX_DELIM
    modifies source, buffer, buffer.data
    ensures Outcome(events, status)
         == Run(old(source.rest), "\n--" + boundary, false, Buf(old(buffer.data[..]), 0), source.ending)
            .After([ParseBegin])
  {
    var reader := new Reader(source);
    buffer.Clear();
    var ch := new char[153];
    assert reader.stream[0..] == reader.stream;
    var more;
    status, more := Scan(reader, ch, "\n--" + boundary, buffer);
    events := [ParseBegin] + more;
  }
}
