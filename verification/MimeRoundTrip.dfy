/**
 What the client prints with httpc_mime_next and httpc_mime_end, and what the
 parser makes of it.
 */
module MimeRoundTrip {
  import Lists
  import opened MimeReader
  import opened MimeParser

  /** The text that the client sends before a part, and that the parser looks for. */
  function Delimiter(boundary: string): string {
    "\r\n--" + boundary
  }

  /** A body of parts, each `segment` being its header block and content. */
  function PrintParts(boundary: string, segments: seq<string>): string {
    if segments == [] then Delimiter(boundary) + "--" + "\r\n\r\n"
    else Delimiter(boundary) + "\r\n" + segments[0] + PrintParts(boundary, segments[1..])
  }

  predicate UsableBoundary(boundary: string) {
    '\r' !in boundary && |boundary| + 3 <= MAX_DELIM
  }

  predicate StartsWith(s: string, t: string) {
    |t| <= |s| && s[..|t|] == t
  }

  /** The delimiter at `i`, followed by something that the parser does not read as content. */
  predicate BoundaryAt(s: string, i: nat, boundary: string)
    requires i <= |s|
  {
    var d := Delimiter(boundary);
    && StartsWith(s[i..], d)
    && (StartsWith(s[i + |d|..], "\r") || StartsWith(s[i + |d|..], "--"))
  }

  /** No boundary among the first `n` positions. */
  ghost predicate NoBoundary(s: string, n: nat, boundary: string)
    requires n <= |s|
  {
    forall i :: 0 <= i < n ==> !BoundaryAt(s, i, boundary)
  }

  /** No position of the segment, which the next delimiter follows, reads as a boundary. */
  ghost predicate Plain(segment: string, boundary: string) {
    NoBoundary(segment + "\r\n", |segment|, boundary)
  }

  /** RFC 2046, section 5.1.1: the delimiter must not occur in the encapsulated material. */
  ghost predicate Encapsulated(segment: string, boundary: string) {
    forall i :: 0 <= i < |segment| ==> !StartsWith(segment[i..], Delimiter(boundary))
  }

  /** A line end or two hyphens at `i`. */
  predicate BoundaryEndsAt(s: string, i: nat) {
    i <= |s| && (StartsWith(s[i..], "\r\n") || StartsWith(s[i..], "--"))
  }

  /** The delimiter at `i` with a carriage return but no line feed behind it, which the parser reads as content. */
  predicate LoneCrAt(s: string, i: nat, boundary: string)
    requires i <= |s|
  {
    BoundaryAt(s, i, boundary) && !BoundaryEndsAt(s, i + |Delimiter(boundary)|)
  }

  /**
   Among the first `n` positions nothing but delimiters with a lone carriage return, all of
   which are met with an empty buffer. `offset` is the place of `s` in its part.
   */
  ghost predicate Harmless(s: string, n: nat, offset: nat, boundary: string)
    requires n <= |s|
  {
    forall i :: 0 <= i < n && BoundaryAt(s, i, boundary) ==> LoneCrAt(s, i, boundary) && (offset + i) % FLUSH_SIZE == 0
  }

  /** What the parser leaves as it is: every boundary in the segment is harmless. */
  ghost predicate Intact(segment: string, boundary: string) {
    Harmless(segment + "\r\n", |segment|, 0, boundary)
  }

  lemma PlainIsIntact(segment: string, boundary: string)
    requires Plain(segment, boundary)
    ensures Intact(segment, boundary)
  {
  }

  /** The delimiter does not overlap itself: an occurrence that starts before another one ends before it. */
  lemma {:induction false} NoStraddle(s: string, n: nat, boundary: string)
    requires UsableBoundary(boundary) && 0 < n < |s| && s[n] == '\r'
    requires StartsWith(s, Delimiter(boundary))
    ensures |Delimiter(boundary)| <= n
  {
    var d := Delimiter(boundary);
    forall k | 0 < k < |d|
      ensures s[k] != '\r'
    {
      assert s[k] == s[..|d|][k] == d[k];
      assert k >= 4 ==> d[k] == boundary[k - 4];
    }
  }

  /** A carriage return that does not begin a boundary makes the parser go back to it. */
  lemma GoesBack(s: string, n: nat, boundary: string, b: Buf, ending: ReadStatus)
    requires UsableBoundary(boundary) && b.Valid()
    requires 0 < n <= |s| && StartsWith(s[n..], Delimiter(boundary)) && |s| >= n + |Delimiter(boundary)| + 2
    requires !BoundaryAt(s, 0, boundary) && s[0] == '\r'
    ensures Round(s, Delimiter(boundary)[1..], false, b, ending) == Go([], 0, true, b)
  {
    var d := Delimiter(boundary);
    var delim := d[1..];
    var m := Lcp(s[1..], delim);
    if m == |delim| {
      assert s[..|d|] == [s[0]] + s[1..][..m] == d;
      assert s[n..][..|d|][0] == s[n];
      NoStraddle(s, n, boundary);
      assert s[0..] == s;
    }
  }

  lemma AddsByte(s: string, delim: string, ignore: bool, b: Buf, ending: ReadStatus)
    requires b.Valid() && |delim| <= MAX_DELIM && s != "" && (ignore || s[0] != '\r')
    ensures (var (events, b') := b.Add(s[0]).FlushIfFull();
             Round(s, delim, ignore, b, ending) == Go(events, 1, false, b'))
  {
  }

  lemma AfterNothing(o: Outcome)
    ensures o.After([]) == o
  {
  }

  /** A round that goes on. */
  lemma RunGoes(s: string, delim: string, ignore: bool, b: Buf, ending: ReadStatus, r: Move)
    requires b.Valid() && |delim| <= MAX_DELIM && r.Go? && r == Round(s, delim, ignore, b, ending)
    ensures Run(s, delim, ignore, b, ending) == Run(s[r.skip..], delim, r.ignore, r.buf, ending).After(r.events)
  {
    hide Run;
    RunUnfolds(s, delim, ignore, b, ending, [], r);
    AfterNothing(Run(s, delim, ignore, b, ending));
    assert [] + r.events == r.events;
  }

  /** One content byte: the parser adds it, at once or after one backtracking. */
  lemma ContentByte(s: string, n: nat, boundary: string, b: Buf, ending: ReadStatus)
    requires UsableBoundary(boundary) && b.Valid()
    requires 0 < n <= |s| && StartsWith(s[n..], Delimiter(boundary)) && |s| >= n + |Delimiter(boundary)| + 2
    requires !BoundaryAt(s, 0, boundary)
    ensures (var (events, b') := b.Add(s[0]).FlushIfFull();
             Run(s, Delimiter(boundary)[1..], false, b, ending)
             == Run(s[1..], Delimiter(boundary)[1..], false, b', ending).After(events))
  {
    hide Run, Round, BoundaryAt, StartsWith;
    var delim := Delimiter(boundary)[1..];
    var (events, b') := b.Add(s[0]).FlushIfFull();
    if s[0] == '\r' {
      GoesBack(s, n, boundary, b, ending);
      RunGoes(s, delim, false, b, ending, Go([], 0, true, b));
      assert s[0..] == s;
      AfterNothing(Run(s, delim, true, b, ending));
      AddsByte(s, delim, true, b, ending);
      RunGoes(s, delim, true, b, ending, Go(events, 1, false, b'));
    } else {
      AddsByte(s, delim, false, b, ending);
      RunGoes(s, delim, false, b, ending, Go(events, 1, false, b'));
    }
  }

  lemma HarmlessTail(s: string, n: nat, k: nat, offset: nat, boundary: string)
    requires k <= n <= |s| && Harmless(s, n, offset, boundary)
    ensures Harmless(s[k..], n - k, offset + k, boundary)
  {
    var m := |Delimiter(boundary)|;
    forall i | 0 <= i < n - k && BoundaryAt(s[k..], i, boundary)
      ensures LoneCrAt(s[k..], i, boundary) && (offset + k + i) % FLUSH_SIZE == 0
    {
      assert s[k..][i..] == s[k + i..];
      assert s[k..][i + m..] == s[k + i + m..];
      assert BoundaryAt(s, k + i, boundary);
      assert LoneCrAt(s, k + i, boundary) && (offset + (k + i)) % FLUSH_SIZE == 0;
    }
  }

  /** A delimiter with a line end begins a part. */
  lemma RunPartBegin(rest: string, boundary: string, b: Buf, ending: ReadStatus)
    requires UsableBoundary(boundary) && b.Valid()
    ensures Run(Delimiter(boundary) + "\r\n" + rest, Delimiter(boundary)[1..], false, b, ending)
         == Run(rest, Delimiter(boundary)[1..], false, Buf(b.data, 0), ending).After(b.EndOfPart() + [PartBegin])
  {
    var d := Delimiter(boundary);
    var s := d + "\r\n" + rest;
    assert s[1..][..|d| - 1] == d[1..];
    LcpUnique(s[1..], d[1..], |d| - 1);
    assert s[|d|..] == "\r\n" + rest;
    assert s[|d| + 2..] == rest;
  }

  /** A delimiter with two hyphens ends the parse. */
  lemma RunParseEnd(rest: string, boundary: string, b: Buf, ending: ReadStatus)
    requires UsableBoundary(boundary) && b.Valid()
    ensures Run(Delimiter(boundary) + "--" + rest, Delimiter(boundary)[1..], false, b, ending)
         == Outcome(b.EndOfPart() + [ParseEnd], ParserOk)
  {
    var d := Delimiter(boundary);
    var s := d + "--" + rest;
    assert s[1..][..|d| - 1] == d[1..];
    LcpUnique(s[1..], d[1..], |d| - 1);
    assert s[|d|..] == "--" + rest;
  }

  /** A part is delivered in chunks of FLUSH_SIZE bytes and a shorter last one. */
  function Chunks(content: string): (r: seq<string>)
    ensures forall i :: 0 <= i < |r| ==> 0 < |r[i]| <= FLUSH_SIZE
  {
    if content == "" then []
    else if |content| <= FLUSH_SIZE then [content]
    else [content[..FLUSH_SIZE]] + Chunks(content[FLUSH_SIZE..])
  }

  function Deliver(chunks: seq<string>): seq<Event> {
    if chunks == [] then [] else [Received(chunks[0])] + Deliver(chunks[1..])
  }

  /** part_end is called exactly for parts whose length is not a multiple of FLUSH_SIZE. */
  function PartEvents(content: string): seq<Event> {
    Deliver(Chunks(content)) + if |content| % FLUSH_SIZE == 0 then [] else [PartEnd]
  }

  function Trace(segments: seq<string>): seq<Event> {
    if segments == [] then [ParseEnd]
    else [PartBegin] + PartEvents(segments[0]) + Trace(segments[1..])
  }

  lemma DeliverOne(chunk: string)
    ensures Deliver([chunk]) == [Received(chunk)]
  {
    assert Deliver([chunk]) == [Received(chunk)] + Deliver([]);
  }

  /** A full chunk in front. */
  lemma PartEventsFull(chunk: string, rest: string)
    requires |chunk| == FLUSH_SIZE
    ensures PartEvents(chunk + rest) == [Received(chunk)] + PartEvents(rest)
  {
    var all := chunk + rest;
    assert all[..FLUSH_SIZE] == chunk && all[FLUSH_SIZE..] == rest;
    if rest == "" {
      assert all == chunk;
      DeliverOne(all);
    } else {
      assert ([chunk] + Chunks(rest))[1..] == Chunks(rest);
    }
  }

  /** The shorter last chunk. */
  lemma PartEventsShort(b: Buf)
    requires b.Valid()
    ensures b.EndOfPart() == PartEvents(b.Content())
  {
    DeliverOne(b.Content());
  }

  /** The full chunks of a content, and what is behind them. */
  function Whole(content: string): string {
    content[..|content| - |content| % FLUSH_SIZE]
  }

  function Rest(content: string): string {
    content[|content| - |content| % FLUSH_SIZE..]
  }

  lemma FullLength(n: nat)
    ensures (FLUSH_SIZE + n) % FLUSH_SIZE == n % FLUSH_SIZE && n % FLUSH_SIZE <= n
  {
  }

  lemma WholeFull(chunk: string, rest: string)
    requires |chunk| == FLUSH_SIZE
    ensures Whole(chunk + rest) == chunk + Whole(rest) && Rest(chunk + rest) == Rest(rest)
    ensures Deliver(Chunks(chunk + Whole(rest))) == [Received(chunk)] + Deliver(Chunks(Whole(rest)))
  {
    hide Deliver, Chunks;
    var m := |rest| - |rest| % FLUSH_SIZE;
    FullLength(|rest|);
    assert (chunk + rest)[..FLUSH_SIZE + m] == chunk + rest[..m];
    assert (chunk + rest)[FLUSH_SIZE + m..] == rest[m..];
    DeliverFull(chunk, Whole(rest));
  }

  lemma NothingWhole(content: string)
    requires |content| < FLUSH_SIZE
    ensures Whole(content) == "" && Rest(content) == content && Deliver(Chunks("")) == []
  {
  }

  lemma DeliverFull(chunk: string, rest: string)
    requires |chunk| == FLUSH_SIZE
    ensures Deliver(Chunks(chunk + rest)) == [Received(chunk)] + Deliver(Chunks(rest))
  {
    var all := chunk + rest;
    assert all[..FLUSH_SIZE] == chunk && all[FLUSH_SIZE..] == rest;
    if rest == "" {
      assert all == chunk;
      DeliverOne(all);
    } else {
      assert ([chunk] + Chunks(rest))[1..] == Chunks(rest);
    }
  }

  /** The full chunks and the end of the part are the events of the part. */
  lemma {:induction false} PartEventsSplit(content: string, b: Buf)
    requires b.Valid() && b.Content() == Rest(content)
    ensures Deliver(Chunks(Whole(content))) + b.EndOfPart() == PartEvents(content)
    decreases |content|
  {
    hide PartEvents, Deliver, Chunks, Whole, Rest;
    if |content| < FLUSH_SIZE {
      NothingWhole(content);
      PartEventsShort(b);
      assert [] + b.EndOfPart() == b.EndOfPart();
    } else {
      var chunk, rest := content[..FLUSH_SIZE], content[FLUSH_SIZE..];
      assert content == chunk + rest;
      WholeFull(chunk, rest);
      PartEventsSplit(rest, b);
      PartEventsFull(chunk, rest);
      assert [Received(chunk)] + (Deliver(Chunks(Whole(rest))) + b.EndOfPart())
          == [Received(chunk)] + Deliver(Chunks(Whole(rest))) + b.EndOfPart();
    }
  }

  /** The delimiter and a lone carriage return are copied to the start of the buffer. */
  lemma KeepsDelimiter(s: string, boundary: string, b: Buf, ending: ReadStatus)
    requires UsableBoundary(boundary) && b.Valid() && LoneCrAt(s, 0, boundary) && |s| >= |Delimiter(boundary)| + 2
    ensures StartsWith(s, Delimiter(boundary) + "\r")
    ensures (var d := Delimiter(boundary);
             var (events, b') := b.AddBytes(d + "\r").FlushIfFull();
             Round(s, d[1..], false, b, ending) == Go(events, |d| + 1, false, b'))
  {
    var d := Delimiter(boundary);
    assert s[0..] == s && s[..|d|] == d;
    assert s[|d|..][..1] == "\r";
    assert s[|d|..][..2] == [s[|d|], s[|d| + 1]];
    assert s[1..][..|d| - 1] == d[1..];
    LcpUnique(s[1..], d[1..], |d| - 1);
    assert s[..|d| + 1] == d + "\r";
  }

  /** With an empty buffer nothing is lost by that. */
  lemma HarmlessCopy(s: string, n: nat, boundary: string, b: Buf, ending: ReadStatus)
    requires UsableBoundary(boundary) && b.Valid() && b.size == 0 && n <= |s| && LoneCrAt(s, 0, boundary)
    requires n > 0 && StartsWith(s[n..], Delimiter(boundary)) && |s| >= n + |Delimiter(boundary)| + 2
    ensures (var d := Delimiter(boundary);
             var b' := b.AddBytes(d + "\r");
             && |d| + 1 <= n && b'.Valid() && b'.size == |d| + 1 && b'.Content() == d + "\r" == s[..|d| + 1]
             && Run(s, d[1..], false, b, ending) == Run(s[|d| + 1..], d[1..], false, b', ending))
  {
    hide Run, Round;
    var d := Delimiter(boundary);
    KeepsDelimiter(s, boundary, b, ending);
    var b' := b.AddBytes(d + "\r");
    RunGoes(s, d[1..], false, b, ending, Go([], |d| + 1, false, b'));
    AfterNothing(Run(s[|d| + 1..], d[1..], false, b', ending));
    assert s[0..] == s && s[n..][..|d|][0] == s[n] == '\r';
    NoStraddle(s, n, boundary);
    DelimiterEnds(s, n, boundary);
  }

  /** A delimiter begins with a line end. */
  lemma DelimiterEnds(s: string, i: nat, boundary: string)
    requires i <= |s| && StartsWith(s[i..], Delimiter(boundary))
    ensures BoundaryEndsAt(s, i)
  {
    assert s[i..][..2] == s[i..][..|Delimiter(boundary)|][..2] == "\r\n";
  }

  /** A run of content before a delimiter: full chunks are delivered, the rest stays in the buffer. */
  lemma {:induction false} RunContent(s: string, n: nat, offset: nat, boundary: string, b: Buf, ending: ReadStatus) returns (b': Buf)
    requires UsableBoundary(boundary) && b.Valid() && b.size == offset % FLUSH_SIZE
    requires n <= |s| && StartsWith(s[n..], Delimiter(boundary)) && |s| >= n + |Delimiter(boundary)| + 2
    requires Harmless(s, n, offset, boundary)
    ensures b'.Valid() && b'.Content() == Rest(b.Content() + s[..n])
    ensures Run(s, Delimiter(boundary)[1..], false, b, ending)
         == Run(s[n..], Delimiter(boundary)[1..], false, b', ending).After(Deliver(Chunks(Whole(b.Content() + s[..n]))))
    decreases n
  {
    hide Run, BoundaryAt, BoundaryEndsAt, StartsWith, Harmless, Whole, Rest, Deliver, Chunks;
    var d := Delimiter(boundary);
    if n == 0 {
      b' := b;
      NothingWhole(b.Content());
      assert s[0..] == s && b.Content() + s[..0] == b.Content();
      AfterNothing(Run(s, d[1..], false, b, ending));
    } else if BoundaryAt(s, 0, boundary) {
      HarmlessFirst(s, n, offset, boundary);
      HarmlessCopy(s, n, boundary, b, ending);
      var k, b1 := |d| + 1, b.AddBytes(d + "\r");
      HarmlessTail(s, n, k, offset, boundary);
      Slices(s, n, k);
      AddedSizes(offset, k);
      b' := RunContent(s[k..], n - k, offset + k, boundary, b1, ending);
      assert b.Content() + s[..n] == s[..n];
    } else {
      var (events, b1) := b.Add(s[0]).FlushIfFull();
      AddedSize(b, s[0], offset);
      ContentByte(s, n, boundary, b, ending);
      HarmlessTail(s, n, 1, offset, boundary);
      Slices(s, n, 1);
      b' := RunContent(s[1..], n - 1, offset + 1, boundary, b1, ending);
      OneMore(b, s[..n], b1, events, Run(s[n..], d[1..], false, b', ending));
    }
  }

  lemma Slices(s: string, n: nat, k: nat)
    requires k <= n <= |s|
    ensures s[k..][n - k..] == s[n..] && s[..k] + s[k..][..n - k] == s[..n] && s[..n][k..] == s[k..][..n - k]
  {
  }

  lemma AddedSizes(offset: nat, k: nat)
    requires offset % FLUSH_SIZE == 0 && k < FLUSH_SIZE
    ensures (offset + k) % FLUSH_SIZE == k
  {
  }

  lemma AddedSize(b: Buf, c: char, offset: nat)
    requires b.Valid() && b.size == offset % FLUSH_SIZE
    ensures b.Add(c).FlushIfFull().1.size == (offset + 1) % FLUSH_SIZE
  {
  }

  lemma HarmlessFirst(s: string, n: nat, offset: nat, boundary: string)
    requires 0 < n <= |s| && Harmless(s, n, offset, boundary) && BoundaryAt(s, 0, boundary)
    ensures LoneCrAt(s, 0, boundary) && offset % FLUSH_SIZE == 0
  {
    assert (offset + 0) % FLUSH_SIZE == 0;
  }

  /** A byte added, and the content behind it. */
  lemma OneMore(b: Buf, content: string, b1: Buf, events: seq<Event>, r: Outcome)
    requires b.Valid() && content != "" && (events, b1) == b.Add(content[0]).FlushIfFull()
    ensures Rest(b1.Content() + content[1..]) == Rest(b.Content() + content)
    ensures r.After(Deliver(Chunks(Whole(b1.Content() + content[1..])))).After(events)
         == r.After(Deliver(Chunks(Whole(b.Content() + content))))
  {
    hide Whole, Rest, Deliver, Chunks;
    var more := Deliver(Chunks(Whole(b1.Content() + content[1..])));
    assert events + (more + r.events) == events + more + r.events;
    var chunk := b.Add(content[0]).Content();
    assert b.Content() + content == chunk + content[1..];
    if |chunk| == FLUSH_SIZE {
      WholeFull(chunk, content[1..]);
      assert b1.Content() + content[1..] == content[1..];
    } else {
      assert [] + more == more;
    }
  }

  lemma IntactIs(segment: string, boundary: string)
    requires Intact(segment, boundary)
    ensures Harmless(segment + "\r\n", |segment|, 0, boundary)
  {
  }

  /** Printing and parsing: the status, and every callback with its bytes. */
  lemma {:induction false} RunPrinted(segments: seq<string>, boundary: string, b: Buf, ending: ReadStatus)
    requires UsableBoundary(boundary) && b.Valid()
    requires forall s :: s in segments ==> Intact(s, boundary)
    ensures Run(PrintParts(boundary, segments), Delimiter(boundary)[1..], false, b, ending)
         == Outcome(b.EndOfPart() + Trace(segments), ParserOk)
    decreases |segments|
  {
    hide Run, Whole, Rest, PartEvents, Intact, Harmless, Deliver, Chunks, StartsWith, BoundaryAt;
    var d := Delimiter(boundary);
    if segments == [] {
      RunParseEnd("\r\n\r\n", boundary, b, ending);
      assert d + "--" + "\r\n\r\n" == PrintParts(boundary, segments);
    } else {
      var content, rest := segments[0], PrintParts(boundary, segments[1..]);
      assert d + "\r\n" + (content + rest) == PrintParts(boundary, segments);
      RunPartBegin(content + rest, boundary, b, ending);
      assert content in segments;
      PrintedStart(boundary, segments[1..]);
      IntactIs(content, boundary);
      var b' := RunSegment(content, rest, |content|, boundary, Buf(b.data, 0), ending);
      assert content[..|content|] == content && (content + rest)[|content|..] == rest;
      RunPrinted(segments[1..], boundary, b', ending);
      PartEventsSplit(content, b');
      var chunks := Deliver(Chunks(Whole(content)));
      assert b.EndOfPart() + [PartBegin] + (chunks + (b'.EndOfPart() + Trace(segments[1..])))
          == b.EndOfPart() + ([PartBegin] + (chunks + b'.EndOfPart()) + Trace(segments[1..]));
    }
  }

  /** A segment on the wire, as far as position `n`. */
  lemma RunSegment(content: string, rest: string, n: nat, boundary: string, b: Buf, ending: ReadStatus) returns (b': Buf)
    requires UsableBoundary(boundary) && b.Valid() && b.size == 0 && n <= |content|
    requires StartsWith(rest, Delimiter(boundary)) && |rest| >= |Delimiter(boundary)| + 2
    requires Harmless(content + "\r\n", n, 0, boundary)
    requires n < |content| ==> BoundaryAt(content + "\r\n", n, boundary)
    ensures b'.Valid() && b'.Content() == Rest(content[..n])
    ensures Run(content + rest, Delimiter(boundary)[1..], false, b, ending)
         == Run((content + rest)[n..], Delimiter(boundary)[1..], false, b', ending).After(Deliver(Chunks(Whole(content[..n]))))
  {
    hide Run, Whole, Rest, Deliver, Chunks;
    var s := content + rest;
    HarmlessInPlace(content, rest, n, boundary);
    if n < |content| {
      SameBoundaries(content, rest, n, boundary);
    } else {
      assert s[n..] == rest;
    }
    b' := RunContent(s, n, 0, boundary, b, ending);
    assert b.Content() + s[..n] == content[..n];
  }

  /** What follows a segment on the wire starts with a delimiter. */
  lemma PrintedStart(boundary: string, segments: seq<string>)
    ensures StartsWith(PrintParts(boundary, segments), Delimiter(boundary))
    ensures |PrintParts(boundary, segments)| >= |Delimiter(boundary)| + 2
  {
  }

  /** On the wire the segment has no boundaries but those seen in the segment itself. */
  lemma HarmlessInPlace(content: string, rest: string, n: nat, boundary: string)
    requires UsableBoundary(boundary) && n <= |content| && Harmless(content + "\r\n", n, 0, boundary)
    requires StartsWith(rest, Delimiter(boundary))
    ensures Harmless(content + rest, n, 0, boundary)
  {
    hide BoundaryAt, BoundaryEndsAt;
    forall i | 0 <= i < n && BoundaryAt(content + rest, i, boundary)
      ensures LoneCrAt(content + rest, i, boundary) && (0 + i) % FLUSH_SIZE == 0
    {
      SameBoundaries(content, rest, i, boundary);
      assert BoundaryAt(content + "\r\n", i, boundary);
    }
  }

  /** Whether a position of the segment reads as a boundary is seen from the segment and the next CRLF. */
  lemma SameBoundaries(content: string, rest: string, i: nat, boundary: string)
    requires UsableBoundary(boundary) && i < |content|
    requires StartsWith(rest, Delimiter(boundary))
    ensures BoundaryAt(content + rest, i, boundary) == BoundaryAt(content + "\r\n", i, boundary)
    ensures BoundaryAt(content + rest, i, boundary) ==>
              (var k := i + |Delimiter(boundary)|;
               && k <= |content| && (content + rest)[k..][..2] == (content + "\r\n")[k..][..2]
               && BoundaryEndsAt(content + rest, k) == BoundaryEndsAt(content + "\r\n", k))
  {
    var d := Delimiter(boundary);
    var u, v := content + "\r\n", content + rest;
    assert rest[0] == rest[..|d|][0] == '\r' && rest[1] == rest[..|d|][1] == '\n';
    assert u[i..][|content| - i] == '\r' && v[i..][|content| - i] == '\r';
    if StartsWith(u[i..], d) {
      NoStraddle(u[i..], |content| - i, boundary);
      assert v[i..][..|d|] == u[i..][..|d|];
    }
    if StartsWith(v[i..], d) {
      NoStraddle(v[i..], |content| - i, boundary);
      assert v[i..][..|d|] == u[i..][..|d|];
      assert u[i + |d|..][..2] == v[i + |d|..][..2];
      assert u[i + |d|..][..1] == v[i + |d|..][..1];
    }
  }

  lemma DelimiterInSegment(segment: string, i: nat, boundary: string)
    requires UsableBoundary(boundary) && i < |segment|
    requires StartsWith((segment + "\r\n")[i..], Delimiter(boundary))
    ensures StartsWith(segment[i..], Delimiter(boundary))
  {
    var u := segment + "\r\n";
    assert u[i..][|segment| - i] == '\r';
    NoStraddle(u[i..], |segment| - i, boundary);
    assert segment[i..][..|Delimiter(boundary)|] == u[i..][..|Delimiter(boundary)|];
  }

  lemma EncapsulatedIsPlain(segment: string, boundary: string)
    requires UsableBoundary(boundary) && Encapsulated(segment, boundary)
    ensures Plain(segment, boundary)
  {
    forall i | 0 <= i < |segment| && StartsWith((segment + "\r\n")[i..], Delimiter(boundary))
      ensures StartsWith(segment[i..], Delimiter(boundary))
    {
      DelimiterInSegment(segment, i, boundary);
    }
  }

  /** The bytes received before the next part_begin or parse_end. */
  function Body(events: seq<Event>): string {
    if events == [] || events[0].PartBegin? || events[0].ParseEnd? then ""
    else (if events[0].Received? then events[0].bytes else "") + Body(events[1..])
  }

  /** The received bytes of each part: everything between its part_begin and the next one. */
  function Bodies(events: seq<Event>): seq<string> {
    if events == [] then []
    else (if events[0].PartBegin? then [Body(events[1..])] else []) + Bodies(events[1..])
  }

  ghost predicate EndsPart(events: seq<Event>) {
    events != [] && (events[0].PartBegin? || events[0].ParseEnd?)
  }

  ghost predicate NoPartBegin(events: seq<Event>) {
    forall e :: e in events ==> !e.PartBegin?
  }

  lemma {:induction false} BodiesSkip(events: seq<Event>, more: seq<Event>)
    requires NoPartBegin(events)
    ensures Bodies(events + more) == Bodies(more)
  {
    if events == [] {
      assert events + more == more;
    } else {
      assert (events + more)[1..] == events[1..] + more;
      BodiesSkip(events[1..], more);
    }
  }

  lemma BodyCons(bytes: string, more: seq<Event>)
    ensures Body([Received(bytes)] + more) == bytes + Body(more)
  {
    assert ([Received(bytes)] + more)[1..] == more;
  }

  lemma ChunksStep(content: string)
    requires content != ""
    ensures var n := Min(|content|, FLUSH_SIZE);
            Deliver(Chunks(content)) == [Received(content[..n])] + Deliver(Chunks(content[n..]))
  {
    if |content| <= FLUSH_SIZE {
      assert content[..|content|] == content;
      DeliverOne(content);
    } else {
      var rest := Chunks(content[FLUSH_SIZE..]);
      assert ([content[..FLUSH_SIZE]] + rest)[1..] == rest;
    }
  }

  lemma {:induction false} BodyOfChunks(content: string, more: seq<Event>)
    ensures Body(Deliver(Chunks(content)) + more) == content + Body(more)
    ensures NoPartBegin(Deliver(Chunks(content)))
    decreases |content|
  {
    hide Body, Chunks;
    if content == "" {
      NothingWhole("");
      assert [] + more == more && "" + Body(more) == Body(more);
    } else {
      var n := Min(|content|, FLUSH_SIZE);
      var first, rest := content[..n], content[n..];
      ChunksStep(content);
      BodyOfChunks(rest, more);
      BodyCons(first, Deliver(Chunks(rest)) + more);
      Lists.Assoc([Received(first)], Deliver(Chunks(rest)), more);
      Lists.Assoc(first, rest, Body(more));
      assert content == first + rest;
    }
  }

  lemma BodyOfPart(content: string, more: seq<Event>)
    requires EndsPart(more)
    ensures Body(PartEvents(content) + more) == content
    ensures NoPartBegin(PartEvents(content))
  {
    hide Chunks, Deliver;
    var chunks := Deliver(Chunks(content));
    var end := if |content| % FLUSH_SIZE == 0 then [] else [PartEnd];
    assert PartEvents(content) + more == chunks + (end + more);
    BodyOfChunks(content, end + more);
    if end == [] {
      assert end + more == more;
    } else {
      assert (end + more)[1..] == more;
    }
    assert content + "" == content;
  }

  lemma BodiesOfPart(content: string, more: seq<Event>)
    requires EndsPart(more)
    ensures Bodies([PartBegin] + PartEvents(content) + more) == [content] + Bodies(more)
  {
    hide PartEvents;
    assert ([PartBegin] + PartEvents(content) + more)[1..] == PartEvents(content) + more;
    BodyOfPart(content, more);
    BodiesSkip(PartEvents(content), more);
  }

  /** Every part of the trace has the bytes of its segment. */
  lemma {:induction false} TraceBodies(segments: seq<string>)
    ensures Bodies(Trace(segments)) == segments && EndsPart(Trace(segments))
  {
    if segments != [] {
      TraceBodies(segments[1..]);
      BodiesOfPart(segments[0], Trace(segments[1..]));
    } else {
      assert Bodies([ParseEnd]) == Bodies([ParseEnd][1..]);
    }
  }

  /** The single received_bytes callbacks before the next part_begin or parse_end. */
  function ChunksOf(events: seq<Event>): seq<string> {
    if events == [] || events[0].PartBegin? || events[0].ParseEnd? then []
    else (if events[0].Received? then [events[0].bytes] else []) + ChunksOf(events[1..])
  }

  /** The same for every part. */
  function PartChunks(events: seq<Event>): seq<seq<string>> {
    if events == [] then []
    else (if events[0].PartBegin? then [ChunksOf(events[1..])] else []) + PartChunks(events[1..])
  }

  lemma {:induction false} PartChunksSkip(events: seq<Event>, more: seq<Event>)
    requires NoPartBegin(events)
    ensures PartChunks(events + more) == PartChunks(more)
  {
    if events == [] {
      assert events + more == more;
    } else {
      assert (events + more)[1..] == events[1..] + more;
      PartChunksSkip(events[1..], more);
    }
  }

  lemma ChunksOfCons(event: Event, rest: seq<Event>)
    ensures event.Received? ==> ChunksOf([event] + rest) == [event.bytes] + ChunksOf(rest)
    ensures event.PartEnd? ==> ChunksOf([event] + rest) == ChunksOf(rest)
    ensures PartChunks([event] + rest) == (if event.PartBegin? then [ChunksOf(rest)] else []) + PartChunks(rest)
  {
    assert ([event] + rest)[1..] == rest;
  }

  lemma {:induction false} ChunksOfDelivered(chunks: seq<string>, more: seq<Event>)
    ensures ChunksOf(Deliver(chunks) + more) == chunks + ChunksOf(more)
  {
    hide ChunksOf;
    if chunks == [] {
      assert Deliver(chunks) + more == more && chunks + ChunksOf(more) == ChunksOf(more);
    } else {
      var first, rest := Received(chunks[0]), Deliver(chunks[1..]) + more;
      assert Deliver(chunks) + more == [first] + rest;
      ChunksOfCons(first, rest);
      ChunksOfDelivered(chunks[1..], more);
      Lists.Assoc([chunks[0]], chunks[1..], ChunksOf(more));
      assert [chunks[0]] + chunks[1..] == chunks;
    }
  }

  lemma ChunksOfPart(content: string, more: seq<Event>)
    requires EndsPart(more)
    ensures ChunksOf(PartEvents(content) + more) == Chunks(content)
    ensures PartChunks([PartBegin] + PartEvents(content) + more) == [Chunks(content)] + PartChunks(more)
  {
    hide Chunks, Deliver;
    var end := if |content| % FLUSH_SIZE == 0 then [] else [PartEnd];
    assert PartEvents(content) + more == Deliver(Chunks(content)) + (end + more);
    ChunksOfDelivered(Chunks(content), end + more);
    if end == [] {
      assert end + more == more;
    } else {
      assert (end + more)[1..] == more;
    }
    assert Chunks(content) + [] == Chunks(content);
    assert ([PartBegin] + PartEvents(content) + more)[1..] == PartEvents(content) + more;
    BodyOfPart(content, more);
    PartChunksSkip(PartEvents(content), more);
  }

  lemma NoPartChunks()
    ensures PartChunks([ParseEnd]) == []
  {
    assert [ParseEnd] + [] == [ParseEnd];
    ChunksOfCons(ParseEnd, []);
  }

  /** Every part of the trace is received in the chunks of its segment. */
  lemma {:induction false} TraceChunks(segments: seq<string>)
    ensures |PartChunks(Trace(segments))| == |segments|
    ensures forall i :: 0 <= i < |segments| ==> PartChunks(Trace(segments))[i] == Chunks(segments[i])
  {
    hide Chunks, PartEvents, PartChunks;
    if segments != [] {
      TraceBodies(segments[1..]);
      TraceChunks(segments[1..]);
      ChunksOfPart(segments[0], Trace(segments[1..]));
      assert PartChunks(Trace(segments)) == [Chunks(segments[0])] + PartChunks(Trace(segments[1..]));
    } else {
      NoPartChunks();
    }
  }

  /** A boundary at position `i` of the first segment cuts the part there. */
  lemma RunCut(content: string, rest: string, i: nat, boundary: string, b: Buf, ending: ReadStatus)
    requires UsableBoundary(boundary) && b.Valid() && b.size == 0 && i < |content|
    requires StartsWith(rest, Delimiter(boundary)) && |rest| >= |Delimiter(boundary)| + 2
    requires Harmless(content + "\r\n", i, 0, boundary) && BoundaryAt(content + "\r\n", i, boundary)
    requires BoundaryEndsAt(content + "\r\n", i + |Delimiter(boundary)|)
    ensures Body(Run(content + rest, Delimiter(boundary)[1..], false, b, ending).events) == content[..i]
  {
    hide Run, Whole, Rest, PartEvents, Harmless, Deliver, Chunks;
    var s := content + rest;
    SameBoundaries(content, rest, i, boundary);
    var b' := RunSegment(content, rest, i, boundary, b, ending);
    BoundaryFrom(s, i, boundary);
    var tail := BoundaryEnds(s[i..], boundary, b', ending);
    PartEventsSplit(content[..i], b');
    BodyOfPart(content[..i], tail);
    var chunks := Deliver(Chunks(Whole(content[..i])));
    assert chunks + (b'.EndOfPart() + tail) == (chunks + b'.EndOfPart()) + tail;
  }

  lemma BoundaryFrom(s: string, i: nat, boundary: string)
    requires i <= |s| && BoundaryAt(s, i, boundary)
    ensures BoundaryAt(s[i..], 0, boundary)
    ensures BoundaryEndsAt(s, i + |Delimiter(boundary)|) == BoundaryEndsAt(s[i..], |Delimiter(boundary)|)
  {
    var k := |Delimiter(boundary)|;
    assert s[i..][0..] == s[i..];
    assert s[i..][k..] == s[i + k..];
  }

  lemma BoundaryEnds(s: string, boundary: string, b: Buf, ending: ReadStatus) returns (tail: seq<Event>)
    requires UsableBoundary(boundary) && b.Valid()
    requires StartsWith(s, Delimiter(boundary)) && BoundaryEndsAt(s, |Delimiter(boundary)|)
    ensures EndsPart(tail)
    ensures Run(s, Delimiter(boundary)[1..], false, b, ending).events == b.EndOfPart() + tail
  {
    hide Run;
    var d := Delimiter(boundary);
    var z := s[|d| + 2..];
    if StartsWith(s[|d|..], "--") {
      assert s == d + "--" + z;
      RunParseEnd(z, boundary, b, ending);
      tail := [ParseEnd];
    } else {
      assert s == d + "\r\n" + z;
      RunPartBegin(z, boundary, b, ending);
      var r := Run(z, d[1..], false, Buf(b.data, 0), ending);
      tail := [PartBegin] + r.events;
      assert b.EndOfPart() + [PartBegin] + r.events == b.EndOfPart() + tail;
    }
  }
}
