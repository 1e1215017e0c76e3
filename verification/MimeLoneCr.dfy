/**
 Parts that contain the delimiter and a lone carriage return. The parser reads these as
 content, but copies them to the start of its buffer instead of appending them, so that
 bytes left over in the buffer may decide what comes back.
 */
module MimeLoneCr {
  import opened Lists
  import opened MimeReader
  import opened MimeParser
  import opened MimeRoundTrip

  /** The bytes that the parser copies. */
  function Kept(boundary: string): string {
    Delimiter(boundary) + "\r"
  }

  /** Copying the bytes has the effect of appending them; see AppendsIfEmpty. */
  predicate Appends(b: Buf, bytes: string)
    requires b.size + |bytes| <= |b.data|
  {
    b.AddBytes(bytes).Content() == b.Content() + bytes
  }

  /**
   The buffer after `n` bytes of content in front of a delimiter or line end; None once a
   boundary has ended the content or a copy has not had the effect of appending.
   */
  ghost function Absorb(s: string, n: nat, boundary: string, b: Buf): (r: Option<Buf>)
    requires UsableBoundary(boundary) && b.Valid() && n <= |s|
    ensures r.Some? ==> r.value.Valid()
    decreases n
  {
    var kept := Kept(boundary);
    if n == 0 then Some(b)
    else if !BoundaryAt(s, 0, boundary) then Absorb(s[1..], n - 1, boundary, b.Add(s[0]).FlushIfFull().1)
    else if LoneCrAt(s, 0, boundary) && |kept| <= n && Appends(b, kept) then
      Absorb(s[|kept|..], n - |kept|, boundary, b.AddBytes(kept).FlushIfFull().1)
    else None
  }

  /** The same for a list of segments, each read on from the array that the one before leaves. */
  ghost predicate Survive(segments: seq<string>, boundary: string, b: Buf)
    requires UsableBoundary(boundary) && b.Valid()
  {
    segments == []
    || var r := Absorb(segments[0] + "\r\n", |segments[0]|, boundary, Buf(b.data, 0));
       r.Some? && Survive(segments[1..], boundary, r.value)
  }

  // ---------------------------------------------------------------- the parser against Absorb

  /** The buffer begins with the copied bytes, as it does once they have been copied. */
  ghost predicate Overwritten(b: Buf, boundary: string) {
    b.Valid() && |Kept(boundary)| <= b.size && StartsWith(b.data, Kept(boundary))
  }

  /** Copying the bytes to a buffer, and the test for a full one. */
  lemma CopyOverwrites(b: Buf, boundary: string)
    requires UsableBoundary(boundary) && b.Valid()
    ensures var b1 := b.AddBytes(Kept(boundary));
            var (events, b') := b1.FlushIfFull();
            && (Overwritten(b, boundary) ==> b.Content() <= b1.Content())
            && if events == [] then b' == b1 && Overwritten(b', boundary) else events == [Received(b1.Content())]
  {
    var kept := Kept(boundary);
    var b1 := b.AddBytes(kept);
    assert b1.data[..|kept|] == kept;
    if Overwritten(b, boundary) {
      assert b1.data == b.data;
    }
  }

  /** Adding a byte behind them, likewise. */
  lemma AddKeeps(b: Buf, c: char, boundary: string)
    requires UsableBoundary(boundary) && Overwritten(b, boundary)
    ensures var b1 := b.Add(c);
            var (events, b') := b1.FlushIfFull();
            && b.Content() <= b1.Content()
            && if events == [] then b' == b1 && Overwritten(b', boundary) else events == [Received(b1.Content())]
  {
    var kept, b1 := Kept(boundary), b.Add(c);
    assert b1.data[..|kept|] == b.data[..|kept|];
    assert b1.data[..b.size] == b.data[..b.size];
  }

  /** One round: either the contents only grow and nothing is delivered, or what is delivered begins with them. */
  lemma StaysOverwritten(s: string, ignore: bool, boundary: string, b: Buf, ending: ReadStatus)
    requires UsableBoundary(boundary) && Overwritten(b, boundary)
    ensures var r := Round(s, Delimiter(boundary)[1..], ignore, b, ending);
            if r.events == [] then r.Go? ==> Overwritten(r.buf, boundary) && b.Content() <= r.buf.Content()
            else r.events[0].Received? && b.Content() <= r.events[0].bytes
  {
    hide Overwritten;
    var d, kept := Delimiter(boundary), Kept(boundary);
    OverwrittenIsValid(b, boundary);
    if s != "" {
      if s[0] == '\r' && !ignore {
        var m := Lcp(s[1..], d[1..]);
        if m == |d| - 1 {
          assert s[..|d|] == [s[0]] + s[1..][..m] == d;
          var q := s[1 + m..];
          if q != "" && q[0] == '\r' && |q| > 1 && q[1] != '\n' {
            assert s[..|d| + 1] == kept;
            CopyOverwrites(b, boundary);
          }
        }
      } else {
        AddKeeps(b, s[0], boundary);
      }
    }
  }

  lemma OverwrittenIsValid(b: Buf, boundary: string)
    requires Overwritten(b, boundary)
    ensures b.Valid() && b.size > 0
  {
  }

  /** Whatever the stream, the contents of an overwritten buffer are delivered as they are, if at all. */
  lemma {:induction false} BodyShowsIt(s: string, ignore: bool, boundary: string, b: Buf, ending: ReadStatus)
    requires UsableBoundary(boundary) && Overwritten(b, boundary)
    ensures var body := Body(Run(s, Delimiter(boundary)[1..], ignore, b, ending).events);
            body == "" || b.Content() <= body
    decreases |s|, if ignore then 0 else 1
  {
    hide Run, Round, Overwritten;
    var delim := Delimiter(boundary)[1..];
    OverwrittenIsValid(b, boundary);
    var r := Round(s, delim, ignore, b, ending);
    RunUnfolds(s, delim, ignore, b, ending, [], r);
    AfterNothing(Run(s, delim, ignore, b, ending));
    StaysOverwritten(s, ignore, boundary, b, ending);
    if r.Go? {
      var after := Run(s[r.skip..], delim, r.ignore, r.buf, ending);
      if r.events == [] {
        AfterNothing(after);
        BodyShowsIt(s[r.skip..], r.ignore, boundary, r.buf, ending);
      } else {
        BodyStarts(r.events, after.events);
        assert [] + r.events == r.events;
      }
    } else if r.events != [] {
      BodyStarts(r.events, []);
      assert [] + r.events == r.events == r.events + [];
    }
  }

  lemma BodyStarts(events: seq<Event>, more: seq<Event>)
    requires events != [] && events[0].Received?
    ensures events[0].bytes <= Body(events + more)
  {
    var rest := (events + more)[1..];
    assert Body(events + more) == events[0].bytes + Body(rest);
  }

  ghost predicate AllReceived(events: seq<Event>) {
    forall e :: e in events ==> e.Received?
  }

  lemma {:induction false} BodyJoin(events: seq<Event>, more: seq<Event>)
    requires AllReceived(events)
    ensures Body(events + more) == Body(events) + Body(more)
  {
    if events == [] {
      assert events + more == more;
    } else {
      assert (events + more)[1..] == events[1..] + more;
      BodyJoin(events[1..], more);
    }
  }

  lemma FlushKeeps(b: Buf)
    requires b.size <= |b.data|
    ensures var (events, b') := b.FlushIfFull(); AllReceived(events) && Body(events) + b'.Content() == b.Content()
  {
    if b.size >= FLUSH_SIZE {
      assert Body([Received(b.Content())]) == b.Content() + Body([Received(b.Content())][1..]);
    }
  }

  /** Bytes added as they should be, and what is found of the rest `tail` of the content. */
  lemma AddedBack(b: Buf, added: Buf, piece: string, tail: string, after: seq<Event>)
    requires b.size <= |b.data| && added.size <= |added.data| && added.Content() == b.Content() + piece
    ensures var (events, b1) := added.FlushIfFull();
            Body(events + after) == b.Content() + (piece + tail) <==> Body(after) == b1.Content() + tail
  {
    hide Body;
    var (events, b1) := added.FlushIfFull();
    FlushKeeps(added);
    BodyJoin(events, after);
    Assoc(b.Content(), piece, tail);
    Assoc(Body(events), b1.Content(), tail);
    CancelsLeft(Body(events), Body(after), b1.Content() + tail);
  }

  lemma CancelsLeft(a: string, x: string, y: string)
    ensures a + x == a + y <==> x == y
  {
    assert (a + x)[|a|..] == x && (a + y)[|a|..] == y;
  }

  /** What Run makes of `n` bytes of content. */
  ghost predicate Absorbed(s: string, n: nat, boundary: string, b: Buf, ending: ReadStatus, r: Option<Buf>, events: seq<Event>)
    requires UsableBoundary(boundary) && b.Valid() && n <= |s| && (r.Some? ==> r.value.Valid())
  {
    var all, delim := b.Content() + s[..n], Delimiter(boundary)[1..];
    var run := Run(s, delim, false, b, ending);
    match r
    case None => Body(run.events) != all
    case Some(b') =>
      && AllReceived(events) && Body(events) + b'.Content() == all
      && run == Run(s[n..], delim, false, b', ending).After(events)
  }

  /** A round of the parser that adds `k` bytes of the content, as it should. */
  lemma AbsorbedOn(s: string, n: nat, k: nat, boundary: string, b: Buf, added: Buf, ending: ReadStatus, r: Option<Buf>, events: seq<Event>)
    requires UsableBoundary(boundary) && b.Valid() && k <= n <= |s| && (r.Some? ==> r.value.Valid())
    requires added.size <= |added.data| && added.Content() == b.Content() + s[..k] && added.FlushIfFull().1.Valid()
    requires (var (flushed, b1) := added.FlushIfFull();
              && Run(s, Delimiter(boundary)[1..], false, b, ending)
                 == Run(s[k..], Delimiter(boundary)[1..], false, b1, ending).After(flushed)
              && Absorbed(s[k..], n - k, boundary, b1, ending, r, events))
    ensures Absorbed(s, n, boundary, b, ending, r, added.FlushIfFull().0 + events)
  {
    hide Run, Body;
    var delim := Delimiter(boundary)[1..];
    var (flushed, b1) := added.FlushIfFull();
    Slices(s, n, k);
    var tail := s[k..][..n - k];
    var after := Run(s[k..], delim, false, b1, ending);
    FlushKeeps(added);
    if r.None? {
      AddedBack(b, added, s[..k], tail, after.events);
    } else {
      BodyJoin(flushed, events);
      Assoc(Body(flushed), Body(events), r.value.Content());
      Assoc(Body(flushed), b1.Content(), tail);
      Assoc(b.Content(), s[..k], tail);
      Assoc(flushed, events, Run(s[n..], delim, false, r.value, ending).events);
    }
  }

  /** A delimiter with a lone carriage return is content, and ends before the line end behind the content. */
  lemma KeptFits(s: string, n: nat, boundary: string)
    requires UsableBoundary(boundary) && 0 < n <= |s| && StartsWith(s[n..], "\r\n") && LoneCrAt(s, 0, boundary)
    ensures |Kept(boundary)| <= n && StartsWith(s, Kept(boundary))
  {
    var d := Delimiter(boundary);
    assert s[n..][..2][0] == s[n] == '\r' && s[0..] == s;
    NoStraddle(s, n, boundary);
    assert s[|d|..][..1] == "\r";
    assert s[..|d| + 1] == d + "\r";
  }

  /** A copy that has not had the effect of appending shows. */
  lemma CopyShows(s: string, n: nat, boundary: string, b: Buf, ending: ReadStatus)
    requires UsableBoundary(boundary) && b.Valid() && |Kept(boundary)| <= n <= |s| && |s| >= |Delimiter(boundary)| + 2
    requires LoneCrAt(s, 0, boundary) && !Appends(b, Kept(boundary))
    ensures Body(Run(s, Delimiter(boundary)[1..], false, b, ending).events) != b.Content() + s[..n]
  {
    hide Run, Round, LoneCrAt, Overwritten;
    var d, kept := Delimiter(boundary), Kept(boundary);
    KeepsDelimiter(s, boundary, b, ending);
    var b1 := b.AddBytes(kept);
    var (events, b') := b1.FlushIfFull();
    RunGoes(s, d[1..], false, b, ending, Go(events, |kept|, false, b'));
    var after := Run(s[|kept|..], d[1..], false, b', ending);
    CopyOverwrites(b, boundary);
    if events == [] {
      AfterNothing(after);
      BodyShowsIt(s[|kept|..], false, boundary, b', ending);
    } else {
      BodyStarts(events, after.events);
    }
    var all := b.Content() + s[..n];
    assert all[..b.size + |kept|] == b.Content() + s[..|kept|];
    assert all[..b.size + |kept|] != b1.Content();
  }

  /** The parser absorbs content as Absorb says; where that fails, the content does not come back. */
  lemma {:induction false} AbsorbBack(s: string, n: nat, boundary: string, b: Buf, ending: ReadStatus) returns (events: seq<Event>)
    requires UsableBoundary(boundary) && b.Valid()
    requires n <= |s| && StartsWith(s[n..], Delimiter(boundary)) && |s| >= n + |Delimiter(boundary)| + 2
    ensures Absorbed(s, n, boundary, b, ending, Absorb(s, n, boundary, b), events)
    decreases n
  {
    hide Run, Absorbed, Appends, LoneCrAt, BoundaryAt, BoundaryEndsAt, StartsWith;
    var d, kept, r := Delimiter(boundary), Kept(boundary), Absorb(s, n, boundary, b);
    if n == 0 {
      events := [];
      AbsorbedNothing(s, boundary, b, ending);
    } else if !BoundaryAt(s, 0, boundary) {
      var added := b.Add(s[0]);
      ContentByte(s, n, boundary, b, ending);
      Slices(s, n, 1);
      events := AbsorbBack(s[1..], n - 1, boundary, added.FlushIfFull().1, ending);
      AddedOne(s, b);
      AbsorbedOn(s, n, 1, boundary, b, added, ending, r, events);
      events := added.FlushIfFull().0 + events;
    } else if LoneCrAt(s, 0, boundary) {
      DelimiterCrLf(s[n..], boundary);
      KeptFits(s, n, boundary);
      if Appends(b, kept) {
        var added := b.AddBytes(kept);
        KeptIsRead(s, boundary, b, ending);
        Slices(s, n, |kept|);
        events := AbsorbBack(s[|kept|..], n - |kept|, boundary, added.FlushIfFull().1, ending);
        AbsorbedOn(s, n, |kept|, boundary, b, added, ending, r, events);
        events := added.FlushIfFull().0 + events;
      } else {
        CopyShows(s, n, boundary, b, ending);
        events := [];
        AbsorbedNone(s, n, boundary, b, ending);
      }
    } else {
      BoundaryShows(s, n, boundary, b, ending);
      events := [];
      AbsorbedNone(s, n, boundary, b, ending);
    }
  }

  lemma AddedOne(s: string, b: Buf)
    requires b.Valid() && s != ""
    ensures b.Add(s[0]).Content() == b.Content() + s[..1]
  {
    assert b.Add(s[0]).data[..b.size] == b.data[..b.size];
  }

  lemma DelimiterCrLf(s: string, boundary: string)
    requires StartsWith(s, Delimiter(boundary))
    ensures StartsWith(s, "\r\n")
  {
    assert s[..2] == s[..|Delimiter(boundary)|][..2];
  }

  lemma AbsorbedNothing(s: string, boundary: string, b: Buf, ending: ReadStatus)
    requires UsableBoundary(boundary) && b.Valid()
    ensures Absorbed(s, 0, boundary, b, ending, Some(b), [])
  {
    hide Run;
    assert s[0..] == s && b.Content() + s[..0] == b.Content() == "" + b.Content();
    AfterNothing(Run(s, Delimiter(boundary)[1..], false, b, ending));
  }

  lemma AbsorbedNone(s: string, n: nat, boundary: string, b: Buf, ending: ReadStatus)
    requires UsableBoundary(boundary) && b.Valid() && n <= |s|
    requires Body(Run(s, Delimiter(boundary)[1..], false, b, ending).events) != b.Content() + s[..n]
    ensures Absorbed(s, n, boundary, b, ending, None, [])
  {
  }

  /** The delimiter and the carriage return are read and copied. */
  lemma KeptIsRead(s: string, boundary: string, b: Buf, ending: ReadStatus)
    requires UsableBoundary(boundary) && b.Valid() && LoneCrAt(s, 0, boundary) && |s| >= |Kept(boundary)| + 1
    requires Appends(b, Kept(boundary)) && StartsWith(s, Kept(boundary))
    ensures (var added := b.AddBytes(Kept(boundary));
             var (events, b') := added.FlushIfFull();
             && b'.Valid() && added.size <= |added.data| && added.Content() == b.Content() + s[..|Kept(boundary)|]
             && Run(s, Delimiter(boundary)[1..], false, b, ending)
                == Run(s[|Kept(boundary)|..], Delimiter(boundary)[1..], false, b', ending).After(events))
  {
    hide Run, Round, LoneCrAt;
    var kept := Kept(boundary);
    KeepsDelimiter(s, boundary, b, ending);
    var (events, b') := b.AddBytes(kept).FlushIfFull();
    RunGoes(s, Delimiter(boundary)[1..], false, b, ending, Go(events, |kept|, false, b'));
  }

  /** A boundary ends the content before its time. */
  lemma BoundaryShows(s: string, n: nat, boundary: string, b: Buf, ending: ReadStatus)
    requires UsableBoundary(boundary) && b.Valid() && 0 < n <= |s| && BoundaryAt(s, 0, boundary) && !LoneCrAt(s, 0, boundary)
    ensures Body(Run(s, Delimiter(boundary)[1..], false, b, ending).events) != b.Content() + s[..n]
  {
    hide Run, PartEvents;
    assert s[0..] == s;
    var tail := BoundaryEnds(s, boundary, b, ending);
    PartEventsShort(b);
    BodyOfPart(b.Content(), tail);
    assert |b.Content() + s[..n]| == b.size + n;
  }

  /** On the wire a segment is absorbed as it is with the next line end behind it. */
  lemma {:induction false} AbsorbInPlace(content: string, rest: string, boundary: string, b: Buf)
    requires UsableBoundary(boundary) && b.Valid() && StartsWith(rest, Delimiter(boundary))
    ensures Absorb(content + rest, |content|, boundary, b) == Absorb(content + "\r\n", |content|, boundary, b)
    decreases |content|
  {
    hide Appends, BoundaryAt, BoundaryEndsAt, StartsWith;
    if content != "" {
      var s, t, kept := content + rest, content + "\r\n", Kept(boundary);
      SameBoundaries(content, rest, 0, boundary);
      if !BoundaryAt(s, 0, boundary) {
        assert s[1..] == content[1..] + rest && t[1..] == content[1..] + "\r\n";
        AbsorbInPlace(content[1..], rest, boundary, b.Add(s[0]).FlushIfFull().1);
      } else if LoneCrAt(s, 0, boundary) && |kept| <= |content| && Appends(b, kept) {
        assert s[|kept|..] == content[|kept|..] + rest && t[|kept|..] == content[|kept|..] + "\r\n";
        AbsorbInPlace(content[|kept|..], rest, boundary, b.AddBytes(kept).FlushIfFull().1);
      }
    }
  }

  /** The end of a part, and what follows. */
  lemma PrintedEnds(segments: seq<string>, boundary: string, b: Buf, ending: ReadStatus) returns (tail: seq<Event>)
    requires UsableBoundary(boundary) && b.Valid()
    ensures Run(PrintParts(boundary, segments), Delimiter(boundary)[1..], false, b, ending).events == b.EndOfPart() + tail
    ensures EndsPart(tail)
  {
    hide Run;
    PrintedStart(boundary, segments);
    var s, d := PrintParts(boundary, segments), Delimiter(boundary);
    assert BoundaryEndsAt(s, |d|) by {
      if segments == [] {
        assert s[|d|..] == "--" + "\r\n\r\n" && s[|d|..][..2] == "--";
      } else {
        assert s[|d|..] == "\r\n" + (segments[0] + PrintParts(boundary, segments[1..])) && s[|d|..][..2] == "\r\n";
      }
    }
    tail := BoundaryEnds(s, boundary, b, ending);
  }

  lemma BodyEnds(events: seq<Event>, b: Buf, tail: seq<Event>)
    requires AllReceived(events) && b.Valid() && EndsPart(tail)
    ensures Body(events + (b.EndOfPart() + tail)) == Body(events) + b.Content()
    ensures forall more :: Bodies(events + more) == Bodies(more)
  {
    hide PartEvents, Bodies, Body;
    PartEventsShort(b);
    BodyOfPart(b.Content(), tail);
    BodyJoin(events, b.EndOfPart() + tail);
    forall more {
      BodiesSkip(events, more);
    }
  }

  /** Parts in front of the last delimiter, whatever the buffer holds: the exact condition. */
  lemma {:induction false} RunBack(segments: seq<string>, boundary: string, b: Buf, ending: ReadStatus)
    requires UsableBoundary(boundary) && b.Valid()
    ensures Bodies(Run(PrintParts(boundary, segments), Delimiter(boundary)[1..], false, b, ending).events) == segments
            <==> Survive(segments, boundary, b)
    decreases |segments|
  {
    hide Run, Absorb, StartsWith, Body;
    var d := Delimiter(boundary);
    if segments == [] {
      RunPrinted([], boundary, b, ending);
      BodiesSkip(b.EndOfPart(), Trace([]));
      TraceBodies([]);
    } else {
      var content, rest := segments[0], PrintParts(boundary, segments[1..]);
      var b0 := Buf(b.data, 0);
      assert d + "\r\n" + (content + rest) == PrintParts(boundary, segments);
      RunPartBegin(content + rest, boundary, b, ending);
      var after := Run(content + rest, d[1..], false, b0, ending).events;
      Assoc(b.EndOfPart(), [PartBegin], after);
      BodiesSkip(b.EndOfPart(), [PartBegin] + after);
      assert ([PartBegin] + after)[1..] == after;
      PrintedStart(boundary, segments[1..]);
      assert (content + rest)[|content|..] == rest && (content + rest)[..|content|] == content && b0.Content() + content == content;
      var events := AbsorbBack(content + rest, |content|, boundary, b0, ending);
      AbsorbInPlace(content, rest, boundary, b0);
      var r := Absorb(content + "\r\n", |content|, boundary, b0);
      if r.Some? {
        var tail := PrintedEnds(segments[1..], boundary, r.value, ending);
        BodyEnds(events, r.value, tail);
        RunBack(segments[1..], boundary, r.value, ending);
        FirstBody(content, Bodies(r.value.EndOfPart() + tail), segments);
      } else {
        assert Bodies([PartBegin] + after) == [Body(after)] + Bodies(after);
      }
    }
  }

  lemma FirstBody(content: string, bodies: seq<string>, segments: seq<string>)
    requires segments != [] && content == segments[0]
    ensures [content] + bodies == segments <==> bodies == segments[1..]
  {
    assert segments == [content] + segments[1..];
    assert ([content] + bodies)[1..] == bodies;
  }

  // ---------------------------------------------------------------- the condition in the segment's own terms

  /**
   A byte of the array while a part is read: behind the current contents there are the bytes of
   the chunk before, if there was one; where no chunk reaches, those from before the part.
   */
  function LeftAt(past: string, initial: string, k: nat): char
    requires |initial| == PARSER_BUFFER_SIZE && k < PARSER_BUFFER_SIZE
  {
    var start := |past| - |past| % FLUSH_SIZE;
    if start + k < |past| then past[start + k]
    else if k < FLUSH_SIZE && start > 0 then past[start - FLUSH_SIZE + k]
    else initial[k]
  }

  ghost predicate Leaves(b: Buf, past: string, initial: string) {
    && b.Valid() && |initial| == PARSER_BUFFER_SIZE && b.size == |past| % FLUSH_SIZE
    && forall k :: 0 <= k < PARSER_BUFFER_SIZE ==> b.data[k] == LeftAt(past, initial, k)
  }

  /** The next `m` bytes leave the others as they are. */
  lemma LeftStays(past: string, more: string, initial: string, k: nat)
    requires |initial| == PARSER_BUFFER_SIZE && k < PARSER_BUFFER_SIZE && |past| % FLUSH_SIZE + |more| <= FLUSH_SIZE
    ensures LeftAt(past + more, initial, k)
         == if |past| % FLUSH_SIZE <= k < |past| % FLUSH_SIZE + |more| then more[k - |past| % FLUSH_SIZE] else LeftAt(past, initial, k)
  {
    var size, start := |past| % FLUSH_SIZE, |past| - |past| % FLUSH_SIZE;
    if size + |more| == FLUSH_SIZE {
      NextChunk(|past|, |more|);
    } else {
      SameChunk(|past|, |more|);
    }
  }

  lemma NextChunk(n: nat, m: nat)
    requires n % FLUSH_SIZE + m == FLUSH_SIZE
    ensures (n + m) % FLUSH_SIZE == 0
  {
  }

  lemma SameChunk(n: nat, m: nat)
    requires n % FLUSH_SIZE + m < FLUSH_SIZE
    ensures (n + m) % FLUSH_SIZE == n % FLUSH_SIZE + m
  {
  }

  /** Bytes that arrive in the array where they should, up to the end of the chunk. */
  lemma LeavesMore(b: Buf, past: string, initial: string, more: string, added: Buf)
    requires Leaves(b, past, initial) && b.size + |more| <= FLUSH_SIZE && |added.data| == PARSER_BUFFER_SIZE
    requires added.size == b.size + |more| && added.data == b.data[..b.size] + more + b.data[b.size + |more|..]
    ensures Leaves(added.FlushIfFull().1, past + more, initial)
  {
    hide LeftAt;
    forall k | 0 <= k < PARSER_BUFFER_SIZE
      ensures added.data[k] == LeftAt(past + more, initial, k)
    {
      LeftStays(past, more, initial, k);
    }
    if b.size + |more| == FLUSH_SIZE {
      NextChunk(|past|, |more|);
    } else {
      SameChunk(|past|, |more|);
    }
  }

  lemma LeavesAdd(b: Buf, past: string, initial: string, c: char)
    requires Leaves(b, past, initial)
    ensures Leaves(b.Add(c).FlushIfFull().1, past + [c], initial)
  {
    hide Leaves, LeftAt;
    LeavesValid(b, past, initial);
    LeavesMore(b, past, initial, [c], b.Add(c));
  }

  lemma LeavesCopy(b: Buf, past: string, initial: string, kept: string)
    requires Leaves(b, past, initial) && b.size == 0 && |kept| < FLUSH_SIZE
    ensures Leaves(b.AddBytes(kept).FlushIfFull().1, past + kept, initial)
  {
    hide Leaves, LeftAt;
    LeavesValid(b, past, initial);
    LeavesMore(b, past, initial, kept, b.AddBytes(kept));
  }

  lemma EmptyAppends(b: Buf, kept: string)
    requires b.size == 0 && 0 < |kept| <= |b.data|
    ensures Appends(b, kept)
  {
    AppendsIfEmpty(b, kept);
  }

  lemma AbsorbAdd(s: string, n: nat, boundary: string, b: Buf)
    requires UsableBoundary(boundary) && b.Valid() && 0 < n <= |s| && !BoundaryAt(s, 0, boundary)
    ensures Absorb(s, n, boundary, b) == Absorb(s[1..], n - 1, boundary, b.Add(s[0]).FlushIfFull().1)
  {
  }

  lemma AbsorbCopy(s: string, n: nat, boundary: string, b: Buf)
    requires UsableBoundary(boundary) && b.Valid() && b.size == 0 && |Kept(boundary)| <= n <= |s| && LoneCrAt(s, 0, boundary)
    ensures Absorb(s, n, boundary, b)
         == Absorb(s[|Kept(boundary)|..], n - |Kept(boundary)|, boundary, b.AddBytes(Kept(boundary)).FlushIfFull().1)
  {
    hide BoundaryAt, BoundaryEndsAt, Appends;
    EmptyAppends(b, Kept(boundary));
  }

  /** The first `i` bytes, without harm. */
  lemma {:induction false} AbsorbFrom(s: string, i: nat, n: nat, past: string, boundary: string, b: Buf, initial: string) returns (b': Buf)
    requires UsableBoundary(boundary) && Leaves(b, past, initial)
    requires i <= n <= |s| && StartsWith(s[i..], "\r\n") && Harmless(s, i, |past|, boundary)
    ensures Leaves(b', past + s[..i], initial)
    ensures Absorb(s, n, boundary, b) == Absorb(s[i..], n - i, boundary, b')
    decreases i
  {
    hide Leaves, Appends, LoneCrAt, BoundaryAt, BoundaryEndsAt, StartsWith, Harmless, Absorb, Kept;
    LeavesValid(b, past, initial);
    if i == 0 {
      b' := b;
      assert s[0..] == s && past + s[..0] == past;
    } else {
      var k, b1 := 1, b.Add(s[0]).FlushIfFull().1;
      if BoundaryAt(s, 0, boundary) {
        HarmlessFirst(s, i, |past|, boundary);
        KeptFits(s, i, boundary);
        KeptStarts(s, boundary);
        AbsorbCopy(s, n, boundary, b);
        LeavesCopy(b, past, initial, Kept(boundary));
        k, b1 := |Kept(boundary)|, b.AddBytes(Kept(boundary)).FlushIfFull().1;
      } else {
        AbsorbAdd(s, n, boundary, b);
        LeavesAdd(b, past, initial, s[0]);
        assert s[..1] == [s[0]];
      }
      HarmlessTail(s, i, k, |past|, boundary);
      Slices(s, i, k);
      Assoc(past, s[..k], s[k..][..i - k]);
      b' := AbsorbFrom(s[k..], i - k, n - k, past + s[..k], boundary, b1, initial);
      assert s[k..][i - k..] == s[i..] && n - k - (i - k) == n - i;
    }
  }

  lemma LeavesValid(b: Buf, past: string, initial: string)
    requires Leaves(b, past, initial)
    ensures b.Valid() && b.size == |past| % FLUSH_SIZE
  {
  }

  lemma KeptStarts(s: string, boundary: string)
    requires UsableBoundary(boundary) && StartsWith(s, Kept(boundary))
    ensures s[..|Kept(boundary)|] == Kept(boundary) && 0 < |Kept(boundary)| < FLUSH_SIZE
  {
  }

  lemma LineEndBehind(segment: string)
    ensures StartsWith((segment + "\r\n")[|segment|..], "\r\n")
  {
    assert (segment + "\r\n")[|segment|..] == "\r\n" && "\r\n"[..2] == "\r\n";
  }

  lemma LeavesAtStart(b: Buf)
    requires b.Valid() && b.size == 0
    ensures Leaves(b, "", b.data)
  {
  }

  /** An intact segment is absorbed whatever the array holds. */
  lemma IntactIsAbsorbed(segment: string, boundary: string, b: Buf)
    requires UsableBoundary(boundary) && b.Valid() && b.size == 0 && Intact(segment, boundary)
    ensures Absorb(segment + "\r\n", |segment|, boundary, b).Some?
  {
    hide Leaves, Harmless, StartsWith;
    IntactIs(segment, boundary);
    LineEndBehind(segment);
    LeavesAtStart(b);
    var b' := AbsorbFrom(segment + "\r\n", |segment|, |segment|, "", boundary, b, b.data);
    LeavesValid(b', "" + (segment + "\r\n")[..|segment|], b.data);
  }

  /**
   The chunk that `i` is in starts with the copied bytes, and the place in the array behind the
   contents at `i` is not one that the chunk before has filled.
   */
  ghost predicate Repeats(segment: string, i: nat, boundary: string)
    requires i < |segment|
  {
    var place := i % FLUSH_SIZE;
    StartsWith(segment[i - place..], Kept(boundary)) && (i < FLUSH_SIZE || place + |Kept(boundary)| > FLUSH_SIZE)
  }

  /** At `i` is the first boundary of the segment that is not harmless; it is a lone carriage return. */
  ghost predicate FirstLoneCr(segment: string, i: nat, boundary: string)
    requires i < |segment|
  {
    Harmless(segment + "\r\n", i, 0, boundary) && LoneCrAt(segment + "\r\n", i, boundary) && i % FLUSH_SIZE != 0
  }

  /** The first harm is a lone carriage return for which bytes that are not the segment's own decide. */
  ghost predicate Entangled(segment: string, boundary: string) {
    exists i :: 0 <= i < |segment| && FirstLoneCr(segment, i, boundary) && Repeats(segment, i, boundary)
  }

  ghost predicate HarmlessAt(s: string, i: nat, boundary: string)
    requires i <= |s|
  {
    BoundaryAt(s, i, boundary) ==> LoneCrAt(s, i, boundary) && i % FLUSH_SIZE == 0
  }

  lemma FirstHarm(s: string, n: nat, boundary: string) returns (i: nat)
    requires n <= |s| && !Harmless(s, n, 0, boundary)
    ensures i < n && !HarmlessAt(s, i, boundary) && Harmless(s, i, 0, boundary)
  {
    hide BoundaryAt, LoneCrAt;
    assert exists k :: 0 <= k < n && !HarmlessAt(s, k, boundary) by {
      var k :| 0 <= k < n && BoundaryAt(s, k, boundary) && !(LoneCrAt(s, k, boundary) && (0 + k) % FLUSH_SIZE == 0);
      assert !HarmlessAt(s, k, boundary);
    }
    i := 0;
    while HarmlessAt(s, i, boundary)
      invariant i < n && forall k :: 0 <= k < i ==> HarmlessAt(s, k, boundary)
      decreases n - i
    {
      i := i + 1;
      if i == n {
        assert false;
      }
    }
    forall k | 0 <= k < i && BoundaryAt(s, k, boundary)
      ensures LoneCrAt(s, k, boundary) && (0 + k) % FLUSH_SIZE == 0
    {
      assert HarmlessAt(s, k, boundary);
    }
  }

  lemma BoundaryStartsCrLf(s: string, i: nat, boundary: string)
    requires i <= |s| && BoundaryAt(s, i, boundary)
    ensures StartsWith(s[i..], "\r\n") && BoundaryEndsAt(s, i)
  {
    DelimiterCrLf(s[i..], boundary);
  }

  /** Two delimiters, the first harmless: the second one does not begin inside the bytes copied for the first. */
  lemma KeptApart(s: string, p: nat, i: nat, boundary: string)
    requires UsableBoundary(boundary) && p < i <= |s| && StartsWith(s[p..], Kept(boundary)) && BoundaryAt(s, i, boundary)
    requires Harmless(s, i, 0, boundary)
    ensures |Kept(boundary)| <= i - p
  {
    var d, kept := Delimiter(boundary), Kept(boundary);
    BoundaryStartsCrLf(s, i, boundary);
    assert s[p..][i - p..] == s[i..];
    assert s[p..][..|d|] == s[p..][..|kept|][..|d|] == d;
    assert s[i..][..2][0] == s[p..][i - p] == '\r';
    NoStraddle(s[p..], i - p, boundary);
    KeptIsBoundary(s, p, boundary);
    assert LoneCrAt(s, p, boundary);
  }

  lemma KeptIsBoundary(s: string, p: nat, boundary: string)
    requires p <= |s| && StartsWith(s[p..], Kept(boundary))
    ensures BoundaryAt(s, p, boundary)
  {
    var d, kept := Delimiter(boundary), Kept(boundary);
    assert s[p..][..|d|] == s[p..][..|kept|][..|d|] == d;
    assert s[p + |d|..][0] == s[p..][..|kept|][|d|] == '\r';
    assert s[p + |d|..][..1] == "\r";
  }

  /** When copying to a buffer in use has the effect of appending, these are the bytes in the array. */
  lemma AppendsMeans(b: Buf, past: string, initial: string, kept: string)
    requires Leaves(b, past, initial) && 0 < b.size && 0 < |kept| && b.size + |kept| <= PARSER_BUFFER_SIZE && Appends(b, kept)
    ensures kept <= past[|past| - b.size..] + kept
    ensures forall j :: 0 <= j < |kept| && |kept| <= b.size + j ==> b.data[b.size + j] == kept[j]
  {
    AppendsIfEmpty(b, kept);
    var wanted, was := b.Content() + kept, past[|past| - b.size..];
    assert b.Content() == was;
    forall j | 0 <= j < |kept| && |kept| <= b.size + j
      ensures b.data[b.size + j] == kept[j]
    {
      var m := b.size + j;
      assert b.data[m] == b.data[|kept|..b.size + |kept|][m - |kept|] == wanted[|kept|..][m - |kept|] == wanted[m];
    }
  }

  /** At the first harmful lone carriage return, copying appends only where the segment repeats the copied bytes. */
  lemma AppendsRepeats(segment: string, i: nat, boundary: string, b: Buf, initial: string)
    requires UsableBoundary(boundary) && i < |segment| && FirstLoneCr(segment, i, boundary)
    requires Leaves(b, segment[..i], initial) && Appends(b, Kept(boundary))
    ensures Repeats(segment, i, boundary)
    ensures b.size + |Kept(boundary)| <= PARSER_BUFFER_SIZE && initial[b.size + |Kept(boundary)| - 1] == '\r'
  {
    hide Harmless, BoundaryEndsAt, BoundaryAt, LoneCrAt, StartsWith, Leaves, Appends, Kept;
    var kept, past := Kept(boundary), segment[..i];
    LeavesValid(b, past, initial);
    KeptEnds(boundary);
    AppendsMeans(b, past, initial, kept);
    RepeatsHere(segment, i, boundary);
    LeavesBehind(b, past, initial, |kept| - 1);
    if i >= FLUSH_SIZE && b.size + |kept| <= FLUSH_SIZE {
      EarlierIsOther(segment, i, boundary, b, initial);
    }
  }

  lemma KeptEnds(boundary: string)
    requires UsableBoundary(boundary)
    ensures 5 <= |Kept(boundary)| <= 151 && Kept(boundary)[|Kept(boundary)| - 1] == '\r'
  {
  }

  /** If the chunk and the copied bytes together start with these, so does the segment at the chunk, and the chunk is as long as they are. */
  lemma RepeatsHere(segment: string, i: nat, boundary: string)
    requires UsableBoundary(boundary) && i < |segment| && FirstLoneCr(segment, i, boundary)
    requires Kept(boundary) <= segment[..i][i - i % FLUSH_SIZE..] + Kept(boundary)
    ensures StartsWith(segment[i - i % FLUSH_SIZE..], Kept(boundary)) && |Kept(boundary)| <= i % FLUSH_SIZE
  {
    hide Harmless, BoundaryEndsAt, BoundaryAt, Kept;
    var kept, p := Kept(boundary), i - i % FLUSH_SIZE;
    KeptHere(segment, i, boundary);
    JoinsPrefix(segment, p, i, kept);
    StartsInFront(segment, p, kept);
    KeptApart(segment + "\r\n", p, i, boundary);
  }

  lemma JoinsPrefix(segment: string, p: nat, i: nat, kept: string)
    requires p <= i <= |segment| && StartsWith(segment[i..], kept) && kept <= segment[..i][p..] + kept
    ensures StartsWith(segment[p..], kept)
  {
    assert segment[p..] == segment[..i][p..] + segment[i..];
    assert segment[i..] == kept + segment[i + |kept|..];
    assert segment[p..] == (segment[..i][p..] + kept) + segment[i + |kept|..];
  }

  lemma KeptHere(segment: string, i: nat, boundary: string)
    requires UsableBoundary(boundary) && i < |segment| && LoneCrAt(segment + "\r\n", i, boundary)
    ensures StartsWith(segment[i..], Kept(boundary)) && BoundaryAt(segment + "\r\n", i, boundary)
  {
    var s, n := segment + "\r\n", |segment| - i;
    assert s[i..] == segment[i..] + "\r\n";
    LineEndBehind(segment[i..]);
    BoundaryFrom(s, i, boundary);
    KeptFits(s[i..], n, boundary);
    assert segment[i..][..|Kept(boundary)|] == s[i..][..|Kept(boundary)|];
  }

  lemma StartsInFront(segment: string, p: nat, kept: string)
    requires p <= |segment| && StartsWith(segment[p..], kept)
    ensures StartsWith((segment + "\r\n")[p..], kept)
  {
    assert (segment + "\r\n")[p..] == segment[p..] + "\r\n";
    assert (segment + "\r\n")[p..][..|kept|] == segment[p..][..|kept|];
  }

  /** A byte behind the contents. */
  lemma LeavesBehind(b: Buf, past: string, initial: string, j: nat)
    requires Leaves(b, past, initial) && b.size + j < PARSER_BUFFER_SIZE
    ensures |past| < FLUSH_SIZE || b.size + j >= FLUSH_SIZE ==> b.data[b.size + j] == initial[b.size + j]
    ensures |past| >= FLUSH_SIZE && b.size + j < FLUSH_SIZE ==> b.data[b.size + j] == past[|past| - FLUSH_SIZE + j]
  {
  }

  lemma SameText(s: string, k: nat, kept: string)
    requires k + |kept| <= |s| && forall j :: 0 <= j < |kept| ==> s[k + j] == kept[j]
    ensures StartsWith(s[k..], kept)
  {
    assert s[k..][..|kept|] == kept;
  }

  /** A copy one chunk before would have been a harmful boundary already. */
  lemma NoEarlierKept(segment: string, i: nat, boundary: string)
    requires UsableBoundary(boundary) && FLUSH_SIZE <= i < |segment| && FirstLoneCr(segment, i, boundary)
    ensures !StartsWith((segment + "\r\n")[i - FLUSH_SIZE..], Kept(boundary))
  {
    hide BoundaryAt, LoneCrAt, StartsWith;
    var s, k := segment + "\r\n", i - FLUSH_SIZE;
    if StartsWith(s[k..], Kept(boundary)) {
      KeptIsBoundary(s, k, boundary);
      FirstMeans(segment, i, boundary, k);
    }
  }

  lemma FirstMeans(segment: string, i: nat, boundary: string, k: nat)
    requires i < |segment| && FirstLoneCr(segment, i, boundary) && k < i && BoundaryAt(segment + "\r\n", k, boundary)
    ensures k % FLUSH_SIZE == 0 && i % FLUSH_SIZE != 0
  {
    hide BoundaryAt, LoneCrAt;
    assert (0 + k) % FLUSH_SIZE == 0;
  }

  /** The bytes of the chunk before are not the copied ones. */
  lemma EarlierIsOther(segment: string, i: nat, boundary: string, b: Buf, initial: string)
    requires UsableBoundary(boundary) && FLUSH_SIZE <= i < |segment| && FirstLoneCr(segment, i, boundary)
    requires Leaves(b, segment[..i], initial) && b.size + |Kept(boundary)| <= FLUSH_SIZE
    ensures !forall j :: 0 <= j < |Kept(boundary)| ==> b.data[b.size + j] == Kept(boundary)[j]
  {
    hide FirstLoneCr, StartsWith, Leaves, Kept;
    LeavesValid(b, segment[..i], initial);
    var kept, s, k := Kept(boundary), segment + "\r\n", i - FLUSH_SIZE;
    NoEarlierKept(segment, i, boundary);
    if forall j :: 0 <= j < |kept| ==> b.data[b.size + j] == kept[j] {
      forall j | 0 <= j < |kept|
        ensures s[k + j] == kept[j]
      {
        LeavesBehind(b, segment[..i], initial, j);
      }
      SameText(s, k, kept);
    }
  }

  /** A segment that is not intact is not absorbed, unless the first harm is a repetition and the array's former bytes are right. */
  lemma HarmIsSeen(segment: string, boundary: string, b: Buf) returns (i: nat)
    requires UsableBoundary(boundary) && b.Valid() && b.size == 0 && !Intact(segment, boundary)
    ensures Absorb(segment + "\r\n", |segment|, boundary, b).Some? ==>
              && i < |segment| && FirstLoneCr(segment, i, boundary) && Repeats(segment, i, boundary)
              && i % FLUSH_SIZE + |Kept(boundary)| <= PARSER_BUFFER_SIZE
              && b.data[i % FLUSH_SIZE + |Kept(boundary)| - 1] == '\r'
  {
    hide Leaves, Harmless, StartsWith, Appends, BoundaryAt, BoundaryEndsAt, Repeats;
    var s, n := segment + "\r\n", |segment|;
    i := FirstHarm(s, n, boundary);
    BoundaryStartsCrLf(s, i, boundary);
    LeavesAtStart(b);
    var b' := AbsorbFrom(s, i, n, "", boundary, b, b.data);
    assert "" + s[..i] == segment[..i];
    LeavesValid(b', segment[..i], b.data);
    BoundaryFrom(s, i, boundary);
    if Absorb(s[i..], n - i, boundary, b').Some? {
      assert LoneCrAt(s[i..], 0, boundary) && Appends(b', Kept(boundary));
      AppendsRepeats(segment, i, boundary, b', b.data);
    }
  }

  /** A segment that is neither intact nor entangled is absorbed from no array. */
  lemma BreaksPart(segment: string, boundary: string, b: Buf)
    requires UsableBoundary(boundary) && b.Valid() && b.size == 0 && !Intact(segment, boundary) && !Entangled(segment, boundary)
    ensures Absorb(segment + "\r\n", |segment|, boundary, b).None?
  {
    hide Absorb, FirstLoneCr, Repeats, Intact;
    var i := HarmIsSeen(segment, boundary, b);
  }

  /**
   A lone carriage return that is the first harm of a part breaks it, whatever the array holds, unless
   the part repeats the copied bytes there.
   */
  lemma LoneCrBreaks(content: string, rest: string, i: nat, boundary: string, b: Buf, ending: ReadStatus)
    requires UsableBoundary(boundary) && b.Valid() && b.size == 0 && i < |content|
    requires StartsWith(rest, Delimiter(boundary)) && |rest| >= |Delimiter(boundary)| + 2
    requires FirstLoneCr(content, i, boundary) && !Repeats(content, i, boundary)
    ensures Body(Run(content + rest, Delimiter(boundary)[1..], false, b, ending).events) != content
  {
    hide Run, Absorb, Repeats, StartsWith, BoundaryAt, BoundaryEndsAt;
    OnlyOneFirst(content, i, boundary);
    BreaksPart(content, boundary, b);
    AbsorbInPlace(content, rest, boundary, b);
    assert (content + rest)[|content|..] == rest && (content + rest)[..|content|] == content && b.Content() + content == content;
    var events := AbsorbBack(content + rest, |content|, boundary, b, ending);
  }

  lemma OnlyOneFirst(content: string, i: nat, boundary: string)
    requires i < |content| && FirstLoneCr(content, i, boundary) && !Repeats(content, i, boundary)
    ensures !Intact(content, boundary) && !Entangled(content, boundary)
  {
    hide Repeats, BoundaryEndsAt, StartsWith;
    var s := content + "\r\n";
    assert BoundaryAt(s, i, boundary) && (0 + i) % FLUSH_SIZE != 0;
    forall k | 0 <= k < |content| && FirstLoneCr(content, k, boundary)
      ensures k == i
    {
      assert BoundaryAt(s, k, boundary) && (0 + k) % FLUSH_SIZE != 0;
    }
  }

  /** The first segment that is not intact, if there is one, is not entangled. */
  ghost predicate Settled(segments: seq<string>, boundary: string) {
    segments == []
    || if Intact(segments[0], boundary) then Settled(segments[1..], boundary) else !Entangled(segments[0], boundary)
  }

  /** Then nothing depends on the array. */
  lemma {:induction false} SettledSurvive(segments: seq<string>, boundary: string, b: Buf)
    requires UsableBoundary(boundary) && b.Valid() && Settled(segments, boundary)
    ensures Survive(segments, boundary, b) <==> forall s :: s in segments ==> Intact(s, boundary)
    decreases |segments|
  {
    hide Absorb, Intact, Entangled;
    if segments != [] {
      var content, b0 := segments[0], Buf(b.data, 0);
      assert content in segments && segments == [content] + segments[1..];
      if Intact(content, boundary) {
        IntactIsAbsorbed(content, boundary, b0);
        SettledSurvive(segments[1..], boundary, Absorb(content + "\r\n", |content|, boundary, b0).value);
      } else {
        BreaksPart(content, boundary, b0);
      }
    }
  }

  lemma {:induction false} AllIntactIsSettled(segments: seq<string>, boundary: string)
    requires forall s :: s in segments ==> Intact(s, boundary)
    ensures Settled(segments, boundary)
  {
    hide Intact, Entangled;
    if segments != [] {
      assert segments[0] in segments;
      AllIntactIsSettled(segments[1..], boundary);
    }
  }

  /** When some segment is not intact, and the first such is not entangled, the parts do not come back. */
  lemma RunBroken(segments: seq<string>, boundary: string, b: Buf, ending: ReadStatus)
    requires UsableBoundary(boundary) && b.Valid() && Settled(segments, boundary)
    requires !forall s :: s in segments ==> Intact(s, boundary)
    ensures Bodies(Run(PrintParts(boundary, segments), Delimiter(boundary)[1..], false, b, ending).events) != segments
  {
    hide Run, Survive, Settled, Intact;
    RunBack(segments, boundary, b, ending);
    SettledSurvive(segments, boundary, b);
  }

  /**
   Multipart round trip. The parts come back, each with exactly the bytes printed for it, if
   and only if no segment contains the delimiter followed by a line end or two hyphens, and
   each delimiter with a lone carriage return is met with a buffer to which copying it is
   appending it. If all segments are intact, that is so whatever the array holds; and for
   settled segments only then.
   */
  lemma PartsComeBack(segments: seq<string>, boundary: string, b: Buf, ending: ReadStatus)
    requires UsableBoundary(boundary) && b.Valid()
    ensures var r := Run(PrintParts(boundary, segments), Delimiter(boundary)[1..], false, b, ending);
            && (Bodies(r.events) == segments <==> Survive(segments, boundary, b))
            && ((forall s :: s in segments ==> Intact(s, boundary)) ==> Bodies(r.events) == segments)
            && (Settled(segments, boundary) ==> (Bodies(r.events) == segments <==> forall s :: s in segments ==> Intact(s, boundary)))
  {
    hide Run, Survive, Settled, Intact;
    RunBack(segments, boundary, b, ending);
    if forall s :: s in segments ==> Intact(s, boundary) {
      AllIntactIsSettled(segments, boundary);
    }
    if Settled(segments, boundary) {
      SettledSurvive(segments, boundary, b);
    }
  }

  ghost predicate ComesBack(segment: string, boundary: string, data: string, ending: ReadStatus)
    requires UsableBoundary(boundary) && |data| == PARSER_BUFFER_SIZE
  {
    Bodies(Run(PrintParts(boundary, [segment]), Delimiter(boundary)[1..], false, Buf(data, 0), ending).events) == [segment]
  }

  /** A single part comes back whatever the array holds, if and only if it is intact. */
  lemma PartComesBackAlways(segment: string, boundary: string, ending: ReadStatus)
    requires UsableBoundary(boundary)
    ensures (forall data :: |data| == PARSER_BUFFER_SIZE ==> ComesBack(segment, boundary, data, ending))
            <==> Intact(segment, boundary)
  {
    hide Run, Intact, Absorb, FirstLoneCr, Repeats, Survive, Bodies;
    if Intact(segment, boundary) {
      forall data | |data| == PARSER_BUFFER_SIZE
        ensures ComesBack(segment, boundary, data, ending)
      {
        PartsComeBack([segment], boundary, Buf(data, 0), ending);
      }
    } else {
      var data := seq(PARSER_BUFFER_SIZE, _ => 'x');
      var i := HarmIsSeen(segment, boundary, Buf(data, 0));
      PartsComeBack([segment], boundary, Buf(data, 0), ending);
      SurviveFirst(segment, boundary, Buf(data, 0));
      assert !ComesBack(segment, boundary, data, ending);
    }
  }

  lemma SurviveFirst(segment: string, boundary: string, b: Buf)
    requires UsableBoundary(boundary) && b.Valid()
    ensures Survive([segment], boundary, b) <==> Absorb(segment + "\r\n", |segment|, boundary, Buf(b.data, 0)).Some?
  {
    hide Absorb;
  }

  lemma PrintsOne(segment: string, boundary: string)
    ensures PrintParts(boundary, [segment])
         == Delimiter(boundary) + "\r\n" + (segment + (Delimiter(boundary) + "--" + "\r\n\r\n"))
  {
    assert [segment][1..] == [];
    assert PrintParts(boundary, []) == Delimiter(boundary) + "--" + "\r\n\r\n";
  }

  lemma LoneCrHere(u: string, boundary: string)
    requires u != "" && u[0] != '\n'
    ensures LoneCrAt(Kept(boundary) + u, 0, boundary)
  {
    var d, s := Delimiter(boundary), Kept(boundary) + u;
    assert s[0..] == s && s[..|d|] == d && s[|d|..] == "\r" + u;
    var q := s[|d|..];
    assert q[..1] == "\r" && q[..2][0] == '\r' && q[..2][1] == u[0];
    assert "\r\n"[1] == '\n' && "--"[0] == '-';
  }

  /** The copy, while the buffer is not full. */
  lemma CopiesHere(u: string, boundary: string, b: Buf, ending: ReadStatus)
    requires UsableBoundary(boundary) && b.Valid() && b.size + |Kept(boundary)| < FLUSH_SIZE && u != "" && u[0] != '\n'
    ensures (var b' := b.AddBytes(Kept(boundary));
             b'.Valid() && Run(Kept(boundary) + u, Delimiter(boundary)[1..], false, b, ending)
                        == Run(u, Delimiter(boundary)[1..], false, b', ending))
  {
    hide Run, Round;
    var d, s, b' := Delimiter(boundary), Kept(boundary) + u, b.AddBytes(Kept(boundary));
    LoneCrHere(u, boundary);
    KeepsDelimiter(s, boundary, b, ending);
    RunGoes(s, d[1..], false, b, ending, Go([], |d| + 1, false, b'));
    assert s[|d| + 1..] == u;
    AfterNothing(Run(u, d[1..], false, b', ending));
  }

  /** A byte in front of the delimiter goes to the buffer. */
  lemma PlainByte(c: char, t: string, boundary: string, b: Buf, ending: ReadStatus)
    requires UsableBoundary(boundary) && b.Valid() && b.size + 1 < FLUSH_SIZE && c != '\r'
    ensures Run([c] + t, Delimiter(boundary)[1..], false, b, ending) == Run(t, Delimiter(boundary)[1..], false, b.Add(c), ending)
  {
    hide Run, Round;
    var s := [c] + t;
    assert s[1..] == t;
    AddsByte(s, Delimiter(boundary)[1..], false, b, ending);
    RunGoes(s, Delimiter(boundary)[1..], false, b, ending, Go([], 1, false, b.Add(c)));
    AfterNothing(Run(t, Delimiter(boundary)[1..], false, b.Add(c), ending));
  }

  lemma OverwrittenTwice(b: Buf, kept: string)
    requires |b.data| == PARSER_BUFFER_SIZE && b.size == 0 && 2 * |kept| < FLUSH_SIZE
    ensures (var b2 := b.AddBytes(kept).AddBytes(kept).Add('y');
             var stale := b.data[|kept|..2 * |kept|];
             b2.Content() == kept + stale + "y" && (b2.Content() == kept + kept + "y" <==> stale == kept))
  {
    var k, rest := |kept|, b.data[|kept|..];
    var b1 := b.AddBytes(kept).AddBytes(kept);
    var stale := b.data[k..2 * k];
    assert (kept + rest)[k..] == rest && rest[..k] == stale;
    assert b1.data == kept + rest;
    assert b1.data[..2 * k] == kept + rest[..k];
    assert b1.Add('y').Content() == kept + stale + "y";
    assert (kept + stale + "y")[|kept|..2 * |kept|] == stale && (kept + kept + "y")[|kept|..2 * |kept|] == kept;
  }

  /**
   An entangled segment: as the first part it comes back if and only if the parser's array
   already holds the right bytes from before.
   */
  lemma EntangledDepends(boundary: string, b: Buf, ending: ReadStatus)
    requires UsableBoundary(boundary) && b.Valid()
    ensures var kept := Kept(boundary);
            var r := Run(PrintParts(boundary, [kept + kept + "y"]), Delimiter(boundary)[1..], false, b, ending);
            Bodies(r.events) == [kept + kept + "y"] <==> b.data[|kept|..2 * |kept|] == kept
  {
    hide Run, PrintParts, Bodies;
    var d, kept := Delimiter(boundary), Kept(boundary);
    var end := d + "--" + "\r\n\r\n";
    var segment, b0 := kept + kept + "y", Buf(b.data, 0);
    PrintsOne(segment, boundary);
    RunPartBegin(segment + end, boundary, b, ending);
    assert segment + end == kept + (kept + (['y'] + end));
    CopiesHere(kept + (['y'] + end), boundary, b0, ending);
    var b1 := b0.AddBytes(kept);
    CopiesHere(['y'] + end, boundary, b1, ending);
    var b2 := b1.AddBytes(kept);
    PlainByte('y', end, boundary, b2, ending);
    var b3 := b2.Add('y');
    RunParseEnd("\r\n\r\n", boundary, b3, ending);
    OverwrittenTwice(b0, kept);
    var tail := [Received(b3.Content()), PartEnd, ParseEnd];
    assert b3.EndOfPart() + [ParseEnd] == tail;
    assert b.EndOfPart() + [PartBegin] + tail == b.EndOfPart() + ([PartBegin] + tail);
    BodiesSkip(b.EndOfPart(), [PartBegin] + tail);
    OneBody(b3.Content());
  }

  lemma BodiesCons(event: Event, rest: seq<Event>)
    ensures Bodies([event] + rest) == (if event.PartBegin? then [Body(rest)] else []) + Bodies(rest)
    ensures event.Received? ==> Body([event] + rest) == event.bytes + Body(rest)
    ensures event.PartEnd? ==> Body([event] + rest) == Body(rest)
  {
    assert ([event] + rest)[1..] == rest;
  }

  lemma OneBody(body: string)
    ensures Bodies([PartBegin] + [Received(body), PartEnd, ParseEnd]) == [body]
  {
    assert [ParseEnd] + [] == [ParseEnd] && [PartEnd] + [ParseEnd] == [PartEnd, ParseEnd];
    assert [Received(body)] + [PartEnd, ParseEnd] == [Received(body), PartEnd, ParseEnd];
    BodiesCons(ParseEnd, []);
    BodiesCons(PartEnd, [ParseEnd]);
    BodiesCons(Received(body), [PartEnd, ParseEnd]);
    assert body + "" == body;
    BodiesCons(PartBegin, [Received(body), PartEnd, ParseEnd]);
  }
}
