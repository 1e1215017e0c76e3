/**
 How a parse ends: what the status says of the callbacks and of the source, and what
 becomes of a message of which only the beginning arrives.
 */
module MimeEnds {
  import opened Lists
  import opened MimeReader
  import opened MimeParser
  import opened MimeRoundTrip
  import opened MimeLoneCr

  /** The parse_end callback is the last one. */
  ghost predicate EndsParse(events: seq<Event>) {
    events != [] && events[|events| - 1] == ParseEnd && ParseEnd !in events[..|events| - 1]
  }

  /** The status tells whether the parse_end callback was called, and otherwise how the source ended. */
  ghost predicate SaysHow(status: ParserStatus, events: seq<Event>, ending: ReadStatus) {
    match status
    case ParserOk => EndsParse(events)
    case ReadFailure => ParseEnd !in events && ending == ReadError
    case IncompleteMessage => ParseEnd !in events && ending != ReadError
  }

  lemma RoundSays(s: string, delim: string, ignore: bool, b: Buf, ending: ReadStatus)
    requires b.Valid() && |delim| <= MAX_DELIM
    ensures match Round(s, delim, ignore, b, ending)
            case Stop(events, status) => SaysHow(status, events, ending)
            case Go(events, _, _, _) => ParseEnd !in events
  {
  }

  lemma SaysAfter(o: Outcome, before: seq<Event>, ending: ReadStatus)
    requires SaysHow(o.status, o.events, ending) && ParseEnd !in before
    ensures SaysHow(o.status, before + o.events, ending)
  {
    if o.events != [] {
      var all := before + o.events;
      assert all[..|all| - 1] == before + o.events[..|o.events| - 1];
    }
  }

  lemma {:induction false} RunSays(s: string, delim: string, ignore: bool, b: Buf, ending: ReadStatus)
    requires b.Valid() && |delim| <= MAX_DELIM
    ensures var o := Run(s, delim, ignore, b, ending); SaysHow(o.status, o.events, ending)
    decreases |s|, if ignore then 0 else 1
  {
    hide Run, Round, SaysHow;
    var r := Round(s, delim, ignore, b, ending);
    RoundSays(s, delim, ignore, b, ending);
    RunUnfolds(s, delim, ignore, b, ending, [], r);
    AfterNothing(Run(s, delim, ignore, b, ending));
    assert [] + r.events == r.events;
    if r.Go? {
      RunSays(s[r.skip..], delim, r.ignore, r.buf, ending);
      SaysAfter(Run(s[r.skip..], delim, r.ignore, r.buf, ending), r.events, ending);
    }
  }

  /**
   For every stream: the status is ParserOk if and only if the last callback is parse_end, and
   otherwise there is no such callback; the other two statuses tell a failing source from one
   that is over.
   */
  lemma HowItEnds(s: string, delim: string, b: Buf, ending: ReadStatus)
    requires b.Valid() && |delim| <= MAX_DELIM && ending != ReadOk
    ensures var o := Run(s, delim, false, b, ending);
            && (o.status == ParserOk <==> o.events != [] && o.events[|o.events| - 1] == ParseEnd)
            && (o.status == ParserOk <==> ParseEnd in o.events)
            && (o.status != ParserOk ==> (o.status == ReadFailure <==> ending == ReadError))
            && (o.status != ParserOk ==> (o.status == IncompleteMessage <==> ending == ReadEof))
  {
    hide Run;
    RunSays(s, delim, false, b, ending);
  }

  // ---------------------------------------------------------------- the beginning of a stream

  /** On the beginning of a stream a round does the same, or the stream ends in it. */
  lemma CutRound(s: string, n: nat, delim: string, ignore: bool, b: Buf, ending: ReadStatus, ending': ReadStatus)
    requires b.Valid() && |delim| <= MAX_DELIM && n <= |s|
    ensures var r := Round(s[..n], delim, ignore, b, ending);
            || r == Round(s, delim, ignore, b, ending')
            || (r.Stop? && r.events == [] && r.status != ParserOk)
  {
    var t := s[..n];
    if t != "" && s[0] == '\r' && !ignore {
      var m := Lcp(t[1..], delim);
      assert t[1..] == s[1..][..n - 1];
      assert s[1..][..m] == t[1..][..m];
      if m == |delim| || 1 + m < n {
        LcpUnique(s[1..], delim, m);
        if m == |delim| {
          CutAfter(s, n, delim, b, ending, ending');
        }
      }
    }
  }

  lemma CutAfter(s: string, n: nat, delim: string, b: Buf, ending: ReadStatus, ending': ReadStatus)
    requires b.Valid() && |delim| <= MAX_DELIM && 1 + |delim| <= n <= |s|
    ensures var r := AfterDelimiter(s[..n], s[..n][1 + |delim|..], delim, b, ending);
            || r == AfterDelimiter(s, s[1 + |delim|..], delim, b, ending')
            || (r.Stop? && r.events == [] && r.status != ParserOk)
  {
    var q := s[..n][1 + |delim|..];
    if |q| > 1 {
      assert s[..n][..|delim| + 2] == s[..|delim| + 2];
    }
  }

  /** The callbacks on the beginning of a stream are the first ones on the whole; if the parse ends well, they are all. */
  lemma {:induction false} CutRun(s: string, n: nat, delim: string, ignore: bool, b: Buf, ending: ReadStatus, ending': ReadStatus)
    requires b.Valid() && |delim| <= MAX_DELIM && n <= |s|
    ensures var cut, whole := Run(s[..n], delim, ignore, b, ending), Run(s, delim, ignore, b, ending');
            cut.events <= whole.events && (cut.status == ParserOk ==> cut == whole)
    decreases n, if ignore then 0 else 1
  {
    hide Run, Round;
    var r, r' := Round(s[..n], delim, ignore, b, ending), Round(s, delim, ignore, b, ending');
    CutRound(s, n, delim, ignore, b, ending, ending');
    RunUnfolds(s[..n], delim, ignore, b, ending, [], r);
    AfterNothing(Run(s[..n], delim, ignore, b, ending));
    RunUnfolds(s, delim, ignore, b, ending', [], r');
    AfterNothing(Run(s, delim, ignore, b, ending'));
    assert [] + r.events == r.events && [] + r'.events == r'.events;
    if r.Go? {
      assert s[..n][r.skip..] == s[r.skip..][..n - r.skip];
      CutRun(s[r.skip..], n - r.skip, delim, r.ignore, r.buf, ending, ending');
    }
  }

  /** Complete bodies but for the last one, of which there is a beginning. */
  ghost predicate Begun(bodies: seq<string>, whole: seq<string>) {
    && |bodies| <= |whole|
    && forall i :: 0 <= i < |bodies| ==> if i < |bodies| - 1 then bodies[i] == whole[i] else bodies[i] <= whole[i]
  }

  lemma {:induction false} BodyBegun(events: seq<Event>, more: seq<Event>)
    ensures Body(events) <= Body(events + more)
    ensures (exists e :: e in events && (e.PartBegin? || e.ParseEnd?)) ==> Body(events) == Body(events + more)
  {
    if events != [] {
      assert (events + more)[1..] == events[1..] + more;
      BodyBegun(events[1..], more);
    }
  }

  lemma BegunCons(body: string, whole: string, bodies: seq<string>, wholes: seq<string>)
    requires Begun(bodies, wholes) && body <= whole && (bodies != [] ==> body == whole)
    ensures Begun([body] + bodies, [whole] + wholes)
  {
    forall i | 0 <= i <= |bodies|
      ensures ([body] + bodies)[i] <= ([whole] + wholes)[i]
      ensures i < |bodies| ==> ([body] + bodies)[i] == ([whole] + wholes)[i]
    {
      if i > 0 {
        assert ([body] + bodies)[i] == bodies[i - 1] && ([whole] + wholes)[i] == wholes[i - 1];
      }
    }
  }

  lemma {:induction false} BodiesBegun(events: seq<Event>, more: seq<Event>)
    ensures Begun(Bodies(events), Bodies(events + more))
    ensures Bodies(events) != [] ==> exists e :: e in events && e.PartBegin?
  {
    hide Body, Bodies, Begun;
    if events == [] {
      NothingBegun(more);
    } else {
      var rest := events[1..];
      assert events == [events[0]] + rest && events + more == [events[0]] + (rest + more);
      BodiesBegun(rest, more);
      BodiesCons(events[0], rest);
      BodiesCons(events[0], rest + more);
      if events[0].PartBegin? {
        BodyBegun(rest, more);
        BegunCons(Body(rest), Body(rest + more), Bodies(rest), Bodies(rest + more));
      } else {
        assert [] + Bodies(rest) == Bodies(rest) && [] + Bodies(rest + more) == Bodies(rest + more);
      }
    }
  }

  lemma NothingBegun(more: seq<Event>)
    ensures Bodies([]) == [] && Begun([], Bodies([] + more))
  {
  }

  /** For every stream: what has been received when it breaks off is the beginning of what would have been. */
  lemma CutBodies(s: string, n: nat, delim: string, b: Buf, ending: ReadStatus, ending': ReadStatus)
    requires b.Valid() && |delim| <= MAX_DELIM && n <= |s|
    ensures Begun(Bodies(Run(s[..n], delim, false, b, ending).events), Bodies(Run(s, delim, false, b, ending').events))
  {
    hide Run;
    CutRun(s, n, delim, false, b, ending, ending');
    var cut, whole := Run(s[..n], delim, false, b, ending).events, Run(s, delim, false, b, ending').events;
    assert whole == cut + whole[|cut|..];
    BodiesBegun(cut, whole[|cut|..]);
  }

  // ---------------------------------------------------------------- the beginning of a message

  /** The parts before the last delimiter. */
  function PrintBefore(boundary: string, segments: seq<string>): string {
    if segments == [] then "" else Delimiter(boundary) + "\r\n" + segments[0] + PrintBefore(boundary, segments[1..])
  }

  lemma {:induction false} PrintsBefore(boundary: string, segments: seq<string>)
    ensures PrintParts(boundary, segments) == PrintBefore(boundary, segments) + (Delimiter(boundary) + "--" + "\r\n\r\n")
  {
    if segments == [] {
      assert PrintBefore(boundary, segments) + (Delimiter(boundary) + "--" + "\r\n\r\n") == Delimiter(boundary) + "--" + "\r\n\r\n";
    } else {
      PrintsBefore(boundary, segments[1..]);
      Assoc(Delimiter(boundary) + "\r\n" + segments[0], PrintBefore(boundary, segments[1..]),
            Delimiter(boundary) + "--" + "\r\n\r\n");
    }
  }

  /** A stream without carriage returns is content only. */
  lemma {:induction false} NoCrNoEnd(s: string, delim: string, b: Buf, ending: ReadStatus)
    requires b.Valid() && |delim| <= MAX_DELIM && '\r' !in s
    ensures Run(s, delim, false, b, ending).status != ParserOk
    decreases |s|
  {
    hide Run;
    var r := Round(s, delim, false, b, ending);
    RunUnfolds(s, delim, false, b, ending, [], r);
    AfterNothing(Run(s, delim, false, b, ending));
    if r.Go? {
      NoCrNoEnd(s[1..], delim, r.buf, ending);
    }
  }

  /** A delimiter with a single hyphen, and something else, is content only. */
  lemma OneHyphen(boundary: string, b: Buf, ending: ReadStatus)
    requires UsableBoundary(boundary) && b.Valid()
    ensures Run(Delimiter(boundary) + "-x", Delimiter(boundary)[1..], false, b, ending).status != ParserOk
  {
    hide Run;
    var d, s := Delimiter(boundary), Delimiter(boundary) + "-x";
    assert s[1..][..|d| - 1] == d[1..];
    LcpUnique(s[1..], d[1..], |d| - 1);
    assert s[|d|..] == "-x" && s[0..] == s;
    assert Round(s, d[1..], false, b, ending) == Go([], 0, true, b);
    RunGoes(s, d[1..], false, b, ending, Go([], 0, true, b));
    AddsByte(s, d[1..], true, b, ending);
    var (events, b') := b.Add('\r').FlushIfFull();
    RunGoes(s, d[1..], true, b, ending, Go(events, 1, false, b'));
    assert s[1..] == "\n--" + boundary + "-x";
    NoCrNoEnd(s[1..], d[1..], b', ending);
  }

  /** Behind parts that come back, the status is that of what follows them. */
  lemma {:induction false} StatusBehind(segments: seq<string>, boundary: string, tail: string, b: Buf, ending: ReadStatus) returns (b': Buf)
    requires UsableBoundary(boundary) && b.Valid() && Survive(segments, boundary, b)
    requires StartsWith(tail, Delimiter(boundary)) && |tail| >= |Delimiter(boundary)| + 2
    ensures b'.Valid()
    ensures Run(PrintBefore(boundary, segments) + tail, Delimiter(boundary)[1..], false, b, ending).status
         == Run(tail, Delimiter(boundary)[1..], false, b', ending).status
    decreases |segments|
  {
    hide Run, Absorb, StartsWith;
    var d := Delimiter(boundary);
    if segments == [] {
      b' := b;
      assert "" + tail == tail;
    } else {
      var content, rest, b0 := segments[0], PrintBefore(boundary, segments[1..]) + tail, Buf(b.data, 0);
      assert PrintBefore(boundary, segments) + tail == d + "\r\n" + (content + rest);
      RunPartBegin(content + rest, boundary, b, ending);
      BeforeStart(boundary, segments[1..], tail);
      assert (content + rest)[|content|..] == rest;
      AbsorbInPlace(content, rest, boundary, b0);
      var events := AbsorbBack(content + rest, |content|, boundary, b0, ending);
      b' := StatusBehind(segments[1..], boundary, tail, Absorb(content + "\r\n", |content|, boundary, b0).value, ending);
    }
  }

  lemma BeforeStart(boundary: string, segments: seq<string>, tail: string)
    requires StartsWith(tail, Delimiter(boundary)) && |tail| >= |Delimiter(boundary)| + 2
    ensures var s := PrintBefore(boundary, segments) + tail;
            StartsWith(s, Delimiter(boundary)) && |s| >= |Delimiter(boundary)| + 2
  {
    if segments == [] {
      assert PrintBefore(boundary, segments) + tail == tail;
    } else {
      var d := Delimiter(boundary);
      assert (PrintBefore(boundary, segments) + tail)[..|d|] == d;
    }
  }

  /** Where the closing hyphens of a message end. */
  function Closed(boundary: string, segments: seq<string>): nat {
    |PrintBefore(boundary, segments)| + |Delimiter(boundary)| + 2
  }

  lemma CutParts(segments: seq<string>, boundary: string, n: nat)
    requires n <= |PrintParts(boundary, segments)|
    ensures var before, d := PrintBefore(boundary, segments), Delimiter(boundary);
            if n < Closed(boundary, segments) then n <= |before + (d + "-x")| && PrintParts(boundary, segments)[..n] == (before + (d + "-x"))[..n]
            else exists z :: PrintParts(boundary, segments)[..n] == before + (d + "--" + z)
  {
    hide PrintBefore, PrintParts;
    var before, d := PrintBefore(boundary, segments), Delimiter(boundary);
    PrintsBefore(boundary, segments);
    var m := PrintParts(boundary, segments);
    var k := |before| + |d| + 1;
    assert m[..k] == before + d + "-" == (before + (d + "-x"))[..k];
    if n < Closed(boundary, segments) {
      assert m[..n] == m[..k][..n] && (before + (d + "-x"))[..n] == (before + (d + "-x"))[..k][..n];
    } else {
      var z := m[..n][k + 1..];
      assert m[..k + 1] == before + (d + "--");
      assert m[..n] == m[..k + 1] + z;
      assert m[..n] == before + (d + "--" + z);
    }
  }

  /**
   The beginning of a printed message whose parts come back: it is complete if and only if it
   has the closing hyphens. Without them the status is that of the source's ending, and the
   bodies received are the beginning of the segments.
   */
  lemma CutMessage(segments: seq<string>, boundary: string, n: nat, b: Buf, ending: ReadStatus)
    requires UsableBoundary(boundary) && b.Valid() && Survive(segments, boundary, b) && ending != ReadOk
    requires n <= |PrintParts(boundary, segments)|
    ensures var o := Run(PrintParts(boundary, segments)[..n], Delimiter(boundary)[1..], false, b, ending);
            && (o.status == ParserOk <==> n >= |PrintParts(boundary, segments)| - 4)
            && (o.status != ParserOk ==> o.status == if ending == ReadError then ReadFailure else IncompleteMessage)
            && Begun(Bodies(o.events), segments)
            && (o.status == ParserOk ==> Bodies(o.events) == segments)
  {
    hide Run, Survive, PrintBefore, PrintParts, Bodies, Body, Begun;
    var d, before, m := Delimiter(boundary), PrintBefore(boundary, segments), PrintParts(boundary, segments);
    PrintsBefore(boundary, segments);
    assert |m| - 4 == Closed(boundary, segments);
    CutParts(segments, boundary, n);
    HowItEnds(m[..n], d[1..], b, ending);
    CutBodies(m, n, d[1..], b, ending, ending);
    CutRun(m, n, d[1..], false, b, ending, ending);
    RunBack(segments, boundary, b, ending);
    if n < Closed(boundary, segments) {
      var tail := d + "-x";
      assert tail[..|d|] == d;
      CutRun(before + tail, n, d[1..], false, b, ending, ending);
      var b' := StatusBehind(segments, boundary, tail, b, ending);
      OneHyphen(boundary, b', ending);
    } else {
      var z :| m[..n] == before + (d + "--" + z);
      assert (d + "--" + z)[..|d|] == d;
      var b' := StatusBehind(segments, boundary, d + "--" + z, b, ending);
      RunParseEnd(z, boundary, b', ending);
    }
  }
}
