/**
 What the message builder does with the bytes of a part: it recognises the header
 block while the bytes arrive in pieces, splits it into pairs, and writes the rest
 to the part's file.
 */
module PartHeader {
  import opened Lists
  import opened MimeReader
  import opened MimeParser
  import opened MimeRoundTrip
  import HeaderLines
  import opened Text

  const HEADER_SIZE := 4064

  /** The recogniser: how much of CR LF CR LF has been seen, and the header text so far. */
  datatype Recogniser = Recogniser(state: nat, text: string) {
    ghost predicate Valid() {
      state <= 4
    }

    /** Bytes consumed but not yet added to the text. */
    function Pending(): string {
      if state == 1 then "\r" else if state == 2 then "\r\n" else if state == 3 then "\r\n\r" else ""
    }

    function Step(c: char): (r: Recogniser)
      requires state < 4
      ensures r.Valid() && |text| <= |r.text|
      ensures r.state < 4 ==> r.text + r.Pending() == text + Pending() + [c]
      ensures r.state == 4 <==> state == 3 && c == '\n'
      ensures r.state == 4 ==> |r.text| > 0 && r.text[|r.text| - 1] == '\0'
    {
      if state == 0 && c == '\r' then Recogniser(1, text)
      else if state == 1 && c == '\n' then Recogniser(2, text)
      else if state == 2 && c == '\r' then Recogniser(3, text)
      else if state == 3 && c == '\n' then Recogniser(4, text + "\r\n" + "\0")
      else Recogniser(0, text + Pending() + [c])
    }

    /** Feeds bytes until the header is complete; also says how many bytes were used. */
    function Feed(bytes: string): (r: (Recogniser, nat))
      requires Valid()
      ensures r.0.Valid() && |text| <= |r.0.text| && r.1 <= |bytes|
      ensures r.0.state < 4 ==> r.1 == |bytes|
      ensures state < 4 && r.0.state == 4 ==> '\0' in r.0.text
      decreases |bytes|
    {
      if state == 4 || bytes == "" then (this, 0)
      else
        var (r, n) := Step(bytes[0]).Feed(bytes[1..]);
        (r, n + 1)
    }
  }

  const START := Recogniser(0, "")

  /** Recognition does not depend on how the bytes are cut into pieces. */
  lemma {:induction false} FeedInPieces(r: Recogniser, a: string, b: string)
    requires r.Valid()
    ensures var (r1, n1) := r.Feed(a);
            var (r2, n2) := r1.Feed(b);
            r.Feed(a + b) == (r2, n1 + n2)
    decreases |a|
  {
    if r.state == 4 {
    } else if a == "" {
      assert a + b == b;
    } else {
      assert (a + b)[1..] == a[1..] + b;
      FeedInPieces(r.Step(a[0]), a[1..], b);
    }
  }

  const BLANK_LINE := "\r\n\r\n"

  /** While the header is incomplete, the text and what is pending are the bytes fed. */
  lemma {:induction false} TextIsWhatWasFed(r: Recogniser, bytes: string)
    requires r.state < 4 && r.Feed(bytes).0.state < 4
    ensures var r' := r.Feed(bytes).0;
            r'.text + r'.Pending() == r.text + r.Pending() + bytes
    decreases |bytes|
  {
    if bytes != "" {
      TextIsWhatWasFed(r.Step(bytes[0]), bytes[1..]);
      assert r.text + r.Pending() + [bytes[0]] + bytes[1..] == r.text + r.Pending() + bytes;
    }
  }

  /** A complete header is the bytes used, without the blank line's own CRLF. */
  lemma {:induction false} HeaderIsWhatWasFed(r: Recogniser, bytes: string) returns (lines: string)
    requires r.state < 4 && r.Feed(bytes).0.state == 4
    ensures r.text + r.Pending() + bytes[..r.Feed(bytes).1] == lines + BLANK_LINE
    ensures r.Feed(bytes).0.text == lines + "\r\n" + "\0"
    decreases |bytes|
  {
    var r1 := r.Step(bytes[0]);
    var n := r1.Feed(bytes[1..]).1;
    assert bytes[..n + 1] == [bytes[0]] + bytes[1..][..n];
    if r1.state == 4 {
      lines := r.text;
    } else {
      lines := HeaderIsWhatWasFed(r1, bytes[1..]);
      assert r.text + r.Pending() + [bytes[0]] + bytes[1..][..n] == r.text + r.Pending() + bytes[..n + 1];
    }
  }

  /** How many carriage returns directly precede position `n`. */
  function CrRun(s: string, n: nat): nat
    requires n <= |s|
  {
    if n == 0 || s[n - 1] != '\r' then 0 else 1 + CrRun(s, n - 1)
  }

  /** One byte more. */
  lemma FeedOneMore(s: string, n: nat)
    requires n < |s|
    ensures var (r, used) := START.Feed(s[..n]);
            START.Feed(s[..n + 1]) == if r.state == 4 then (r, used) else (r.Step(s[n]), n + 1)
  {
    assert s[..n + 1] == s[..n] + [s[n]];
    FeedInPieces(START, s[..n], [s[n]]);
    var r := START.Feed(s[..n]).0;
    if r.state < 4 {
      assert r.Feed([s[n]]).0 == r.Step(s[n]).Feed([s[n]][1..]).0;
    }
  }

  /** A blank line, with the line end before it, at position `k`. */
  predicate BlankLineAt(s: string, k: nat) {
    k + 4 <= |s| && s[k] == '\r' && s[k + 1] == '\n' && s[k + 2] == '\r' && s[k + 3] == '\n'
  }

  /** A blank line that ends the header: an even number of carriage returns (usually none) directly precedes it. */
  ghost predicate HeaderEndsAt(s: string, k: nat) {
    BlankLineAt(s, k) && CrRun(s, k) % 2 == 0
  }

  /** A line end whose carriage return the recogniser has taken for the first of a pair. */
  ghost predicate LineEndBefore(s: string, n: nat)
    requires n <= |s|
  {
    n >= 2 && s[n - 1] == '\n' && CrRun(s, n - 1) % 2 == 1
  }

  /** The state after `n` bytes in which no header has ended. */
  ghost predicate Tracks(r: Recogniser, s: string, n: nat)
    requires n <= |s|
  {
    && r.state < 4
    && (r.state % 2 == 1 <==> CrRun(s, n) % 2 == 1)
    && (r.state == 2 <==> LineEndBefore(s, n))
    && (r.state == 3 <==> n >= 1 && s[n - 1] == '\r' && LineEndBefore(s, n - 1))
  }

  lemma TracksMeans(r: Recogniser, s: string, n: nat)
    requires n <= |s| && Tracks(r, s, n)
    ensures r.state < 4
  {
  }

  /** The recogniser is about to be done exactly where a header is about to end. */
  lemma AlmostDone(r: Recogniser, s: string, n: nat)
    requires n < |s| && Tracks(r, s, n)
    ensures r.state == 3 && s[n] == '\n' <==> n >= 3 && HeaderEndsAt(s, n - 3)
  {
    if n >= 2 {
      assert s[n - 1] == '\r' && n >= 3 ==> CrRun(s, n - 2) == if s[n - 3] == '\r' then 1 + CrRun(s, n - 3) else 0;
    }
  }

  lemma TracksStep(r: Recogniser, s: string, n: nat)
    requires n < |s| && Tracks(r, s, n) && !(r.state == 3 && s[n] == '\n')
    ensures Tracks(r.Step(s[n]), s, n + 1)
  {
  }

  lemma {:induction false} StateParity(s: string, n: nat)
    requires n <= |s| && forall i :: 0 <= i < n - 3 ==> !HeaderEndsAt(s, i)
    ensures Tracks(START.Feed(s[..n]).0, s, n)
  {
    if n > 0 {
      hide Recogniser.Feed, Recogniser.Step, Tracks, HeaderEndsAt, BlankLineAt, CrRun;
      assert s[..n - 1 + 1] == s[..n];
      var r := START.Feed(s[..n - 1]).0;
      StateParity(s, n - 1);
      FeedOneMore(s, n - 1);
      TracksMeans(r, s, n - 1);
      AlmostDone(r, s, n - 1);
      TracksStep(r, s, n - 1);
    }
  }

  /** When the recogniser is done after `a`, what follows does not matter. */
  lemma FeedStops(a: string, b: string)
    ensures START.Feed(a).0.state == 4 ==> START.Feed(a + b) == START.Feed(a)
    ensures START.Feed(a).0.state < 4 && START.Feed(a + b).0.state == 4 ==> START.Feed(a + b).1 > |a|
  {
    hide Recogniser.Feed, Recogniser.Step;
    FeedInPieces(START, a, b);
    FeedGoesOn(START.Feed(a).0, b);
    FeedAll(START, a);
  }

  lemma FeedAll(r: Recogniser, bytes: string)
    requires r.Valid()
    ensures r.Feed(bytes).0.state < 4 ==> r.Feed(bytes).1 == |bytes|
  {
    hide Recogniser.Step;
  }

  /** The header ends at the first blank line that ends one, and nowhere else. */
  lemma {:induction false} HeaderEnd(s: string, k: nat)
    ensures (START.Feed(s).0.state == 4 && START.Feed(s).1 == k + 4)
            <==> HeaderEndsAt(s, k) && forall i :: 0 <= i < k ==> !HeaderEndsAt(s, i)
    decreases k
  {
    hide Recogniser.Feed, HeaderEndsAt;
    if i :| 0 <= i < k && HeaderEndsAt(s, i) && forall j :: 0 <= j < i ==> !HeaderEndsAt(s, j) {
      HeaderEnd(s, i);
    } else {
      NoFirst(s, k);
      if k + 4 <= |s| {
        StateParity(s, k + 3);
        var (r, used) := START.Feed(s[..k + 3]);
        TracksMeans(r, s, k + 3);
        AlmostDone(r, s, k + 3);
        FeedOneMore(s, k + 3);
        assert s == s[..k + 4] + s[k + 4..];
        FeedStops(s[..k + 4], s[k + 4..]);
      } else {
        EndsInside(s, k);
      }
    }
  }

  lemma EndsInside(s: string, k: nat)
    requires k + 4 > |s|
    ensures !HeaderEndsAt(s, k)
  {
  }

  lemma {:induction false} NoFirst(s: string, k: nat)
    requires !exists i :: 0 <= i < k && HeaderEndsAt(s, i) && forall j :: 0 <= j < i ==> !HeaderEndsAt(s, j)
    ensures forall i :: 0 <= i < k ==> !HeaderEndsAt(s, i)
  {
    hide HeaderEndsAt;
    if k > 0 {
      NoFirst(s, k - 1);
    }
  }

  /** In particular: at the first blank line, if it ends the header. */
  lemma FirstBlankLine(s: string, k: nat)
    requires BlankLineAt(s, k) && forall i :: 0 <= i < k ==> !BlankLineAt(s, i)
    ensures (START.Feed(s).0.state == 4 && START.Feed(s).1 == k + 4) <==> CrRun(s, k) % 2 == 0
  {
    hide Recogniser.Feed, CrRun;
    HeaderEnd(s, k);
  }

  lemma FeedFirst(r: Recogniser, bytes: string)
    requires r.state < 4 && bytes != ""
    ensures r.Feed(bytes).0 == r.Step(bytes[0]).Feed(bytes[1..]).0
    ensures r.Feed(bytes).1 == r.Step(bytes[0]).Feed(bytes[1..]).1 + 1
  {
    hide Recogniser.Step;
  }

  lemma FeedNothing(r: Recogniser)
    requires r.Valid()
    ensures r.Feed("") == (r, 0)
  {
  }

  lemma FeedGoesOn(r: Recogniser, bytes: string)
    requires r.Valid()
    ensures r.state == 4 ==> r.Feed(bytes) == (r, 0)
    ensures r.state < 4 && r.Feed(bytes).0.state == 4 ==> r.Feed(bytes).1 > 0
  {
  }

  // ---------------------------------------------------------------- the part's file

  /** The bytes of a callback that go to the file, from index `i`: a single one is dropped. */
  function Leftover(bytes: string, i: nat): string {
    if i >= |bytes| - 1 then "" else bytes[i..]
  }

  /** The callbacks for one part: the final recogniser, and what was written to the file. */
  function Receive(r: Recogniser, chunks: seq<string>): (Recogniser, string)
    requires r.Valid()
    decreases |chunks|
  {
    if chunks == [] then (r, "")
    else
      var (r1, i) := r.Feed(chunks[0]);
      var (r2, file) := Receive(r1, chunks[1..]);
      (r2, Leftover(chunks[0], i) + file)
  }

  /** Where the chunk ends in which the header of length `header` ends. */
  function ChunkEnd(header: nat, total: nat): (end: nat)
    requires header <= total
    ensures header <= end <= total
    decreases total
  {
    if header <= FLUSH_SIZE then Min(total, FLUSH_SIZE)
    else FLUSH_SIZE + ChunkEnd(header - FLUSH_SIZE, total - FLUSH_SIZE)
  }

  /** The part body without a last chunk of a single byte. */
  function DropSingle(body: string): string {
    if |body| % FLUSH_SIZE == 1 then body[..|body| - 1] else body
  }

  /** Once the header is complete, only a last chunk of a single byte is lost. */
  lemma {:induction false} ReceiveBody(r: Recogniser, body: string)
    requires r.state == 4
    ensures Receive(r, Chunks(body)) == (r, DropSingle(body))
    decreases |body|
  {
    hide Recogniser.Feed, Chunks;
    if body == "" {
      NoChunks();
    } else {
      var n := Min(|body|, FLUSH_SIZE);
      var first, rest := body[..n], body[n..];
      ChunksCons(body);
      ReceiveBody(r, rest);
      FeedGoesOn(r, first);
      assert body == first + rest && first[0..] == first;
      DropSingleRest(first, rest);
    }
  }

  lemma DropSingleRest(first: string, rest: string)
    requires 0 < |first| <= FLUSH_SIZE && (rest != "" ==> |first| == FLUSH_SIZE)
    ensures DropSingle(first + rest) == Leftover(first, 0) + DropSingle(rest)
  {
    assert first[0..] == first;
    if rest == "" {
      assert first + rest == first;
    } else {
      assert |first + rest| % FLUSH_SIZE == |rest| % FLUSH_SIZE;
      assert (first + rest)[..|first + rest| - 1] == first + rest[..|rest| - 1];
    }
  }

  lemma NoChunks()
    ensures Chunks("") == []
  {
  }

  lemma ChunksCons(content: string)
    requires content != ""
    ensures var n := Min(|content|, FLUSH_SIZE);
            Chunks(content) == [content[..n]] + Chunks(content[n..])
            && Chunks(content)[1..] == Chunks(content[n..])
  {
    if |content| <= FLUSH_SIZE {
      assert content[..|content|] == content;
    }
  }

  /** What reaches the file of a part whose header takes the first `header` bytes. */
  function FileOf(content: string, header: nat): string
    requires header <= |content|
  {
    var end := ChunkEnd(header, |content|);
    (if end == header + 1 then "" else content[header..end])
    + DropSingle(content[end..])
  }

  lemma FileOfShift(content: string, header: nat)
    requires FLUSH_SIZE < header <= |content|
    ensures FileOf(content, header) == FileOf(content[FLUSH_SIZE..], header - FLUSH_SIZE)
  {
    var rest := content[FLUSH_SIZE..];
    var end := ChunkEnd(header, |content|);
    var end' := ChunkEnd(header - FLUSH_SIZE, |rest|);
    assert end == end' + FLUSH_SIZE;
    assert content[header..end] == rest[header - FLUSH_SIZE..end'];
    assert content[end..] == rest[end'..];
  }

  lemma {:induction false} ReceivePart(r: Recogniser, content: string)
    requires r.state < 4 && r.Feed(content).0.state == 4
    ensures Receive(r, Chunks(content)) == (r.Feed(content).0, FileOf(content, r.Feed(content).1))
    decreases |content|
  {
    hide Recogniser.Feed, Chunks, FileOf;
    FeedGoesOn(r, content);
    var n := Min(|content|, FLUSH_SIZE);
    var rest := content[n..];
    ChunksCons(content);
    assert content == content[..n] + rest;
    FeedInPieces(r, content[..n], rest);
    var (r1, used) := r.Feed(content[..n]);
    var header := r.Feed(content).1;
    FeedGoesOn(r1, rest);
    if r1.state == 4 {
      ReceiveBody(r1, rest);
      FileOfFirst(content, header, n);
    } else {
      ReceivePart(r1, rest);
      FileOfShift(content, header);
      assert Leftover(content[..n], used) == "";
      assert "" + FileOf(rest, header - n) == FileOf(rest, header - n);
    }
  }

  /** The callbacks feed the recogniser the whole content. */
  lemma {:induction false} ReceiveFeeds(r: Recogniser, content: string)
    requires r.Valid()
    ensures Receive(r, Chunks(content)).0 == r.Feed(content).0
    decreases |content|
  {
    hide Recogniser.Feed, Chunks;
    if content == "" {
      NoChunks();
      FeedNothing(r);
    } else {
      var n := Min(|content|, FLUSH_SIZE);
      ChunksCons(content);
      assert content == content[..n] + content[n..];
      FeedInPieces(r, content[..n], content[n..]);
      ReceiveFeeds(r.Feed(content[..n]).0, content[n..]);
    }
  }

  /** The header ends in the first chunk, of length `n`. */
  lemma FileOfFirst(content: string, header: nat, n: nat)
    requires n == Min(|content|, FLUSH_SIZE) && header <= n
    ensures FileOf(content, header) == Leftover(content[..n], header) + DropSingle(content[n..])
  {
    assert content[..n][header..] == content[header..n];
  }

  /**
   The file of a part holds its whole body if and only if the header does not end one
   byte before the end of a chunk, and no chunk of a single byte follows it.
   */
  lemma FileHoldsBody(content: string)
    requires START.Feed(content).0.state == 4
    ensures var header := START.Feed(content).1;
            var end := ChunkEnd(header, |content|);
            Receive(START, Chunks(content)).1 == content[header..]
            <==> end != header + 1 && (|content| - end) % FLUSH_SIZE != 1
  {
    hide Recogniser.Feed, Receive, ChunkEnd, FileOf, Chunks;
    ReceivePart(START, content);
    FileOfIsBody(content, START.Feed(content).1);
  }

  lemma FileOfIsBody(content: string, header: nat)
    requires header <= |content|
    ensures var end := ChunkEnd(header, |content|);
            FileOf(content, header) == content[header..]
            <==> end != header + 1 && (|content| - end) % FLUSH_SIZE != 1
  {
    hide ChunkEnd;
    var end := ChunkEnd(header, |content|);
    assert content[header..] == content[header..end] + content[end..];
    NothingDropped(content[header..end], content[end..]);
  }

  lemma NothingDropped(a: string, b: string)
    ensures (if |a| == 1 then "" else a) + DropSingle(b) == a + b <==> |a| != 1 && |b| % FLUSH_SIZE != 1
  {
    var kept := (if |a| == 1 then "" else a) + DropSingle(b);
    if |a| == 1 || |b| % FLUSH_SIZE == 1 {
      assert |kept| < |a + b|;
    }
  }

  // ---------------------------------------------------------------- printed headers

  /** A header block as printed, with the blank line that ends it. */
  function PrintBlock(pairs: seq<Pair>): string {
    HeaderLines.PrintLines(pairs) + "\r\n"
  }

  /** Positions move along with text in front. */
  lemma BlankLineShifts(front: string, s: string, i: nat)
    ensures BlankLineAt(front + s, |front| + i) == BlankLineAt(s, i)
  {
    var t, n := front + s, |front| + i;
    if i + 4 <= |s| {
      assert t[n] == s[i] && t[n + 1] == s[i + 1] && t[n + 2] == s[i + 2] && t[n + 3] == s[i + 3];
    }
  }

  /** A line without CRLF, its line end, and something that is not a blank line: none begins there. */
  lemma NoBlankLineIn(line: string, rest: string, i: nat)
    requires !HeaderLines.HasCrLf(line) && i < |line| + 2 && (i == |line| ==> !(|rest| >= 2 && rest[..2] == "\r\n"))
    ensures !BlankLineAt(line + "\r\n" + rest, i)
  {
    var s := line + "\r\n" + rest;
    assert i + 1 < |line| ==> s[i] == line[i] && s[i + 1] == line[i + 1];
    assert |rest| >= 2 ==> rest[..2] == [rest[0], rest[1]];
  }

  lemma LineLength(p: Pair)
    requires HeaderLines.OneLine(p)
    ensures var line := Line(p);
            |line| >= 2 && !HeaderLines.HasCrLf(line) && line[..2] != "\r\n"
  {
    HeaderLines.CrLfInLine(p);
    var line := Line(p);
    assert line[..2] == [line[0], line[1]];
    assert "\r\n"[0] == '\r' && "\r\n"[1] == '\n';
    assert line[0] != '\r' || line[0 + 1] != '\n';
  }

  function Line(p: Pair): string {
    p.key + ": " + p.value
  }

  /** A block is its first line and the block of the others. */
  lemma PrintBlockCons(pairs: seq<Pair>, body: string)
    requires pairs != []
    ensures PrintBlock(pairs) + body == Line(pairs[0]) + "\r\n" + (PrintBlock(pairs[1..]) + body)
    ensures |HeaderLines.PrintLines(pairs)| == |Line(pairs[0])| + 2 + |HeaderLines.PrintLines(pairs[1..])|
    ensures PrintBlock([]) == "\r\n" && |HeaderLines.PrintLines([])| == 0
  {
  }

  lemma BlockStart(pairs: seq<Pair>, body: string)
    requires pairs != [] && HeaderLines.OneLine(pairs[0])
    ensures var s := PrintBlock(pairs) + body; |s| >= 2 && s[..2] != "\r\n"
  {
    PrintBlockCons(pairs, body);
    LineLength(pairs[0]);
    assert (Line(pairs[0]) + "\r\n" + (PrintBlock(pairs[1..]) + body))[..2] == Line(pairs[0])[..2];
  }

  /** In a printed block, whatever follows, the first blank line is at its end. */
  lemma {:induction false} BlankLineIsLast(pairs: seq<Pair>, body: string)
    requires pairs != [] && forall p :: p in pairs ==> HeaderLines.OneLine(p)
    ensures var k := |HeaderLines.PrintLines(pairs)| - 2;
            && k >= 0 && BlankLineAt(PrintBlock(pairs) + body, k)
            && forall i :: 0 <= i < k ==> !BlankLineAt(PrintBlock(pairs) + body, i)
    decreases |pairs|
  {
    hide BlankLineAt, HeaderLines.OneLine, HeaderLines.HasCrLf, HeaderLines.PrintLines, PrintBlock, Line;
    assert pairs[0] in pairs;
    var line, rest := Line(pairs[0]), PrintBlock(pairs[1..]) + body;
    LineLength(pairs[0]);
    PrintBlockCons(pairs, body);
    if |pairs| == 1 {
      assert pairs[1..] == [] && rest == "\r\n" + body;
      BlankLineHere(line, body);
      forall i | 0 <= i < |line|
        ensures !BlankLineAt(line + "\r\n" + rest, i)
      {
        NoBlankLineIn(line, rest, i);
      }
    } else {
      BlankLineIsLast(pairs[1..], body);
      assert pairs[1] == pairs[1..][0] && pairs[1] in pairs;
      BlockStart(pairs[1..], body);
      BlankLineFurtherOn(line, rest, |HeaderLines.PrintLines(pairs[1..])| - 2);
    }
  }

  lemma BlankLineFurtherOn(line: string, rest: string, k: nat)
    requires !HeaderLines.HasCrLf(line) && |rest| >= 2 && rest[..2] != "\r\n"
    requires BlankLineAt(rest, k) && forall i :: 0 <= i < k ==> !BlankLineAt(rest, i)
    ensures var front := line + "\r\n";
            && BlankLineAt(front + rest, |front| + k)
            && forall i :: 0 <= i < |front| + k ==> !BlankLineAt(front + rest, i)
  {
    hide BlankLineAt, HeaderLines.HasCrLf;
    var front := line + "\r\n";
    BlankLineShifts(front, rest, k);
    forall i | 0 <= i < |front| + k
      ensures !BlankLineAt(front + rest, i)
    {
      if i < |front| {
        NoBlankLineIn(line, rest, i);
      } else {
        BlankLineShifts(front, rest, i - |front|);
      }
    }
  }

  lemma BlankLineHere(line: string, body: string)
    ensures BlankLineAt(line + "\r\n" + ("\r\n" + body), |line|)
  {
  }

  /** The carriage returns at the end of a text. */
  function TrailingCrs(s: string): nat {
    CrRun(s, |s|)
  }

  lemma {:induction false} CrRunInside(front: string, s: string, rest: string, n: nat)
    requires n <= |s| && (front == "" || front[|front| - 1] != '\r')
    ensures CrRun(front + s + rest, |front| + n) == CrRun(s, n)
    decreases n
  {
    if n > 0 {
      assert (front + s + rest)[|front| + n - 1] == s[n - 1];
      CrRunInside(front, s, rest, n - 1);
    }
  }

  /** What is printed before the value of the last pair ends in a blank. */
  lemma LastValue(pairs: seq<Pair>) returns (front: string)
    requires pairs != []
    ensures HeaderLines.PrintLines(pairs) == front + pairs[|pairs| - 1].value + "\r\n"
    ensures front != "" && front[|front| - 1] == ' '
  {
    hide HeaderLines.PrintLines;
    var n, p := |pairs| - 1, pairs[|pairs| - 1];
    HeaderLines.PrintTo(pairs, n);
    assert pairs[..n + 1] == pairs;
    front := HeaderLines.PrintLines(pairs[..n]) + p.key + ": ";
  }

  lemma CrRunBeforeBlankLine(pairs: seq<Pair>, body: string)
    requires pairs != []
    ensures |HeaderLines.PrintLines(pairs)| >= 2
    ensures CrRun(PrintBlock(pairs) + body, |HeaderLines.PrintLines(pairs)| - 2) == TrailingCrs(pairs[|pairs| - 1].value)
  {
    var front := LastValue(pairs);
    var value, rest := pairs[|pairs| - 1].value, "\r\n" + "\r\n" + body;
    assert PrintBlock(pairs) + body == front + value + rest;
    CrRunInside(front, value, rest, |value|);
  }

  lemma BlockEnds(pairs: seq<Pair>, body: string)
    requires pairs != []
    ensures var k := |HeaderLines.PrintLines(pairs)| - 2;
            k >= 0 && (HeaderEndsAt(PrintBlock(pairs) + body, k) <==> TrailingCrs(pairs[|pairs| - 1].value) % 2 == 0)
  {
    hide CrRun;
    CrRunBeforeBlankLine(pairs, body);
    var front := LastValue(pairs);
    BlankLineHere(front + pairs[|pairs| - 1].value, body);
    assert PrintBlock(pairs) + body == front + pairs[|pairs| - 1].value + "\r\n" + ("\r\n" + body);
  }

  /**
   The recogniser stops exactly at the end of a printed block if and only if the last value
   ends in an even number of carriage returns, usually none, and no header ends before, as
   none does between values without CRLF; the text is then that of the block.
   */
  lemma PrintedBlockIsRecognised(pairs: seq<Pair>, body: string)
    requires pairs != []
    ensures var (r, used) := START.Feed(PrintBlock(pairs) + body);
            var even, k := TrailingCrs(pairs[|pairs| - 1].value) % 2 == 0, |HeaderLines.PrintLines(pairs)| - 2;
            && (r.state == 4 && used == |PrintBlock(pairs)|
                <==> even && forall i :: 0 <= i < k ==> !HeaderEndsAt(PrintBlock(pairs) + body, i))
            && (r.state == 4 && used == |PrintBlock(pairs)| <==> r == Recogniser(4, HeaderLines.PrintLines(pairs) + "\0"))
            && ((forall p :: p in pairs ==> HeaderLines.OneLine(p)) ==> (r.state == 4 && used == |PrintBlock(pairs)| <==> even))
  {
    hide Recogniser.Feed, Recogniser.Step, HeaderLines.PrintLines, HeaderLines.OneLine, BlankLineAt, CrRun;
    var s, n := PrintBlock(pairs) + body, |PrintBlock(pairs)|;
    BlockEnds(pairs, body);
    HeaderEnd(s, n - 4);
    if forall p :: p in pairs ==> HeaderLines.OneLine(p) {
      BlankLineIsLast(pairs, body);
    }
    TextOfBlock(pairs, body);
  }

  /** The text that has been collected says where the header ended. */
  lemma TextOfBlock(pairs: seq<Pair>, body: string)
    ensures var (r, used) := START.Feed(PrintBlock(pairs) + body);
            r.state == 4 && used == |PrintBlock(pairs)| <==> r == Recogniser(4, HeaderLines.PrintLines(pairs) + "\0")
  {
    hide Recogniser.Feed, HeaderLines.PrintLines;
    var s, n, text := PrintBlock(pairs) + body, |PrintBlock(pairs)|, HeaderLines.PrintLines(pairs);
    var (r, used) := START.Feed(s);
    if r.state == 4 {
      var lines := HeaderIsWhatWasFed(START, s);
      assert START.text + START.Pending() + s[..used] == s[..used];
      assert (lines + BLANK_LINE)[..|lines| + 2] == lines + "\r\n";
      assert PrintBlock(pairs)[..n - 2] == text && (used == n ==> s[..used] == PrintBlock(pairs));
      assert |r.text| == used - 1;
    }
  }

  /**
   Recognised and split, a printed block gives back its pairs and leaves its body, if and only
   if the pairs are splittable and the last value ends in an even number of carriage returns.
   */
  lemma PrintedBlockComesBack(pairs: seq<Pair>, body: string, key: string, value: string)
    requires pairs != [] && forall p :: p in pairs ==> HeaderLines.Fits(p)
    requires |key| == |value| == HeaderLines.FIELD_SIZE
    ensures var (r, used) := START.Feed(PrintBlock(pairs) + body);
            r.state == 4 && used == |PrintBlock(pairs)| && SplitsInto(r.text, key, value, pairs)
            <==> (forall p :: p in pairs ==> HeaderLines.Splittable(p)) && TrailingCrs(pairs[|pairs| - 1].value) % 2 == 0
  {
    hide Recogniser.Feed, HeaderLines.PrintLines, HeaderLines.OneLine, HeaderLines.Fits, CrRun, HeaderLines.ParseLines, HeaderEndsAt;
    PrintedBlockIsRecognised(pairs, body);
    HeaderLines.NoNul(pairs);
    CStringOf(HeaderLines.PrintLines(pairs), "\0");
    HeaderLines.LinesComeBack(HeaderLines.Locals(key, value, 0, true, false), pairs);
  }

  // ---------------------------------------------------------------- the callback

  /** No field of the header text outgrows its array. */
  ghost predicate FieldsFit(text: string) {
    forall key: string, value: string | |key| == |value| == HeaderLines.FIELD_SIZE ::
      HeaderLines.ParseLines(HeaderLines.Locals(key, value, 0, true, false), CString(text)).Some?
  }

  /** The pairs that the splitter finds when its arrays first hold `key` and `value`. */
  ghost predicate SplitsInto(text: string, key: string, value: string, pairs: seq<Pair>) {
    && |key| == |value| == HeaderLines.FIELD_SIZE
    && HeaderLines.ParseLines(HeaderLines.Locals(key, value, 0, true, false), CString(text)) == Some(pairs)
  }

  /** The part that is being received. */
  class PartSink {
    const header: array<char>
    var headerIndex: nat
    var headerSearch: nat
    var pairs: LinkedList?<Pair>
    var file: string

    ghost predicate Valid()
      reads this
    {
      header.Length == HEADER_SIZE && headerIndex <= HEADER_SIZE && headerSearch <= 4
    }

    ghost function View(): Recogniser
      reads this, header
      requires Valid()
    {
      Recogniser(headerSearch, header[..headerIndex])
    }

    /** The part_begin callback. */
    constructor ()
      ensures Valid() && fresh(header) && View() == START && pairs == null && file == ""
    {
      header := new char[HEADER_SIZE];
      headerIndex, headerSearch, pairs, file := 0, 0, null, "";
    }

    method Put(s: string)
      requires Valid() && headerIndex + |s| <= HEADER_SIZE
      modifies this`headerIndex, header
      ensures Valid() && headerIndex == old(headerIndex) + |s|
      ensures header[..headerIndex] == old(header[..headerIndex]) + s
    {
      forall k | 0 <= k < |s| {
        header[headerIndex + k] := s[k];
      }
      headerIndex := headerIndex + |s|;
    }

    method FeedByte(c: char)
      requires Valid() && headerSearch < 4 && |View().Step(c).text| <= HEADER_SIZE
      modifies this`headerIndex, this`headerSearch, header
      ensures Valid() && View() == old(View()).Step(c)
    {
      if headerSearch == 0 {
        if c == '\r' {
          headerSearch := 1;
        } else {
          Put([c]);
        }
      } else if headerSearch == 1 {
        if c == '\n' {
          headerSearch := 2;
        } else {
          Put("\r" + [c]);
          headerSearch := 0;
        }
      } else if headerSearch == 2 {
        if c == '\r' {
          headerSearch := 3;
        } else {
          Put("\r\n" + [c]);
          headerSearch := 0;
        }
      } else {
        if c == '\n' {
          Put("\r\n\0");
          headerSearch := 4;
        } else {
          Put("\r\n\r" + [c]);
          headerSearch := 0;
        }
      }
    }

    /** The loop over the bytes; stops behind the blank line. */
    method Search(bytes: string) returns (i: nat)
      requires Valid() && headerSearch < 4 && |View().Feed(bytes).0.text| <= HEADER_SIZE
      modifies this`headerIndex, this`headerSearch, header
      ensures Valid() && (View(), i) == old(View()).Feed(bytes)
    {
      hide Recogniser.Step, Recogniser.Feed;
      i := 0;
      ghost var goal := View().Feed(bytes);
      assert bytes[0..] == bytes;
      while i < |bytes|
        invariant Valid() && i <= |bytes| && headerSearch < 4
        invariant View().Feed(bytes[i..]) == (goal.0, goal.1 - i)
      {
        assert bytes[i..][0] == bytes[i] && bytes[i..][1..] == bytes[i + 1..];
        FeedFirst(View(), bytes[i..]);
        FeedByte(bytes[i]);
        FeedGoesOn(View(), bytes[i + 1..]);
        i := i + 1;
        if headerSearch == 4 {
          break;
        }
      }
      FeedNothing(View());
      assert bytes[|bytes|..] == "";
    }

    /** The received_bytes callback. */
    method ReceivedBytes(bytes: string)
      requires Valid()
      requires var r := View().Feed(bytes).0;
               |r.text| <= HEADER_SIZE && (headerSearch < 4 && r.state == 4 ==> FieldsFit(r.text))
      modifies this, header
      ensures Valid() && View() == old(View()).Feed(bytes).0
      ensures file == old(file) + Leftover(bytes, old(View()).Feed(bytes).1)
      ensures old(headerSearch) < 4 && headerSearch == 4 ==>
                && pairs != null && fresh(pairs) && pairs.Valid()
                && exists key, value :: SplitsInto(View().text, key, value, pairs.Values())
      ensures old(headerSearch) == 4 || headerSearch < 4 ==> pairs == old(pairs)
    {
      hide Recogniser.Feed, FieldsFit, SplitsInto;
      ghost var r := View();
      FeedGoesOn(r, bytes);
      var i := 0;
      if headerSearch < 4 {
        i := Search(bytes);
        if headerSearch == 4 {
          SplitHeader();
          ghost var text, found := View().text, pairs.Values();
          file := file + Leftover(bytes, i);
          assert View().text == text && pairs.Values() == found;
          return;
        }
      }
      file := file + Leftover(bytes, i);
    }

    /** What follows the recognition of the header. */
    method SplitHeader()
      requires Valid() && '\0' in View().text && FieldsFit(View().text)
      modifies this`pairs
      ensures pairs != null && fresh(pairs) && pairs.Valid()
      ensures exists key, value :: SplitsInto(View().text, key, value, pairs.Values())
    {
      hide CString, HeaderLines.ParseLines;
      var key, value := new char[HeaderLines.FIELD_SIZE], new char[HeaderLines.FIELD_SIZE];
      ghost var k, v := key[..][0 := '\0'], value[..][0 := '\0'];
      assert header[..] == header[..headerIndex] + header[headerIndex..];
      CStringPrefix(header[..headerIndex], header[headerIndex..]);
      pairs := HeaderLines.ProcessHeader(header, key, value);
      assert SplitsInto(View().text, k, v, pairs.Values());
    }
  }
}
