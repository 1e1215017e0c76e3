/**
 Sending a multipart message and receiving it: the client's writes, through the chunked
 coding, the parser and the message builder.
 */
module EndToEnd {
  import Chunked
  import ContentTypes
  import HeaderLines
  import opened Lists
  import opened MimeParser
  import opened MimeReader
  import opened MimeRoundTrip
  import PartHeader
  import opened Text

  /** A part as the client sends it: its three header values, and the writes that its body is made of. */
  datatype Part = Part(contentType: string, encoding: string, id: string, pieces: seq<string>)

  const CONTENT_TYPE := "Content-Type"
  const CONTENT_TRANSFER_ENCODING := "Content-Transfer-Encoding"
  const CONTENT_ID := "Content-Id"

  function Headers(p: Part): seq<Pair> {
    [Pair(CONTENT_TYPE, p.contentType), Pair(CONTENT_TRANSFER_ENCODING, p.encoding), Pair(CONTENT_ID, p.id)]
  }

  function PartBody(p: Part): string {
    Concat(p.pieces)
  }

  function Segment(p: Part): string {
    PartHeader.PrintBlock(Headers(p)) + PartBody(p)
  }

  function Segments(parts: seq<Part>): (r: seq<string>)
    ensures |r| == |parts| && forall i :: 0 <= i < |r| ==> r[i] == Segment(parts[i])
  {
    seq(|parts|, i requires 0 <= i < |parts| => Segment(parts[i]))
  }

  // ---------------------------------------------------------------- httpc_mime_next, httpc_mime_end

  /** The text of the format string for the part header. */
  function NextText(p: Part): string {
    CONTENT_TYPE + ": " + p.contentType + "\r\n" + (CONTENT_TRANSFER_ENCODING + ": " + p.encoding + "\r\n")
    + (CONTENT_ID + ": " + p.id + "\r\n") + "\r\n"
  }

  lemma ThreeLines(h: seq<Pair>)
    requires |h| == 3
    ensures HeaderLines.PrintLines(h)
         == h[0].key + ": " + h[0].value + "\r\n" + (h[1].key + ": " + h[1].value + "\r\n") + (h[2].key + ": " + h[2].value + "\r\n")
  {
    hide HeaderLines.PrintLines;
    HeaderLines.PrintTo(h, 0);
    HeaderLines.PrintTo(h, 1);
    HeaderLines.PrintTo(h, 2);
    assert h[..3] == h;
  }

  lemma NextTextIsBlock(p: Part)
    ensures NextText(p) == PartHeader.PrintBlock(Headers(p))
  {
    hide HeaderLines.PrintLines;
    ThreeLines(Headers(p));
  }

  const BUFFER_SIZE := 512

  lemma TwoWrites(a: string, b: string)
    ensures Chunked.EncodeWrites([a, b]) == Chunked.EncodeWrite(a) + Chunked.EncodeWrite(b)
  {
    hide Chunked.EncodeWrite, Chunked.EncodeWrites;
    Chunked.EncodeCons([a, b]);
    Chunked.EncodeCons([b]);
    assert [a, b][1..] == [b] && [b][1..] == [];
  }

  method MimeNext(out: Chunked.OutputStream, id: int, p: Part)
    requires IsInt32(id) && |NextText(p)| < BUFFER_SIZE
    modifies out.sock
    ensures out.sock.sent == old(out.sock.sent)
                             + if out.chunked then Chunked.EncodeWrites([Delimiter(ContentTypes.Boundary(id)) + "\r\n", NextText(p)])
                               else Delimiter(ContentTypes.Boundary(id)) + "\r\n" + NextText(p)
  {
    hide Chunked.EncodeWrite, Chunked.EncodeWrites, NextText, Delimiter, ContentTypes.Boundary;
    var delimiter := Delimiter(ContentTypes.Boundary(id)) + "\r\n";
    TwoWrites(delimiter, NextText(p));
    out.Write(delimiter);
    out.Write(NextText(p));
  }

  /** The sending half of httpc_mime_end. */
  method MimeEnd(out: Chunked.OutputStream, id: int)
    requires IsInt32(id)
    modifies out.sock
    ensures out.sock.sent == old(out.sock.sent)
                             + if out.chunked then Chunked.EncodeWrite(PrintParts(ContentTypes.Boundary(id), [])) + Chunked.LAST_CHUNK
                               else PrintParts(ContentTypes.Boundary(id), [])
  {
    out.Write(Delimiter(ContentTypes.Boundary(id)) + "--" + "\r\n\r\n");
    out.Flush();
  }

  /** All writes of a message. */
  function Writes(boundary: string, parts: seq<Part>): seq<string> {
    if parts == [] then [PrintParts(boundary, [])]
    else [Delimiter(boundary) + "\r\n", NextText(parts[0])] + parts[0].pieces + Writes(boundary, parts[1..])
  }

  lemma {:induction false} ConcatJoin(a: seq<string>, b: seq<string>)
    ensures Concat(a + b) == Concat(a) + Concat(b)
  {
    if a == [] {
      assert a + b == b;
    } else {
      assert (a + b)[1..] == a[1..] + b;
      ConcatJoin(a[1..], b);
    }
  }

  /** The writes amount to the printed parts. */
  lemma {:induction false} WritesArePrinted(boundary: string, parts: seq<Part>)
    ensures Concat(Writes(boundary, parts)) == PrintParts(boundary, Segments(parts))
  {
    hide NextText, PartHeader.PrintBlock;
    if parts == [] {
      assert Writes(boundary, parts)[1..] == [];
    } else {
      var p, more := parts[0], Writes(boundary, parts[1..]);
      var first := [Delimiter(boundary) + "\r\n", NextText(p)];
      assert first[1..] == [NextText(p)] && first[1..][1..] == [];
      ConcatJoin(first + p.pieces, more);
      ConcatJoin(first, p.pieces);
      NextTextIsBlock(p);
      WritesArePrinted(boundary, parts[1..]);
      assert Segments(parts)[1..] == Segments(parts[1..]);
    }
  }

  // ---------------------------------------------------------------- the message comes back

  /** What httpc_mime_next and the writes of the body can send; an empty write would end the message. */
  ghost predicate Sendable(p: Part) {
    && (forall piece :: piece in p.pieces ==> piece != "" && IsInt32(|piece|))
    && |NextText(p)| < BUFFER_SIZE
    && forall h :: h in Headers(p) ==> HeaderLines.Fits(h)
  }

  /** The part's header comes back: see PartHeader.PrintedBlockComesBack. */
  ghost predicate ReadableHeader(p: Part) {
    (forall h :: h in Headers(p) ==> HeaderLines.Splittable(h)) && PartHeader.TrailingCrs(p.id) % 2 == 0
  }

  /** The part's file is complete: see PartHeader.FileHoldsBody. */
  predicate KeepsLastByte(p: Part) {
    var header, total := |PartHeader.PrintBlock(Headers(p))|, |Segment(p)|;
    var end := PartHeader.ChunkEnd(header, total);
    end != header + 1 && (total - end) % FLUSH_SIZE != 1
  }

  /** The recogniser has collected the header as it was printed. */
  ghost predicate Collected(r: PartHeader.Recogniser, p: Part) {
    r == PartHeader.Recogniser(4, HeaderLines.PrintLines(Headers(p)) + "\0")
  }

  /** What the message builder makes of the callbacks of a part: its header pairs, and its file. */
  ghost predicate Rebuilt(chunks: seq<string>, p: Part, key: string, value: string) {
    var (r, file) := PartHeader.Receive(PartHeader.START, chunks);
    && (Collected(r, p) && PartHeader.SplitsInto(r.text, key, value, Headers(p)) <==> ReadableHeader(p))
    && (Collected(r, p) ==> (file == PartBody(p) <==> KeepsLastByte(p)))
  }

  lemma HeaderIsRead(p: Part, key: string, value: string)
    requires Sendable(p) && |key| == |value| == HeaderLines.FIELD_SIZE
    ensures var (r, used) := PartHeader.START.Feed(Segment(p));
            && (Collected(r, p) && PartHeader.SplitsInto(r.text, key, value, Headers(p)) <==> ReadableHeader(p))
            && (Collected(r, p) ==> used == |PartHeader.PrintBlock(Headers(p))|)
  {
    hide PartHeader.Recogniser.Feed, PartHeader.SplitsInto, PartHeader.PrintBlock, PartBody, HeaderLines.PrintLines;
    hide HeaderLines.Fits, HeaderLines.Splittable, PartHeader.TrailingCrs, PartHeader.HeaderEndsAt, NextText;
    PartHeader.TextOfBlock(Headers(p), PartBody(p));
    PartHeader.PrintedBlockComesBack(Headers(p), PartBody(p), key, value);
  }

  lemma PartIsRebuilt(p: Part, key: string, value: string)
    requires Sendable(p) && |key| == |value| == HeaderLines.FIELD_SIZE
    ensures Rebuilt(Chunks(Segment(p)), p, key, value)
  {
    hide PartHeader.Recogniser.Feed, PartHeader.Receive, PartHeader.ChunkEnd, PartHeader.SplitsInto, PartHeader.PrintBlock, Chunks, PartBody;
    hide Sendable, ReadableHeader, Headers, HeaderLines.PrintLines;
    HeaderIsRead(p, key, value);
    PartHeader.ReceiveFeeds(PartHeader.START, Segment(p));
    if PartHeader.START.Feed(Segment(p)).0.state == 4 {
      PartHeader.FileHoldsBody(Segment(p));
    }
    assert Segment(p)[|PartHeader.PrintBlock(Headers(p))|..] == PartBody(p);
  }

  lemma BoundaryIsUsable(id: int)
    requires IsInt32(id)
    ensures UsableBoundary(ContentTypes.Boundary(id))
  {
    ContentTypes.BoundaryText(id);
  }

  lemma {:induction false} WritesAreSendable(boundary: string, parts: seq<Part>)
    requires UsableBoundary(boundary) && forall p :: p in parts ==> Sendable(p)
    ensures forall w :: w in Writes(boundary, parts) ==> w != "" && IsInt32(|w|)
  {
    hide NextText;
    if parts != [] {
      assert parts[0] in parts;
      NextTextIsLong(parts[0]);
      WritesAreSendable(boundary, parts[1..]);
    }
  }

  lemma NextTextIsLong(p: Part)
    ensures NextText(p) != ""
  {
  }

  /** The bytes that the input stream gives: all of the printed parts, with just the final CRLF left on the wire. */
  lemma ChunksComeBack(boundary: string, parts: seq<Part>, after: string, sizes: seq<nat>)
    requires UsableBoundary(boundary) && forall p :: p in parts ==> Sendable(p)
    requires Chunked.Sum(sizes) > |PrintParts(boundary, Segments(parts))|
    ensures var r := Chunked.Session(Chunked.INITIAL, Chunked.EncodeWrites(Writes(boundary, parts)) + Chunked.LAST_CHUNK + after, sizes);
            r.Some? && r.value.0 == PrintParts(boundary, Segments(parts)) && r.value.2 == "\r\n" + after
  {
    hide Chunked.Session, Chunked.EncodeWrites, Writes, PrintParts, Sendable, Segments;
    var writes := Writes(boundary, parts);
    WritesAreSendable(boundary, parts);
    WritesArePrinted(boundary, parts);
    Chunked.ChunkedRoundTrip(writes, after, sizes);
    Chunked.NothingLost(writes);
    Chunked.FinalCrLfIsLeft(writes, after);
  }

  /**
   A whole message: whatever the sizes of the body writes and of the reads, the parser ends
   well, there is one part_begin for each part, and from the received_bytes callbacks behind
   it the message builder gets the part's header pairs, if and only if the header is readable,
   and then its body, if and only if KeepsLastByte holds.
   */
  lemma MessageComesBack(boundary: string, parts: seq<Part>, after: string, sizes: seq<nat>,
                         b: Buf, ending: ReadStatus, key: string, value: string)
    requires UsableBoundary(boundary) && b.Valid() && |key| == |value| == HeaderLines.FIELD_SIZE
    requires forall p :: p in parts ==> Sendable(p) && Intact(Segment(p), boundary)
    requires Chunked.Sum(sizes) > |PrintParts(boundary, Segments(parts))|
    ensures var r := Chunked.Session(Chunked.INITIAL, Chunked.EncodeWrites(Writes(boundary, parts)) + Chunked.LAST_CHUNK + after, sizes);
            && r.Some?
            && var outcome := Run(r.value.0, Delimiter(boundary)[1..], false, b, ending);
               && outcome.status == ParserOk && |PartChunks(outcome.events)| == |parts|
               && forall i :: 0 <= i < |parts| ==> Rebuilt(PartChunks(outcome.events)[i], parts[i], key, value)
  {
    hide Run, Chunked.Session, Chunked.EncodeWrites, Writes, PrintParts, Sendable, Segment, Intact, PartChunks, Rebuilt, Trace, Chunks;
    ChunksComeBack(boundary, parts, after, sizes);
    var segments := Segments(parts);
    forall s | s in segments
      ensures Intact(s, boundary)
    {
      var i :| 0 <= i < |segments| && segments[i] == s;
      assert parts[i] in parts;
    }
    RunPrinted(segments, boundary, b, ending);
    PartChunksSkip(b.EndOfPart(), Trace(segments));
    TraceChunks(segments);
    forall i | 0 <= i < |parts|
      ensures Rebuilt(Chunks(segments[i]), parts[i], key, value)
    {
      assert parts[i] in parts;
      PartIsRebuilt(parts[i], key, value);
    }
  }
}
