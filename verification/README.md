# csoap wire formats and data structures

csoap is a SOAP library in C with its own HTTP server and client, nanohttp. This project
models the parts of it that encode, decode and store, and proves what they keep. Bytes of
text protocols are characters; sockets, files and read callbacks are replaced by oracles
that deliver a given stream in arbitrary pieces; threads are steps of a transition system.
Code that changes arrays, fields and linked nodes in place is a method over arrays and
objects here, proved equal to a function of its inputs, and the properties are lemmas
about that function.

| file | what it models |
|---|---|
| `Text.dfy`, `NumberTexts.dfy`, `Lists.dfy`, `Tokens.dfy` | C strings, printing and reading of numbers, linked lists with head and tail, `strtok_r` |
| `MimeReader.dfy` | the buffered reader with its rewindable marker |
| `MimeParser.dfy`, `MimeRoundTrip.dfy`, `MimeLoneCr.dfy`, `MimeEnds.dfy` | the multipart parser with its backtracking gotos, the parts that `httpc_mime_next` and `httpc_mime_end` print, and messages that break off |
| `PartHeader.dfy`, `HeaderLines.dfy` | the recogniser of part headers, the splitting into pairs, the part's file |
| `Sockets.dfy`, `Chunked.dfy` | the partial-transfer loops and the chunked transfer coding of RFC 2616, section 3.6.1 |
| `EndToEnd.dfy` | a multipart message through all of these |
| `HashTables.dfy`, `Primes.dfy` | the chained hash table, relinked in place on rehash, and its search for a bucket count |
| `Slots.dfy`, `SlotProgress.dfy` | the connection slots of the threaded server, for every interleaving |
| `Base64.dfy` | the codec, against RFC 4648, section 4 |
| `ContentTypes.dfy`, `BareParams.dfy` | `content_type_new` and the value built by `httpc_mime_begin` |
| `RequestHeaders.dfy` | reading, parsing and sending of HTTP requests |
| `Unescape.dfy` | `stripcslashes`, in place |
| `Schema.dfy`, `SchemaReads.dfy`, `SaxCallbacks.dfy`, `CallTypes.dfy` | the meaning of the code that xsd2c emits for any schema, type extension by intercepted callbacks, and the generated types of wsdl2c as an instance |

`dafny verify dfyconfig.toml` checks the whole project.

## Where the code departs from its intent

The model follows the code. Each departure has a lemma with the exact condition under
which the intended property holds, or an input that shows its failure.

- `MIME_buffer_add_bytes` copies to the start of the array instead of appending
  (nanohttp/nanohttp-mime.c:253-257). It is called only for a delimiter with a lone CR behind
  it. `AppendsIfEmpty` says when this is the same, `PartsComeBack` exactly which parts survive
  in a given array, `PartComesBackAlways` which do in every array; those of `LoneCrBreaks` and
  `RunBroken` do in none.
- The part_end callback is skipped for parts whose length is a multiple of 904
  (nanohttp/nanohttp-mime.c:371-382); `RunPrinted` states the callbacks exactly.
- A single byte behind the header, or a last chunk of a single byte, is not written to the
  file (nanohttp/nanohttp-mime.c:800); `FileHoldsBody` gives the exact condition.
- An odd number of CRs directly before the blank line hides it from the header recogniser;
  see `HeaderEnd` and `PrintedBlockIsRecognised`.
- Every colon in a header line of a part ends a key (nanohttp/nanohttp-mime.c:664-669), also one
  in a value; see `ColonSplits` for what is left, and `LinesComeBack` for the exact condition.
- An empty chunked write ends the message (nanohttp/nanohttp-stream.c:561-578); see
  `NothingLost`. The final CRLF of a message is never read; see `FinalCrLfIsLeft`.
- A negative chunk size is returned from the read as it is (nanohttp/nanohttp-stream.c:326-330),
  and the caller in the multipart reader, which only tests for -1 (nanohttp/nanohttp-mime.c:531-541),
  takes it for a length; see `NegativeSize` and `LargeSizeLine`.
- The "probable prime" test is exact below 2809 and wrong there; see `ExactBelow2809` and
  `WrongAt2809`.
- The base64 decoder takes the last character for the end (nanohttp/nanohttp-base64.c:112) and
  so loses the last byte of inputs whose length is a positive multiple of three; see
  `Base64.RoundTrip`.
- A Content-Type without a semicolon leaves the type array unterminated
  (nanohttp/nanohttp-common.c:283-345), so `NewContentType` says nothing of its contents then;
  see `TypeEnds`.
- `httpc_mime_begin` cuts each parameter at 74 characters (nanohttp/nanohttp-client.c:526-548).
  Without its closing quote it takes the next ones with it; see `MimeBeginComesBack`.
- A request whose target is question marks only makes the parser read through a null pointer
  (nanohttp/nanohttp-request.c:172-179); see `NullPath`. One whose path has 1024 characters or
  more leaves the path array without a terminator (nanohttp/nanohttp-request.c:179,
  nanohttp/nanohttp-request.h:284); see `LongPath`.
- A failed accept or thread start never frees its slot (nanohttp/nanohttp-server.c:1090-1097);
  `LostExactly` counts them, and `AllForgotten` has the run that leaves no slot.
- The generated deserializer copies through a null pointer for absent or empty string
  elements, and null list entries are not sent; `Schema.RoundTrip` and `CallListBack` are
  equivalences with exactly this condition.
- The generated end callback of an extended type passes the wrong user data and refers to an
  undeclared variable (xsd2c/formatter.c:1151-1159). User data is not modelled, and the object
  meant is used.
- `hsocket_send` adds the bytes sent to the count of received ones
  (nanohttp/nanohttp-socket.c:387-423); the model does too.

Preconditions stand for what the C code takes for granted: arrays large enough for its fixed
sizes (`ParseLines` and `AllFit` say when), terminated strings, and receives that yield at
least one byte.

## Model

| member | source | states |
|---|---|---|
| MimeReader.Source.Fetch | nanohttp/nanohttp-mime.c:92-93 | the read callback: any piece that fits, possibly empty; the pieces put together are the stream; with a positive length it can succeed only finitely often |
| MimeReader.Reader.constructor | nanohttp/nanohttp-mime.c:134-147 | the reader starts as the cursor at position 0 without a marker |
| MimeReader.Reader.Shift | nanohttp/nanohttp-mime.c:162-180 | the bytes from the marker on are kept, moved to the front |
| MimeReader.Reader.Refill | nanohttp/nanohttp-mime.c:158-193 | a refill moves neither cursor nor marker; it fails exactly when the marked window is full or the source has nothing more to give |
| MimeReader.Reader.Take | nanohttp/nanohttp-mime.c:195-207 | copies the next stream bytes to the right place and nothing else |
| MimeReader.Reader.Read | nanohttp/nanohttp-mime.c:149-210 | refinement: for any refill sizes the result is that of an unbuffered cursor with a 1053-byte window behind the marker; status, bytes, new position and unchanged remainder of `dest` are all determined |
| MimeReader.Reader.SetMarker | nanohttp/nanohttp-mime.c:213-217 | the marker is the cursor position |
| MimeReader.Reader.JumpMarker | nanohttp/nanohttp-mime.c:225-229 | the cursor is back at the position of the last SetMarker |
| MimeParser.MimeBuffer.Add | nanohttp/nanohttp-mime.c:246-250 | one byte is added behind the content |
| MimeParser.MimeBuffer.AddBytes | nanohttp/nanohttp-mime.c:252-257 | the bytes go to the start of the array while the size grows by their number, as the code has it |
| MimeParser.AppendsIfEmpty | nanohttp/nanohttp-mime.c:252-257 | the bytes are appended, as intended, if and only if the buffer is empty, or else begins with them already and happens to hold the rest behind its contents |
| MimeParser.MimeBuffer.FlushIfFull | nanohttp/nanohttp-mime.c:470-479 | at 904 bytes, and only then, the content is delivered and the buffer emptied |
| MimeParser.MimeBuffer.EndOfPart | nanohttp/nanohttp-mime.c:371-382 | content and part_end are delivered only if the buffer is not empty |
| MimeParser.MatchDelimiter | nanohttp/nanohttp-mime.c:322-345 | reads exactly the common prefix of the stream and the delimiter; ends early only where the stream does |
| MimeParser.KeepDelimiter | nanohttp/nanohttp-mime.c:389-407 | after a delimiter with a lone CR the cursor is behind that CR and the bytes from the marker are in the buffer; all indices fit |
| MimeParser.ReadAfterDelimiter | nanohttp/nanohttp-mime.c:347-462 | the four ways on from a complete delimiter, with cursor, buffer, callbacks and status equal to those of the specification |
| MimeParser.ReadRound | nanohttp/nanohttp-mime.c:304-476 | one pass of the goto loop equals one round of the specification, including where the cursor is left by the backtracking |
| MimeParser.Scan | nanohttp/nanohttp-mime.c:304-481 | the loop ends on every finite source, also one with empty reads; callbacks and status are those of the whole-stream specification |
| MimeParser.Parse | nanohttp/nanohttp-mime.c:278-482 | status and callbacks are a function of the stream (and of what the buffer array held before, see EntangledDepends), whatever pieces it arrives in; no read leaves the reader's window, so its marker error cannot occur, and no index leaves the three arrays |
| MimeRoundTrip.NoStraddle | nanohttp/nanohttp-mime.c:320-345 | a delimiter has its only CR in front, so an occurrence that starts before another one ends before it |
| MimeRoundTrip.ContentByte | nanohttp/nanohttp-mime.c:320-345 | a byte that does not begin a boundary becomes content, at once or after one backtracking |
| MimeRoundTrip.RunContent | nanohttp/nanohttp-mime.c:246-481 | a run of content in front of a delimiter, possibly with lone-CR delimiters met with an empty buffer: full chunks of 904 are delivered, the rest is in the buffer, nothing is lost or repeated |
| MimeRoundTrip.HarmlessCopy | nanohttp/nanohttp-mime.c:389-407 | a delimiter with a lone CR that is met with an empty buffer is kept as content |
| MimeRoundTrip.RunPartBegin | nanohttp/nanohttp-mime.c:368-386 | delimiter and line end: the previous part ends, the next begins, nothing is left in the buffer |
| MimeRoundTrip.RunParseEnd | nanohttp/nanohttp-mime.c:422-444 | delimiter and two hyphens: the parse ends well, whatever follows |
| MimeRoundTrip.RunPrinted | nanohttp/nanohttp-client.c:556-604 | every callback of the parse of a printed message: for each part its begin, its chunks, and its end exactly if its length is not a multiple of 904 |
| MimeRoundTrip.SameBoundaries | nanohttp/nanohttp-mime.c:328-390 | whether a position of a part reads as a boundary, and of which kind, does not depend on what follows the part |
| MimeRoundTrip.EncapsulatedIsPlain | nanohttp/nanohttp-mime.c:328-390 | the condition of RFC 2046, section 5.1.1, that a part does not contain the delimiter, is enough to have no boundary in it |
| MimeRoundTrip.PlainIsIntact | nanohttp/nanohttp-mime.c:328-390 | and that is enough for the round trip |
| MimeRoundTrip.TraceBodies | nanohttp/nanohttp-mime.c:574-633 | the bytes between consecutive part_begin callbacks are the segments, in order |
| MimeRoundTrip.TraceChunks | nanohttp/nanohttp-mime.c:574-633 | and each part's received_bytes callbacks are the chunks of its segment |
| MimeRoundTrip.RunCut | nanohttp/nanohttp-mime.c:368-386 | a delimiter with a line end or two hyphens inside a part cuts the part there |
| MimeLoneCr.BodyShowsIt | nanohttp/nanohttp-mime.c:252-257 | whatever the stream, the contents of a buffer whose start has been overwritten are delivered as they are, if at all |
| MimeLoneCr.AbsorbBack | nanohttp/nanohttp-mime.c:304-481 | for every content and every buffer: the content comes back exactly as long as no boundary ends it and every copy has the effect of appending |
| MimeLoneCr.RunBack | nanohttp/nanohttp-mime.c:304-481 | the same for a list of parts, each read on from the array that the one before leaves |
| MimeLoneCr.AbsorbFrom | nanohttp/nanohttp-mime.c:246-275 | what the array holds in the middle of a part: the current chunk, behind it the chunk before, and former bytes where no chunk has reached |
| MimeLoneCr.AppendsRepeats | nanohttp/nanohttp-mime.c:252-257 | at the first harmful lone CR, copying is appending only if the part repeats the copied bytes at the start of the chunk and a byte from before the part is the right one |
| MimeLoneCr.LoneCrBreaks | nanohttp/nanohttp-mime.c:389-407 | for every part: otherwise the lone CR makes the part come back different, whatever the array holds |
| MimeLoneCr.RunBroken | nanohttp/nanohttp-mime.c:304-481 | when the first part that is not intact is not entangled, the parts come back different whatever the array holds |
| MimeLoneCr.PartsComeBack | nanohttp/nanohttp-mime.c:278-482 | multipart round trip, for all parts and arrays: the parts come back byte for byte if and only if no segment contains the delimiter followed by a line end or two hyphens, and each copied delimiter with a lone CR is met with an array to which copying is appending; intact segments always do, and settled ones only if they are intact |
| MimeLoneCr.PartComesBackAlways | nanohttp/nanohttp-mime.c:278-482 | a part comes back whatever the array holds if and only if it is intact: without the delimiter followed by a line end or two hyphens, and with a lone CR behind it only at multiples of 904 |
| MimeLoneCr.EntangledDepends | nanohttp/nanohttp-mime.c:252-257 | a part, for every boundary, that comes back for some arrays and not for others |
| MimeEnds.HowItEnds | nanohttp/nanohttp-mime.c:315-330 | for every stream: the status is OK if and only if the last callback is parse_end, which otherwise is not called; of the other two statuses one stands for a failing source and one for a source that is over |
| MimeEnds.CutRun | nanohttp/nanohttp-mime.c:304-481 | for every stream that breaks off: the callbacks are the first ones of the whole stream, and if the parse ends well they are all |
| MimeEnds.CutBodies | nanohttp/nanohttp-mime.c:304-481 | what has been received then is complete bodies and the beginning of one |
| MimeEnds.CutMessage | nanohttp/nanohttp-mime.c:278-482 | the beginning of a message is complete if and only if it has the closing hyphens; otherwise the status is incomplete or a read error, as the source ended, and the bodies are the beginning of the parts |
| HeaderLines.StoreChar | nanohttp/nanohttp-mime.c:671-682 | a character goes to the key or, unless it is a leading blank, to the value |
| HeaderLines.EndLine | nanohttp/nanohttp-mime.c:648-663 | a line end appends exactly the pair of the two C strings |
| HeaderLines.ProcessHeader | nanohttp/nanohttp-mime.c:635-686 | the list built over the two reused arrays is that of the functional splitter; all indices fit if no field outgrows its array |
| HeaderLines.LinesComeBack | nanohttp/nanohttp-mime.c:635-686 | printed lines come back pair for pair, whatever the arrays held before, if and only if no key or value has a colon or a CRLF and no value starts with a blank |
| HeaderLines.ColonSplits | nanohttp/nanohttp-mime.c:664-669 | what becomes of a value with a colon: the part before it is lost, and the key is cut to the length of that part |
| HeaderLines.LineMeans | nanohttp/nanohttp-mime.c:664-682 | any line with a colon, any number of blanks behind it, and a value without either |
| HeaderLines.NoColon | nanohttp/nanohttp-mime.c:648-663 | a line without a colon gives what the two arrays hold from before behind it |
| HeaderLines.PrintTo | nanohttp/nanohttp-client.c:572-576 | header lines are printed one after the other |
| PartHeader.FeedInPieces | nanohttp/nanohttp-mime.c:711-798 | header recognition does not depend on how the bytes are cut into callbacks |
| PartHeader.TextIsWhatWasFed | nanohttp/nanohttp-mime.c:711-798 | until the header is complete, collected and pending bytes together are exactly the bytes fed |
| PartHeader.HeaderIsWhatWasFed | nanohttp/nanohttp-mime.c:711-798 | the collected text is what was fed without the second CRLF of the blank line |
| PartHeader.HeaderEnd | nanohttp/nanohttp-mime.c:711-798 | for all bytes: the header ends at the first blank line that an even number of CRs directly precedes, and nowhere else |
| PartHeader.FirstBlankLine | nanohttp/nanohttp-mime.c:711-798 | in particular at the first blank line if and only if an even number of CRs directly precedes it |
| PartHeader.ReceiveBody | nanohttp/nanohttp-mime.c:800-806 | once the header is complete only a last chunk of a single byte is missing from the file |
| PartHeader.ReceiveFeeds | nanohttp/nanohttp-mime.c:689-809 | over all callbacks of a part the recogniser is fed the whole part |
| PartHeader.ReceivePart | nanohttp/nanohttp-mime.c:689-809 | over all callbacks of a part: recogniser state and file contents |
| PartHeader.FileHoldsBody | nanohttp/nanohttp-mime.c:800-806 | the file holds the whole body if and only if neither a chunk nor the rest of the header's chunk is a single byte |
| PartHeader.BlankLineIsLast | nanohttp/nanohttp-mime.c:711-798 | in a printed block, whatever follows it, the first blank line is at its end |
| PartHeader.PrintedBlockIsRecognised | nanohttp/nanohttp-mime.c:711-798 | a printed header block is recognised with its exact end, whatever body follows, if and only if its last value ends in an even number of CRs and no header ends before, as is so for values without CRLF |
| PartHeader.PrintedBlockComesBack | nanohttp/nanohttp-mime.c:635-798 | recognised and split, a printed block gives back its pairs if and only if they are splittable and the last value ends in an even number of CRs |
| PartHeader.PartSink.constructor | nanohttp/nanohttp-mime.c:574-619 | a new part starts with an empty recogniser, no pairs and an empty file |
| PartHeader.PartSink.FeedByte | nanohttp/nanohttp-mime.c:716-794 | one byte moves the in-place state machine as the recogniser says |
| PartHeader.PartSink.Search | nanohttp/nanohttp-mime.c:714-797 | the loop stops directly behind the blank line, or at the end of the piece |
| PartHeader.PartSink.SplitHeader | nanohttp/nanohttp-mime.c:756-760 | the pairs are those of the collected text |
| PartHeader.PartSink.ReceivedBytes | nanohttp/nanohttp-mime.c:689-809 | a callback advances the recogniser by its bytes, writes the rest to the file, and sets the pairs in exactly the callback that completes the header |
| EndToEnd.NextTextIsBlock | nanohttp/nanohttp-client.c:572-576 | the part header text is the printed block of the three pairs |
| EndToEnd.MimeNext | nanohttp/nanohttp-client.c:556-579 | two writes: the delimiter line and the part header |
| EndToEnd.MimeEnd | nanohttp/nanohttp-client.c:581-598 | the closing delimiter and the flush |
| EndToEnd.WritesArePrinted | nanohttp/nanohttp-client.c:556-604 | all writes of a message amount to the printed parts |
| EndToEnd.BoundaryIsUsable | nanohttp/nanohttp-client.c:505-512 | the client's boundary fits the parser's arrays and has no CR |
| EndToEnd.ChunksComeBack | nanohttp/nanohttp-stream.c:221-381 | any division of the bodies into non-empty writes and of the message into reads gives the parser the printed parts, with just the final CRLF left on the wire |
| EndToEnd.HeaderIsRead | nanohttp/nanohttp-mime.c:635-798 | the header of a sent part is collected as printed and split into its pairs if and only if they are splittable and the id ends in an even number of CRs |
| EndToEnd.PartIsRebuilt | nanohttp/nanohttp-mime.c:635-809 | from a part's callbacks the builder gets the three header pairs, if and only if the header is readable, and, when it has been collected as printed, the whole body, if and only if KeepsLastByte holds |
| EndToEnd.MessageComesBack | nanohttp/nanohttp-mime.c:278-482 | client, chunked coding, parser and builder composed: status, number of parts, and what the builder makes of the received_bytes callbacks of every part of this run |
| Sockets.Socket.Send | nanohttp/nanohttp-socket.c:387-423 | everything is sent, in order, however the system call cuts it |
| Sockets.Socket.Recv | nanohttp/nanohttp-socket.c:453-499 | exactly the next `total` bytes, or failure if there are fewer |
| Chunked.OutputStream.Write | nanohttp/nanohttp-stream.c:553-582 | one chunk on the wire, or the bare bytes |
| Chunked.OutputStream.Flush | nanohttp/nanohttp-stream.c:595-607 | the last chunk on the wire |
| Chunked.SizeLineBack | nanohttp/nanohttp-stream.c:221-278 | a printed chunk size is read back as the same number, and the line is consumed exactly |
| Chunked.NextChunkOnWire | nanohttp/nanohttp-stream.c:280-345 | wherever a chunk size is expected, the next chunk is found, or the last one |
| Chunked.ReadOnWire | nanohttp/nanohttp-stream.c:280-381 | a read is short only if it meets the last chunk; otherwise the stream is again in the middle of the message, with the rest of the payload ahead |
| Chunked.SessionOnWire | nanohttp/nanohttp-stream.c:280-381 | any sequence of reads gives a prefix of the payload, all of it once that much is asked for |
| Chunked.ChunkedRoundTrip | nanohttp/nanohttp-stream.c:221-381 | chunked round trip for any writes and any reads: the bytes before the first empty write come back, up to the number asked for, and what follows the last chunk's size line is left |
| Chunked.FinalCrLfIsLeft | nanohttp/nanohttp-stream.c:280-381 | without empty writes exactly the final CRLF is left unread |
| Chunked.EncodeEmpty | nanohttp/nanohttp-stream.c:561-578 | an empty write puts the end of the message on the wire |
| Chunked.NothingLost | nanohttp/nanohttp-stream.c:561-578 | nothing is lost if and only if no bytes are written after an empty write |
| Chunked.InputStream.ReadChunkSize | nanohttp/nanohttp-stream.c:221-278 | the byte-by-byte reading of the size line agrees with the specification and stays in its 25-byte array |
| Chunked.InputStream.SkipLineEnd | nanohttp/nanohttp-stream.c:296-318 | the line end behind a chunk is skipped with the code's limit on other bytes |
| Chunked.InputStream.NextIfNeeded | nanohttp/nanohttp-stream.c:288-345 | afterwards unread bytes of a chunk are at hand, or the last chunk or an error has been met |
| Chunked.InputStream.Read | nanohttp/nanohttp-stream.c:280-381 | bytes, returned number, fields and remaining input after a read are those of the specification, over any fragmentation |
| Chunked.CodeOfRead | nanohttp/nanohttp-stream.c:280-381 | a read fails if and only if it returns a negative number, and otherwise returns the number of bytes |
| Chunked.NegativeSize | nanohttp/nanohttp-stream.c:326-330 | a read returns a negative number other than -1 if and only if it comes to a size line with that number |
| Chunked.LargeSizeLine | nanohttp/nanohttp-stream.c:326-330 | every size line from 80000000 to ffffffff makes a first read return the size less 2 to the 32 |
| Chunked.SizeLineMeans | nanohttp/nanohttp-stream.c:221-278 | every size line: what strtol makes of the text before the first CR, semicolon or terminator; more than 24 bytes are an error |
| Chunked.HexSizeLine | nanohttp/nanohttp-stream.c:256 | hexadecimal digits in either case, leading zeros included, with any chunk extension: the positional sum, and the rest is left |
| Chunked.SkipLineMeans | nanohttp/nanohttp-stream.c:296-318 | up to 100 bytes before the line feed behind a chunk are skipped, and no more |
| Chunked.CutRead | nanohttp/nanohttp-stream.c:280-381 | on a stream that breaks off a read fails or gives what it would have given on the whole stream |
| HashTables.HashString | utils/hashtable.c:669-678 | the loop computes the specified hash, reduced to an unsigned 64-bit long |
| HashTables.HashMeans | utils/hashtable.c:669-678 | the hash is the sum of the bytes times powers of 37, modulo 2 to the 64 |
| HashTables.BucketMeans | utils/hashtable.c:234-245 | every element is in the bucket of that number modulo the number of buckets |
| HashTables.HashTable.constructor | utils/hashtable.c:62-96 | an empty map with the default ratios |
| HashTables.Walk | utils/hashtable.c:276-280 | the walk finds the first node with the key and its predecessor, or the end of the chain |
| HashTables.HashTable.Find | utils/hashtable.c:275-283 | the node found is the one that the abstract map speaks of; none is found exactly if the key is not in the map |
| HashTables.HashTable.Get | utils/hashtable.c:275-283 | map lookup |
| HashTables.HashTable.Replace | utils/hashtable.c:222-233 | a present key gets the new value, all others keep theirs |
| HashTables.HashTable.Link | utils/hashtable.c:234-245 | a new key is added to the map in front of its bucket |
| HashTables.HashTable.Drop | utils/hashtable.c:311-321 | unlinking in place removes exactly that key |
| HashTables.CutBucket | utils/hashtable.c:316-319 | after unlinking, the bucket's chain is the old one without the node and all other chains are as before |
| HashTables.MoveChain | utils/hashtable.c:551-560 | the chain of one old bucket is relinked node by node in front of the new buckets |
| HashTables.MoveAll | utils/hashtable.c:548-560 | relinking in place neither loses nor repeats a node, and each ends in the bucket of its hash |
| HashTables.HashTable.Rehash | utils/hashtable.c:529-565 | the map is unchanged, and the bucket count is the one asked for or, for zero, the smallest suitable probable prime |
| HashTables.HashTable.Put | utils/hashtable.c:209-256 | map update across an automatic rehash, which takes place exactly if a new key makes the ratio exceed the upper threshold; load bound: with the default ratios, after a new key at most 15 elements a bucket, whatever happened before |
| HashTables.HashTable.Remove | utils/hashtable.c:301-330 | map removal, including the case of an absent key; a rehash exactly if the ratio falls below the lower threshold |
| HashTables.HashTable.RemoveAll | utils/hashtable.c:346-365 | the empty map in five buckets, with the ratios kept |
| HashTables.CountIsTotal | utils/hashtable.c:401-403 | numOfElements is the total length of the chains |
| Primes.IsProbablePrime | utils/hashtable.c:694-704 | the loop decides whether no smaller odd number from 3 to 49 divides the number |
| Primes.ExactBelow2809 | utils/hashtable.c:694-704 | for odd numbers from 3 to below 2809 the test is exact |
| Primes.WrongAt2809 | utils/hashtable.c:694-704 | at 2809 it is wrong |
| Primes.LaterCandidate | utils/hashtable.c:706-716 | from every number on there is a later odd one that passes the test |
| Primes.IdealNumOfBuckets | utils/hashtable.c:706-716 | the search ends, with the first odd number that is large enough and passes the test |
| Slots.NextInv | nanohttp/nanohttp-server.c:963-1103 | every single step of acceptor, sessions and signal handler keeps exclusive ownership of the slots |
| Slots.RunInv | nanohttp/nanohttp-server.c:963-1103 | and so does every interleaving |
| Slots.OneOwner | nanohttp/nanohttp-server.c:963-994 | a marked slot has exactly one owner, a free one none |
| Slots.Safety | nanohttp/nanohttp-server.c:963-1103 | in every reachable state: no two sessions share a slot, sessions and forgotten slots do not exceed the maximum, no null slot is used, marks and owners agree |
| Slots.SameSize | nanohttp/nanohttp-server.c:188-197 | the run flag never comes back, the number of slots never changes, forgotten slots stay forgotten |
| Slots.LostExactly | nanohttp/nanohttp-server.c:1079-1103 | in every run the number of lost slots is that of the failed accepts and thread starts, and at most one more for the slot that the acceptor holds when it stops |
| Slots.ForgottenForGood | nanohttp/nanohttp-server.c:1090-1097 | a lost slot is never freed; once all are lost, no session runs again |
| Slots.AllForgotten | nanohttp/nanohttp-server.c:1090-1097 | and there is a run in which this happens while the server is still running, for every number of slots |
| Slots.SearchFinds | nanohttp/nanohttp-server.c:963-994 | undisturbed, the search takes the first free slot |
| SlotProgress.SlotIsFreed | nanohttp/nanohttp-server.c:840-862 | in every reachable state a session can end; its slot is then free and without owner, and all else is as before |
| SlotProgress.MarkedMeans | nanohttp/nanohttp-server.c:963-994 | in every reachable state a slot that is not lost is marked exactly while the acceptor holds it or a session has not freed it |
| SlotProgress.ServesAgain | nanohttp/nanohttp-server.c:1019-1103 | from every reachable state in which the server runs and has not lost all slots there is a run to a new session |
| SlotProgress.SlotIsReused | nanohttp/nanohttp-server.c:1019-1103 | and one in which a given session ends and a new one has its slot |
| SlotProgress.SignalStops | nanohttp/nanohttp-server.c:188-197 | after the signal the server never runs again, and from every reachable state the acceptor can then stop |
| Base64.SextetsOf | nanohttp/nanohttp-base64.c:40-49 | the encoder's shifts and masks are the four sextets of the 24-bit group of RFC 4648, section 4 |
| Base64.EncodeBlock | nanohttp/nanohttp-base64.c:40-49 | a block is the standard's encoding of its one to three bytes, with padding |
| Base64.ReadBlock | nanohttp/nanohttp-base64.c:58-66 | up to three bytes of the string, zeros behind its end |
| Base64.EncodeNext | nanohttp/nanohttp-base64.c:56-73 | one round writes one group and advances by what it used |
| Base64.EncodeString | nanohttp/nanohttp-base64.c:51-74 | the output array holds the standard encoding of the C string, and nothing else has changed |
| Base64.LookupBack | nanohttp/nanohttp-base64.c:31-33 | the decoder's table undoes the alphabet |
| Base64.SkipToSymbol | nanohttp/nanohttp-base64.c:104-111 | characters outside the alphabet are skipped |
| Base64.ReadGroup | nanohttp/nanohttp-base64.c:102-122 | up to four symbols, of which the last character of the input never counts |
| Base64.DecodeToArray | nanohttp/nanohttp-base64.c:81-88 | the bytes that a block of symbols determines |
| Base64.DecodeNext | nanohttp/nanohttp-base64.c:100-129 | one round writes the bytes of one group |
| Base64.DecodeString | nanohttp/nanohttp-base64.c:95-130 | the output array holds the decoding, and nothing else has changed |
| Base64.DecodeEncoded | nanohttp/nanohttp-base64.c:51-130 | decoding an encoding gives the bytes, without the last one if their number is a positive multiple of three |
| Base64.RoundTrip | nanohttp/nanohttp-base64.c:112 | the round trip holds if and only if the length is zero or not divisible by three |
| Base64.LookupMeans | nanohttp/nanohttp-base64.c:31-33 | for every character, the table says whether and where it is in the alphabet |
| Base64.DecodeMeans | nanohttp/nanohttp-base64.c:95-130 | decoding any text: the characters of the alphabet but for the text's last character, in blocks of four; nothing else matters |
| Base64.BrokenLines | nanohttp/nanohttp-base64.c:104-112 | an encoding with line breaks, and one behind it, gives back all bytes |
| ContentTypes.Splitter.Feed | nanohttp/nanohttp-common.c:295-348 | one character changes arrays, index, flags and list as the scanner says |
| ContentTypes.Splitter.FeedAll | nanohttp/nanohttp-common.c:284-349 | the whole loop, with the blank behind the text |
| ContentTypes.Splitter.EndValue | nanohttp/nanohttp-common.c:326-340 | the pair of the two C strings is appended |
| ContentTypes.NewContentType | nanohttp/nanohttp-common.c:269-352 | the parameter list is that of the scanner; the type is, provided the text has a semicolon |
| ContentTypes.TypeEnds | nanohttp/nanohttp-common.c:297-307 | the type ends if and only if the text has a semicolon; it is what precedes the first one, without blanks |
| ContentTypes.CleanScan | nanohttp/nanohttp-common.c:284-349 | whatever is scanned, no type, key or value contains a character that the scanner drops or interprets |
| ContentTypes.ParamBack | nanohttp/nanohttp-common.c:309-346 | one printed parameter, empty or with blanks and semicolons in the value, comes back |
| ContentTypes.PrintedReads | nanohttp/nanohttp-common.c:269-352 | a printed type comes back, and all writes are within the arrays if the fields are shorter than these |
| ContentTypes.ContentTypeBack | nanohttp/nanohttp-common.c:269-352 | Content-Type round trip, same type and same ordered parameters, also none, if and only if type, keys and values avoid the scanner's special characters |
| BareParams.BareBack | nanohttp/nanohttp-common.c:317-346 | a parameter without quotes comes back if and only if its value has no blank, semicolon, quote or CR, and is not empty or is ended by a semicolon; blanks in front of it do not matter |
| BareParams.MixedBack | nanohttp/nanohttp-common.c:269-352 | a list of quoted and unquoted parameters comes back in order, with the exact condition for each |
| BareParams.ParamMeans | nanohttp/nanohttp-common.c:309-346 | any parameter: name without blanks, and value up to the first blank or semicolon outside quotes, without quotes and CRs wherever these are |
| ContentTypes.Concatenate | nanohttp/nanohttp-client.c:526-548 | strcat: the C string is extended in place |
| ContentTypes.MimeBegin | nanohttp/nanohttp-client.c:513-554 | the header text, each piece cut at 74 characters; it always fits the 300-byte buffer |
| ContentTypes.BoundaryText | nanohttp/nanohttp-client.c:505-512 | the boundary is short and has no character that a header, a parameter or the parser interprets |
| ContentTypes.WeightScan | nanohttp/nanohttp-common.c:284-349 | the scanner finds at most one character, equals sign or end of value for each character scanned that is not a quote |
| ContentTypes.CutBreaks | nanohttp/nanohttp-client.c:526-548 | a parameter that snprintf cuts before its closing quote spoils a list of at most four, whatever values the others have |
| ContentTypes.MimeBeginComesBack | nanohttp/nanohttp-client.c:514-550 | the type comes back always, and the parameters in order if and only if no value has a quote or CR and no closing quote is cut off; all arrays are large enough then |
| Text.HexBack | nanohttp/nanohttp-stream.c:221-278 | the chunk size printed with %x is read back for every non-negative int |
| Text.HexLength | nanohttp/nanohttp-stream.c:557 | an int takes at most eight hexadecimal digits |
| Text.IntBack | xsd2c/formatter.c:951-956 | %d and atoi give back every int |
| Text.IntText | nanohttp/nanohttp-client.c:505-512 | a printed int has at most eleven characters, digits and a sign |
| NumberTexts.DigitMeans | nanohttp/nanohttp-stream.c:256 | the value of a digit, by tables of lower and upper case |
| NumberTexts.StrToLMeans | nanohttp/nanohttp-stream.c:256 | strtol of any text with a number: white space, sign, prefix, and the clamped positional sum of its digits |
| NumberTexts.StrToLNothing | nanohttp/nanohttp-stream.c:256 | and zero for a text without one |
| Lists.LinkedList.Append | xsd2c/formatter.c:677-725 | the adder keeps order, links one new node behind the last and nothing else |
| Lists.Get | nanohttp/nanohttp-common.c:244-266 | the value of the first pair with the key |
| Tokens.Advance | nanohttp/nanohttp-common.c:488-514 | strspn and strcspn on the array |
| Tokens.StrTok | nanohttp/nanohttp-common.c:488-514 | strtok_r in place: the token, the place where the next call goes on, and an array unchanged outside the text |
| Tokens.TokenOf | nanohttp/nanohttp-common.c:488-514 | text without delimiters between delimiters is found as a token, with the rest left over |
| Tokens.NoTokenMeans | nanohttp/nanohttp-common.c:488-514 | there is no token exactly in a text of delimiters only |
| RequestHeaders.ParsePair | nanohttp/nanohttp-common.c:96-121 | hpairnode_parse in place: the pair of the line |
| RequestHeaders.PairBack | nanohttp/nanohttp-common.c:96-121 | a line comes back as its pair if and only if the key is not empty and has no colon and the value has no leading blank |
| RequestHeaders.PairMeans | nanohttp/nanohttp-common.c:96-121 | any header line, with any blanks behind its first colon |
| RequestHeaders.KeyOnly | nanohttp/nanohttp-common.c:96-121 | a line without a colon is a key |
| RequestHeaders.ParseQuery | nanohttp/nanohttp-request.c:181-221 | the options between ampersands, each split at its first equals sign |
| RequestHeaders.QueryBack | nanohttp/nanohttp-request.c:181-221 | a query comes back if and only if no key is empty or has = or &, and no value has & |
| RequestHeaders.OptionMeans | nanohttp/nanohttp-request.c:181-221 | options one by one: ampersands before them are skipped, and one without an equals sign has no value |
| RequestHeaders.ParseFirstLine | nanohttp/nanohttp-request.c:125-224 | method, version, path and query of the request line, and whether the path array is unset, terminated or not |
| RequestHeaders.LongPath | nanohttp/nanohttp-request.c:179 | the path array is left unterminated if and only if the path has 1024 characters or more |
| RequestHeaders.FirstLineMeans | nanohttp/nanohttp-request.c:125-224 | any request line of three words: the eight methods and any other word, the version, path and query |
| RequestHeaders.NullPath | nanohttp/nanohttp-request.c:172-179 | the source passes a null pointer to strncpy exactly if the second word is question marks only |
| RequestHeaders.HRequest.AddLine | nanohttp/nanohttp-request.c:120-237 | one line of the block changes the request object and no text outside the line |
| RequestHeaders.ParseHeader | nanohttp/nanohttp-request.c:93-245 | the request built in place over nested strtok_r cursors is that of the specification |
| RequestHeaders.TakenIsFirst | nanohttp/nanohttp-request.c:282-302 | the loop takes the bytes up to the first end of a block, or a full buffer, and fails only if the stream ends before |
| RequestHeaders.ReadHeader | nanohttp/nanohttp-request.c:282-302 | byte by byte from the socket: exactly those bytes, terminated, and the rest left unread |
| RequestHeaders.NewFromSocket | nanohttp/nanohttp-request.c:271-307 | reading and parsing together |
| RequestHeaders.SendHeader | nanohttp/nanohttp-client.c:301-320 | all pairs in list order and the blank line are sent |
| RequestHeaders.SendRequest | nanohttp/nanohttp-client.c:403-442 | request line and header for GET and POST; nothing is sent for other methods |
| RequestHeaders.StartBack | nanohttp/nanohttp-request.c:125-224 | a printed request line comes back with method, path, version and query if and only if the path is not empty, shorter than its array and without question mark, path and query have no blank, and the options are clean |
| RequestHeaders.HeaderBack | nanohttp/nanohttp-request.c:226-237 | a printed header block comes back, in order, if and only if every pair is sendable |
| RequestHeaders.BlockIsTaken | nanohttp/nanohttp-request.c:282-302 | a block is taken exactly to its blank line, no body byte with it |
| RequestHeaders.RequestBack | nanohttp/nanohttp-request.c:93-302 | request round trip for all that the client can send, with any body behind it: taken exactly, and request line and header equal, if and only if the target can be carried and every pair is sendable |
| Unescape.OctalDigits | examples/csoap/soapclient.c:105-109 | at most three octal digits are collected |
| Unescape.HexDigits | examples/csoap/soapclient.c:86-98 | one or two hexadecimal digits are collected |
| Unescape.ReadEscape | examples/csoap/soapclient.c:48-124 | byte, length and decrease of `nlen` for every escape sequence, fall-through included |
| Unescape.StripSlashes | examples/csoap/soapclient.c:34-134 | in place: the buffer holds the unescaped text, the length returned is the number of bytes written, a terminator follows unless that is zero, and the rest is untouched |
| Unescape.EscapedComesBack | examples/csoap/soapclient.c:48-124 | whatever style each byte is escaped in, unescaping gives back the bytes |
| Unescape.UnescapeMeans | examples/csoap/soapclient.c:48-124 | every text of characters, names, one to three octal digits, one or two hexadecimal digits and other backslashes is unescaped piece by piece |
| Unescape.LeftAsItIs | examples/csoap/soapclient.c:44-128 | a text is unchanged if and only if it has no backslash before its last character |
| Schema.InterceptElement | xsd2c/formatter.c:1018-1164 | one well-nested element stays one, with attributes and content of the base and then of the type |
| Schema.PassesThrough | xsd2c/formatter.c:1018-1066 | inside an element the callbacks change nothing and the counter follows the depth |
| Schema.SerializeShape | xsd2c/formatter.c:881-1014 | for an inheritance chain of any depth: one element with all attributes and all content, base first |
| Schema.AllBodyDepth | xsd2c/formatter.c:881-1014 | the content is well nested |
| Schema.ParseSerialized | xsd2c/formatter.c:881-1014 | the document that the events describe is the tree of the object |
| Schema.FillSlots | xsd2c/formatter.c:1213-1306 | the loop over the children fills each field independently of the others |
| Schema.SlotNamed | xsd2c/formatter.c:1229 | only elements with its name matter to a field |
| Schema.NamedBody | xsd2c/formatter.c:925-1009 | with distinct names, a field finds exactly its own elements in the document |
| Schema.AttrFound | xsd2c/formatter.c:802-832 | and an attribute field its own attribute |
| Schema.ItemsBack | xsd2c/formatter.c:677-725 | a list comes back in order if and only if all its entries are complete |
| Schema.FieldBack | xsd2c/formatter.c:1224-1306 | a field comes back if and only if its value is complete |
| Schema.ObjBack | xsd2c/formatter.c:1169-1311 | an object comes back from the element it shares with its base objects if and only if it is complete |
| Schema.RoundTrip | xsd2c/formatter.c:881-1311 | generated-code round trip for every well-formed schema and object, if and only if all strings are present and not empty and no list has a null entry |
| SchemaReads.TextOfMeans | xsd2c/formatter.c:1259 | the text of an element is that of all its text nodes |
| SchemaReads.DeserializeMeans | xsd2c/formatter.c:1169-1306 | for every type and every element, also one that was not serialized: it can be read if and only if every string and number in it has text; an absent single field is 0 or null, a repeated one has its last value, a list has one entry for each child, in order |
| SaxCallbacks.Extension.OnStartElement | xsd2c/formatter.c:1018-1044 | attributes are added at depth 0 only |
| SaxCallbacks.Extension.OnEndElement | xsd2c/formatter.c:1046-1164 | the type's elements go out before the last end only |
| SaxCallbacks.Extension.Route | xsd2c/formatter.c:881-904 | the callbacks with their counter, over all events of the base, do what the interception says |
| CallTypes.AreWellFormed | wsdl2c/CallList.c:1-116 | the three generated types form a well-formed schema |
| CallTypes.CallVar.SaxSerialize | wsdl2c/CallVar.c:35-69 | the calls are those of the schema's meaning |
| CallTypes.DeserializeCallVar | wsdl2c/CallVar.c:73-100 | the object built by the setters is that of the schema's meaning |
| CallTypes.CallFunc.SetName | wsdl2c/CallFunc.c:132-137 | the name is set and the object stays consistent |
| CallTypes.CallFunc.SetOut | wsdl2c/CallFunc.c:139-142 | the nested object is set |
| CallTypes.CallFunc.AddIn | wsdl2c/CallFunc.c:144-160 | one entry more at the end of the list |
| CallTypes.CallFunc.EmitIns | wsdl2c/CallFunc.c:66-73 | the loop over head and next pointers emits the entries in order, null ones not at all |
| CallTypes.CallFunc.SaxSerialize | wsdl2c/CallFunc.c:42-78 | the calls are those of the schema's meaning |
| CallTypes.AbsorbChild | wsdl2c/CallFunc.c:99-112 | the three tests for one child change each field as the schema's meaning says |
| CallTypes.DeserializeCallFunc | wsdl2c/CallFunc.c:86-118 | the object built by setters and adder is that of the schema's meaning |
| CallTypes.CallList.AddOperation | wsdl2c/CallList.c:100-115 | one entry more at the end, the earlier ones and all they refer to unchanged |
| CallTypes.CallList.SaxSerialize | wsdl2c/CallList.c:35-68 | the calls are those of the schema's meaning |
| CallTypes.DeserializeCallList | wsdl2c/CallList.c:72-92 | the object built is that of the schema's meaning |
| CallTypes.CallListBack | wsdl2c/CallList.c:35-92 | round trip of the three nested types with its exact condition |

## Left out

- Sockets.Socket.Recv: a lack of bytes is the timeout, and fails; on a connection that the peer has closed the source loops for ever.
- EndToEnd.MimeEnd: does not include the reading of the response that httpc_mime_end goes on with.
- EndToEnd.MessageComesBack: is about intact segments, non-empty writes, and header values that are C strings, fit the arrays of the splitter and print into the 512-byte buffer of httpc_mime_next.
- RequestHeaders.RequestBack: is about C strings, lines within the client's buffers and requests within the server's.
- Chunked.InputStream.Read: what the multipart reader does with a negative length is outside the model of its read callback.
- RequestHeaders.SendHeader: does not cover lines of 1024 bytes or more, for which the source sends bytes from behind its buffer.
- RequestHeaders.SendRequest: the same, and a path for which the request line overflows its buffer.
- RequestHeaders.ParseHeader: does not include the Content-Type of the request, which is NewContentType on the value of that header.
- Base64.EncodeString: does not add a terminator, as the source does not.
- Tokens.StrTok: follows the C library where no token is left; the replacement for Windows leaves the saved pointer unset then.
- Slots.Safety: is about steps that are atomic reads and writes; weaker memory models are outside it.
- Failing `malloc`, `free` and the deallocation functions; sends that fail or time out; SSL, `select`, signals and threads as such.
- Sockets other than by an oracle: every receive yields at least one byte until the stream is over.
- The reader after a failed read, and `MIME_reader_unset_marker`, which nothing calls.
- The callbacks of the multipart parser other than as a log of their calls; the user data passed along.
- Writing part bodies to temporary files (the file is a string), and the copying of id and location to fixed arrays in the part object.
- The content-length and connection-closed streams, which only count bytes.
- `float` arithmetic of the hash table's ratios: reals are used.
- Other key comparison and hash functions of the hash table, its queries for emptiness and size, and setting of ratios.
- The response parser and `hpairnode_get_ignore_case`.
- Float, double and boolean fields, restrictions and enumerations of schemas; the C text that xsd2c writes, of which only the meaning is modelled; an int attribute, for which the emitted code compares an int with a null pointer.
- Schemas whose types inherit from themselves: the base type is part of the type here, so an inheritance chain is finite.
- libxml: a document is a tree built from the events, where empty text leaves no node, as when a document is written out and parsed again.
- The SOAP router, addressing, signatures, argument parsing, logging, HTML pages and WSIL listings.
