/**
 HTTP requests: how the server reads and splits the header block of one, and how the
 client sends it.
 */
module RequestHeaders {
  import HeaderLines
  import opened Lists
  import opened Sockets
  import opened Text
  import opened Tokens

  const MAX_HEADER_SIZE := 4256
  const MAX_PATH_SIZE := 1024

  datatype Method = Get | Post | Options | Head | Put | Delete | Trace | Connect | Unknown

  datatype Version = Http10 | Http11

  /**
   The path array of a request: unset if the request line has no second word, and without
   a terminator if the path is as long as the array or longer.
   */
  datatype Path = Unset | Path(text: string) | Unterminated(bytes: string)

  datatype StartLine = StartLine(verb: Method, path: Path, version: Version, query: seq<Pair>)

  datatype Request = Request(start: StartLine, header: seq<Pair>)

  // ---------------------------------------------------------------- hpairnode_parse

  function SkipBlanks(s: string): string {
    s[Span(s, " ")..]
  }

  /** hpairnode_parse with ":" as the delimiter. */
  function SplitPair(line: string): Pair {
    var (key, rest) := Token(line, ":");
    Pair(if key.None? then "" else key.value, SkipBlanks(rest))
  }

  method ParsePair(a: array<char>, start: nat) returns (pair: Pair)
    requires HasText(a, start)
    modifies a
    ensures pair == SplitPair(old(TextAt(a, start)))
    ensures forall k :: 0 <= k < start || start + |old(TextAt(a, start))| <= k < a.Length ==> a[k] == old(a[k])
  {
    hide Token, CString, Span;
    var found, token, save := StrTok(a, start, ":");
    var value := save;
    value := Advance(a, save, " ", true);
    return Pair(if found then TextAt(a, token) else "", TextAt(a, value));
  }

  // ---------------------------------------------------------------- the query

  /** The pairs of a query string: options split at "&", each at its first "=". */
  function QueryPairs(text: string): seq<Pair>
    decreases |text|
  {
    var (option, rest) := Token(text, "&");
    if option.None? then [] else OptionPair(option.value) + QueryPairs(rest)
  }

  function OptionPair(option: string): seq<Pair> {
    var (key, value) := Token(option, "=");
    if key.None? then [] else [Pair(key.value, value)]
  }

  method ParseOption(a: array<char>, start: nat, query: LinkedList<Pair>)
    requires HasText(a, start) && query.Valid() && a !in query.repr
    modifies a, query.repr
    ensures query.Valid() && query.Values() == old(query.Values()) + OptionPair(old(TextAt(a, start)))
    ensures fresh(query.repr - old(query.repr))
    ensures forall k :: 0 <= k < start || start + |old(TextAt(a, start))| <= k < a.Length ==> a[k] == old(a[k])
  {
    hide Token, CString;
    var found, key, value := StrTok(a, start, "=");
    if found {
      query.Append(Pair(TextAt(a, key), TextAt(a, value)));
    }
  }

  /** One round of the loop over the options. */
  method NextOption(a: array<char>, tmp: nat, query: LinkedList<Pair>) returns (found: bool, save: nat)
    requires HasText(a, tmp) && query.Valid() && a !in query.repr
    modifies a, query.repr
    ensures var s := old(TextAt(a, tmp));
            && HasText(a, save) && tmp <= save && save + |TextAt(a, save)| <= tmp + |s| && (found ==> tmp < save)
            && found == Token(s, "&").0.Some?
            && QueryPairs(s) == (if found then OptionPair(Token(s, "&").0.value) + QueryPairs(TextAt(a, save)) else [])
            && query.Valid() && query.Values() == old(query.Values()) + (if found then OptionPair(Token(s, "&").0.value) else [])
            && forall k :: 0 <= k < tmp || tmp + |s| <= k < a.Length ==> a[k] == old(a[k])
    ensures fresh(query.repr - old(query.repr))
  {
    hide Token, CString, OptionPair, LinkedList.Valid, LinkedList.Values;
    var key;
    found, key, save := StrTok(a, tmp, "&");
    if found {
      ghost var behind := a[save..];
      ParseOption(a, key, query);
      assert a[save..] == behind;
    }
  }

  method ParseQuery(a: array<char>, start: nat) returns (query: LinkedList<Pair>)
    requires HasText(a, start)
    modifies a
    ensures fresh(query) && fresh(query.repr) && query.Valid() && query.Values() == QueryPairs(old(TextAt(a, start)))
    ensures forall k :: 0 <= k < start || start + |old(TextAt(a, start))| <= k < a.Length ==> a[k] == old(a[k])
  {
    hide Token, CString, OptionPair, QueryPairs, Span, Reach, LinkedList.Valid, LinkedList.Values, TextAt;
    query := new LinkedList();
    var tmp := start;
    ghost var s, end := TextAt(a, start), start + |TextAt(a, start)|;
    var more := true;
    while more
      invariant query.Valid() && fresh(query.repr)
      invariant start <= tmp && HasText(a, tmp) && tmp + |TextAt(a, tmp)| <= end
      invariant QueryPairs(s) == query.Values() + if more then QueryPairs(TextAt(a, tmp)) else []
      invariant forall k :: 0 <= k < start || end <= k < a.Length ==> a[k] == old(a[k])
      decreases more, end - tmp
    {
      ghost var text, pairs := TextAt(a, tmp), query.Values();
      more, tmp := NextOption(a, tmp, query);
      if more {
        Assoc(pairs, OptionPair(Token(text, "&").0.value), QueryPairs(TextAt(a, tmp)));
      }
    }
  }

  // ---------------------------------------------------------------- the request line

  function VerbOf(word: string): Method {
    if word == "POST" then Post else if word == "GET" then Get else if word == "OPTIONS" then Options
    else if word == "HEAD" then Head else if word == "PUT" then Put else if word == "DELETE" then Delete
    else if word == "TRACE" then Trace else if word == "CONNECT" then Connect else Unknown
  }

  /** strncpy of a path to the array. */
  function StorePath(path: string): Path {
    if |path| < MAX_PATH_SIZE then Path(path) else Unterminated(path[..MAX_PATH_SIZE])
  }

  /** The request line; None where a second word of nothing but "?" makes the source read through a null pointer. */
  function FirstLine(line: string): Option<StartLine> {
    var (word, rest) := Token(line, " ");
    var (target, spec) := Token(rest, " ");
    var verb := if word.None? then Get else VerbOf(word.value);
    var version := if spec == "HTTP/1.0" then Http10 else Http11;
    if target.None? then Some(StartLine(verb, Unset, version, []))
    else
      var (path, query) := Token(target.value, "?");
      if path.None? then None else Some(StartLine(verb, StorePath(path.value), version, QueryPairs(query)))
  }

  /** The methods of RFC 2616, section 5.1.1, and any other word. */
  ghost predicate Names(word: string, verb: Method) {
    match verb
    case Get => word == "GET"
    case Post => word == "POST"
    case Options => word == "OPTIONS"
    case Head => word == "HEAD"
    case Put => word == "PUT"
    case Delete => word == "DELETE"
    case Trace => word == "TRACE"
    case Connect => word == "CONNECT"
    case Unknown => word !in {"GET", "POST", "OPTIONS", "HEAD", "PUT", "DELETE", "TRACE", "CONNECT"}
  }

  lemma VerbMeans(word: string)
    ensures Names(word, VerbOf(word))
  {
  }

  /**
   Any request line of three words: the method named by the first one, path and query of the
   second one, and version 1.0 exactly for that specification.
   */
  lemma FirstLineMeans(word: string, path: string, query: string, spec: string)
    requires word != "" && Free(word, " ") && path != "" && Free(path, " ?") && Free(query, " ")
    ensures var r := FirstLine(word + " " + (path + "?" + query) + " " + spec);
            && r.Some? && Names(word, r.value.verb) && (r.value.version == Http10 <==> spec == "HTTP/1.0")
            && r.value.query == QueryPairs(query)
            && r.value.path == if |path| < MAX_PATH_SIZE then Path(path) else Unterminated(path[..MAX_PATH_SIZE])
  {
    hide Token, QueryPairs, VerbOf, Names;
    var target := path + "?" + query;
    VerbMeans(word);
    assert " ?"[0] == ' ' && " ?"[1] == '?';
    assert Free(path, " ") && Free(path, "?") && Free(target, " ");
    assert word + " " + target + " " + spec == "" + word + " " + (target + " " + spec);
    TokenOf("", word, " ", target + " " + spec, " ");
    assert target + " " + spec == "" + target + " " + spec;
    TokenOf("", target, " ", spec, " ");
    assert target == "" + path + "?" + query;
    TokenOf("", path, "?", query, "?");
  }

  /** The request line is read through a null pointer exactly if its second word is question marks only. */
  lemma NullPath(line: string)
    ensures FirstLine(line).None? <==>
              (var target := Token(Token(line, " ").1, " ").0;
               target.Some? && forall i :: 0 <= i < |target.value| ==> target.value[i] == '?')
  {
    var target := Token(Token(line, " ").1, " ").0;
    if target.Some? {
      SpanIsDelims(target.value, "?");
    }
  }

  /** The path array is left without a terminator exactly if the path has at least as many characters as it. */
  lemma LongPath(line: string)
    ensures var target := Token(Token(line, " ").1, " ").0;
            && FirstLine(line).Some? && FirstLine(line).value.path.Unterminated?
            <==> target.Some? && Token(target.value, "?").0.Some? && |Token(target.value, "?").0.value| >= MAX_PATH_SIZE
  {
    hide Token;
  }

  method ParseFirstLine(a: array<char>, start: nat)
    returns (verb: Method, path: Path, version: Version, query: LinkedList<Pair>)
    requires HasText(a, start) && FirstLine(TextAt(a, start)).Some?
    modifies a
    ensures fresh(query) && fresh(query.repr) && query.Valid()
    ensures Some(StartLine(verb, path, version, query.Values())) == FirstLine(old(TextAt(a, start)))
    ensures forall k :: 0 <= k < start || start + |old(TextAt(a, start))| <= k < a.Length ==> a[k] == old(a[k])
  {
    hide Token, CString, VerbOf, QueryPairs, LinkedList.Valid, LinkedList.Values;
    verb, path := Get, Unset;
    query := new LinkedList();
    var found, key, save := StrTok(a, start, " ");
    if found {
      verb := VerbOf(TextAt(a, key));
    }
    var target, spec;
    found, target, spec := StrTok(a, save, " ");
    version := if TextAt(a, spec) == "HTTP/1.0" then Http10 else Http11;
    if found {
      path, query := ParseTarget(a, target);
    }
  }

  /** The path and the query. */
  method ParseTarget(a: array<char>, start: nat) returns (path: Path, query: LinkedList<Pair>)
    requires HasText(a, start) && Token(TextAt(a, start), "?").0.Some?
    modifies a
    ensures fresh(query) && fresh(query.repr) && query.Valid()
    ensures var (p, q) := Token(old(TextAt(a, start)), "?");
            path == StorePath(p.value) && query.Values() == QueryPairs(q)
    ensures forall k :: 0 <= k < start || start + |old(TextAt(a, start))| <= k < a.Length ==> a[k] == old(a[k])
  {
    hide Token, CString, QueryPairs, LinkedList.Valid, LinkedList.Values;
    var found, key, save := StrTok(a, start, "?");
    path := StorePath(TextAt(a, key));
    query := ParseQuery(a, save);
  }

  // ---------------------------------------------------------------- the header block

  const DEFAULT := StartLine(Get, Unset, Http11, [])

  /** The loop over the lines, the first of which is the request line. */
  function ReadLines(request: Request, first: bool, s: string): Option<Request>
    decreases |s|
  {
    var (line, rest) := Token(s, CRLF);
    if line.None? then Some(request)
    else if !first then ReadLines(request.(header := request.header + [SplitPair(line.value)]), false, rest)
    else
      match FirstLine(line.value)
      case None => None
      case Some(start) => ReadLines(request.(start := start), false, rest)
  }

  function ParseRequest(text: string): Option<Request> {
    ReadLines(Request(DEFAULT, []), true, text)
  }

  class HRequest {
    var verb: Method
    var path: Path
    var version: Version
    var query: LinkedList<Pair>
    const header: LinkedList<Pair>

    ghost predicate Valid()
      reads this, query, query.repr, header, header.repr
    {
      query.Valid() && header.Valid() && this !in query.repr && this !in header.repr && query.repr !! header.repr
    }

    ghost function View(): Request
      requires Valid()
      reads this, query, query.repr, header, header.repr
    {
      Request(StartLine(verb, path, version, query.Values()), header.Values())
    }

    constructor ()
      ensures Valid() && fresh(query) && fresh(query.repr) && fresh(header) && fresh(header.repr)
      ensures View() == Request(DEFAULT, [])
    {
      verb, path, version := Get, Unset, Http11;
      query := new LinkedList();
      header := new LinkedList();
    }

    /** One line of the block. */
    method AddLine(a: array<char>, line: nat, first: bool)
      requires Valid() && HasText(a, line) && a !in query.repr && a !in header.repr
      requires first ==> FirstLine(TextAt(a, line)).Some?
      modifies this, a, header.repr
      ensures Valid() && fresh(query.repr - old(query.repr)) && fresh(header.repr - old(header.repr))
      ensures View()
           == if first then old(View()).(start := FirstLine(old(TextAt(a, line))).value)
              else old(View()).(header := old(View()).header + [SplitPair(old(TextAt(a, line)))])
      ensures forall k :: 0 <= k < line || line + |old(TextAt(a, line))| <= k < a.Length ==> a[k] == old(a[k])
    {
      hide CString, FirstLine, SplitPair, LinkedList.Valid, LinkedList.Values;
      if first {
        verb, path, version, query := ParseFirstLine(a, line);
      } else {
        var pair := ParsePair(a, line);
        header.Append(pair);
      }
    }
  }

  /** _hrequest_parse_header. */
  method ParseHeader(data: array<char>) returns (req: HRequest)
    requires HasText(data, 0) && ParseRequest(TextAt(data, 0)).Some?
    modifies data
    ensures fresh(req) && req.Valid() && Some(req.View()) == ParseRequest(old(TextAt(data, 0)))
  {
    hide Token, CString, TextAt, FirstLine, SplitPair, ReadLines, LinkedList.Valid, LinkedList.Values, HRequest.Valid, HRequest.View;
    req := new HRequest();
    ghost var goal := ParseRequest(TextAt(data, 0));
    var tmp, first, found := 0, true, true;
    while found
      invariant fresh(req) && req.Valid() && fresh(req.query.repr) && fresh(req.header.repr)
      invariant HasText(data, tmp)
      invariant goal == if found then ReadLines(req.View(), first, TextAt(data, tmp)) else Some(req.View())
      decreases found, data.Length - tmp
    {
      found, tmp := NextLine(data, tmp, req, first);
      first := first && !found;
    }
  }

  /** One round of the loop over the lines. */
  method NextLine(a: array<char>, tmp: nat, req: HRequest, first: bool) returns (found: bool, save: nat)
    requires req.Valid() && HasText(a, tmp) && a !in req.query.repr && a !in req.header.repr
    requires ReadLines(req.View(), first, TextAt(a, tmp)).Some?
    modifies req, a, req.header.repr
    ensures req.Valid() && fresh(req.query.repr - old(req.query.repr)) && fresh(req.header.repr - old(req.header.repr))
    ensures HasText(a, save) && tmp <= save && (found ==> tmp < save)
    ensures old(ReadLines(req.View(), first, TextAt(a, tmp)))
         == if found then ReadLines(req.View(), false, TextAt(a, save)) else Some(req.View())
  {
    hide Token, CString, FirstLine, SplitPair, LinkedList.Valid, LinkedList.Values, HRequest.Valid, HRequest.View;
    var line;
    found, line, save := StrTok(a, tmp, CRLF);
    if found {
      ghost var behind := a[save..];
      req.AddLine(a, line, first);
      assert a[save..] == behind;
    }
  }

  // ---------------------------------------------------------------- reading from the socket

  /** The tests of the reading loop after a byte: two line feeds, possibly with a carriage return between them. */
  predicate Ends(s: string) {
    && |s| > 4
    && (s[|s| - 2..] == "\n\n" || s[|s| - 3..] == "\n\r\n")
  }

  /** How many bytes the loop takes when it has taken `i`; None if the stream ends first. */
  function TakenAfter(s: string, i: nat): (r: Option<nat>)
    requires i <= |s|
    ensures r.Some? ==> i <= r.value <= |s|
    decreases |s| - i
  {
    if i >= MAX_HEADER_SIZE then Some(i)
    else if i == |s| then None
    else if Ends(s[..i + 1]) then Some(i + 1)
    else TakenAfter(s, i + 1)
  }

  function Taken(s: string): Option<nat> {
    TakenAfter(s, 0)
  }

  /** The bytes up to the first end of a header block, or as many as the buffer holds. */
  lemma {:induction false} TakenIsFirst(s: string, i: nat)
    requires i <= |s| && i <= MAX_HEADER_SIZE
    ensures var r := TakenAfter(s, i);
            && (r.Some? ==> forall n :: i < n < r.value ==> !Ends(s[..n]))
            && (r.Some? ==> r.value == MAX_HEADER_SIZE || (i < r.value < MAX_HEADER_SIZE + 1 && Ends(s[..r.value])))
            && (r.None? ==> |s| < MAX_HEADER_SIZE && forall n :: i < n <= |s| ==> !Ends(s[..n]))
    decreases |s| - i
  {
    hide Ends;
    if i < MAX_HEADER_SIZE && i < |s| && !Ends(s[..i + 1]) {
      TakenIsFirst(s, i + 1);
    }
  }

  /** The test as the loop makes it, on single characters. */
  lemma EndsHere(s: string, i: nat)
    requires i < |s|
    ensures Ends(s[..i + 1]) <==> i > 3 && ((s[i - 1] == '\n' && s[i] == '\n')
                                            || (s[i - 2] == '\n' && s[i - 1] == '\r' && s[i] == '\n'))
  {
    var t := s[..i + 1];
    if i > 3 {
      assert t[|t| - 2..] == [s[i - 1], s[i]];
      assert t[|t| - 3..] == [s[i - 2], s[i - 1], s[i]];
    }
  }

  /** The reading loop of hrequest_new_from_socket, byte by byte. */
  method ReadHeader(sock: Socket, buffer: array<char>) returns (ok: bool, ghost n: nat)
    requires buffer.Length == MAX_HEADER_SIZE + 1
    modifies sock`inbox, sock`schedule, sock`bytesReceived, buffer
    ensures ok <==> Taken(old(sock.inbox)).Some?
    ensures ok ==>
              && Some(n) == Taken(old(sock.inbox)) && n <= MAX_HEADER_SIZE && n <= |old(sock.inbox)|
              && sock.inbox == old(sock.inbox)[n..]
              && buffer[..n] == old(sock.inbox)[..n] && (n > 0 ==> buffer[n] == '\0')
  {
    hide Ends;
    ghost var s := sock.inbox;
    var i := 0;
    while i < MAX_HEADER_SIZE
      invariant i <= MAX_HEADER_SIZE && i <= |s| && sock.inbox == s[i..] && buffer[..i] == s[..i]
      invariant i > 0 ==> buffer[i] == '\0'
      invariant Taken(s) == TakenAfter(s, i)
    {
      ok := sock.Recv(buffer, i, 1);
      if !ok {
        return false, 0;
      }
      assert buffer[i] == buffer[i..i + 1][0] == s[i];
      buffer[i + 1] := '\0';
      assert buffer[..i + 1] == s[..i + 1];
      EndsHere(s, i);
      assert i > 3 ==> buffer[i - 1] == s[i - 1] && buffer[i - 2] == s[i - 2];
      if i > 3 && ((buffer[i - 1] == '\n' && buffer[i] == '\n')
                   || (buffer[i - 2] == '\n' && buffer[i - 1] == '\r' && buffer[i] == '\n')) {
        return true, i + 1;
      }
      i := i + 1;
    }
    return true, i;
  }

  /** The text that the server parses, given the bytes that its loop took. */
  method NewFromSocket(sock: Socket) returns (req: HRequest?)
    requires Taken(sock.inbox).Some? ==> ParseRequest(CString(sock.inbox[..Taken(sock.inbox).value])).Some?
    modifies sock`inbox, sock`schedule, sock`bytesReceived
    ensures req != null <==> Taken(old(sock.inbox)).Some?
    ensures req != null ==>
              && fresh(req) && req.Valid() && sock.inbox == old(sock.inbox)[Taken(old(sock.inbox)).value..]
              && Some(req.View()) == ParseRequest(CString(old(sock.inbox)[..Taken(old(sock.inbox)).value]))
  {
    hide CString, ParseRequest, Ends, HRequest.Valid, HRequest.View;
    var buffer := new char[MAX_HEADER_SIZE + 1];
    ghost var s := sock.inbox;
    var ok, n := ReadHeader(sock, buffer);
    if !ok {
      return null;
    }
    assert buffer[0..] == s[..n] + buffer[n..];
    CStringStop(s[..n], buffer[n..]);
    req := ParseHeader(buffer);
  }

  // ---------------------------------------------------------------- the client

  function HeaderLine(p: Pair): string {
    p.key + ": " + p.value + CRLF
  }

  const LINE_SIZE := 1024

  /** httpc_send_header; a line that its buffer does not hold is outside the model. */
  method SendHeader(sock: Socket, header: LinkedList<Pair>)
    requires header.Valid() && sock !in header.repr
    requires forall p :: p in header.Values() ==> |HeaderLine(p)| < LINE_SIZE
    modifies sock`sent, sock`schedule, sock`bytesReceived
    ensures sock.sent == old(sock.sent) + HeaderLines.PrintLines(header.Values()) + CRLF
  {
    hide LinkedList.Valid, LinkedList.Values, HeaderLines.PrintLines;
    ghost var pairs, i := header.Values(), 0;
    header.Links(0);
    var walker := header.head;
    HeaderLines.PrintTo(pairs, 0);
    while walker != null
      invariant header.Valid() && header.Values() == pairs && i <= |pairs| == |header.nodes| && walker == header.At(i)
      invariant sock.sent == old(sock.sent) + HeaderLines.PrintLines(pairs[..i])
      decreases |pairs| - i
    {
      header.Links(i);
      assert pairs[i] in pairs;
      sock.Send(HeaderLine(walker.value));
      HeaderLines.PrintTo(pairs, i);
      walker, i := walker.next, i + 1;
    }
    header.Links(i);
    assert pairs[..i] == pairs;
    sock.Send(CRLF);
  }

  function VerbText(verb: Method): string
    requires verb.Get? || verb.Post?
  {
    if verb.Get? then "GET" else "POST"
  }

  function StartText(verb: Method, context: string, version: Version): string
    requires verb.Get? || verb.Post?
  {
    VerbText(verb) + " " + (if context == "" then "/" else context) + " HTTP/" + if version.Http10? then "1.0" else "1.1"
  }

  const REQUEST_BUFFER_SIZE := 4096

  /** The sending half of _httpc_talk_to_server; it only knows the methods GET and POST. */
  method SendRequest(sock: Socket, verb: Method, context: string, version: Version, header: LinkedList<Pair>) returns (ok: bool)
    requires header.Valid() && sock !in header.repr
    requires forall p :: p in header.Values() ==> |HeaderLine(p)| < LINE_SIZE
    requires |context| + 20 < REQUEST_BUFFER_SIZE
    modifies sock`sent, sock`schedule, sock`bytesReceived
    ensures ok <==> verb.Get? || verb.Post?
    ensures sock.sent == old(sock.sent) + if ok then Wire(verb, context, version, header.Values()) else ""
  {
    hide LinkedList.Valid, LinkedList.Values, HeaderLines.PrintLines, StartText;
    if !verb.Get? && !verb.Post? {
      return false;
    }
    var line := StartText(verb, context, version) + CRLF;
    ghost var lines := HeaderLines.PrintLines(header.Values());
    sock.Send(line);
    SendHeader(sock, header);
    Assoc(old(sock.sent), line, lines);
    Assoc(old(sock.sent), line + lines, CRLF);
    return true;
  }

  /** The whole request without its body. */
  function Wire(verb: Method, context: string, version: Version, header: seq<Pair>): string
    requires verb.Get? || verb.Post?
  {
    StartText(verb, context, version) + CRLF + HeaderLines.PrintLines(header) + CRLF
  }

  // ---------------------------------------------------------------- header lines come back

  /** A line comes back as its pair if and only if the key is not empty and has no ":", and the value does not start with a blank. */
  lemma PairBack(p: Pair)
    ensures SplitPair(p.key + ": " + p.value) == p
            <==> p.key != "" && Free(p.key, ":") && (p.value == "" || p.value[0] != ' ')
  {
    hide Token, Span;
    var line := p.key + ": " + p.value;
    assert line == "" + p.key + ":" + (" " + p.value);
    if p.key == "" {
      assert line == ": " + p.value;
      KeyIsNotEmpty(p.value);
    } else {
      if Free(p.key, ":") {
        TokenOf("", p.key, ":", " " + p.value, ":");
        BlanksOf(p.value);
      } else if Token(line, ":").0.Some? {
        TokenIsFree(line, ":");
      }
    }
  }

  /** A line that starts with the colon gets a key from behind it. */
  lemma KeyIsNotEmpty(value: string)
    ensures Token(": " + value, ":").0.Some?
  {
    assert (": " + value)[1..] == " " + value;
    assert Span(": " + value, ":") == 1 + Span(" " + value, ":");
  }

  lemma BlanksOf(value: string)
    ensures SkipBlanks(" " + value) == value <==> value == "" || value[0] != ' '
    ensures SkipBlanks(" " + value) == "" || SkipBlanks(" " + value)[0] != ' '
  {
    assert (" " + value)[1..] == value;
    assert Span(" " + value, " ") == 1 + Span(value, " ");
    assert (" " + value)[1 + Span(value, " ")..] == value[Span(value, " ")..];
  }

  /** The pairs of a header block: its lines, each split at the first colon. */
  function HeaderPairs(s: string): seq<Pair>
    decreases |s|
  {
    var (line, rest) := Token(s, CRLF);
    if line.None? then [] else [SplitPair(line.value)] + HeaderPairs(rest)
  }

  /** Behind the request line the parser collects exactly these. */
  lemma {:induction false} ReadsHeader(request: Request, s: string)
    ensures ReadLines(request, false, s) == Some(request.(header := request.header + HeaderPairs(s)))
    decreases |s|
  {
    hide Token, SplitPair;
    var (line, rest) := Token(s, CRLF);
    if line.None? {
      assert request.header + HeaderPairs(s) == request.header;
    } else {
      var next := request.(header := request.header + [SplitPair(line.value)]);
      ReadsHeader(next, rest);
      assert next.header + HeaderPairs(rest) == request.header + HeaderPairs(s);
    }
  }

  /** Without line breaks. */
  ghost predicate OneLine(p: Pair) {
    Free(p.key, CRLF) && Free(p.value, CRLF)
  }

  ghost predicate Sendable(p: Pair) {
    && OneLine(p) && p.key != "" && Free(p.key, ":")
    && (p.value == "" || p.value[0] != ' ')
  }

  lemma SplitIsOneLine(line: string)
    requires Free(line, CRLF)
    ensures OneLine(SplitPair(line))
  {
    hide Token, Span;
    if Token(line, ":").0.Some? {
      forall c | c in CRLF
        ensures c !in Token(line, ":").0.value && c !in Token(line, ":").1
      {
        TokenIsPart(line, ":", c);
      }
    } else {
      NoTokenNoRest(line, ":");
    }
  }

  lemma NoTokenNoRest(s: string, delims: string)
    requires Token(s, delims).0.None?
    ensures Token(s, delims).1 == ""
  {
  }

  /** Whatever is parsed, the pairs have no line breaks. */
  lemma {:induction false} HeaderPairsOneLine(s: string)
    ensures forall p :: p in HeaderPairs(s) ==> OneLine(p)
    decreases |s|
  {
    hide Token, SplitPair, OneLine;
    var (line, rest) := Token(s, CRLF);
    if line.Some? {
      TokenIsFree(s, CRLF);
      SplitIsOneLine(line.value);
      HeaderPairsOneLine(rest);
    }
  }

  /** Each pair, printed and split again. */
  function Resplit(pairs: seq<Pair>): seq<Pair> {
    seq(|pairs|, i requires 0 <= i < |pairs| => SplitPair(pairs[i].key + ": " + pairs[i].value))
  }

  /** Printed lines are found again; `gap` is the line feed that the token before has left. */
  lemma {:induction false} LinesSplit(gap: string, pairs: seq<Pair>)
    requires gap == "" || gap == "\n"
    requires forall p :: p in pairs ==> OneLine(p)
    ensures HeaderPairs(gap + (HeaderLines.PrintLines(pairs) + CRLF)) == Resplit(pairs)
    decreases |pairs|
  {
    hide Token, SplitPair;
    if pairs == [] {
      assert gap + (HeaderLines.PrintLines(pairs) + CRLF) == gap + CRLF;
      OnlyDelims(gap + CRLF);
    } else {
      assert pairs[0] in pairs;
      var line, rest := pairs[0].key + ": " + pairs[0].value, HeaderLines.PrintLines(pairs[1..]) + CRLF;
      assert gap + (HeaderLines.PrintLines(pairs) + CRLF) == gap + line + "\r" + ("\n" + rest);
      TokenOf(gap, line, "\r", "\n" + rest, CRLF);
      LinesSplit("\n", pairs[1..]);
      assert Resplit(pairs) == [SplitPair(line)] + Resplit(pairs[1..]);
    }
  }

  lemma {:induction false} OnlyDelims(s: string)
    requires forall i :: 0 <= i < |s| ==> s[i] in CRLF
    ensures Token(s, CRLF) == (None, "")
  {
    SpanOf(s, "", CRLF);
    assert s + "" == s;
  }

  /** Round trip of a header block: exactly the sendable lists of pairs come back. */
  lemma HeaderBack(gap: string, pairs: seq<Pair>)
    requires gap == "" || gap == "\n"
    ensures HeaderPairs(gap + (HeaderLines.PrintLines(pairs) + CRLF)) == pairs
            <==> forall p :: p in pairs ==> Sendable(p)
  {
    hide HeaderPairs, SplitPair, OneLine;
    var text := gap + (HeaderLines.PrintLines(pairs) + CRLF);
    HeaderPairsOneLine(text);
    if forall p :: p in pairs ==> OneLine(p) {
      LinesSplit(gap, pairs);
      forall i | 0 <= i < |pairs|
        ensures Resplit(pairs)[i] == pairs[i] <==> Sendable(pairs[i])
      {
        assert pairs[i] in pairs;
        PairBack(pairs[i]);
      }
    }
  }

  // ---------------------------------------------------------------- the request line comes back

  function PrintQuery(query: seq<Pair>): string {
    if query == [] then ""
    else query[0].key + "=" + query[0].value + (if |query| == 1 then "" else "&" + PrintQuery(query[1..]))
  }

  ghost predicate CleanOption(p: Pair) {
    p.key != "" && Free(p.key, "=&") && Free(p.value, "&")
  }

  lemma OptionIsClean(option: string)
    requires Free(option, "&")
    ensures forall p :: p in OptionPair(option) ==> CleanOption(p)
  {
    hide Token;
    if Token(option, "=").0.Some? {
      TokenIsFree(option, "=");
      TokenIsPart(option, "=", '&');
    }
  }

  lemma {:induction false} QueryIsClean(text: string)
    ensures forall p :: p in QueryPairs(text) ==> CleanOption(p)
    decreases |text|
  {
    hide Token, CleanOption, OptionPair;
    var (option, rest) := Token(text, "&");
    if option.Some? {
      TokenIsFree(text, "&");
      OptionIsClean(option.value);
      QueryIsClean(rest);
    }
  }

  /** Round trip of a query: it comes back exactly if no key is empty or has "=" or "&", and no value has "&". */
  lemma {:induction false} QueryBack(query: seq<Pair>)
    ensures QueryPairs(PrintQuery(query)) == query <==> forall p :: p in query ==> CleanOption(p)
  {
    hide QueryPairs, CleanOption;
    QueryIsClean(PrintQuery(query));
    if forall p :: p in query ==> CleanOption(p) {
      CleanQueryBack(query);
    }
  }

  lemma {:induction false} CleanQueryBack(query: seq<Pair>)
    requires forall p :: p in query ==> CleanOption(p)
    ensures QueryPairs(PrintQuery(query)) == query
  {
    hide Token, OptionPair, CleanOption;
    if query == [] {
      NoToken("&");
    } else {
      var p := query[0];
      assert p in query;
      var option := p.key + "=" + p.value;
      var end := if |query| == 1 then "" else "&";
      var rest := if |query| == 1 then "" else PrintQuery(query[1..]);
      OptionBack(p);
      assert PrintQuery(query) == "" + option + end + rest;
      TokenOf("", option, end, rest, "&");
      if |query| == 1 {
        NoToken("&");
        assert query == [p];
      } else {
        CleanQueryBack(query[1..]);
        assert query == [p] + query[1..];
      }
    }
  }

  lemma OptionBack(p: Pair)
    requires CleanOption(p)
    ensures var option := p.key + "=" + p.value;
            option != "" && Free(option, "&") && OptionPair(option) == [p]
  {
    hide Token;
    assert '=' in "=&" && '&' in "=&";
    assert p.key + "=" + p.value == "" + p.key + "=" + p.value;
    TokenOf("", p.key, "=", p.value, "=");
  }

  lemma NoToken(delims: string)
    ensures Token("", delims) == (None, "")
  {
  }

  /** The target of a request: a path, and the query behind a question mark if there is one. */
  function Target(path: string, query: seq<Pair>): string {
    path + if query == [] then "" else "?" + PrintQuery(query)
  }

  predicate PairWithout(p: Pair, c: char) {
    c !in p.key && c !in p.value
  }

  ghost predicate AllWithout(path: string, query: seq<Pair>, c: char) {
    c !in path && forall p :: p in query ==> PairWithout(p, c)
  }

  /** A path and a query that a single line can carry. */
  ghost predicate CleanTarget(path: string, query: seq<Pair>) {
    && path != "" && |path| < MAX_PATH_SIZE && '?' !in path && (forall p :: p in query ==> CleanOption(p))
    && AllWithout(path, query, ' ')
  }

  /** A path and a query that a request can carry. */
  ghost predicate CarriedTarget(path: string, query: seq<Pair>) {
    CleanTarget(path, query) && AllWithout(path, query, '\r') && AllWithout(path, query, '\n')
  }

  lemma OptionIsPart(option: string, c: char)
    requires c !in option
    ensures forall p :: p in OptionPair(option) ==> PairWithout(p, c)
  {
    hide Token;
    if Token(option, "=").0.Some? {
      TokenIsPart(option, "=", c);
    }
  }

  lemma {:induction false} QueryIsPart(text: string, c: char)
    requires c !in text
    ensures forall p :: p in QueryPairs(text) ==> PairWithout(p, c)
    decreases |text|
  {
    hide Token, OptionPair, PairWithout;
    var (option, rest) := Token(text, "&");
    if option.Some? {
      TokenIsPart(text, "&", c);
      OptionIsPart(option.value, c);
      QueryIsPart(rest, c);
    }
  }

  lemma {:induction false} TargetWithout(path: string, query: seq<Pair>, c: char)
    requires AllWithout(path, query, c) && c !in "?=&"
    ensures c !in PrintQuery(query) && c !in Target(path, query)
  {
    assert '?' in "?=&" && '=' in "?=&" && '&' in "?=&";
    if query != [] {
      assert query[0] in query;
      TargetWithout(path, query[1..], c);
    }
  }

  /** What is found in a request line is clean, and has no character that is not in the line. */
  lemma FoundIsClean(line: string, path: string, query: seq<Pair>)
    requires FirstLine(line).Some? && FirstLine(line).value.path == Path(path) && FirstLine(line).value.query == query
    ensures CleanTarget(path, query)
    ensures forall c :: c !in line ==> AllWithout(path, query, c)
  {
    hide Token, QueryPairs, CleanOption, PairWithout;
    var rest := Token(line, " ").1;
    var target := Token(rest, " ").0.value;
    TokenIsFree(rest, " ");
    var (found, text) := Token(target, "?");
    assert path == found.value;
    TokenIsFree(target, "?");
    QueryIsClean(text);
    assert ' ' !in target && '?' in "?";
    forall c | c !in target
      ensures AllWithout(path, query, c)
    {
      TokenIsPart(target, "?", c);
      QueryIsPart(text, c);
    }
    forall c | c !in line
      ensures c !in target
    {
      NoTokenPart(line, c);
      TokenIsPart(rest, " ", c);
    }
  }

  lemma NoTokenPart(line: string, c: char)
    requires c !in line
    ensures c !in Token(line, " ").1
  {
    hide Token;
    if Token(line, " ").0.Some? {
      TokenIsPart(line, " ", c);
    } else {
      NoTokenNoRest(line, " ");
    }
  }

  /** A printed request line comes back with method, path, version and query, if and only if the target is clean. */
  lemma StartBack(verb: Method, path: string, query: seq<Pair>, version: Version)
    requires verb.Get? || verb.Post?
    ensures FirstLine(StartText(verb, Target(path, query), version)) == Some(StartLine(verb, Path(path), version, query))
            <==> CleanTarget(path, query)
  {
    hide FirstLine, StartText, Target, CleanTarget;
    var line := StartText(verb, Target(path, query), version);
    if FirstLine(line) == Some(StartLine(verb, Path(path), version, query)) {
      FoundIsClean(line, path, query);
    }
    if CleanTarget(path, query) {
      CleanStartBack(verb, path, query, version);
    }
  }

  lemma CleanStartBack(verb: Method, path: string, query: seq<Pair>, version: Version)
    requires (verb.Get? || verb.Post?) && CleanTarget(path, query)
    ensures FirstLine(StartText(verb, Target(path, query), version)) == Some(StartLine(verb, Path(path), version, query))
  {
    hide Token, QueryPairs, PrintQuery, Target, VerbOf, VerbText, CleanOption, AllWithout;
    var target := Target(path, query);
    TargetWithout(path, query, ' ');
    TargetSplits(path, query);
    VerbBack(verb);
    CleanQueryBack(query);
    var spec := "HTTP/" + if version.Http10? then "1.0" else "1.1";
    var line := StartText(verb, target, version);
    assert line == "" + VerbText(verb) + " " + (target + " " + spec);
    TokenOf("", VerbText(verb), " ", target + " " + spec, " ");
    assert target + " " + spec == "" + target + " " + spec;
    TokenOf("", target, " ", spec, " ");
    Specs();
  }

  lemma VerbBack(verb: Method)
    requires verb.Get? || verb.Post?
    ensures VerbOf(VerbText(verb)) == verb && VerbText(verb) != "" && Free(VerbText(verb), " ")
  {
  }

  lemma TargetSplits(path: string, query: seq<Pair>)
    requires path != "" && '?' !in path
    ensures Target(path, query) != "" && Token(Target(path, query), "?") == (Some(path), PrintQuery(query))
  {
    hide Token;
    var target := Target(path, query);
    if query == [] {
      assert target == "" + path + "" + "";
      TokenOf("", path, "", "", "?");
    } else {
      assert target == "" + path + "?" + PrintQuery(query);
      TokenOf("", path, "?", PrintQuery(query), "?");
    }
  }

  lemma Specs()
    ensures "HTTP/" + "1.0" == "HTTP/1.0" && "HTTP/" + "1.1" != "HTTP/1.0"
  {
    assert ("HTTP/" + "1.1")[7] == '1' && "HTTP/1.0"[7] == '0';
  }

  // ---------------------------------------------------------------- requests come back

  /** No line feed is followed by a line feed or a carriage return. */
  ghost predicate Spaced(s: string) {
    forall i :: 0 <= i < |s| - 1 && s[i] == '\n' ==> s[i + 1] != '\n' && s[i + 1] != '\r'
  }

  lemma {:induction false} LinesAreSpaced(pairs: seq<Pair>)
    requires forall p :: p in pairs ==> OneLine(p)
    ensures Spaced(HeaderLines.PrintLines(pairs))
    ensures pairs != [] ==> HeaderLines.PrintLines(pairs) != "" && HeaderLines.PrintLines(pairs)[0] !in CRLF
  {
    if pairs != [] {
      assert pairs[0] in pairs;
      var line, rest := pairs[0].key + ": " + pairs[0].value, HeaderLines.PrintLines(pairs[1..]);
      LinesAreSpaced(pairs[1..]);
      assert HeaderLines.PrintLines(pairs) == line + CRLF + rest;
      LineIsSpaced(line, rest);
      assert pairs[1..] == [] ==> rest == "";
    }
  }

  lemma LineIsSpaced(line: string, rest: string)
    requires line != "" && Free(line, CRLF) && Spaced(rest) && (rest == "" || rest[0] !in CRLF)
    ensures Spaced(line + CRLF + rest) && (line + CRLF + rest)[0] !in CRLF
  {
    var s := line + CRLF + rest;
    forall i | 0 <= i < |s| - 1 && s[i] == '\n'
      ensures s[i + 1] != '\n' && s[i + 1] != '\r'
    {
      if i >= |line| + 2 {
        assert rest[i - |line| - 2] == s[i] && rest[i - |line| - 1] == s[i + 1];
      } else {
        assert i == |line| + 1 && s[i + 1] == rest[0];
      }
    }
  }

  /** Lines and the blank line behind them are taken exactly, whatever follows. */
  lemma BlockIsTaken(lines: string, body: string)
    requires |lines| > 2 && Spaced(lines) && lines[|lines| - 1] == '\n' && |lines| + 2 <= MAX_HEADER_SIZE
    ensures Taken(lines + CRLF + body) == Some(|lines| + 2)
  {
    hide TakenAfter;
    var s, n := lines + CRLF + body, |lines| + 2;
    TakenIsFirst(s, 0);
    EndsHere(s, n - 1);
    assert Ends(s[..n]);
    forall k | 0 < k < n
      ensures !Ends(s[..k])
    {
      EndsHere(s, k - 1);
      if k - 1 < |lines| {
        assert k > 1 ==> s[k - 2] == lines[k - 2] && s[k - 1] == lines[k - 1];
        assert k > 2 ==> s[k - 3] == lines[k - 3];
      }
    }
  }

  /** What SendRequest can send, in a block that fits the server's buffer; C strings have no terminators in them. */
  ghost predicate Transmittable(verb: Method, context: string, version: Version, header: seq<Pair>) {
    && (verb.Get? || verb.Post?)
    && |context| + 20 < REQUEST_BUFFER_SIZE && (forall p :: p in header ==> |HeaderLine(p)| < LINE_SIZE)
    && '\0' !in context && (forall p :: p in header ==> PairWithout(p, '\0'))
    && |Wire(verb, context, version, header)| <= MAX_HEADER_SIZE
  }

  /** No line breaks but those that are printed. */
  ghost predicate Unbroken(context: string, header: seq<Pair>) {
    Free(context, CRLF) && forall p :: p in header ==> OneLine(p)
  }

  lemma StartWithout(verb: Method, context: string, version: Version, c: char)
    requires (verb.Get? || verb.Post?) && c !in context && c in "\r\n\0"
    ensures c !in StartText(verb, context, version)
  {
    var spec := if version.Http10? then "1.0" else "1.1";
    assert c == '\r' || c == '\n' || c == '\0';
    assert c !in VerbText(verb) && c !in " HTTP/" && c !in spec && c !in " " && c !in "/";
  }

  lemma StartIsFree(verb: Method, context: string, version: Version)
    requires (verb.Get? || verb.Post?) && Free(context, CRLF)
    ensures Free(StartText(verb, context, version), CRLF)
  {
    hide StartText;
    assert CRLF[0] == '\r' && CRLF[1] == '\n' && "\r\n\0"[0] == '\r' && "\r\n\0"[1] == '\n';
    assert '\r' !in context && '\n' !in context;
    StartWithout(verb, context, version, '\r');
    StartWithout(verb, context, version, '\n');
  }

  lemma {:induction false} NoNul(header: seq<Pair>)
    requires forall p :: p in header ==> PairWithout(p, '\0')
    ensures '\0' !in HeaderLines.PrintLines(header)
  {
    if header != [] {
      assert header[0] in header;
      NoNul(header[1..]);
    }
  }

  /** The wire is text, and what the server has in its array is the wire. */
  lemma WireIsText(verb: Method, context: string, version: Version, header: seq<Pair>, body: string)
    requires Transmittable(verb, context, version, header)
    ensures var wire := Wire(verb, context, version, header); CString((wire + body)[..|wire|]) == wire
  {
    hide HeaderLines.PrintLines, StartText, CString;
    var wire := Wire(verb, context, version, header);
    NoNul(header);
    assert '\0' in "\r\n\0";
    StartWithout(verb, context, version, '\0');
    CStringOf(wire, "");
    assert wire + "" == wire && (wire + body)[..|wire|] == wire;
  }

  /** Unbroken requests are taken exactly. */
  lemma WireIsTaken(verb: Method, context: string, version: Version, header: seq<Pair>, body: string)
    requires Transmittable(verb, context, version, header) && Unbroken(context, header)
    ensures var wire := Wire(verb, context, version, header); Taken(wire + body) == Some(|wire|)
  {
    hide Taken, StartText, OneLine;
    var start, lines := StartText(verb, context, version), HeaderLines.PrintLines(header);
    StartIsFree(verb, context, version);
    StartIsLong(verb, context, version);
    LinesAreSpaced(header);
    LineIsSpaced(start, lines);
    if header != [] {
      LastIsLineFeed(header);
    }
    assert Wire(verb, context, version, header) + body == start + CRLF + lines + CRLF + body;
    BlockIsTaken(start + CRLF + lines, body);
  }

  lemma StartIsLong(verb: Method, context: string, version: Version)
    requires verb.Get? || verb.Post?
    ensures var start := StartText(verb, context, version); start != "" && start[0] !in CRLF
  {
    assert StartText(verb, context, version)[0] == VerbText(verb)[0];
  }

  /** Parsing splits off the first line. */
  lemma ParseFirst(text: string)
    ensures var (line, rest) := Token(text, CRLF);
            line.Some? ==> ParseRequest(text) == match FirstLine(line.value)
                                                 case None => None
                                                 case Some(start) => Some(Request(start, HeaderPairs(rest)))
  {
    hide Token, FirstLine, HeaderPairs;
    var (line, rest) := Token(text, CRLF);
    if line.Some? && FirstLine(line.value).Some? {
      ReadsHeader(Request(FirstLine(line.value).value, []), rest);
      assert [] + HeaderPairs(rest) == HeaderPairs(rest);
    }
  }

  /** The wire, parsed, when there is no line break in the request line. */
  lemma ParseWire(verb: Method, context: string, version: Version, header: seq<Pair>)
    requires (verb.Get? || verb.Post?) && Free(context, CRLF)
    ensures ParseRequest(Wire(verb, context, version, header))
         == match FirstLine(StartText(verb, context, version))
            case None => None
            case Some(start) => Some(Request(start, HeaderPairs("\n" + (HeaderLines.PrintLines(header) + CRLF))))
  {
    hide Token, FirstLine, HeaderPairs, StartText, ParseRequest, HeaderLines.PrintLines;
    var start, rest := StartText(verb, context, version), HeaderLines.PrintLines(header) + CRLF;
    var wire := Wire(verb, context, version, header);
    StartIsFree(verb, context, version);
    StartIsLong(verb, context, version);
    assert wire == "" + start + "\r" + ("\n" + rest);
    TokenOf("", start, "\r", "\n" + rest, CRLF);
    ParseFirst(wire);
  }

  /** A path and a query that have come back from any text have no line breaks. */
  lemma FoundIsCarried(text: string, path: string, query: seq<Pair>)
    requires Token(text, CRLF).0.Some? && ParseRequest(text).Some?
    requires ParseRequest(text).value.start.path == Path(path) && ParseRequest(text).value.start.query == query
    ensures CarriedTarget(path, query)
  {
    hide Token, FirstLine, HeaderPairs, CleanTarget, AllWithout, ParseRequest;
    ParseFirst(text);
    TokenIsFree(text, CRLF);
    var line := Token(text, CRLF).0.value;
    assert CRLF[0] == '\r' && CRLF[1] == '\n';
    assert '\r' !in line && '\n' !in line;
    FoundIsClean(line, path, query);
  }

  lemma CarriedIsFree(path: string, query: seq<Pair>)
    requires CarriedTarget(path, query)
    ensures Free(Target(path, query), CRLF)
  {
    hide Target, CleanTarget, AllWithout;
    TargetWithout(path, query, '\r');
    TargetWithout(path, query, '\n');
  }

  /**
   The server takes an unbroken request exactly from the stream, however the socket cuts it,
   and leaves the body. Method, path, version and query come back if and only if the target
   can be carried, and then the header if and only if every pair is sendable.
   */
  lemma RequestBack(verb: Method, path: string, query: seq<Pair>, version: Version, header: seq<Pair>, body: string)
    requires Transmittable(verb, Target(path, query), version, header)
    ensures var wire, start := Wire(verb, Target(path, query), version, header), StartLine(verb, Path(path), version, query);
            var request, taken := ParseRequest(wire), Taken(wire + body) == Some(|wire|);
            && CString((wire + body)[..|wire|]) == wire
            && (Unbroken(Target(path, query), header) ==> taken)
            && (request.Some? && request.value.start == start <==> CarriedTarget(path, query))
            && (CarriedTarget(path, query) ==> (request.value.header == header <==> forall p :: p in header ==> Sendable(p)))
            && (taken && request == Some(Request(start, header)) <==>
                  CarriedTarget(path, query) && forall p :: p in header ==> Sendable(p))
  {
    hide Taken, Token, FirstLine, StartText, HeaderPairs, OneLine, CString, Target, ParseRequest, CleanTarget, Wire;
    var context := Target(path, query);
    var wire := Wire(verb, context, version, header);
    WireIsText(verb, context, version, header, body);
    if Unbroken(context, header) {
      WireIsTaken(verb, context, version, header, body);
    }
    if ParseRequest(wire).Some? && ParseRequest(wire).value.start == StartLine(verb, Path(path), version, query) {
      WireHasLine(verb, context, version, header);
      FoundIsCarried(wire, path, query);
    }
    if CarriedTarget(path, query) {
      CarriedIsFree(path, query);
      StartBack(verb, path, query, version);
      ParseWire(verb, context, version, header);
      HeaderBack("\n", header);
    }
  }

  lemma WireHasLine(verb: Method, context: string, version: Version, header: seq<Pair>)
    requires verb.Get? || verb.Post?
    ensures Token(Wire(verb, context, version, header), CRLF).0.Some?
  {
    hide StartText;
    StartIsLong(verb, context, version);
  }

  lemma {:induction false} LastIsLineFeed(pairs: seq<Pair>)
    requires pairs != []
    ensures var s := HeaderLines.PrintLines(pairs);
            |s| > 1 && s[|s| - 1] == '\n'
  {
    if |pairs| > 1 {
      LastIsLineFeed(pairs[1..]);
    }
  }

  // ---------------------------------------------------------------- requests as others write them

  /** A header line with any blanks behind its first colon; colons in front of the key are skipped. */
  lemma PairMeans(colons: string, key: string, gap: string, value: string)
    requires (forall i :: 0 <= i < |colons| ==> colons[i] == ':') && key != "" && Free(key, ":")
    requires (forall i :: 0 <= i < |gap| ==> gap[i] == ' ') && (value == "" || value[0] != ' ')
    ensures SplitPair(colons + key + ":" + (gap + value)) == Pair(key, value)
  {
    hide Token, Span;
    TokenOf(colons, key, ":", gap + value, ":");
    assert " "[0] == ' ';
    SpanOf(gap, value, " ");
    assert (gap + value)[|gap|..] == value;
  }

  /** A header line without a colon is a key. */
  lemma KeyOnly(key: string)
    requires key != "" && Free(key, ":")
    ensures SplitPair(key) == Pair(key, "")
  {
    hide Token, Span;
    assert "" + key + "" + "" == key;
    TokenOf("", key, "", "", ":");
    assert SkipBlanks("") == "" by {
      SpanOf("", "", " ");
      assert "" + "" == "";
    }
  }

  /** The options of a query: ampersands before them are skipped; one without an equals sign has no value. */
  lemma OptionMeans(gap: string, option: string, rest: string)
    requires (forall i :: 0 <= i < |gap| ==> gap[i] == '&') && option != "" && Free(option, "&")
    ensures QueryPairs(gap + option + "&" + rest) == OptionPair(option) + QueryPairs(rest)
    ensures QueryPairs(gap + option) == OptionPair(option) && QueryPairs(gap) == []
    ensures Free(option, "=") ==> OptionPair(option) == [Pair(option, "")]
  {
    hide Token, OptionPair;
    TokenOf(gap, option, "&", rest, "&");
    assert gap + option + "" + "" == gap + option;
    TokenOf(gap, option, "", "", "&");
    NoToken("&");
    NoTokenMeans(gap, "&");
    assert OptionPair(option) + [] == OptionPair(option);
    if Free(option, "=") {
      WholeOption(option);
    }
  }

  lemma WholeOption(option: string)
    requires option != "" && Free(option, "=")
    ensures OptionPair(option) == [Pair(option, "")]
  {
    hide Token;
    assert "" + option + "" + "" == option;
    TokenOf("", option, "", "", "=");
  }
}
