/**
 Content-Type values: content_type_new, which splits them into a type and parameters,
 and httpc_mime_begin, which builds the one of a multipart message.
 */
module ContentTypes {
  import opened Lists
  import opened Text

  const TYPE_SIZE := 128
  const FIELD_SIZE := 256

  datatype Mode = InType | InKey | InValue

  /** The scanner: the text in each array up to the write index, and the parameters found. */
  datatype Scanner = Scanner(mode: Mode, inQuote: bool, begin: bool, typ: string, key: string, value: string, pairs: seq<Pair>) {

    /** The write index `c`. */
    function Index(): nat {
      match mode
      case InType => |typ|
      case InKey => |key|
      case InValue => |value|
    }

    predicate EndsValue(ch: char) {
      (ch == ' ' || ch == ';') && !inQuote && (begin || ch != ' ')
    }

    function Step(ch: char): Scanner {
      match mode
      case InType =>
        if ch == ';' then this.(mode := InKey, key := "") else if Blank(ch) then this else this.(typ := typ + [ch])
      case InKey =>
        if ch == '=' then this.(mode := InValue, value := "") else if Blank(ch) then this else this.(key := key + [ch])
      case InValue =>
        var begun := begin || ch != ' ';
        if EndsValue(ch) then Scanner(InKey, inQuote, false, typ, "", "", pairs + [Pair(key, value)])
        else if ch == '"' then this.(inQuote := !inQuote, begin := begun)
        else if begun && ch != '\r' then this.(value := value + [ch], begin := begun)
        else this.(begin := begun)
    }

    /** Whether the step writes to an array: a character or a terminator. */
    predicate Writes(ch: char) {
      match mode
      case InType => ch == ';' || !Blank(ch)
      case InKey => ch == '=' || !Blank(ch)
      case InValue => EndsValue(ch) || (ch != '"' && (begin || ch != ' ') && ch != '\r')
    }

    predicate Fits(ch: char) {
      Writes(ch) ==> Index() < if mode.InType? then TYPE_SIZE else FIELD_SIZE
    }

    function Scan(text: string): Scanner
      decreases |text|
    {
      if text == "" then this else Step(text[0]).Scan(text[1..])
    }

    /** No write is outside its array. */
    predicate AllFit(text: string)
      decreases |text|
    {
      text == "" || (Fits(text[0]) && Step(text[0]).AllFit(text[1..]))
    }
  }

  predicate Blank(ch: char) {
    ch == ' ' || ch == '\t' || ch == '\r'
  }

  const START := Scanner(InType, false, false, "", "", "", [])

  /** content_type_new at work: the object it fills, and its local variables. */
  class Splitter {
    const typ: array<char>
    const params: LinkedList<Pair>
    const key: array<char>
    const value: array<char>
    var mode: Mode
    var c: nat
    var inQuote: bool
    var begin: bool

    constructor ()
      ensures Is(START) && fresh(typ) && fresh(params.repr) && fresh(key) && fresh(value)
    {
      typ, key, value := new char[TYPE_SIZE], new char[FIELD_SIZE], new char[FIELD_SIZE];
      params := new LinkedList();
      mode, c, inQuote, begin := InType, 0, false, false;
    }

    /** The arrays and variables hold what the scanner says; fields that are complete are terminated. */
    ghost predicate Is(s: Scanner)
      reads this, typ, key, value, params, params.repr
    {
      && typ.Length == TYPE_SIZE && key.Length == value.Length == FIELD_SIZE && key != value && typ != key && typ != value
      && params.Valid() && params.Values() == s.pairs
      && {this, typ, key, value} !! params.repr
      && mode == s.mode && inQuote == s.inQuote && begin == s.begin && c == s.Index()
      && '\0' !in s.typ && '\0' !in s.key && '\0' !in s.value
      && (if mode.InType? then c <= TYPE_SIZE && typ[..c] == s.typ else CString(typ[..]) == s.typ)
      && (mode.InKey? ==> c <= FIELD_SIZE && key[..c] == s.key)
      && (mode.InValue? ==> CString(key[..]) == s.key && c <= FIELD_SIZE && value[..c] == s.value)
    }

    method Feed(ch: char, ghost s: Scanner)
      requires Is(s) && s.Fits(ch) && ch != '\0'
      modifies this, typ, key, value, params.repr
      ensures Is(s.Step(ch))
      ensures fresh(params.repr - old(params.repr))
    {
      match mode
      case InType => FeedType(ch, s);
      case InKey => FeedKey(ch, s);
      case InValue => FeedValue(ch, s);
    }

    /** The loop over the text and the blank behind it. */
    method FeedAll(text: string)
      requires Is(START) && '\0' !in text && START.AllFit(text + " ")
      modifies this, typ, key, value, params.repr
      ensures params.Valid() && params.Values() == START.Scan(text + " ").pairs
      ensures typ.Length == TYPE_SIZE && (';' in text ==> CString(typ[..]) == START.Scan(text + " ").typ)
    {
      hide CString, Scanner.Step, Scanner.Scan, Scanner.AllFit, Scanner.Fits;
      var i, len := 0, |text|;
      ghost var s, rest := START, text + " ";
      while i <= len
        invariant i <= len + 1 && Is(s) && rest == (text + " ")[i..]
        invariant fresh(params.repr - old(params.repr))
        invariant s.Scan(rest) == START.Scan(text + " ") && s.AllFit(rest)
      {
        var ch := if i != len then text[i] else ' ';
        ScanStep(s, rest);
        Feed(ch, s);
        s, rest := s.Step(ch), rest[1..];
        i := i + 1;
      }
      assert rest == "";
      TypeEnds(text + " ");
      ScanEnd(s);
    }

    method FeedType(ch: char, ghost s: Scanner)
      requires Is(s) && s.Fits(ch) && ch != '\0' && mode.InType?
      modifies this, typ
      ensures Is(s.Step(ch))
    {
      hide CString;
      if ch == ';' {
        Terminate(typ, c);
        c, mode := 0, InKey;
      } else if !Blank(ch) {
        Append(typ, c, ch);
        c := c + 1;
      }
    }

    method FeedKey(ch: char, ghost s: Scanner)
      requires Is(s) && s.Fits(ch) && ch != '\0' && mode.InKey?
      modifies this, key
      ensures Is(s.Step(ch))
    {
      hide CString;
      if ch == '=' {
        Terminate(key, c);
        c, mode := 0, InValue;
      } else if !Blank(ch) {
        Append(key, c, ch);
        c := c + 1;
      }
    }

    method FeedValue(ch: char, ghost s: Scanner)
      requires Is(s) && s.Fits(ch) && ch != '\0' && mode.InValue?
      modifies this, value, params.repr
      ensures Is(s.Step(ch))
      ensures fresh(params.repr - old(params.repr))
    {
      hide CString;
      var begun := begin || ch != ' ';
      if (ch == ' ' || ch == ';') && !inQuote && begun {
        EndValue(s);
        c, begin, mode := 0, false, InKey;
      } else {
        InsideValue(ch, begun, s);
      }
    }

    /** A character of a value; `begun` is what `begin` becomes. */
    method InsideValue(ch: char, begun: bool, ghost s: Scanner)
      requires Is(s) && begun == (begin || ch != ' ') && s.Fits(ch) && ch != '\0' && mode.InValue? && !s.EndsValue(ch)
      modifies this, value
      ensures Is(s.Step(ch))
    {
      hide CString;
      if ch == '"' {
        inQuote := !inQuote;
      } else if begun && ch != '\r' {
        Append(value, c, ch);
        c := c + 1;
      }
      begin := begun;
    }

    method EndValue(ghost s: Scanner)
      requires params.Valid() && params.Values() == s.pairs && c < value.Length && value[..c] == s.value && '\0' !in s.value
      requires CString(key[..]) == s.key && key != value && {this, key, value} !! params.repr
      modifies value, params.repr
      ensures params.Valid() && params.Values() == s.pairs + [Pair(s.key, s.value)]
      ensures fresh(params.repr - old(params.repr))
    {
      hide CString;
      Terminate(value, c);
      params.Append(Pair(CString(key[..]), CString(value[..])));
    }
  }

  /** Ends the string in the array at index `c`. */
  method Terminate(memory: array<char>, c: nat)
    requires c < memory.Length && '\0' !in memory[..c]
    modifies memory
    ensures CString(memory[..]) == old(memory[..c])
  {
    ghost var text := memory[..c];
    memory[c] := '\0';
    assert memory[..] == text + memory[c..];
    CStringOf(text, memory[c..]);
  }

  method Append(memory: array<char>, c: nat, ch: char)
    requires c < memory.Length
    modifies memory
    ensures memory[..c + 1] == old(memory[..c]) + [ch]
  {
    memory[c] := ch;
  }

  /**
   content_type_new: a blank is scanned behind the end of the text. The type is only
   terminated, and so only has a value, if the text has a semicolon.
   */
  method NewContentType(text: string) returns (typ: array<char>, params: LinkedList<Pair>)
    requires '\0' !in text && START.AllFit(text + " ")
    ensures typ.Length == TYPE_SIZE && params.Valid() && params.Values() == START.Scan(text + " ").pairs
    ensures ';' in text ==> CString(typ[..]) == START.Scan(text + " ").typ
  {
    var splitter := new Splitter();
    splitter.FeedAll(text);
    return splitter.typ, splitter.params;
  }

  lemma ScanEnd(s: Scanner)
    ensures s.Scan("") == s
  {
  }

  lemma ScanStep(s: Scanner, text: string)
    requires text != ""
    ensures s.Scan(text) == s.Step(text[0]).Scan(text[1..])
    ensures s.AllFit(text) ==> s.Fits(text[0]) && s.Step(text[0]).AllFit(text[1..])
  {
  }

  /** The text before the first semicolon. */
  function Before(text: string): (r: string)
    ensures r <= text && ';' !in r && (|r| < |text| ==> text[|r|] == ';')
  {
    if text == "" || text[0] == ';' then "" else [text[0]] + Before(text[1..])
  }

  function WithoutBlanks(text: string): (r: string)
    ensures |r| <= |text| && (text == "" ==> r == "")
  {
    if text == "" then "" else (if Blank(text[0]) then "" else [text[0]]) + WithoutBlanks(text[1..])
  }

  /** Behind the type nothing changes it. */
  lemma {:induction false} TypeStays(s: Scanner, text: string)
    requires !s.mode.InType?
    ensures !s.Scan(text).mode.InType? && s.Scan(text).typ == s.typ
    decreases |text|
  {
    if text != "" {
      TypeStays(s.Step(text[0]), text[1..]);
    }
  }

  lemma TypeChar(s: Scanner, c: char)
    requires s.mode.InType?
    ensures var s' := s.Step(c);
            if c == ';' then !s'.mode.InType? && s'.typ == s.typ
            else s'.mode.InType? && s'.typ == s.typ + if Blank(c) then "" else [c]
  {
  }

  lemma BeforeCons(text: string)
    requires text != "" && text[0] != ';'
    ensures WithoutBlanks(Before(text)) == (if Blank(text[0]) then "" else [text[0]]) + WithoutBlanks(Before(text[1..]))
  {
    assert Before(text)[1..] == Before(text[1..]);
  }

  lemma {:induction false} TypeFrom(s: Scanner, text: string)
    requires s.mode.InType?
    ensures s.Scan(text).mode.InType? <==> ';' !in text
    ensures s.Scan(text).typ == s.typ + WithoutBlanks(Before(text))
    decreases |text|
  {
    hide Scanner.Step, Scanner.Scan, WithoutBlanks, Blank;
    if text == "" {
      ScanEnd(s);
      assert s.typ + "" == s.typ && WithoutBlanks("") == "";
    } else {
      var c := text[0];
      ScanStep(s, text);
      TypeChar(s, c);
      if c == ';' {
        TypeStays(s.Step(c), text[1..]);
        assert s.typ + "" == s.typ && WithoutBlanks("") == "";
      } else {
        TypeFrom(s.Step(c), text[1..]);
        BeforeCons(text);
        var kept := if Blank(c) then "" else [c];
        var more := WithoutBlanks(Before(text[1..]));
        assert s.typ + (kept + more) == s.typ + kept + more;
      }
    }
  }

  /** The type ends at the first semicolon and not otherwise; it is what precedes it, without blanks. */
  lemma TypeEnds(text: string)
    ensures START.Scan(text).mode.InType? <==> ';' !in text
    ensures START.Scan(text).typ == WithoutBlanks(Before(text))
  {
    TypeFrom(START, text);
  }

  // ---------------------------------------------------------------- round trip

  function PrintParam(p: Pair): string {
    " " + p.key + "=\"" + p.value + "\""
  }

  /** The parameters, a semicolon behind each one but the last. */
  function PrintParams(params: seq<Pair>): string {
    if params == [] then ""
    else PrintParam(params[0]) + (if |params| == 1 then "" else ";") + PrintParams(params[1..])
  }

  function PrintContentType(typ: string, params: seq<Pair>): string {
    typ + ";" + PrintParams(params)
  }

  ghost predicate Lacks(s: string, chars: string) {
    forall i :: 0 <= i < |s| ==> s[i] !in chars
  }

  /* The characters that the scanner drops or gives a meaning, by mode. */
  const NOT_IN_TYPE := "; \t\r"
  const NOT_IN_KEY := "= \t\r"
  const NOT_IN_VALUE := "\"\r"

  ghost predicate CleanParam(p: Pair) {
    Lacks(p.key, NOT_IN_KEY) && Lacks(p.value, NOT_IN_VALUE)
  }

  /** Whatever is scanned, what comes out is clean. */
  ghost predicate Clean(s: Scanner) {
    && Lacks(s.typ, NOT_IN_TYPE) && Lacks(s.key, NOT_IN_KEY) && Lacks(s.value, NOT_IN_VALUE)
    && forall p :: p in s.pairs ==> CleanParam(p)
  }

  lemma CleanStep(s: Scanner, ch: char)
    requires Clean(s)
    ensures Clean(s.Step(ch))
  {
  }

  lemma {:induction false} CleanScan(s: Scanner, text: string)
    requires Clean(s)
    ensures Clean(s.Scan(text))
    decreases |text|
  {
    hide Scanner.Step, Clean;
    if text != "" {
      CleanStep(s, text[0]);
      CleanScan(s.Step(text[0]), text[1..]);
    }
  }

  lemma {:induction false} ScanJoin(s: Scanner, a: string, b: string)
    ensures s.Scan(a + b) == s.Scan(a).Scan(b)
    decreases |a|
  {
    hide Scanner.Step;
    if a == "" {
      assert a + b == b;
    } else {
      assert (a + b)[1..] == a[1..] + b;
      ScanJoin(s.Step(a[0]), a[1..], b);
    }
  }

  lemma {:induction false} FitJoin(s: Scanner, a: string, b: string)
    ensures s.AllFit(a + b) <==> s.AllFit(a) && s.Scan(a).AllFit(b)
    decreases |a|
  {
    hide Scanner.Step, Scanner.Fits;
    if a == "" {
      assert a + b == b;
    } else {
      assert (a + b)[1..] == a[1..] + b;
      FitJoin(s.Step(a[0]), a[1..], b);
    }
  }

  /** Scanning the text ends in `s'`; and, where `fit` asks for it, within the arrays. */
  ghost predicate Reads(s: Scanner, text: string, s': Scanner, fit: bool) {
    s.Scan(text) == s' && (fit ==> s.AllFit(text))
  }

  lemma ReadsOn(s: Scanner, a: string, s1: Scanner, b: string, s2: Scanner, fit: bool)
    requires Reads(s, a, s1, fit) && Reads(s1, b, s2, fit)
    ensures Reads(s, a + b, s2, fit)
  {
    ScanJoin(s, a, b);
    FitJoin(s, a, b);
  }

  /** One character. */
  lemma ReadsOne(s: Scanner, ch: char, fit: bool)
    requires fit ==> s.Fits(ch)
    ensures Reads(s, [ch], s.Step(ch), fit)
  {
    hide Scanner.Step, Scanner.Fits;
    var text := [ch];
    assert text[0] == ch && text[1..] == "";
    assert s.Scan(text) == s.Step(ch).Scan("");
    assert s.Step(ch).AllFit("");
  }

  lemma {:induction false} ReadsType(s: Scanner, a: string, fit: bool)
    requires s.mode.InType? && Lacks(a, NOT_IN_TYPE) && (fit ==> |s.typ| + |a| <= TYPE_SIZE)
    ensures Reads(s, a, s.(typ := s.typ + a), fit)
    decreases |a|
  {
    if a == "" {
      assert s.typ + a == s.typ;
    } else {
      assert Lacks(a[1..], NOT_IN_TYPE);
      ReadsType(s.Step(a[0]), a[1..], fit);
      assert s.typ + [a[0]] + a[1..] == s.typ + a;
    }
  }

  lemma {:induction false} ReadsKey(s: Scanner, a: string, fit: bool)
    requires s.mode.InKey? && Lacks(a, NOT_IN_KEY) && (fit ==> |s.key| + |a| <= FIELD_SIZE)
    ensures Reads(s, a, s.(key := s.key + a), fit)
    decreases |a|
  {
    if a == "" {
      assert s.key + a == s.key;
    } else {
      assert Lacks(a[1..], NOT_IN_KEY);
      ReadsKey(s.Step(a[0]), a[1..], fit);
      assert s.key + [a[0]] + a[1..] == s.key + a;
    }
  }

  lemma {:induction false} ReadsValue(s: Scanner, a: string, fit: bool)
    requires s.mode.InValue? && s.inQuote && s.begin && Lacks(a, NOT_IN_VALUE) && (fit ==> |s.value| + |a| <= FIELD_SIZE)
    ensures Reads(s, a, s.(value := s.value + a), fit)
    decreases |a|
  {
    if a == "" {
      assert s.value + a == s.value;
    } else {
      assert Lacks(a[1..], NOT_IN_VALUE);
      ReadsValue(s.Step(a[0]), a[1..], fit);
      assert s.value + [a[0]] + a[1..] == s.value + a;
    }
  }

  /** Ready for a parameter. */
  ghost predicate AtKey(s: Scanner) {
    s.mode == InKey && !s.inQuote && !s.begin && s.key == "" && s.value == ""
  }

  ghost predicate SmallParam(p: Pair) {
    |p.key| < FIELD_SIZE && |p.value| < FIELD_SIZE
  }

  function OpenParam(key: string): string {
    " " + key + "=\""
  }

  /** A parameter up to its opening quote. */
  lemma OpenBack(s: Scanner, key: string, fit: bool)
    requires AtKey(s) && Lacks(key, NOT_IN_KEY) && (fit ==> |key| < FIELD_SIZE)
    ensures Reads(s, OpenParam(key), Scanner(InValue, true, true, s.typ, key, "", s.pairs), fit)
  {
    hide Scanner.Step, Scanner.Fits, Reads;
    var s1 := s.(key := key);
    var s2 := s1.(mode := InValue);
    var s3 := s2.(inQuote := true, begin := true);
    Steps(s, s1, s2, s3, s3, s3.(inQuote := false), ' ', fit);
    ReadsOne(s, ' ', fit);
    ReadsKey(s, key, fit);
    assert "" + key == key;
    ReadsOn(s, " ", s, key, s1, fit);
    ReadsOne(s1, '=', fit);
    ReadsOn(s, " " + key, s1, "=", s2, fit);
    ReadsOne(s2, '"', fit);
    ReadsOn(s, " " + key + "=", s2, "\"", s3, fit);
    assert " " + key + "=" + "\"" == OpenParam(key);
  }

  /** One printed parameter, and the semicolon or blank behind it. */
  lemma ParamBack(s: Scanner, p: Pair, end: char, fit: bool)
    requires AtKey(s) && CleanParam(p) && (end == ';' || end == ' ') && (fit ==> SmallParam(p))
    ensures Reads(s, PrintParam(p) + [end], s.(pairs := s.pairs + [p]), fit)
  {
    hide Scanner.Step, Scanner.Fits, Reads;
    var s1 := s.(key := p.key);
    var s2 := s1.(mode := InValue);
    var s3 := s2.(inQuote := true, begin := true);
    var s4 := s3.(value := p.value);
    var s5 := s4.(inQuote := false);
    Steps(s, s1, s2, s3, s4, s5, end, fit);
    OpenBack(s, p.key, fit);
    assert "" + p.value == p.value;
    ReadsValue(s3, p.value, fit);
    ReadsOn(s, OpenParam(p.key), s3, p.value, s4, fit);
    ReadsOne(s4, '"', fit);
    ReadsOn(s, OpenParam(p.key) + p.value, s4, "\"", s5, fit);
    assert OpenParam(p.key) + p.value + "\"" == PrintParam(p);
    ReadsOne(s5, end, fit);
    ReadsOn(s, PrintParam(p), s5, [end], s.(pairs := s.pairs + [p]), fit);
  }

  lemma Steps(s: Scanner, s1: Scanner, s2: Scanner, s3: Scanner, s4: Scanner, s5: Scanner, end: char, fit: bool)
    requires AtKey(s) && s1 == s.(key := s1.key) && s2 == s1.(mode := InValue) && s3 == s2.(inQuote := true, begin := true)
    requires s4 == s3.(value := s4.value) && s5 == s4.(inQuote := false) && (end == ';' || end == ' ')
    requires fit ==> |s1.key| < FIELD_SIZE && |s4.value| < FIELD_SIZE
    ensures s.Step(' ') == s && s1.Step('=') == s2 && s2.Step('"') == s3 && s4.Step('"') == s5
    ensures s5.Step(end) == s.(pairs := s.pairs + [Pair(s1.key, s4.value)])
    ensures fit ==> s.Fits(' ') && s1.Fits('=') && s2.Fits('"') && s4.Fits('"') && s5.Fits(end)
  {
  }

  lemma BlankAtKey(s: Scanner, fit: bool)
    requires AtKey(s)
    ensures Reads(s, " ", s, fit)
  {
    ReadsOne(s, ' ', fit);
    assert s.Step(' ') == s && [' '] == " ";
  }

  lemma {:induction false} ParamsBack(s: Scanner, params: seq<Pair>, fit: bool)
    requires AtKey(s) && forall p :: p in params ==> CleanParam(p) && (fit ==> SmallParam(p))
    ensures Reads(s, PrintParams(params) + " ", s.(pairs := s.pairs + params), fit)
    decreases |params|
  {
    hide Reads, CleanParam, SmallParam, PrintParam, Scanner.Scan, Scanner.Step;
    if params == [] {
      BlankAtKey(s, fit);
      assert PrintParams(params) + " " == " " && s.pairs + params == s.pairs;
    } else if |params| == 1 {
      assert params[0] in params;
      assert PrintParams(params) + " " == PrintParam(params[0]) + [' '];
      ParamBack(s, params[0], ' ', fit);
      assert params == [params[0]];
    } else {
      assert params[0] in params;
      var first, rest := PrintParam(params[0]) + [';'], PrintParams(params[1..]) + " ";
      assert PrintParams(params) + " " == first + rest;
      ParamBack(s, params[0], ';', fit);
      var s1 := s.(pairs := s.pairs + [params[0]]);
      ParamsBack(s1, params[1..], fit);
      assert s1.pairs + params[1..] == s.pairs + params;
      ReadsOn(s, first, s1, rest, s1.(pairs := s1.pairs + params[1..]), fit);
    }
  }

  /** The whole printed text. */
  lemma PrintedReads(typ: string, params: seq<Pair>, fit: bool)
    requires Lacks(typ, NOT_IN_TYPE) && forall p :: p in params ==> CleanParam(p)
    requires fit ==> |typ| < TYPE_SIZE && forall p :: p in params ==> SmallParam(p)
    ensures Reads(START, PrintContentType(typ, params) + " ", Scanner(InKey, false, false, typ, "", "", params), fit)
  {
    hide Scanner.Step, Reads, CleanParam, SmallParam;
    var s1 := START.(typ := typ);
    var s2 := s1.(mode := InKey);
    var rest := PrintParams(params) + " ";
    assert PrintContentType(typ, params) + " " == typ + ";" + rest;
    assert "" + typ == typ && [] + params == params;
    ReadsType(START, typ, fit);
    TypeStep(s1, s2, fit);
    ReadsOne(s1, ';', fit);
    ReadsOn(START, typ, s1, ";", s2, fit);
    ParamsBack(s2, params, fit);
    ReadsOn(START, typ + ";", s2, rest, s2.(pairs := params), fit);
  }

  lemma TypeStep(s1: Scanner, s2: Scanner, fit: bool)
    requires s1 == START.(typ := s1.typ) && s2 == s1.(mode := InKey) && (fit ==> |s1.typ| < TYPE_SIZE)
    ensures s1.Step(';') == s2 && (fit ==> s1.Fits(';'))
  {
  }

  /**
   Round trip: a printed type comes back, with the same
   parameters in the same order, if and only if the type has no semicolon, blank,
   tab or CR, the keys have no "=", blank, tab or CR, and the values no quote or CR.
   */
  lemma ContentTypeBack(typ: string, params: seq<Pair>)
    ensures var s := START.Scan(PrintContentType(typ, params) + " ");
            (s.typ == typ && s.pairs == params)
            <==> Lacks(typ, NOT_IN_TYPE) && forall p :: p in params ==> CleanParam(p)
  {
    hide Scanner.Scan, Scanner.Step, Clean, CleanParam;
    var text := PrintContentType(typ, params) + " ";
    StartIsClean();
    CleanScan(START, text);
    CleanMeans(START.Scan(text));
    if Lacks(typ, NOT_IN_TYPE) && forall p :: p in params ==> CleanParam(p) {
      PrintedReads(typ, params, false);
    }
  }

  lemma StartIsClean()
    ensures Clean(START)
  {
  }

  lemma CleanMeans(s: Scanner)
    requires Clean(s)
    ensures Lacks(s.typ, NOT_IN_TYPE) && forall p :: p in s.pairs ==> CleanParam(p)
  {
  }

  // ---------------------------------------------------------------- httpc_mime_begin

  const PIECE_SIZE := 75
  const BUFFER_SIZE := 300

  /** What snprintf leaves of a piece in the array `temp`. */
  function Cut(piece: string): (r: string)
    ensures |r| < PIECE_SIZE && r <= piece && (|piece| < PIECE_SIZE ==> r == piece)
  {
    if |piece| < PIECE_SIZE then piece else piece[..PIECE_SIZE - 1]
  }

  function Boundary(id: int): string {
    "---=.Part_NH_" + PrintInt(id)
  }

  function OptionalParam(key: string, value: Option<string>): seq<Pair> {
    if value.None? then [] else [Pair(key, value.value)]
  }

  /** The parameters that httpc_mime_begin sets, in its order. */
  function RelatedParams(start: Option<string>, startInfo: Option<string>, typ: Option<string>, id: int): seq<Pair> {
    OptionalParam("type", typ) + OptionalParam("start", start) + OptionalParam("start-info", startInfo)
    + [Pair("boundary", Boundary(id))]
  }

  function CutParam(key: string, value: Option<string>): (r: string)
    ensures |r| < PIECE_SIZE
  {
    if value.None? then "" else Cut(PrintParam(Pair(key, value.value)) + ";")
  }

  predicate NulFree(value: Option<string>) {
    value.Some? ==> '\0' !in value.value
  }

  /** strcat. */
  method Concatenate(memory: array<char>, s: string)
    requires '\0' !in s && |CString(memory[..])| + |s| < memory.Length
    modifies memory
    ensures CString(memory[..]) == old(CString(memory[..])) + s
  {
    hide CString;
    var end := |CString(memory[..])|;
    ghost var was := CString(memory[..]);
    forall k | 0 <= k < |s| {
      memory[end + k] := s[k];
    }
    memory[end + |s|] := '\0';
    assert memory[..] == was + s + memory[end + |s|..];
    CStringOf(was + s, memory[end + |s|..]);
  }

  /** One of the optional parameters: sprintf into `temp`, and strcat. */
  method AddParam(buffer: array<char>, key: string, value: Option<string>)
    requires '\0' !in key && NulFree(value)
    requires |CString(buffer[..])| + PIECE_SIZE <= buffer.Length
    modifies buffer
    ensures CString(buffer[..])
         == old(CString(buffer[..])) + CutParam(key, value)
  {
    hide CString;
    if value.Some? {
      var temp := Cut(PrintParam(Pair(key, value.value)) + ";");
      Concatenate(buffer, temp);
    }
  }

  /** The text built by httpc_mime_begin; it always fits the buffer. */
  method MimeBegin(start: Option<string>, startInfo: Option<string>, typ: Option<string>, id: int) returns (text: string)
    requires IsInt32(id)
    requires NulFree(start) && NulFree(startInfo) && NulFree(typ)
    ensures text == "multipart/related;" + CutParam("type", typ) + CutParam("start", start)
                    + CutParam("start-info", startInfo) + PrintParam(Pair("boundary", Boundary(id)))
  {
    hide CString, PrintParam, Boundary, CutParam, NulFree;
    var buffer := new char[BUFFER_SIZE];
    buffer[0] := '\0';
    EmptyString(buffer[..]);
    Concatenate(buffer, "multipart/related;");
    AddParam(buffer, "type", typ);
    AddParam(buffer, "start", start);
    AddParam(buffer, "start-info", startInfo);
    BoundaryFits(id);
    var temp := Cut(PrintParam(Pair("boundary", Boundary(id))));
    Concatenate(buffer, temp);
    text := CString(buffer[..]);
  }

  lemma EmptyString(memory: string)
    requires memory != "" && memory[0] == '\0'
    ensures CString(memory) == ""
  {
  }

  /** The boundary has no character that a header, a parameter or the parser gives a meaning. */
  lemma BoundaryText(id: int)
    requires IsInt32(id)
    ensures |Boundary(id)| <= 24 && Lacks(Boundary(id), "\0\t\r\n \":")
  {
    hide DigitValue, PrintInt;
    IntText(id);
    forall i | 0 <= i < |Boundary(id)|
      ensures Boundary(id)[i] !in "\0\t\r\n \":"
    {
      if i >= 13 {
        assert Boundary(id)[i] == PrintInt(id)[i - 13];
        DigitIsPlain(Boundary(id)[i]);
      }
    }
  }

  lemma DigitIsPlain(c: char)
    requires DigitValue(c) < 16 || c == '-'
    ensures c !in "\0\t\r\n \":"
  {
  }

  lemma BoundaryFits(id: int)
    requires IsInt32(id)
    ensures |PrintParam(Pair("boundary", Boundary(id)))| <= 40
    ensures '\0' !in PrintParam(Pair("boundary", Boundary(id)))
  {
    BoundaryText(id);
  }

  ghost predicate CleanValue(value: Option<string>) {
    value.Some? ==> Lacks(value.value, NOT_IN_VALUE)
  }

  /** The closing quote is not cut off; the semicolon behind it may be. */
  ghost predicate Closed(p: Pair) {
    |PrintParam(p)| < PIECE_SIZE
  }

  ghost predicate ClosedValue(key: string, value: Option<string>) {
    value.Some? ==> Closed(Pair(key, value.value))
  }

  /** The pieces as snprintf leaves them; there is no semicolon behind the last one. */
  function Pieces(params: seq<Pair>): string {
    if params == [] then ""
    else if |params| == 1 then Cut(PrintParam(params[0]))
    else Cut(PrintParam(params[0]) + ";") + Pieces(params[1..])
  }

  lemma CutWhole(key: string, value: Option<string>, rest: seq<Pair>)
    requires rest != []
    ensures CutParam(key, value) + Pieces(rest) == Pieces(OptionalParam(key, value) + rest)
  {
    if value.Some? {
      assert (OptionalParam(key, value) + rest)[1..] == rest;
    } else {
      assert OptionalParam(key, value) + rest == rest;
    }
  }

  lemma MimeBeginPrints(start: Option<string>, startInfo: Option<string>, typ: Option<string>, id: int)
    requires IsInt32(id)
    ensures Pieces(RelatedParams(start, startInfo, typ, id))
         == CutParam("type", typ) + CutParam("start", start) + CutParam("start-info", startInfo)
            + PrintParam(Pair("boundary", Boundary(id)))
  {
    hide PrintParam, Boundary, CutParam, OptionalParam, Pieces;
    var t, s, i := OptionalParam("type", typ), OptionalParam("start", start), OptionalParam("start-info", startInfo);
    var b := [Pair("boundary", Boundary(id))];
    LastPiece(id);
    CutWhole("start-info", startInfo, b);
    CutWhole("start", start, i + b);
    CutWhole("type", typ, s + (i + b));
    assert t + (s + (i + b)) == RelatedParams(start, startInfo, typ, id);
    Assoc(CutParam("type", typ), CutParam("start", start), CutParam("start-info", startInfo) + Pieces(b));
    Assoc(CutParam("type", typ) + CutParam("start", start), CutParam("start-info", startInfo), Pieces(b));
  }

  lemma LastPiece(id: int)
    requires IsInt32(id)
    ensures Pieces([Pair("boundary", Boundary(id))]) == PrintParam(Pair("boundary", Boundary(id)))
  {
    BoundaryFits(id);
  }

  // ---------------------------------------------------------------- cut parameters

  /** The characters other than quotes; each of them adds at most one to what the scanner has found. */
  function NonQuotes(text: string): nat {
    if text == "" then 0 else NonQuotes(text[..|text| - 1]) + if text[|text| - 1] == '"' then 0 else 1
  }

  lemma NonQuotesSnoc(text: string, c: char)
    ensures NonQuotes(text + [c]) == NonQuotes(text) + if c == '"' then 0 else 1
  {
    assert (text + [c])[..|text|] == text;
  }

  lemma {:induction false} NonQuotesJoin(a: string, b: string)
    ensures NonQuotes(a + b) == NonQuotes(a) + NonQuotes(b)
    decreases |b|
  {
    if b == "" {
      assert a + b == a;
    } else {
      var init, c := b[..|b| - 1], b[|b| - 1];
      assert a + b == (a + init) + [c];
      NonQuotesJoin(a, init);
      NonQuotesSnoc(a + init, c);
    }
  }

  lemma {:induction false} NonQuotesAll(text: string)
    ensures NonQuotes(text) <= |text|
    ensures '"' !in text ==> NonQuotes(text) == |text|
    decreases |text|
  {
    if text != "" {
      NonQuotesAll(text[..|text| - 1]);
    }
  }

  function PairsWeight(pairs: seq<Pair>): nat {
    if pairs == [] then 0
    else
      var p := pairs[|pairs| - 1];
      PairsWeight(pairs[..|pairs| - 1]) + NonQuotes(p.key) + NonQuotes(p.value) + 2
  }

  lemma PairsWeightSnoc(pairs: seq<Pair>, p: Pair)
    ensures PairsWeight(pairs + [p]) == PairsWeight(pairs) + NonQuotes(p.key) + NonQuotes(p.value) + 2
    ensures PairsWeight([]) == 0
  {
    assert (pairs + [p])[..|pairs|] == pairs;
  }

  lemma {:induction false} PairsWeightJoin(a: seq<Pair>, b: seq<Pair>)
    ensures PairsWeight(a + b) == PairsWeight(a) + PairsWeight(b)
    decreases |b|
  {
    if b == [] {
      assert a + b == a;
    } else {
      var init, p := b[..|b| - 1], b[|b| - 1];
      assert a + b == (a + init) + [p];
      PairsWeightJoin(a, init);
      PairsWeightSnoc(a + init, p);
    }
  }

  /** How much has been found: an equals sign and an end for each pair. */
  function Weight(s: Scanner): nat {
    PairsWeight(s.pairs) + match s.mode
                           case InType => 0
                           case InKey => NonQuotes(s.key)
                           case InValue => NonQuotes(s.key) + 1 + NonQuotes(s.value)
  }

  lemma WeightStep(s: Scanner, c: char)
    ensures Weight(s.Step(c)) <= Weight(s) + if c == '"' then 0 else 1
  {
    hide NonQuotes, PairsWeight;
    NonQuotesSnoc(s.key, c);
    NonQuotesSnoc(s.value, c);
    PairsWeightSnoc(s.pairs, Pair(s.key, s.value));
    NonQuotesAll("");
  }

  lemma {:induction false} WeightScan(s: Scanner, text: string)
    ensures Weight(s.Scan(text)) <= Weight(s) + NonQuotes(text)
    decreases |text|
  {
    hide Weight, Scanner.Step;
    if text == "" {
    } else {
      WeightStep(s, text[0]);
      WeightScan(s.Step(text[0]), text[1..]);
      NonQuotesJoin([text[0]], text[1..]);
      NonQuotesSnoc("", text[0]);
      assert [text[0]] + text[1..] == text && "" + [text[0]] == [text[0]];
    }
  }

  lemma {:induction false} PairsStay(s: Scanner, text: string)
    ensures s.pairs <= s.Scan(text).pairs
    decreases |text|
  {
    if text != "" {
      PairsStay(s.Step(text[0]), text[1..]);
    }
  }

  /** A value that has begun only grows. */
  lemma {:induction false} ValueGrows(s: Scanner, text: string)
    requires s.mode.InValue?
    ensures var found := s.Scan(text).pairs;
            |found| > |s.pairs| ==> found[|s.pairs|].key == s.key && s.value <= found[|s.pairs|].value
    decreases |text|
  {
    if text != "" {
      var s' := s.Step(text[0]);
      if s'.mode.InValue? {
        ValueGrows(s', text[1..]);
      } else {
        PairsStay(s', text[1..]);
        assert s'.pairs[|s.pairs|] == Pair(s.key, s.value);
      }
    }
  }

  /** A clean parameter with a short key. */
  ghost predicate Quotable(p: Pair) {
    CleanParam(p) && '"' !in p.key && 0 < |p.key| <= 10
  }

  lemma ParamWeight(p: Pair)
    requires Quotable(p)
    ensures PairsWeight([p]) == |p.key| + |p.value| + 2
    ensures NonQuotes(PrintParam(p)) == |p.key| + |p.value| + 2
    ensures NonQuotes(PrintParam(p) + ";") == |p.key| + |p.value| + 3
  {
    hide NonQuotes, PairsWeight;
    PairsWeightSnoc([], p);
    assert [] + [p] == [p];
    NonQuotesAll(p.key);
    NonQuotesAll(p.value);
    NonQuotesAll(" " + p.key + "=");
    NonQuotesSnoc(" " + p.key + "=", '"');
    NonQuotesJoin(" " + p.key + "=" + "\"", p.value);
    NonQuotesSnoc(" " + p.key + "=" + "\"" + p.value, '"');
    assert PrintParam(p) == " " + p.key + "=" + "\"" + p.value + "\"";
    NonQuotesSnoc(PrintParam(p), ';');
  }

  lemma CutIsLess(piece: string)
    ensures NonQuotes(Cut(piece)) <= NonQuotes(piece)
  {
    NonQuotesJoin(Cut(piece), piece[|Cut(piece)|..]);
    assert Cut(piece) + piece[|Cut(piece)|..] == piece;
  }

  /** The pieces have one more such character for each parameter than their weight. */
  lemma {:induction false} PiecesWeight(params: seq<Pair>)
    requires params != [] && forall p :: p in params ==> Quotable(p)
    ensures NonQuotes(Pieces(params) + " ") <= PairsWeight(params) + |params|
    decreases |params|
  {
    hide NonQuotes, PairsWeight, Quotable, PrintParam, Cut;
    var p := params[0];
    ParamWeight(p);
    if |params| == 1 {
      assert params == [p];
      CutIsLess(PrintParam(p));
      NonQuotesSnoc(Pieces(params), ' ');
    } else {
      CutIsLess(PrintParam(p) + ";");
      PiecesWeight(params[1..]);
      NonQuotesJoin(Cut(PrintParam(p) + ";"), Pieces(params[1..]) + " ");
      Assoc(Cut(PrintParam(p) + ";"), Pieces(params[1..]), " ");
      PairsWeightJoin([p], params[1..]);
      assert [p] + params[1..] == params;
    }
  }

  /** The pieces begin with the first parameter up to its opening quote. */
  lemma PiecesOpen(params: seq<Pair>)
    requires params != [] && Quotable(params[0])
    ensures OpenParam(params[0].key) <= Pieces(params)
  {
    hide Quotable;
    var p := params[0];
    assert OpenParam(p.key) <= PrintParam(p) <= PrintParam(p) + ";";
    QuotableKey(p);
  }

  lemma QuotableKey(p: Pair)
    requires Quotable(p)
    ensures 0 < |p.key| <= 10 && Lacks(p.key, NOT_IN_KEY) && Lacks(p.value, NOT_IN_VALUE)
    ensures Lacks(" " + p.key + "=", NOT_IN_VALUE)
  {
  }

  /** What is left of a cut parameter. */
  lemma CutOff(p: Pair)
    requires Quotable(p) && !Closed(p)
    ensures var n := PIECE_SIZE - |p.key| - 4;
            && n <= |p.value|
            && Cut(PrintParam(p)) == Cut(PrintParam(p) + ";") == OpenParam(p.key) + p.value[..n]
  {
    assert PrintParam(p) == OpenParam(p.key) + p.value + "\"";
    assert (PrintParam(p) + ";")[..PIECE_SIZE - 1] == PrintParam(p)[..PIECE_SIZE - 1];
  }

  /** The scanner in the middle of a cut value. */
  lemma CutReads(s: Scanner, p: Pair, text: string, s1: Scanner)
    requires AtKey(s) && Quotable(p) && text <= p.value
    requires s1 == Scanner(InValue, true, true, s.typ, p.key, text, s.pairs)
    ensures Reads(s, OpenParam(p.key) + text, s1, false)
    ensures Weight(s1) == PairsWeight(s.pairs) + |p.key| + 1 + |text|
  {
    hide NonQuotes, PairsWeight;
    QuotableKey(p);
    OpenBack(s, p.key, false);
    var s0 := s1.(value := "");
    assert "" + text == text;
    ReadsValue(s0, text, false);
    ReadsOn(s, OpenParam(p.key), s0, text, s1, false);
    NonQuotesAll(p.key);
    NonQuotesAll(text);
  }

  /** In the middle of a value, the name of the next parameter is taken for a part of it. */
  lemma NameIsRead(s: Scanner, params: seq<Pair>)
    requires s.mode.InValue? && s.inQuote && s.begin && params != [] && Quotable(params[0])
    ensures var found := s.Scan(Pieces(params) + " ").pairs;
            |found| > |s.pairs| ==> |found[|s.pairs|].value| >= |s.value| + |params[0].key| + 2
  {
    hide Quotable, Pieces, Scanner.Step, Scanner.Scan;
    var text, name := Pieces(params) + " ", " " + params[0].key + "=";
    PiecesOpen(params);
    QuotableKey(params[0]);
    assert name <= OpenParam(params[0].key);
    assert text == name + text[|name|..];
    ReadsValue(s, name, false);
    ScanJoin(s, name, text[|name|..]);
    ValueGrows(s.(value := s.value + name), text[|name|..]);
  }

  /** A parameter without its closing quote spoils the list, whatever clean parameters follow it. */
  lemma CutBreaksClean(s: Scanner, params: seq<Pair>)
    requires AtKey(s) && 0 < |params| <= 4 && !Closed(params[0]) && forall p :: p in params ==> Quotable(p)
    ensures s.Scan(Pieces(params) + " ").pairs != s.pairs + params
  {
    hide Quotable, Closed, Reads, Scanner.Step, Scanner.Scan, NonQuotes, PairsWeight, Weight, PrintParam, Cut, OpenParam;
    var p, rest := params[0], params[1..];
    var n := PIECE_SIZE - |p.key| - 4;
    QuotableKey(p);
    CutOff(p);
    var s1 := Scanner(InValue, true, true, s.typ, p.key, p.value[..n], s.pairs);
    CutReads(s, p, p.value[..n], s1);
    var head := OpenParam(p.key) + p.value[..n];
    if rest == [] {
      LastCut(s, s1, head);
    } else {
      var tail := Pieces(rest) + " ";
      Assoc(head, Pieces(rest), " ");
      ReadsJoin(s, head, s1, tail);
      var end := s1.Scan(tail);
      if end.pairs == s.pairs + params {
        assert end.pairs[|s.pairs|] == p;
        NameIsRead(s1, rest);
        QuotableKey(rest[0]);
        WeightScan(s1, tail);
        PiecesWeight(rest);
        PairsWeightJoin(s.pairs, params);
        PairsWeightJoin([p], rest);
        assert [p] + rest == params;
        ParamWeight(p);
        PairsWeigh(end);
        assert false;
      }
    }
  }

  ghost predicate ShortKey(p: Pair) {
    Lacks(p.key, NOT_IN_KEY) && '"' !in p.key && 0 < |p.key| <= 10
  }

  /** And whatever values follow it: what is found is clean in any case. */
  lemma CutBreaks(s: Scanner, params: seq<Pair>)
    requires AtKey(s) && Clean(s) && 0 < |params| <= 4 && !Closed(params[0]) && forall p :: p in params ==> ShortKey(p)
    ensures s.Scan(Pieces(params) + " ").pairs != s.pairs + params
  {
    hide Clean, Pieces, Closed, Scanner.Scan;
    var end := s.Scan(Pieces(params) + " ");
    CleanScan(s, Pieces(params) + " ");
    CleanMeans(end);
    if end.pairs == s.pairs + params {
      forall p | p in params
        ensures Quotable(p)
      {
        assert p in end.pairs;
      }
      CutBreaksClean(s, params);
    }
  }

  lemma PairsWeigh(s: Scanner)
    ensures PairsWeight(s.pairs) <= Weight(s)
  {
  }

  lemma ReadsJoin(s: Scanner, a: string, s1: Scanner, b: string)
    requires Reads(s, a, s1, false)
    ensures s.Scan(a + b) == s1.Scan(b)
  {
    ScanJoin(s, a, b);
  }

  lemma LastCut(s: Scanner, s1: Scanner, head: string)
    requires Reads(s, head, s1, false) && s1.mode.InValue? && s1.inQuote && s1.begin
    ensures s.Scan(head + " ").pairs == s1.pairs
  {
    hide Scanner.Step;
    ReadsJoin(s, head, s1, " ");
    ReadsValue(s1, " ", false);
  }

  /** A leading blank is nothing. */
  lemma BlankIsNothing(s: Scanner, text: string)
    requires AtKey(s)
    ensures s.Scan(" " + text) == s.Scan(text) && (s.AllFit(text) ==> s.AllFit(" " + text))
    ensures s.AllFit(" " + text) ==> s.AllFit(text)
  {
    assert (" " + text)[1..] == text;
  }

  /** A closed parameter that is not the last one: the semicolon ends it or, if that is cut off, the blank that follows. */
  lemma ClosedReads(s: Scanner, p: Pair, next: string, s1: Scanner)
    requires AtKey(s) && Quotable(p) && Closed(p) && next != "" && next[0] == ' '
    requires s1 == s.(pairs := s.pairs + [p])
    ensures s.Scan(Cut(PrintParam(p) + ";") + next) == s1.Scan(next)
    ensures s1.AllFit(next) ==> s.AllFit(Cut(PrintParam(p) + ";") + next)
  {
    hide Scanner.Step, Scanner.Scan, Scanner.AllFit, PrintParam;
    var printed := PrintParam(p);
    ClosedIsSmall(p);
    if |printed| + 1 < PIECE_SIZE {
      assert Cut(printed + ";") == printed + [';'];
      ParamBack(s, p, ';', true);
      ScanJoin(s, printed + [';'], next);
      FitJoin(s, printed + [';'], next);
    } else {
      assert Cut(printed + ";") == printed;
      var more := next[1..];
      assert next == " " + more && printed + next == printed + [' '] + more;
      ParamBack(s, p, ' ', true);
      ScanJoin(s, printed + [' '], more);
      FitJoin(s, printed + [' '], more);
      BlankIsNothing(s1, more);
    }
  }

  lemma ClosedIsSmall(p: Pair)
    requires Closed(p) && Quotable(p)
    ensures SmallParam(p) && CleanParam(p)
  {
  }

  /** The pieces come back as the parameters, if and only if every closing quote is there. */
  lemma {:induction false} PiecesBack(s: Scanner, params: seq<Pair>)
    requires AtKey(s) && 0 < |params| <= 4 && forall p :: p in params ==> Quotable(p)
    ensures s.Scan(Pieces(params) + " ").pairs == s.pairs + params <==> forall p :: p in params ==> Closed(p)
    ensures (forall p :: p in params ==> Closed(p)) ==> s.AllFit(Pieces(params) + " ")
    decreases |params|
  {
    hide Quotable, Closed, Scanner.Step, Scanner.Scan, Scanner.AllFit, PrintParam, Cut, OpenParam;
    var p, rest := params[0], params[1..];
    assert params == [p] + rest;
    var s1 := s.(pairs := s.pairs + [p]);
    if !Closed(p) {
      CutBreaksClean(s, params);
    } else if rest == [] {
      LastBack(s, p);
    } else {
      var next := Pieces(rest) + " ";
      PiecesOpen(rest);
      OpenIsBlank(rest[0].key, Pieces(rest));
      ClosedReads(s, p, next, s1);
      Assoc(Cut(PrintParam(p) + ";"), Pieces(rest), " ");
      PiecesBack(s1, rest);
      Assoc(s.pairs, [p], rest);
      forall q | q in params && (forall r :: r in rest ==> Closed(r))
        ensures Closed(q)
      {
        assert q == p || q in rest;
      }
    }
  }

  lemma OpenIsBlank(key: string, text: string)
    requires OpenParam(key) <= text
    ensures text != "" && text[0] == ' '
  {
    assert OpenParam(key)[0] == ' ';
  }

  lemma LastBack(s: Scanner, p: Pair)
    requires AtKey(s) && Quotable(p) && Closed(p)
    ensures s.Scan(Pieces([p]) + " ").pairs == s.pairs + [p] && s.AllFit(Pieces([p]) + " ")
  {
    hide Scanner.Step, Scanner.Scan, Scanner.AllFit;
    ClosedIsSmall(p);
    ParamBack(s, p, ' ', true);
    assert Pieces([p]) + " " == PrintParam(p) + [' '];
  }

  /**
   The text of httpc_mime_begin: content_type_new gives back the type always, and the
   parameters in order if and only if no value has a quote or CR and no closing quote is
   cut off. All arrays are large enough then.
   */
  lemma MimeBeginComesBack(start: Option<string>, startInfo: Option<string>, typ: Option<string>, id: int, text: string)
    requires IsInt32(id)
    requires text == "multipart/related;" + CutParam("type", typ) + CutParam("start", start)
                     + CutParam("start-info", startInfo) + PrintParam(Pair("boundary", Boundary(id)))
    ensures var s := START.Scan(text + " ");
            && s.typ == "multipart/related"
            && (s.pairs == RelatedParams(start, startInfo, typ, id)
                <==> && CleanValue(typ) && CleanValue(start) && CleanValue(startInfo)
                     && ClosedValue("type", typ) && ClosedValue("start", start) && ClosedValue("start-info", startInfo))
            && (s.pairs == RelatedParams(start, startInfo, typ, id) ==> START.AllFit(text + " "))
  {
    hide Scanner.Step, Scanner.Scan, Scanner.AllFit, Reads, PrintParam, Boundary, CutParam, Pieces, Clean, CleanParam;
    hide CleanValue, ClosedValue, Quotable, Closed, RelatedParams, Lacks;
    var params := RelatedParams(start, startInfo, typ, id);
    var rest := Pieces(params) + " ";
    MimeBeginPrints(start, startInfo, typ, id);
    assert text + " " == "multipart/related;" + rest by {
      Assoc("multipart/related;", CutParam("type", typ) + CutParam("start", start) + CutParam("start-info", startInfo),
            PrintParam(Pair("boundary", Boundary(id))));
      Assoc("multipart/related;", CutParam("type", typ) + CutParam("start", start), CutParam("start-info", startInfo));
      Assoc("multipart/related;", CutParam("type", typ), CutParam("start", start));
      Assoc("multipart/related;", Pieces(params), " ");
    }
    var s := Scanner(InKey, false, false, "multipart/related", "", "", []);
    TypeIsRead(s, rest);
    TypeStays(s, rest);
    StartIsClean();
    CleanScan(START, text + " ");
    CleanMeans(START.Scan(text + " "));
    RelatedParamsClean(start, startInfo, typ, id);
    assert [] + params == params;
    if forall p :: p in params ==> CleanParam(p) {
      PiecesBack(s, params);
    }
  }

  lemma TypeIsRead(s: Scanner, rest: string)
    requires s == Scanner(InKey, false, false, "multipart/related", "", "", [])
    ensures START.Scan("multipart/related;" + rest) == s.Scan(rest)
    ensures START.AllFit("multipart/related;" + rest) <==> s.AllFit(rest)
  {
    hide Scanner.Step, Scanner.Scan, Scanner.AllFit, Scanner.Fits;
    var typ, s1 := "multipart/related", START.(typ := "multipart/related");
    assert Lacks(typ, NOT_IN_TYPE) && "" + typ == typ && typ + ";" == "multipart/related;";
    ReadsType(START, typ, true);
    TypeStep(s1, s, true);
    ReadsOne(s1, ';', true);
    ReadsOn(START, typ, s1, ";", s, true);
    ScanJoin(START, typ + ";", rest);
    FitJoin(START, typ + ";", rest);
  }

  lemma RelatedParamsClean(start: Option<string>, startInfo: Option<string>, typ: Option<string>, id: int)
    requires IsInt32(id)
    ensures var params := RelatedParams(start, startInfo, typ, id);
            && 0 < |params| <= 4
            && ((forall p :: p in params ==> CleanParam(p)) <==> CleanValue(typ) && CleanValue(start) && CleanValue(startInfo))
            && ((forall p :: p in params ==> CleanParam(p)) ==> forall p :: p in params ==> Quotable(p))
            && ((forall p :: p in params ==> Closed(p))
                <==> ClosedValue("type", typ) && ClosedValue("start", start) && ClosedValue("start-info", startInfo))
  {
    hide Boundary, CleanValue, CleanParam, ClosedValue, Closed, Quotable, OptionalParam, Lacks;
    BoundaryParam(id);
    OptionalParams("type", typ);
    OptionalParams("start", start);
    OptionalParams("start-info", startInfo);
  }

  lemma BoundaryParam(id: int)
    requires IsInt32(id)
    ensures var p := Pair("boundary", Boundary(id)); Quotable(p) && CleanParam(p) && Closed(p)
  {
    hide Boundary;
    BoundaryText(id);
    BoundaryFits(id);
  }

  lemma OptionalParams(key: string, value: Option<string>)
    requires key in ["type", "start", "start-info"]
    ensures |OptionalParam(key, value)| <= 1
    ensures forall p :: p in OptionalParam(key, value) <==> value.Some? && p == Pair(key, value.value)
    ensures value.None? ==> CleanValue(value) && ClosedValue(key, value)
    ensures value.Some? ==> CleanValue(value) == CleanParam(Pair(key, value.value)) == Quotable(Pair(key, value.value))
    ensures value.Some? ==> ClosedValue(key, value) == Closed(Pair(key, value.value))
  {
  }
}
