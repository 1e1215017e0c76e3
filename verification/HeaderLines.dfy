/**
 _mime_process_header: splits the header text of a part into its pairs, with the
 two fixed character arrays that it reuses from line to line.
 */
module HeaderLines {
  import opened Lists
  import opened Text

  const FIELD_SIZE := 1054

  /** The local variables: the two arrays, the write index, and where in a line the scan is. */
  datatype Locals = Locals(key: string, value: string, c: nat, inKey: bool, begin: bool) {
    ghost predicate Valid() {
      |key| == FIELD_SIZE && |value| == FIELD_SIZE
    }

    /** Stores an ordinary character; only called when `c` is inside the arrays or nothing is stored. */
    function Store(ch: char): (r: Locals)
      requires Valid() && (Stores(ch) ==> c < FIELD_SIZE)
      ensures r.Valid()
    {
      if inKey then this.(key := key[c := ch], c := c + 1)
      else if begin || ch != ' ' then this.(value := value[c := ch], c := c + 1, begin := true)
      else this
    }

    predicate Stores(ch: char) {
      inKey || begin || ch != ' '
    }

    function EndKey(): (r: Locals)
      requires Valid() && c < FIELD_SIZE
      ensures r.Valid()
    {
      Locals(key[c := '\0'], value, 0, false, false)
    }

    function EndLine(): (r: Locals)
      requires Valid() && c < FIELD_SIZE
      ensures r.Valid()
    {
      Locals(key, value[c := '\0'], 0, true, begin)
    }

    function Current(): Pair {
      Pair(CString(key), CString(value))
    }
  }

  predicate LineEnd(text: string) {
    |text| >= 2 && text[0] == '\r' && text[1] == '\n'
  }

  /** The pairs in the rest of the text; None if a field outgrows its array. */
  function ParseLines(v: Locals, text: string): Option<seq<Pair>>
    requires v.Valid()
    decreases |text|
  {
    if text == "" then Some([])
    else if !LineEnd(text) && text[0] != ':' then
      if v.Stores(text[0]) && v.c >= FIELD_SIZE then None else ParseLines(v.Store(text[0]), text[1..])
    else if v.c >= FIELD_SIZE then None
    else if LineEnd(text) then
      match ParseLines(v.EndLine(), text[2..])
      case None => None
      case Some(pairs) => Some([v.EndLine().Current()] + pairs)
    else ParseLines(v.EndKey(), text[1..])
  }

  /** ParseLines, unfolded by one round. */
  lemma ParseLinesUnfolds(v: Locals, text: string)
    requires v.Valid() && text != "" && ParseLines(v, text).Some?
    ensures !(LineEnd(text) || text[0] == ':') ==>
              && (v.Stores(text[0]) ==> v.c < FIELD_SIZE)
              && ParseLines(v, text) == ParseLines(v.Store(text[0]), text[1..])
    ensures LineEnd(text) || text[0] == ':' ==> v.c < FIELD_SIZE
    ensures !LineEnd(text) && text[0] == ':' ==> ParseLines(v, text) == ParseLines(v.EndKey(), text[1..])
    ensures LineEnd(text) ==>
              && ParseLines(v.EndLine(), text[2..]).Some?
              && ParseLines(v, text).value == [v.EndLine().Current()] + ParseLines(v.EndLine(), text[2..]).value
  {
  }

  method StoreChar(key: array<char>, value: array<char>, c: nat, inKey: bool, begin: bool, ch: char)
    returns (c': nat, begin': bool)
    requires key.Length == FIELD_SIZE && value.Length == FIELD_SIZE && key != value
    requires inKey || begin || ch != ' ' ==> c < FIELD_SIZE
    modifies key, value
    ensures Locals(key[..], value[..], c', inKey, begin')
         == Locals(old(key[..]), old(value[..]), c, inKey, begin).Store(ch)
  {
    c', begin' := c, begin;
    if inKey {
      key[c], c' := ch, c + 1;
    } else {
      if ch != ' ' {
        begin' := true;
      }
      if begin' {
        value[c], c' := ch, c + 1;
      }
    }
  }

  method EndLine(key: array<char>, value: array<char>, c: nat, list: LinkedList<Pair>)
    requires value.Length == FIELD_SIZE && key != value && c < FIELD_SIZE && list.Valid()
    requires value !in list.repr && key !in list.repr
    modifies value, list.repr
    ensures value[..] == old(value[..])[c := '\0'] && list.Valid()
    ensures list.Values() == old(list.Values()) + [Pair(CString(key[..]), CString(value[..]))]
    ensures fresh(list.repr - old(list.repr))
  {
    value[c] := '\0';
    list.Append(Pair(CString(key[..]), CString(value[..])));
  }

  method ProcessHeader(buffer: array<char>, key: array<char>, value: array<char>) returns (list: LinkedList<Pair>)
    requires key.Length == FIELD_SIZE && value.Length == FIELD_SIZE && key != value
    requires buffer != key && buffer != value
    requires |CString(buffer[..])| < buffer.Length
    requires ParseLines(Locals(key[..][0 := '\0'], value[..][0 := '\0'], 0, true, false), CString(buffer[..])).Some?
    modifies key, value
    ensures fresh(list) && fresh(list.repr) && list.Valid()
    ensures Some(list.Values()) == ParseLines(Locals(old(key[..])[0 := '\0'], old(value[..])[0 := '\0'], 0, true, false),
                                              old(CString(buffer[..])))
  {
    hide CString, Terminated, ParseLines, LinkedList.Valid, LinkedList.Values, Locals.Store;
    ghost var text := CString(buffer[..]);
    list := new LinkedList();
    key[0], value[0] := '\0', '\0';
    var i: nat, c: nat, inKey, begin := 0, 0, true, false;
    ghost var rest := text;
    ghost var v := Locals(key[..], value[..], c, inKey, begin);
    assert key[..] == old(key[..])[0 := '\0'] && value[..] == old(value[..])[0 := '\0'];
    ghost var goal := ParseLines(v, text);
    while buffer[i] != '\0'
      invariant i <= |text| && list.Valid() && fresh(list.repr)
      invariant rest == text[i..] && v == Locals(key[..], value[..], c, inKey, begin)
      invariant text == CString(buffer[..])
      invariant ParseLines(v, rest).Some? && goal.value == list.Values() + ParseLines(v, rest).value
      decreases |text| - i
    {
      assert i < |text| && rest[0] == buffer[i];
      assert LineEnd(rest) <==> buffer[i] == '\r' && buffer[i + 1] == '\n';
      ParseLinesUnfolds(v, rest);
      if buffer[i] == '\r' && buffer[i + 1] == '\n' {
        Assoc(list.Values(), [v.EndLine().Current()], ParseLines(v.EndLine(), rest[2..]).value);
        EndLine(key, value, c, list);
        inKey, c, i := true, 0, i + 2;
        v, rest := v.EndLine(), rest[2..];
      } else {
        if buffer[i] == ':' {
          key[c] := '\0';
          c, begin, inKey := 0, false, false;
          v := v.EndKey();
        } else {
          v := v.Store(buffer[i]);
          c, begin := StoreChar(key, value, c, inKey, begin, buffer[i]);
        }
        i, rest := i + 1, rest[1..];
      }
    }
    assert rest == "";
    ParseNothing(v);
    assert list.Values() + [] == list.Values();
  }

  lemma ParseNothing(v: Locals)
    requires v.Valid()
    ensures ParseLines(v, "") == Some([])
  {
  }

  ghost predicate HasCrLf(s: string) {
    exists i :: 0 <= i < |s| - 1 && s[i] == '\r' && s[i + 1] == '\n'
  }

  /** A pair of C strings that the splitter's arrays can hold. */
  ghost predicate Fits(p: Pair) {
    |p.key| < FIELD_SIZE && |p.value| < FIELD_SIZE && '\0' !in p.key && '\0' !in p.value
  }

  ghost predicate OneLine(p: Pair) {
    !HasCrLf(p.key) && !HasCrLf(p.value)
  }

  /** Nothing in the pair that the splitter drops or gives a meaning. */
  ghost predicate Splittable(p: Pair) {
    OneLine(p) && ':' !in p.key && ':' !in p.value && (p.value == "" || p.value[0] != ' ')
  }

  /** The header lines as httpc_mime_next prints them. */
  function PrintLines(pairs: seq<Pair>): string {
    if pairs == [] then "" else pairs[0].key + ": " + pairs[0].value + "\r\n" + PrintLines(pairs[1..])
  }

  /** Printing goes line by line. */
  lemma {:induction false} PrintTo(pairs: seq<Pair>, i: nat)
    requires i <= |pairs|
    ensures PrintLines(pairs[..0]) == ""
    ensures i < |pairs| ==> PrintLines(pairs[..i + 1]) == PrintLines(pairs[..i]) + (pairs[i].key + ": " + pairs[i].value + "\r\n")
    decreases i
  {
    if 0 < i < |pairs| {
      PrintTo(pairs[1..], i - 1);
      assert pairs[..i][1..] == pairs[1..][..i - 1] && pairs[..i + 1][1..] == pairs[1..][..i];
    } else if i < |pairs| {
      assert pairs[..1][1..] == [];
    }
  }

  /** `a` written into the array from index `c`. */
  function Write(memory: string, c: nat, a: string): string
    requires c + |a| <= |memory|
  {
    memory[..c] + a + memory[c + |a|..]
  }

  /** Text that no line end begins in, in front of something else. */
  ghost predicate Inside(a: string, rest: string) {
    !HasCrLf(a) && (rest == "" || rest[0] != '\n')
  }

  lemma CrLfInTail(a: string)
    requires a != "" && HasCrLf(a[1..])
    ensures HasCrLf(a)
  {
    var i :| 0 <= i < |a[1..]| - 1 && a[1..][i] == '\r' && a[1..][i + 1] == '\n';
    assert a[i + 1] == '\r' && a[i + 1 + 1] == '\n';
  }

  lemma InsideTail(a: string, rest: string)
    requires a != "" && Inside(a, rest)
    ensures Inside(a[1..], rest) && !LineEnd(a + rest) && (a + rest)[0] == a[0] && (a + rest)[1..] == a[1..] + rest
  {
    if HasCrLf(a[1..]) {
      CrLfInTail(a);
    }
  }

  lemma {:induction false} KeyRun(v: Locals, a: string, rest: string)
    requires v.Valid() && v.inKey && ':' !in a && Inside(a, rest) && v.c + |a| < FIELD_SIZE
    ensures ParseLines(v, a + rest) == ParseLines(v.(key := Write(v.key, v.c, a), c := v.c + |a|), rest)
    decreases |a|
  {
    hide HasCrLf, LineEnd;
    if a == "" {
      assert a + rest == rest && Write(v.key, v.c, a) == v.key;
    } else {
      InsideTail(a, rest);
      KeyRun(v.Store(a[0]), a[1..], rest);
      assert Write(v.key[v.c := a[0]], v.c + 1, a[1..]) == Write(v.key, v.c, a);
    }
  }

  lemma {:induction false} ValueRun(v: Locals, a: string, rest: string)
    requires v.Valid() && !v.inKey && ':' !in a && Inside(a, rest) && v.c + |a| < FIELD_SIZE
    requires v.begin || (a != "" ==> a[0] != ' ')
    ensures ParseLines(v, a + rest)
         == ParseLines(v.(value := Write(v.value, v.c, a), c := v.c + |a|, begin := v.begin || a != ""), rest)
    decreases |a|
  {
    hide HasCrLf, LineEnd;
    if a == "" {
      assert a + rest == rest && Write(v.value, v.c, a) == v.value;
    } else {
      InsideTail(a, rest);
      ValueRun(v.Store(a[0]), a[1..], rest);
      assert Write(v.value[v.c := a[0]], v.c + 1, a[1..]) == Write(v.value, v.c, a);
    }
  }

  /** A terminated array holds the string written to it. */
  lemma WrittenString(memory: string, a: string)
    requires |a| < |memory| && '\0' !in a
    ensures CString(Write(memory, 0, a)[|a| := '\0']) == a
  {
    var m := Write(memory, 0, a)[|a| := '\0'];
    assert m == a + m[|a|..];
    CStringOf(a, m[|a|..]);
  }

  lemma ParseOne(v: Locals, text: string)
    requires v.Valid() && v.c < FIELD_SIZE && text != ""
    ensures LineEnd(text) ==>
              ParseLines(v, text) == match ParseLines(v.EndLine(), text[2..])
                                     case None => None
                                     case Some(pairs) => Some([v.EndLine().Current()] + pairs)
    ensures !LineEnd(text) && text[0] == ':' ==> ParseLines(v, text) == ParseLines(v.EndKey(), text[1..])
  {
  }

  /** One printed line. */
  lemma LineComesBack(v: Locals, p: Pair, rest: string) returns (v': Locals)
    requires v.Valid() && v.inKey && v.c == 0 && Fits(p) && Splittable(p)
    ensures v'.Valid() && v'.inKey && v'.c == 0
    ensures ParseLines(v, p.key + ": " + p.value + "\r\n" + rest)
         == match ParseLines(v', rest)
            case None => None
            case Some(pairs) => Some([p] + pairs)
  {
    hide HasCrLf, ParseLines;
    var v1 := v.(key := Write(v.key, 0, p.key), c := |p.key|);
    var v2 := v1.EndKey();
    var v3 := v2.(value := Write(v2.value, 0, p.value), c := |p.value|, begin := p.value != "");
    v' := v3.EndLine();
    WrittenString(v.key, p.key);
    WrittenString(v2.value, p.value);
    assert v'.Current() == p;
    LineKey(v, p.key, p.value + ("\r\n" + rest));
    ValueRun(v2, p.value, "\r\n" + rest);
    ParseOne(v3, "\r\n" + rest);
    assert ("\r\n" + rest)[2..] == rest;
    assert p.key + ": " + p.value + "\r\n" + rest == p.key + ": " + (p.value + ("\r\n" + rest));
  }

  /** The key of a printed line, the colon and the blank behind it. */
  lemma LineKey(v: Locals, key: string, rest: string)
    requires v.Valid() && v.inKey && v.c == 0 && |key| < FIELD_SIZE && ':' !in key && !HasCrLf(key)
    ensures ParseLines(v, key + ": " + rest)
         == ParseLines(v.(key := Write(v.key, 0, key), c := |key|).EndKey(), rest)
  {
    hide HasCrLf;
    var colon, blank := ": " + rest, " " + rest;
    assert key + ": " + rest == key + colon;
    KeyRun(v, key, colon);
    assert colon[1..] == blank && blank[1..] == rest;
    var v2 := v.(key := Write(v.key, 0, key), c := |key|).EndKey();
    assert ParseLines(v2, blank) == ParseLines(v2.Store(' '), blank[1..]);
  }

  /** Splittable pairs come back, whatever the arrays held before. */
  lemma {:induction false} SplittableComeBack(v: Locals, pairs: seq<Pair>)
    requires v.Valid() && v.inKey && v.c == 0
    requires forall p :: p in pairs ==> Fits(p) && Splittable(p)
    ensures ParseLines(v, PrintLines(pairs)) == Some(pairs)
    decreases |pairs|
  {
    if pairs != [] {
      hide ParseLines, Fits, Splittable;
      assert pairs[0] in pairs;
      var v' := LineComesBack(v, pairs[0], PrintLines(pairs[1..]));
      SplittableComeBack(v', pairs[1..]);
      assert [pairs[0]] + pairs[1..] == pairs;
    }
  }

  // ---------------------------------------------------------------- and others do not

  /** The line ends in a text, each of which gives a pair. */
  function LineEnds(text: string): nat
    decreases |text|
  {
    if text == "" then 0 else if LineEnd(text) then 1 + LineEnds(text[2..]) else LineEnds(text[1..])
  }

  lemma {:induction false} OnePairEach(v: Locals, text: string)
    requires v.Valid() && ParseLines(v, text).Some?
    ensures |ParseLines(v, text).value| == LineEnds(text)
    decreases |text|
  {
    hide ParseLines;
    if text == "" {
      ParseNothing(v);
    } else {
      ParseLinesUnfolds(v, text);
      if LineEnd(text) {
        OnePairEach(v.EndLine(), text[2..]);
      } else {
        OnePairEach(if text[0] == ':' then v.EndKey() else v.Store(text[0]), text[1..]);
      }
    }
  }

  lemma {:induction false} EndsOfLine(a: string, rest: string)
    ensures LineEnds(a + ("\r\n" + rest)) >= 1 + LineEnds(rest)
    ensures HasCrLf(a) ==> LineEnds(a + ("\r\n" + rest)) > 1 + LineEnds(rest)
    decreases |a|
  {
    var text := a + ("\r\n" + rest);
    if a == "" {
      assert text == "\r\n" + rest && text[2..] == rest;
    } else if LineEnd(text) {
      assert |a| > 1;
      assert text[2..] == a[2..] + ("\r\n" + rest);
      EndsOfLine(a[2..], rest);
    } else {
      assert text[1..] == a[1..] + ("\r\n" + rest);
      EndsOfLine(a[1..], rest);
      if HasCrLf(a) {
        var i :| 0 <= i < |a| - 1 && a[i] == '\r' && a[i + 1] == '\n';
        assert i > 0 && a[1..][i - 1] == '\r' && a[1..][i - 1 + 1] == '\n';
      }
    }
  }

  lemma CrLfInLine(p: Pair)
    ensures HasCrLf(p.key + ": " + p.value) <==> !OneLine(p)
  {
    var line, k := p.key + ": " + p.value, |p.key| + 2;
    if HasCrLf(line) {
      var i :| 0 <= i < |line| - 1 && line[i] == '\r' && line[i + 1] == '\n';
      if i < |p.key| {
        assert p.key[i] == '\r' && p.key[i + 1] == '\n';
      } else {
        assert p.value[i - k] == '\r' && p.value[i - k + 1] == '\n';
      }
    }
    if HasCrLf(p.key) {
      var i :| 0 <= i < |p.key| - 1 && p.key[i] == '\r' && p.key[i + 1] == '\n';
      assert line[i] == '\r' && line[i + 1] == '\n';
    }
    if HasCrLf(p.value) {
      var i :| 0 <= i < |p.value| - 1 && p.value[i] == '\r' && p.value[i + 1] == '\n';
      assert line[k + i] == '\r' && line[k + i + 1] == '\n';
    }
  }

  lemma {:induction false} EndsOfLines(pairs: seq<Pair>)
    ensures LineEnds(PrintLines(pairs)) >= |pairs|
    ensures (exists p :: p in pairs && !OneLine(p)) ==> LineEnds(PrintLines(pairs)) > |pairs|
  {
    hide LineEnds, OneLine, HasCrLf;
    if pairs != [] {
      var line, rest := pairs[0].key + ": " + pairs[0].value, PrintLines(pairs[1..]);
      assert PrintLines(pairs) == line + ("\r\n" + rest);
      EndsOfLines(pairs[1..]);
      EndsOfLine(line, rest);
      CrLfInLine(pairs[0]);
      assert pairs == [pairs[0]] + pairs[1..];
    }
  }

  /** In a value: the key and the value so far have no colon, and the value no leading blank. */
  ghost predicate CleanSoFar(v: Locals) {
    && v.Valid() && !v.inKey && v.c <= FIELD_SIZE && (v.begin ==> v.c > 0)
    && ':' !in CString(v.key) && ':' !in v.value[..v.c] && (v.c > 0 ==> v.value[0] != ' ')
  }

  ghost predicate CleanPair(p: Pair) {
    ':' !in p.key && ':' !in p.value && (p.value == "" || p.value[0] != ' ')
  }

  lemma {:induction false} TerminatorCuts(memory: string, c: nat)
    requires c < |memory|
    ensures CString(memory[c := '\0']) <= memory[..c] && CString(memory[c := '\0']) <= CString(memory)
    decreases c
  {
    var m := memory[c := '\0'];
    if c > 0 && memory[0] != '\0' {
      assert m[1..] == memory[1..][c - 1 := '\0'];
      TerminatorCuts(memory[1..], c - 1);
      assert memory[..c] == [memory[0]] + memory[1..][..c - 1];
    }
  }

  lemma PrefixLacks(a: string, b: string, c: char)
    requires a <= b && c !in b
    ensures c !in a && (a != "" ==> a[0] == b[0])
  {
  }

  /** A line is split into a pair without colons and leading blanks. */
  lemma {:induction false} LineIsClean(v: Locals, a: string, rest: string) returns (v': Locals)
    requires CleanSoFar(v) && !HasCrLf(a) && ParseLines(v, a + ("\r\n" + rest)).Some?
    ensures v'.Valid() && v'.inKey && v'.c == 0 && CleanPair(v'.Current()) && ParseLines(v', rest).Some?
    ensures ParseLines(v, a + ("\r\n" + rest)).value == [v'.Current()] + ParseLines(v', rest).value
    decreases |a|
  {
    hide ParseLines, HasCrLf;
    var text := a + ("\r\n" + rest);
    ParseLinesUnfolds(v, text);
    if a == "" {
      assert text == "\r\n" + rest && text[2..] == rest;
      v' := v.EndLine();
      EndIsClean(v);
    } else {
      InsideTail(a, "\r\n" + rest);
      var next := if a[0] == ':' then v.EndKey() else v.Store(a[0]);
      if a[0] == ':' {
        TerminatorCuts(v.key, v.c);
        PrefixLacks(CString(v.key[v.c := '\0']), CString(v.key), ':');
      } else {
        StoreIsClean(v, a[0]);
      }
      v' := LineIsClean(next, a[1..], rest);
    }
  }

  lemma EndIsClean(v: Locals)
    requires CleanSoFar(v) && v.c < FIELD_SIZE
    ensures v.EndLine().Valid() && CleanPair(v.EndLine().Current())
  {
    TerminatorCuts(v.value, v.c);
    PrefixLacks(CString(v.value[v.c := '\0']), v.value[..v.c], ':');
  }

  lemma StoreIsClean(v: Locals, ch: char)
    requires CleanSoFar(v) && ch != ':' && (v.Stores(ch) ==> v.c < FIELD_SIZE)
    ensures CleanSoFar(v.Store(ch))
  {
    hide CString;
    if v.Stores(ch) {
      assert v.value[v.c := ch][..v.c + 1] == v.value[..v.c] + [ch];
    }
  }

  /** The same from the start of a line that has a colon. */
  lemma {:induction false} WholeLineIsClean(v: Locals, a: string, rest: string) returns (v': Locals)
    requires v.Valid() && v.inKey && v.c <= FIELD_SIZE && ':' !in v.key[..v.c] && ':' in a
    requires !HasCrLf(a) && ParseLines(v, a + ("\r\n" + rest)).Some?
    ensures v'.Valid() && v'.inKey && v'.c == 0 && CleanPair(v'.Current()) && ParseLines(v', rest).Some?
    ensures ParseLines(v, a + ("\r\n" + rest)).value == [v'.Current()] + ParseLines(v', rest).value
    decreases |a|
  {
    hide ParseLines, HasCrLf, CString;
    ParseLinesUnfolds(v, a + ("\r\n" + rest));
    InsideTail(a, "\r\n" + rest);
    if a[0] == ':' {
      TerminatorCuts(v.key, v.c);
      PrefixLacks(CString(v.key[v.c := '\0']), v.key[..v.c], ':');
      v' := LineIsClean(v.EndKey(), a[1..], rest);
    } else {
      assert v.key[v.c := a[0]][..v.c + 1] == v.key[..v.c] + [a[0]];
      v' := WholeLineIsClean(v.Store(a[0]), a[1..], rest);
    }
  }

  lemma {:induction false} OnlyCleanComeBack(v: Locals, pairs: seq<Pair>)
    requires v.Valid() && v.inKey && v.c == 0
    requires ParseLines(v, PrintLines(pairs)) == Some(pairs) && forall p :: p in pairs ==> OneLine(p)
    ensures forall p :: p in pairs ==> CleanPair(p)
    decreases |pairs|
  {
    hide ParseLines, HasCrLf;
    if pairs != [] {
      var p, line, rest := pairs[0], pairs[0].key + ": " + pairs[0].value, PrintLines(pairs[1..]);
      assert p in pairs;
      assert PrintLines(pairs) == line + ("\r\n" + rest);
      CrLfInLine(p);
      assert line[|p.key|] == ':';
      var v' := WholeLineIsClean(v, line, rest);
      assert ([v'.Current()] + ParseLines(v', rest).value)[1..] == ParseLines(v', rest).value;
      OnlyCleanComeBack(v', pairs[1..]);
      assert pairs == [p] + pairs[1..];
    }
  }

  /**
   Printed lines come back pair for pair, whatever the arrays held before, if and only if no
   key and no value has a colon or a CRLF, and no value starts with a blank.
   */
  lemma LinesComeBack(v: Locals, pairs: seq<Pair>)
    requires v.Valid() && v.inKey && v.c == 0
    requires forall p :: p in pairs ==> Fits(p)
    ensures ParseLines(v, PrintLines(pairs)) == Some(pairs) <==> forall p :: p in pairs ==> Splittable(p)
  {
    hide ParseLines, OneLine, PrintLines;
    if forall p :: p in pairs ==> Splittable(p) {
      SplittableComeBack(v, pairs);
    } else if ParseLines(v, PrintLines(pairs)) == Some(pairs) {
      OnePairEach(v, PrintLines(pairs));
      EndsOfLines(pairs);
      OnlyCleanComeBack(v, pairs);
      assert false;
    }
  }

  /** A colon in a value: the value before it is lost, and the key may be cut to its length. */
  lemma ColonSplits(v: Locals, key: string, a: string, b: string)
    requires v.Valid() && v.inKey && v.c == 0 && Fits(Pair(key, a + ":" + b))
    requires Splittable(Pair(key, a)) && Splittable(Pair(key, b))
    ensures ParseLines(v, PrintLines([Pair(key, a + ":" + b)]))
         == Some([Pair(if |a| < |key| then key[..|a|] else key, b)])
  {
    hide HasCrLf, ParseLines;
    var end := "\r\n";
    var text := key + ": " + (a + (":" + (b + end)));
    assert [Pair(key, a + ":" + b)][1..] == [] && PrintLines([]) == "";
    assert PrintLines([Pair(key, a + ":" + b)]) == text;
    LineKey(v, key, a + (":" + (b + end)));
    var v1 := v.(key := Write(v.key, 0, key), c := |key|).EndKey();
    ValueRun(v1, a, ":" + (b + end));
    var v2 := v1.(value := Write(v1.value, 0, a), c := |a|, begin := a != "");
    ParseOne(v2, ":" + (b + end));
    assert (":" + (b + end))[1..] == b + end;
    var v3 := v2.EndKey();
    ValueRun(v3, b, end);
    var v4 := v3.(value := Write(v3.value, 0, b), c := |b|, begin := b != "");
    ParseOne(v4, end);
    assert end[2..] == "";
    ParseNothing(v4.EndLine());
    WrittenString(v3.value, b);
    CutKey(v.key, key, |a|);
    assert [v4.EndLine().Current()] + [] == [v4.EndLine().Current()];
  }

  lemma CutKey(memory: string, key: string, n: nat)
    requires |key| < |memory| && n < |memory| && '\0' !in key
    ensures CString(Write(memory, 0, key)[|key| := '\0'][n := '\0']) == if n < |key| then key[..n] else key
  {
    var m := Write(memory, 0, key)[|key| := '\0'][n := '\0'];
    if n < |key| {
      assert m == key[..n] + m[n..];
      CStringOf(key[..n], m[n..]);
    } else {
      assert m == key + m[|key|..];
      CStringOf(key, m[|key|..]);
    }
  }

  lemma {:induction false} NoNul(pairs: seq<Pair>)
    requires forall p :: p in pairs ==> Fits(p)
    ensures '\0' !in PrintLines(pairs)
  {
    if pairs != [] {
      assert pairs[0] in pairs;
      NoNul(pairs[1..]);
    }
  }

  // ---------------------------------------------------------------- lines as others write them

  ghost predicate AllBlank(gap: string) {
    forall i :: 0 <= i < |gap| ==> gap[i] == ' '
  }

  /** Blanks in front of a value are skipped. */
  lemma {:induction false} BlankRun(v: Locals, gap: string, rest: string)
    requires v.Valid() && !v.inKey && !v.begin && AllBlank(gap)
    ensures ParseLines(v, gap + rest) == ParseLines(v, rest)
    decreases |gap|
  {
    if gap == "" {
      assert gap + rest == rest;
    } else {
      assert (gap + rest)[1..] == gap[1..] + rest && (gap + rest)[0] == ' ';
      BlankRun(v, gap[1..], rest);
    }
  }

  lemma ColonEndsKey(v: Locals, key: string, rest: string)
    requires v.Valid() && v.inKey && v.c == 0 && |key| < FIELD_SIZE && ':' !in key && !HasCrLf(key)
    ensures ParseLines(v, key + (":" + rest))
         == ParseLines(v.(key := Write(v.key, 0, key), c := |key|).EndKey(), rest)
  {
    hide HasCrLf;
    KeyRun(v, key, ":" + rest);
    assert (":" + rest)[1..] == rest;
  }

  /** Any header line: a colon, with blanks behind it or not, and a value that does not start with one. */
  lemma LineMeans(v: Locals, p: Pair, gap: string, rest: string) returns (v': Locals)
    requires v.Valid() && v.inKey && v.c == 0 && Fits(p) && Splittable(p) && AllBlank(gap)
    ensures v'.Valid() && v'.inKey && v'.c == 0
    ensures ParseLines(v, p.key + (":" + (gap + (p.value + ("\r\n" + rest)))))
         == match ParseLines(v', rest)
            case None => None
            case Some(pairs) => Some([p] + pairs)
  {
    hide HasCrLf, ParseLines;
    var v2 := v.(key := Write(v.key, 0, p.key), c := |p.key|).EndKey();
    var v3 := v2.(value := Write(v2.value, 0, p.value), c := |p.value|, begin := p.value != "");
    v' := v3.EndLine();
    WrittenString(v.key, p.key);
    WrittenString(v2.value, p.value);
    assert v'.Current() == p;
    ColonEndsKey(v, p.key, gap + (p.value + ("\r\n" + rest)));
    BlankRun(v2, gap, p.value + ("\r\n" + rest));
    ValueRun(v2, p.value, "\r\n" + rest);
    LineEndStep(v3, rest);
  }

  lemma LineEndStep(v: Locals, rest: string)
    requires v.Valid() && v.c < FIELD_SIZE
    ensures ParseLines(v, "\r\n" + rest)
         == match ParseLines(v.EndLine(), rest)
            case None => None
            case Some(pairs) => Some([v.EndLine().Current()] + pairs)
  {
    var text := "\r\n" + rest;
    assert text[0] == '\r' && text[1] == '\n' && text[2..] == rest;
  }

  /** A line without a colon gives a pair of what the two arrays hold: the key goes on behind the line, the value is cut to its length. */
  lemma NoColon(v: Locals, line: string, rest: string)
    requires v.Valid() && v.inKey && v.c == 0 && |line| < FIELD_SIZE && ':' !in line && !HasCrLf(line)
    ensures var v' := v.(key := Write(v.key, 0, line), c := |line|).EndLine();
            && v'.Current() == Pair(CString(line + v.key[|line|..]), CString(v.value[..|line|]))
            && ParseLines(v, line + ("\r\n" + rest))
               == match ParseLines(v', rest)
                  case None => None
                  case Some(pairs) => Some([v'.Current()] + pairs)
  {
    hide HasCrLf, ParseLines;
    KeyRun(v, line, "\r\n" + rest);
    var v1 := v.(key := Write(v.key, 0, line), c := |line|);
    LineEndStep(v1, rest);
    assert Write(v.key, 0, line) == line + v.key[|line|..];
    CutString(v.value, |line|);
  }

  lemma CutString(memory: string, c: nat)
    requires c < |memory|
    ensures CString(memory[c := '\0']) == CString(memory[..c])
  {
    assert memory[c := '\0'] == memory[..c] + ("\0" + memory[c + 1..]);
    CStringStop(memory[..c], "\0" + memory[c + 1..]);
  }
}
