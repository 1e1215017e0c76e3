/**
 Content-Type parameters without quotes, as in "charset=utf-8", alone and in lists with
 quoted ones: what content_type_new makes of them.
 */
module BareParams {
  import opened ContentTypes
  import opened Lists

  /* The characters that end a value without quotes, or are not stored. */
  const NOT_IN_BARE := " ;\"\r"

  /** Behind the equals sign. */
  ghost predicate AtValue(s: Scanner) {
    s.mode == InValue && !s.inQuote && !s.begin && s.value == ""
  }

  lemma {:induction false} ReadsMore(s: Scanner, a: string, fit: bool)
    requires s.mode.InValue? && !s.inQuote && s.begin && Lacks(a, NOT_IN_BARE) && (fit ==> |s.value| + |a| <= FIELD_SIZE)
    ensures Reads(s, a, s.(value := s.value + a), fit)
    decreases |a|
  {
    if a == "" {
      assert s.value + a == s.value;
    } else {
      BareChar(a[0]);
      assert Lacks(a[1..], NOT_IN_BARE);
      ReadsMore(s.Step(a[0]), a[1..], fit);
      assert s.value + [a[0]] + a[1..] == s.value + a;
    }
  }

  lemma BareChar(c: char)
    ensures c !in NOT_IN_BARE <==> c != ' ' && c != ';' && c != '"' && c != '\r'
  {
    assert NOT_IN_BARE[0] == ' ' && NOT_IN_BARE[1] == ';' && NOT_IN_BARE[2] == '"' && NOT_IN_BARE[3] == '\r';
  }

  /** A value without quotes. */
  lemma ReadsBare(s: Scanner, a: string, fit: bool)
    requires AtValue(s) && Lacks(a, NOT_IN_BARE) && (fit ==> |a| <= FIELD_SIZE)
    ensures Reads(s, a, s.(value := a, begin := a != ""), fit)
  {
    hide Reads;
    if a == "" {
      ReadsNothing(s, fit);
    } else {
      BareChar(a[0]);
      var s1 := s.(value := [a[0]], begin := true);
      assert s.Step(a[0]) == s1 && (fit ==> s.Fits(a[0]));
      ReadsOne(s, a[0], fit);
      assert Lacks(a[1..], NOT_IN_BARE);
      ReadsMore(s1, a[1..], fit);
      assert [a[0]] + a[1..] == a;
      ReadsOn(s, [a[0]], s1, a[1..], s1.(value := s1.value + a[1..]), fit);
    }
  }

  lemma ReadsNothing(s: Scanner, fit: bool)
    ensures Reads(s, "", s, fit)
  {
  }

  ghost predicate Blanks(gap: string) {
    forall i :: 0 <= i < |gap| ==> gap[i] == ' '
  }

  /** Blanks in front of a value are skipped. */
  lemma {:induction false} ReadsBlanks(s: Scanner, gap: string, fit: bool)
    requires AtValue(s) && Blanks(gap)
    ensures Reads(s, gap, s, fit)
    decreases |gap|
  {
    if gap != "" {
      assert s.Step(gap[0]) == s;
      ReadsBlanks(s, gap[1..], fit);
    }
  }

  /** Up to the equals sign, and the blanks behind it. */
  lemma ReadsName(s: Scanner, key: string, gap: string, fit: bool)
    requires AtKey(s) && Lacks(key, NOT_IN_KEY) && Blanks(gap) && (fit ==> |key| < FIELD_SIZE)
    ensures Reads(s, " " + key + "=" + gap, s.(mode := InValue, key := key), fit)
  {
    hide Scanner.Step, Scanner.Fits, Reads;
    var s1, s2 := s.(key := key), s.(mode := InValue, key := key);
    Steps(s, s1, s2, s2.(inQuote := true, begin := true), s2.(inQuote := true, begin := true), s2.(begin := true), ' ', fit);
    ReadsOne(s, ' ', fit);
    ReadsKey(s, key, fit);
    assert "" + key == key;
    ReadsOn(s, " ", s, key, s1, fit);
    ReadsOne(s1, '=', fit);
    ReadsOn(s, " " + key, s1, "=", s2, fit);
    ReadsBlanks(s2, gap, fit);
    ReadsOn(s, " " + key + "=", s2, gap, s2, fit);
  }

  /** The parameter can stand without quotes in front of `end`. */
  ghost predicate Bare(value: string, end: char) {
    Lacks(value, NOT_IN_BARE) && (value != "" || end == ';')
  }

  lemma EndsBare(s: Scanner, end: char, fit: bool)
    requires s.mode.InValue? && !s.inQuote && (s.begin || end == ';') && (end == ';' || end == ' ')
    requires fit ==> |s.value| < FIELD_SIZE
    ensures Reads(s, [end], Scanner(InKey, false, false, s.typ, "", "", s.pairs + [Pair(s.key, s.value)]), fit)
  {
    ReadsOne(s, end, fit);
  }

  /** One parameter without quotes. */
  lemma BareReads(s: Scanner, p: Pair, gap: string, end: char, fit: bool)
    requires AtKey(s) && Lacks(p.key, NOT_IN_KEY) && Blanks(gap) && (end == ';' || end == ' ') && Bare(p.value, end)
    requires fit ==> SmallParam(p)
    ensures Reads(s, " " + p.key + "=" + gap + p.value + [end], s.(pairs := s.pairs + [p]), fit)
  {
    hide Scanner.Step, Scanner.Fits, Reads;
    var s1 := s.(mode := InValue, key := p.key);
    var s2 := s1.(value := p.value, begin := p.value != "");
    ReadsName(s, p.key, gap, fit);
    ReadsBare(s1, p.value, fit);
    ReadsOn(s, " " + p.key + "=" + gap, s1, p.value, s2, fit);
    EndsBare(s2, end, fit);
    ReadsOn(s, " " + p.key + "=" + gap + p.value, s2, [end], s.(pairs := s.pairs + [p]), fit);
  }

  // ---------------------------------------------------------------- values that need quotes

  /** The first blank or semicolon. */
  lemma FirstEnd(value: string) returns (j: nat)
    requires !Lacks(value, NOT_IN_BARE) && Lacks(value, NOT_IN_VALUE)
    ensures j < |value| && Lacks(value[..j], NOT_IN_BARE) && (value[j] == ' ' || value[j] == ';')
  {
    var k :| 0 <= k < |value| && value[k] in NOT_IN_BARE;
    j := 0;
    while value[j] !in NOT_IN_BARE
      invariant j <= k && Lacks(value[..j], NOT_IN_BARE)
      decreases k - j
    {
      j := j + 1;
    }
    BareChar(value[j]);
    assert NOT_IN_VALUE[0] == '"' && NOT_IN_VALUE[1] == '\r';
  }

  /** Whatever follows, a pair that has been found is not changed. */
  lemma FoundStays(s: Scanner, a: string, s1: Scanner, rest: string, i: nat)
    requires Reads(s, a, s1, false) && i < |s1.pairs|
    ensures var found := s.Scan(a + rest).pairs; i < |found| && found[i] == s1.pairs[i]
  {
    ScanJoin(s, a, rest);
    PairsStay(s1, rest);
  }

  lemma SplitBlanks(value: string) returns (m: nat)
    ensures m <= |value| && Blanks(value[..m]) && (m < |value| ==> value[m] != ' ')
  {
    m := 0;
    while m < |value| && value[m] == ' '
      invariant m <= |value| && Blanks(value[..m])
    {
      m := m + 1;
    }
  }

  /**
   A value with a blank or semicolon, or an empty one that no semicolon ends: whatever follows,
   something else is found, or nothing.
   */
  lemma NotBare(s: Scanner, p: Pair, end: char, rest: string)
    requires AtValue(s) && s.key == p.key && Lacks(p.value, NOT_IN_VALUE) && !Bare(p.value, end)
    requires end == ';' || (end == ' ' && rest == "")
    ensures var found := s.Scan(p.value + [end] + rest).pairs;
            |found| > |s.pairs| ==> found[|s.pairs|] != p
  {
    hide Scanner.Step, Scanner.Scan, Reads;
    var n := |s.pairs|;
    if p.value == "" {
      assert p.value + [end] + rest == " ";
      NothingFound(s, " ");
    } else if p.value[0] == ' ' {
      StartsBlank(s, p, end, rest);
    } else {
      var j := FirstEnd(p.value);
      var v := p.value[..j];
      var s1 := s.(value := v, begin := v != "");
      ReadsBare(s, v, false);
      assert j == 0 ==> p.value[j] == ';';
      EndsBare(s1, p.value[j], false);
      var s2 := Scanner(InKey, false, false, s.typ, "", "", s.pairs + [Pair(p.key, v)]);
      ReadsOn(s, v, s1, [p.value[j]], s2, false);
      assert p.value + [end] + rest == v + [p.value[j]] + (p.value[j + 1..] + [end] + rest);
      FoundStays(s, v + [p.value[j]], s2, p.value[j + 1..] + [end] + rest, n);
    }
  }

  lemma NothingFound(s: Scanner, gap: string)
    requires AtValue(s) && Blanks(gap)
    ensures s.Scan(gap).pairs == s.pairs
  {
    ReadsBlanks(s, gap, false);
  }

  /** What is found does not start with a blank. */
  lemma StartsBlank(s: Scanner, p: Pair, end: char, rest: string)
    requires AtValue(s) && s.key == p.key && Lacks(p.value, NOT_IN_VALUE) && p.value != "" && p.value[0] == ' '
    requires end == ';' || (end == ' ' && rest == "")
    ensures var found := s.Scan(p.value + [end] + rest).pairs;
            |found| > |s.pairs| ==> found[|s.pairs|] != p
  {
    hide Scanner.Step, Scanner.Scan, Reads;
    var m := SplitBlanks(p.value);
    var gap, w := p.value[..m], p.value[m..] + [end] + rest;
    ReadsBlanks(s, gap, false);
    assert p.value + [end] + rest == gap + w;
    ScanOn(s, gap, s, w);
    if w[0] == ';' {
      EndsBare(s, ';', false);
      var s2 := Scanner(InKey, false, false, s.typ, "", "", s.pairs + [Pair(p.key, "")]);
      assert w == [';'] + w[1..];
      FoundStays(s, [';'], s2, w[1..], |s.pairs|);
    } else if m == |p.value| {
      assert w == " ";
      NothingFound(s, " ");
    } else {
      assert w[0] == p.value[m] && p.value[m] !in NOT_IN_VALUE;
      assert NOT_IN_VALUE[0] == '"' && NOT_IN_VALUE[1] == '\r';
      BareChar(w[0]);
      var c := [w[0]];
      var s1 := s.(value := c, begin := true);
      ReadsBare(s, c, false);
      assert w == c + w[1..];
      ScanOn(s, c, s1, w[1..]);
      ValueGrows(s1, w[1..]);
    }
  }

  lemma ScanOn(s: Scanner, a: string, s1: Scanner, b: string)
    requires Reads(s, a, s1, false)
    ensures s.Scan(a + b) == s1.Scan(b)
  {
    ScanJoin(s, a, b);
  }

  /**
   A parameter without quotes, ended by a semicolon or a blank as at the end of the text: it
   comes back if and only if its value has no blank, semicolon, quote or CR, and is not empty
   or is ended by a semicolon. Blanks in front of the value do not matter.
   */
  lemma BareBack(s: Scanner, p: Pair, gap: string, end: char)
    requires AtKey(s) && Clean(s) && Lacks(p.key, NOT_IN_KEY) && Blanks(gap) && (end == ';' || end == ' ')
    ensures s.Scan(" " + p.key + "=" + gap + p.value + [end]) == s.(pairs := s.pairs + [p]) <==> Bare(p.value, end)
  {
    hide Scanner.Step, Scanner.Scan, Reads, Clean, Bare;
    var name, text := " " + p.key + "=" + gap, p.value + [end];
    assert name + p.value + [end] == name + text;
    if Bare(p.value, end) {
      BareReads(s, p, gap, end, false);
      ScanOn(s, name + p.value + [end], s.(pairs := s.pairs + [p]), "");
      assert name + p.value + [end] + "" == name + p.value + [end];
      ScanEnd(s.(pairs := s.pairs + [p]));
    } else {
      var s1 := s.(mode := InValue, key := p.key);
      ReadsName(s, p.key, gap, false);
      ScanOn(s, name, s1, text);
      CleanScan(s, name + text);
      CleanMeans(s.Scan(name + text));
      if Lacks(p.value, NOT_IN_VALUE) {
        NotBare(s1, p, end, "");
        assert text + "" == text;
      } else {
        assert p in s.pairs + [p];
      }
    }
  }

  // ---------------------------------------------------------------- mixed lists

  /** A parameter as it is written: with quotes, or without and with blanks in front of the value. */
  datatype Written = Quoted(p: Pair) | Unquoted(p: Pair, gap: string)

  function PrintWritten(w: Written): string {
    match w
    case Quoted(p) => PrintParam(p)
    case Unquoted(p, gap) => " " + p.key + "=" + gap + p.value
  }

  /** The parameters, a semicolon behind each one but the last. */
  function PrintMixed(list: seq<Written>): string {
    if list == [] then ""
    else PrintWritten(list[0]) + (if |list| == 1 then "" else ";") + PrintMixed(list[1..])
  }

  function Params(list: seq<Written>): (r: seq<Pair>)
    ensures |r| == |list| && forall i :: 0 <= i < |list| ==> r[i] == list[i].p
  {
    seq(|list|, i requires 0 <= i < |list| => list[i].p)
  }

  ghost predicate GapsAreBlank(list: seq<Written>) {
    forall w :: w in list && w.Unquoted? ==> Blanks(w.gap)
  }

  /** Keys and values have none of the characters that are never found; values without quotes need none. */
  ghost predicate Proper(w: Written, last: bool) {
    CleanParam(w.p) && (w.Unquoted? ==> Bare(w.p.value, if last then ' ' else ';'))
  }

  ghost predicate AllProper(list: seq<Written>) {
    forall i :: 0 <= i < |list| ==> Proper(list[i], i == |list| - 1)
  }

  lemma WrittenReads(s: Scanner, w: Written, last: bool, fit: bool)
    requires AtKey(s) && Proper(w, last) && (w.Unquoted? ==> Blanks(w.gap)) && (fit ==> SmallParam(w.p))
    ensures Reads(s, PrintWritten(w) + [if last then ' ' else ';'], s.(pairs := s.pairs + [w.p]), fit)
  {
    hide Reads;
    var end := if last then ' ' else ';';
    match w
    case Quoted(p) => ParamBack(s, p, end, fit);
    case Unquoted(p, gap) => BareReads(s, p, gap, end, fit);
  }

  lemma WrittenFails(s: Scanner, w: Written, last: bool, rest: string)
    requires AtKey(s) && CleanParam(w.p) && !Proper(w, last) && (w.Unquoted? ==> Blanks(w.gap)) && (last ==> rest == "")
    ensures var found := s.Scan(PrintWritten(w) + [if last then ' ' else ';'] + rest).pairs;
            |found| > |s.pairs| ==> found[|s.pairs|] != w.p
  {
    hide Reads, Bare, Scanner.Scan, Scanner.Step;
    var end := if last then ' ' else ';';
    var name, s1 := " " + w.p.key + "=" + w.gap, s.(mode := InValue, key := w.p.key);
    ReadsName(s, w.p.key, w.gap, false);
    assert PrintWritten(w) + [end] + rest == name + (w.p.value + [end] + rest);
    ScanOn(s, name, s1, w.p.value + [end] + rest);
    NotBare(s1, w.p, end, rest);
  }

  /** A list of clean parameters. */
  lemma {:induction false} MixedReads(s: Scanner, list: seq<Written>)
    requires AtKey(s) && GapsAreBlank(list) && forall w :: w in list ==> CleanParam(w.p)
    ensures s.Scan(PrintMixed(list) + " ").pairs == s.pairs + Params(list) <==> AllProper(list)
    ensures AllProper(list) && (forall w :: w in list ==> SmallParam(w.p)) ==> s.AllFit(PrintMixed(list) + " ")
    decreases |list|
  {
    hide Reads, CleanParam, SmallParam, Proper, Scanner.Scan, Scanner.Step, Scanner.AllFit, PrintWritten, Blanks;
    if list == [] {
      BlankAtKey(s, true);
      assert PrintMixed(list) + " " == " ";
      ReadsMeans(s, " ", s, true);
      assert s.pairs + Params(list) == s.pairs;
    } else {
      var w, last, rest := list[0], |list| == 1, if |list| == 1 then "" else PrintMixed(list[1..]) + " ";
      var first := PrintWritten(w) + [if last then ' ' else ';'];
      assert w in list;
      MixedSplits(list);
      assert PrintMixed(list) + " " == first + rest;
      if Proper(w, last) {
        var s1 := s.(pairs := s.pairs + [w.p]);
        var fit := forall v :: v in list ==> SmallParam(v.p);
        WrittenReads(s, w, last, fit);
        ReadsMeans(s, first, s1, fit);
        ScanJoin(s, first, rest);
        FitJoin(s, first, rest);
        if last {
          ScanEnd(s1);
          assert Params(list) == [w.p];
        } else {
          MixedReads(s1, list[1..]);
          assert Params(list) == [w.p] + Params(list[1..]);
          Assoc(s.pairs, [w.p], Params(list[1..]));
        }
        ProperTail(list);
      } else {
        WrittenFails(s, w, last, rest);
        assert Params(list)[0] == w.p;
      }
    }
  }

  lemma ReadsMeans(s: Scanner, a: string, s1: Scanner, fit: bool)
    requires Reads(s, a, s1, fit)
    ensures s.Scan(a) == s1 && (fit ==> s.AllFit(a)) && s1.AllFit("")
  {
  }

  lemma MixedSplits(list: seq<Written>)
    requires list != []
    ensures PrintMixed(list) + " " == PrintWritten(list[0]) + [if |list| == 1 then ' ' else ';']
                                      + if |list| == 1 then "" else PrintMixed(list[1..]) + " "
  {
    hide PrintWritten;
    if |list| == 1 {
      assert PrintMixed(list[1..]) == "";
    }
  }

  lemma ProperTail(list: seq<Written>)
    requires list != [] && Proper(list[0], |list| == 1)
    ensures AllProper(list) <==> AllProper(list[1..])
  {
    hide Proper;
    assert forall i :: 0 < i < |list| ==> list[i] == list[1..][i - 1];
    assert forall i :: 0 <= i < |list| - 1 ==> list[1..][i] == list[i + 1];
  }

  /**
   A Content-Type with quoted and unquoted parameters comes back, in order, if and only if the
   type has no semicolon, blank, tab or CR, the keys have no "=", blank, tab or CR, no value
   has a quote or CR, those without quotes no blank or semicolon either, and the last one, if
   it has no quotes, is not empty.
   */
  lemma MixedBack(typ: string, list: seq<Written>)
    requires GapsAreBlank(list)
    ensures var s := START.Scan(typ + ";" + PrintMixed(list) + " ");
            s.typ == typ && s.pairs == Params(list) <==> Lacks(typ, NOT_IN_TYPE) && AllProper(list)
    ensures Lacks(typ, NOT_IN_TYPE) && AllProper(list) && |typ| < TYPE_SIZE && (forall w :: w in list ==> SmallParam(w.p)) ==>
              START.AllFit(typ + ";" + PrintMixed(list) + " ")
  {
    hide Scanner.Scan, Scanner.Step, Scanner.AllFit, Clean, CleanParam, SmallParam, Reads, PrintMixed, Lacks, Bare;
    var rest := PrintMixed(list) + " ";
    var text := typ + ";" + rest;
    assert typ + ";" + PrintMixed(list) + " " == text;
    StartIsClean();
    CleanScan(START, text);
    CleanMeans(START.Scan(text));
    var end := START.Scan(text);
    if Lacks(typ, NOT_IN_TYPE) {
      var s := Scanner(InKey, false, false, typ, "", "", []);
      TypeReads(typ, s, |typ| < TYPE_SIZE);
      ReadsMeans(START, typ + ";", s, |typ| < TYPE_SIZE);
      ScanJoin(START, typ + ";", rest);
      FitJoin(START, typ + ";", rest);
      TypeStays(s, rest);
      assert [] + Params(list) == Params(list);
      if forall w :: w in list ==> CleanParam(w.p) {
        MixedReads(s, list);
      } else {
        var w :| w in list && !CleanParam(w.p);
        var i :| 0 <= i < |list| && list[i] == w;
        assert Params(list)[i] == w.p && w.p in Params(list);
        assert !Proper(list[i], i == |list| - 1);
      }
    }
  }

  lemma TypeReads(typ: string, s: Scanner, fit: bool)
    requires Lacks(typ, NOT_IN_TYPE) && s == Scanner(InKey, false, false, typ, "", "", []) && (fit ==> |typ| < TYPE_SIZE)
    ensures Reads(START, typ + ";", s, fit)
  {
    hide Scanner.Step, Scanner.Fits, Reads;
    var s1 := START.(typ := typ);
    assert "" + typ == typ;
    ReadsType(START, typ, fit);
    TypeStep(s1, s, fit);
    ReadsOne(s1, ';', fit);
    ReadsOn(START, typ, s1, ";", s, fit);
  }

  // ---------------------------------------------------------------- any parameter

  /** Quotes and carriage returns are not stored. */
  function Kept(raw: string): string {
    if raw == "" then "" else (if raw[0] == '"' || raw[0] == '\r' then "" else [raw[0]]) + Kept(raw[1..])
  }

  /** Whether the text ends inside quotes, when it begins so or not. */
  predicate Within(raw: string, within: bool) {
    if raw == "" then within else Within(raw[1..], within != (raw[0] == '"'))
  }

  /** All blanks and semicolons are inside quotes. */
  predicate Inside(raw: string, within: bool) {
    raw == "" || ((raw[0] == ' ' || raw[0] == ';' ==> within) && Inside(raw[1..], within != (raw[0] == '"')))
  }

  lemma {:induction false} RawReads(s: Scanner, raw: string)
    requires s.mode.InValue? && s.begin && Inside(raw, s.inQuote)
    ensures s.Scan(raw) == s.(value := s.value + Kept(raw), inQuote := Within(raw, s.inQuote))
    decreases |raw|
  {
    if raw == "" {
      assert s.value + Kept(raw) == s.value;
    } else {
      RawReads(s.Step(raw[0]), raw[1..]);
      assert s.value + [raw[0]] + Kept(raw[1..]) == s.value + ([raw[0]] + Kept(raw[1..]));
      assert s.value + "" + Kept(raw[1..]) == s.value + ("" + Kept(raw[1..])) == s.value + Kept(raw[1..]);
    }
  }

  lemma {:induction false} NameReads(s: Scanner, name: string)
    requires s.mode.InKey? && '=' !in name
    ensures s.Scan(name) == s.(key := s.key + WithoutBlanks(name))
    decreases |name|
  {
    if name == "" {
      assert s.key + "" == s.key;
    } else {
      NameReads(s.Step(name[0]), name[1..]);
      assert s.key + [name[0]] + WithoutBlanks(name[1..]) == s.key + ([name[0]] + WithoutBlanks(name[1..]));
    }
  }

  /** The first character of a value begins it. */
  lemma RawStarts(s: Scanner, raw: string)
    requires AtValue(s) && raw != "" && raw[0] != ' ' && Inside(raw, false)
    ensures s.Scan(raw) == s.(value := Kept(raw), inQuote := Within(raw, false), begin := true)
  {
    var s1 := s.Step(raw[0]);
    RawReads(s1, raw[1..]);
    assert "" + Kept(raw) == Kept(raw) && s1.value + Kept(raw[1..]) == Kept(raw);
  }

  /**
   Any parameter: the name is what precedes the equals sign, without blanks, tabs and CRs; the
   value is what follows the blanks behind it, up to the first semicolon or blank outside
   quotes, without quotes and CRs, wherever these are.
   */
  lemma ParamMeans(s: Scanner, name: string, gap: string, raw: string, end: char)
    requires AtKey(s) && '=' !in name && Blanks(gap) && (end == ';' || end == ' ')
    requires raw != "" && raw[0] != ' ' && Inside(raw, false) && !Within(raw, false)
    ensures s.Scan(name + "=" + gap + raw + [end]) == s.(pairs := s.pairs + [Pair(WithoutBlanks(name), Kept(raw))])
  {
    hide Scanner.Step, Scanner.Scan, Kept, Within, Inside, WithoutBlanks;
    var s1 := s.(key := WithoutBlanks(name));
    var s2 := s1.(mode := InValue);
    var s3 := s2.(value := Kept(raw), begin := true);
    NameReads(s, name);
    assert "" + WithoutBlanks(name) == WithoutBlanks(name);
    ReadsIs(s, name, s1);
    ReadsEquals(s1, s2);
    ReadsOn(s, name, s1, "=", s2, false);
    ReadsBlanks(s2, gap, false);
    ReadsOn(s, name + "=", s2, gap, s2, false);
    RawStarts(s2, raw);
    ReadsIs(s2, raw, s3);
    ReadsOn(s, name + "=" + gap, s2, raw, s3, false);
    EndsBare(s3, end, false);
    ReadsOn(s, name + "=" + gap + raw, s3, [end], s.(pairs := s.pairs + [Pair(s1.key, Kept(raw))]), false);
    ReadsMeans(s, name + "=" + gap + raw + [end], s.(pairs := s.pairs + [Pair(s1.key, Kept(raw))]), false);
  }

  lemma ReadsIs(s: Scanner, a: string, s1: Scanner)
    requires s.Scan(a) == s1
    ensures Reads(s, a, s1, false)
  {
  }

  lemma ReadsEquals(s1: Scanner, s2: Scanner)
    requires s1.mode.InKey? && s1.value == "" && s2 == s1.(mode := InValue)
    ensures Reads(s1, "=", s2, false)
  {
    ReadsOne(s1, '=', false);
  }
}
