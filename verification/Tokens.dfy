/**
 strtok_r, and the lists of pairs that are split with it: header lines and query options.
 */
module Tokens {
  import opened Lists
  import opened Text

  /** strspn: the number of leading characters from `delims`. */
  function Span(s: string, delims: string): (n: nat)
    ensures n <= |s|
    ensures n < |s| ==> s[n] !in delims
  {
    if s == "" || s[0] !in delims then 0 else 1 + Span(s[1..], delims)
  }

  /** strcspn: the number of leading characters that are not from `delims`. */
  function Reach(s: string, delims: string): (n: nat)
    ensures n <= |s|
    ensures n < |s| ==> s[n] in delims
  {
    if s == "" || s[0] in delims then 0 else 1 + Reach(s[1..], delims)
  }

  /** The first token and what is left behind the delimiter that ends it. */
  function Token(s: string, delims: string): (r: (Option<string>, string))
    ensures |r.1| <= |s| && (r.0.Some? ==> 0 < |r.0.value| && |r.0.value| + |r.1| <= |s|)
  {
    var t := s[Span(s, delims)..];
    var n := Reach(t, delims);
    if t == "" then (None, "") else (Some(t[..n]), if n < |t| then t[n + 1..] else "")
  }

  lemma {:induction false} SpanIsDelims(s: string, delims: string)
    ensures forall i :: 0 <= i < Span(s, delims) ==> s[i] in delims
  {
    if s != "" && s[0] in delims {
      SpanIsDelims(s[1..], delims);
    }
  }

  lemma {:induction false} ReachIsFree(s: string, delims: string)
    ensures Free(s[..Reach(s, delims)], delims)
  {
    if s != "" && s[0] !in delims {
      ReachIsFree(s[1..], delims);
      var n := Reach(s[1..], delims);
      assert s[..n + 1] == [s[0]] + s[1..][..n];
    }
  }

  ghost predicate Free(s: string, delims: string) {
    forall i :: 0 <= i < |s| ==> s[i] !in delims
  }

  lemma {:induction false} ReachOf(a: string, rest: string, delims: string)
    requires Free(a, delims) && (rest == "" || rest[0] in delims)
    ensures Reach(a + rest, delims) == |a|
  {
    if a == "" {
      assert a + rest == rest;
    } else {
      assert (a + rest)[1..] == a[1..] + rest;
      assert Free(a[1..], delims);
      ReachOf(a[1..], rest, delims);
    }
  }

  lemma {:induction false} SpanOf(a: string, rest: string, delims: string)
    requires (forall i :: 0 <= i < |a| ==> a[i] in delims) && (rest == "" || rest[0] !in delims)
    ensures Span(a + rest, delims) == |a|
  {
    if a == "" {
      assert a + rest == rest;
    } else {
      assert (a + rest)[1..] == a[1..] + rest;
      SpanOf(a[1..], rest, delims);
    }
  }

  /** A token and the delimiter behind it. */
  lemma TokenOf(gap: string, a: string, end: string, rest: string, delims: string)
    requires (forall i :: 0 <= i < |gap| ==> gap[i] in delims) && a != "" && Free(a, delims)
    requires (|end| == 1 && end[0] in delims) || end == rest == ""
    ensures Token(gap + a + end + rest, delims) == (Some(a), rest)
  {
    hide Span, Reach;
    assert gap + a + end + rest == gap + (a + (end + rest));
    SpanOf(gap, a + (end + rest), delims);
    ReachOf(a, end + rest, delims);
    assert (gap + (a + (end + rest)))[|gap|..] == a + (end + rest);
    assert (a + (end + rest))[..|a|] == a;
    if end != "" {
      assert (a + (end + rest))[|a| + 1..] == rest;
    }
  }

  /** A token has no delimiter in it. */
  lemma TokenIsFree(s: string, delims: string)
    requires Token(s, delims).0.Some?
    ensures Free(Token(s, delims).0.value, delims)
  {
    ReachIsFree(s[Span(s, delims)..], delims);
  }

  /** Every character of a token and of what is left behind it is one of the text. */
  lemma TokenIsPart(s: string, delims: string, c: char)
    requires Token(s, delims).0.Some? && c !in s
    ensures c !in Token(s, delims).0.value && c !in Token(s, delims).1
  {
    hide Span, Reach;
  }

  /** All tokens of a text. */
  function Tokens(s: string, delims: string): seq<string>
    decreases |s|
  {
    var (token, rest) := Token(s, delims);
    if token.None? then [] else [token.value] + Tokens(rest, delims)
  }

  // ---------------------------------------------------------------- in place

  /** The text at an index of the array, which a terminator must end. */
  ghost predicate HasText(a: array<char>, start: nat)
    reads a
  {
    start <= a.Length && |CString(a[start..])| < a.Length - start
  }

  function TextAt(a: array<char>, start: nat): string
    requires start <= a.Length
    reads a
  {
    CString(a[start..])
  }

  /** The text `k` characters further on. */
  lemma {:induction false} TextShift(memory: string, k: nat)
    requires k <= |CString(memory)|
    ensures CString(memory[k..]) == CString(memory)[k..]
  {
    if k > 0 {
      assert memory[1..][k - 1..] == memory[k..];
      TextShift(memory[1..], k - 1);
    } else {
      assert memory[0..] == memory;
    }
  }

  lemma SpanStep(s: string, i: nat, delims: string)
    requires i <= |s|
    ensures Span(s[i..], delims) == if i < |s| && s[i] in delims then 1 + Span(s[i + 1..], delims) else 0
    ensures Reach(s[i..], delims) == if i < |s| && s[i] !in delims then 1 + Reach(s[i + 1..], delims) else 0
  {
    if i < |s| {
      assert s[i..][1..] == s[i + 1..];
    }
  }

  lemma TextChars(memory: string, i: nat)
    requires i <= |CString(memory)| < |memory|
    ensures memory[i] == '\0' <==> i == |CString(memory)|
    ensures i < |CString(memory)| ==> memory[i] == CString(memory)[i]
  {
  }

  /** Moves over leading characters: `skip` says whether over those in `delims` or over the others. */
  method Advance(a: array<char>, start: nat, delims: string, skip: bool) returns (i: nat)
    requires HasText(a, start)
    ensures i == start + if skip then Span(TextAt(a, start), delims) else Reach(TextAt(a, start), delims)
    ensures HasText(a, i) && TextAt(a, i) == TextAt(a, start)[i - start..]
  {
    hide CString, Span, Reach;
    ghost var memory := a[start..];
    ghost var s := CString(memory);
    var n := 0;
    assert s[0..] == s;
    TextChars(memory, 0);
    while a[start + n] != '\0' && (a[start + n] in delims) == skip
      invariant n <= |s|
      invariant skip ==> Span(s, delims) == n + Span(s[n..], delims)
      invariant !skip ==> Reach(s, delims) == n + Reach(s[n..], delims)
      decreases |s| - n
    {
      TextChars(memory, n);
      SpanStep(s, n, delims);
      n := n + 1;
    }
    TextChars(memory, n);
    SpanStep(s, n, delims);
    TextShift(memory, n);
    i := start + n;
    assert memory[n..] == a[i..];
  }

  /** Ends a text after `n` characters; what follows the terminator is the text behind it. */
  method Cut(a: array<char>, start: nat, n: nat)
    requires HasText(a, start) && n < |TextAt(a, start)|
    modifies a
    ensures HasText(a, start) && TextAt(a, start) == old(TextAt(a, start))[..n]
    ensures HasText(a, start + n + 1) && TextAt(a, start + n + 1) == old(TextAt(a, start))[n + 1..]
    ensures forall k :: 0 <= k < a.Length && k != start + n ==> a[k] == old(a[k])
  {
    hide CString;
    ghost var memory := a[start..];
    ghost var s := CString(memory);
    TextShift(memory, n + 1);
    a[start + n] := '\0';
    assert a[start + n + 1..] == memory[n + 1..];
    assert a[start..] == s[..n] + a[start + n..];
    CStringOf(s[..n], a[start + n..]);
  }

  /**
   strtok_r on the text at `start`: the token, terminated in place, and where the next
   call goes on. Nothing outside the text changes.
   */
  method StrTok(a: array<char>, start: nat, delims: string) returns (found: bool, token: nat, save: nat)
    requires HasText(a, start) && '\0' !in delims
    modifies a
    ensures var s := old(TextAt(a, start));
            var (t, rest) := Token(s, delims);
            && found == t.Some? && start <= token <= save <= start + |s| && HasText(a, save) && TextAt(a, save) == rest
            && (found ==> HasText(a, token) && TextAt(a, token) == t.value && token + |t.value| <= save)
            && forall k :: (0 <= k < token || save <= k < a.Length) ==> a[k] == old(a[k])
  {
    hide CString, Terminated, Span, Reach, TextAt;
    token := Advance(a, start, delims, true);
    save := token;
    AtEnd(a, token);
    if a[token] == '\0' {
      return false, token, save;
    }
    save := Advance(a, token, delims, false);
    AtEnd(a, save);
    if a[save] != '\0' {
      Cut(a, token, save - token);
      save := save + 1;
    }
    return true, token, save;
  }

  lemma AtEnd(a: array<char>, start: nat)
    requires HasText(a, start)
    ensures a[start] == '\0' <==> TextAt(a, start) == ""
  {
    TextChars(a[start..], 0);
  }

  /** There is no token exactly if there is nothing but delimiters; then nothing is left. */
  lemma NoTokenMeans(s: string, delims: string)
    ensures Token(s, delims).0.None? <==> forall i :: 0 <= i < |s| ==> s[i] in delims
    ensures Token(s, delims).0.None? ==> Token(s, delims).1 == ""
  {
    hide Reach;
    SpanIsDelims(s, delims);
    if forall i :: 0 <= i < |s| ==> s[i] in delims {
      assert s + "" == s;
      SpanOf(s, "", delims);
    }
  }
}
