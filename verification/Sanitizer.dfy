/** Cleaning a program's output: escape sequences and control characters go, the rest is cut
    to a byte limit between characters. */
module Sanitizer {
  import Utf8

  const ESC: char := '\U{1B}'

  /** C0 controls, delete, and C1 controls. */
  predicate IsControl(c: char) {
    c < ' ' || '\U{7F}' <= c <= '\U{9F}'
  }

  /** What ends an escape sequence that began with ESC and '['. */
  predicate EndsSequence(c: char) {
    'A' <= c <= 'Z' || 'a' <= c <= 'z' || c == '~'
  }

  predicate IsKept(c: char) {
    c == '\n' || c == '\t' || !IsControl(c)
  }

  /** What follows the rest of an escape sequence. */
  function AfterSequence(s: string): (r: string)
    ensures |r| <= |s| && r == s[|s| - |r|..]
  {
    if s == [] then [] else if EndsSequence(s[0]) then s[1..] else AfterSequence(s[1..])
  }

  /** The text without escape sequences and control characters. */
  function Filter(raw: string): string
    decreases |raw|
  {
    if raw == [] then []
    else if raw[0] == ESC then
      if |raw| > 1 && raw[1] == '[' then Filter(AfterSequence(raw[2..])) else Filter(raw[1..])
    else if IsKept(raw[0]) then [raw[0]] + Filter(raw[1..])
    else Filter(raw[1..])
  }

  function Sanitized(raw: string, outputLimit: nat): string {
    Utf8.Take(Filter(raw), outputLimit)
  }

  /** The inner loop: skips to behind the character that ends the sequence. */
  method SkipSequence(raw: string, start: nat) returns (pos: nat)
    requires start <= |raw|
    ensures start <= pos <= |raw| && raw[pos..] == AfterSequence(raw[start..])
  {
    pos := start;
    while pos < |raw|
      invariant start <= pos <= |raw|
      invariant AfterSequence(raw[pos..]) == AfterSequence(raw[start..])
    {
      var c := raw[pos];
      assert raw[pos..][1..] == raw[pos + 1..];
      pos := pos + 1;
      if EndsSequence(c) {
        return;
      }
    }
  }

  lemma UnfoldFilter(raw: string, pos: nat)
    requires pos < |raw|
    ensures Filter(raw[pos..]) ==
      if raw[pos] == ESC then
        if pos + 1 < |raw| && raw[pos + 1] == '[' then Filter(AfterSequence(raw[pos + 2..])) else Filter(raw[pos + 1..])
      else if IsKept(raw[pos]) then [raw[pos]] + Filter(raw[pos + 1..])
      else Filter(raw[pos + 1..])
  {
    var rest := raw[pos..];
    assert rest[1..] == raw[pos + 1..];
    if |rest| > 1 {
      assert rest[2..] == raw[pos + 2..];
    }
  }

  lemma AppendThen(s: string, c: char, rest: string)
    ensures s + ([c] + rest) == s + [c] + rest
  {
  }

  method FilterOutput(raw: string) returns (result: string)
    ensures result == Filter(raw)
  {
    result := [];
    var pos := 0;
    while pos < |raw|
      invariant pos <= |raw|
      invariant result + Filter(raw[pos..]) == Filter(raw)
    {
      UnfoldFilter(raw, pos);
      hide Filter, AfterSequence;
      var ch := raw[pos];
      pos := pos + 1;
      AppendThen(result, ch, Filter(raw[pos..]));
      if ch == ESC {
        if pos < |raw| && raw[pos] == '[' {
          pos := SkipSequence(raw, pos + 1);
        }
      } else if ch == '\n' || ch == '\t' {
        result := result + [ch];
      } else if !IsControl(ch) {
        result := result + [ch];
      }
    }
  }

  /** Walks back from the limit to a character boundary, and cuts there. */
  method SanitizeOutput(raw: string, outputLimit: nat) returns (result: string)
    ensures result == Sanitized(raw, outputLimit)
  {
    result := FilterOutput(raw);
    var bytes := Utf8.Bytes(result);
    Utf8.TakeFits(result, outputLimit);
    if |bytes| > outputLimit {
      var end: nat := outputLimit;
      while end > 0 && !Utf8.IsCharBoundary(bytes, end)
        invariant end <= outputLimit
        invariant Utf8.Take(result, end) == Utf8.Take(result, outputLimit)
      {
        Utf8.BoundaryIffWholeCharacters(result, end);
        Utf8.TakeFits(result, end);
        ShorterTake(result, end);
        end := end - 1;
      }
      Utf8.BoundaryIffWholeCharacters(result, end);
      result := Utf8.Take(result, end);
    }
  }

  /** If the characters that fit in n bytes do not fill them, they fit in n - 1. */
  lemma {:induction false} ShorterTake(s: string, n: nat)
    requires n > 0 && |Utf8.Bytes(Utf8.Take(s, n))| < n
    ensures Utf8.Take(s, n - 1) == Utf8.Take(s, n)
  {
    if s != [] {
      var size := |Utf8.Encode(s[0])|;
      if size < n {
        ShorterTake(s[1..], n - size);
      }
    }
  }

  // ----- what the result promises

  /** A newline, a tab, or no control character: code points 0x20 to 0x7E, and from 0xA0 on. */
  predicate IsPlain(c: char) {
    c == '\n' || c == '\t' || 0x20 <= c as int <= 0x7E || 0xA0 <= c as int
  }

  lemma CleanIsPlain(s: string)
    ensures Clean(s) <==> forall k | 0 <= k < |s| :: IsPlain(s[k])
  {
    forall c: char
      ensures IsKept(c) <==> IsPlain(c)
    {
    }
    hide IsKept, IsPlain;
  }

  ghost predicate Clean(s: string) {
    forall k | 0 <= k < |s| :: IsKept(s[k])
  }

  /** small is what is left of big after leaving some characters out. */
  ghost predicate IsSubsequence(small: string, big: string) {
    if small == [] then true
    else if big == [] then false
    else (small[0] == big[0] && IsSubsequence(small[1..], big[1..])) || IsSubsequence(small, big[1..])
  }

  lemma {:induction false} FilterIsClean(raw: string)
    ensures Clean(Filter(raw))
    decreases |raw|
  {
    if raw == [] {
    } else if raw[0] == ESC && |raw| > 1 && raw[1] == '[' {
      FilterIsClean(AfterSequence(raw[2..]));
    } else {
      FilterIsClean(raw[1..]);
    }
  }

  lemma {:induction false} SubsequenceOfSuffix(small: string, big: string, n: nat)
    requires n <= |big| && IsSubsequence(small, big[n..])
    ensures IsSubsequence(small, big)
  {
    if n > 0 && small != [] {
      assert big[n..] == big[1..][n - 1..];
      SubsequenceOfSuffix(small, big[1..], n - 1);
    }
  }

  lemma {:induction false} PrefixOfSubsequence(small: string, big: string, n: nat)
    requires n <= |small| && IsSubsequence(small, big)
    ensures IsSubsequence(small[..n], big)
    decreases |big|
  {
    if n > 0 {
      if small[0] == big[0] && IsSubsequence(small[1..], big[1..]) {
        PrefixOfSubsequence(small[1..], big[1..], n - 1);
        assert small[..n][1..] == small[1..][..n - 1];
      } else {
        PrefixOfSubsequence(small, big[1..], n);
      }
    }
  }

  lemma {:induction false} FilterIsSubsequence(raw: string)
    ensures IsSubsequence(Filter(raw), raw)
    decreases |raw|
  {
    if raw == [] {
    } else if raw[0] == ESC && |raw| > 1 && raw[1] == '[' {
      var rest := AfterSequence(raw[2..]);
      FilterIsSubsequence(rest);
      assert rest == raw[|raw| - |rest|..];
      SubsequenceOfSuffix(Filter(rest), raw, |raw| - |rest|);
    } else {
      FilterIsSubsequence(raw[1..]);
      SubsequenceOfSuffix(Filter(raw[1..]), raw, 1);
    }
  }

  lemma {:induction false} FilterKeepsClean(s: string)
    requires Clean(s)
    ensures Filter(s) == s
  {
    if s != [] {
      assert IsKept(s[0]);
      FilterKeepsClean(s[1..]);
    }
  }

  /** The result has no control character but newline and tab, comes from the input by leaving
      characters out, fits the limit, and is the longest such prefix of the filtered text. */
  lemma SanitizedIsCleanPrefix(raw: string, outputLimit: nat)
    ensures var r := Sanitized(raw, outputLimit);
      && Clean(r) && (forall k | 0 <= k < |r| :: IsPlain(r[k])) && IsSubsequence(r, raw)
      && r <= Filter(raw) && |Utf8.Bytes(r)| <= outputLimit
      && forall k | |r| < k <= |Filter(raw)| :: |Utf8.Bytes(Filter(raw)[..k])| > outputLimit
  {
    var filtered := Filter(raw);
    Utf8.TakeFits(filtered, outputLimit);
    FilterIsClean(raw);
    FilterIsSubsequence(raw);
    var r := Sanitized(raw, outputLimit);
    assert filtered[..|r|] == r;
    PrefixOfSubsequence(filtered, raw, |r|);
    CleanIsPlain(r);
  }

  /** Clean text within the limit is left as it is, and it is the only text that is. */
  lemma SanitizedIdentityIff(s: string, outputLimit: nat)
    ensures Sanitized(s, outputLimit) == s <==> Clean(s) && |Utf8.Bytes(s)| <= outputLimit
    ensures Sanitized(s, outputLimit) == s <==>
      (forall k | 0 <= k < |s| :: IsPlain(s[k])) && |Utf8.Bytes(s)| <= outputLimit
  {
    CleanIsPlain(s);
    hide IsPlain;
    if Clean(s) {
      FilterKeepsClean(s);
    }
    Utf8.TakeFits(Filter(s), outputLimit);
    SanitizedIsCleanPrefix(s, outputLimit);
  }

  /** Sanitizing again changes nothing. */
  lemma SanitizedIdempotent(raw: string, outputLimit: nat)
    ensures Sanitized(Sanitized(raw, outputLimit), outputLimit) == Sanitized(raw, outputLimit)
  {
    SanitizedIsCleanPrefix(raw, outputLimit);
    SanitizedIdentityIff(Sanitized(raw, outputLimit), outputLimit);
  }

  // ----- which characters go: filtering undoes decorating

  /** A text as a terminal program writes it: characters to show, escape sequences with
      parameters and a final character, lone escapes, and other control characters. */
  datatype Token =
    | Show(c: char)
    | Sequence(parameters: string, final: char)
    | LoneEscape
    | Control(c: char)

  predicate ValidToken(t: Token) {
    match t
    case Show(c) => IsKept(c) && c != ESC
    case Sequence(ps, final) => EndsSequence(final) && forall k | 0 <= k < |ps| :: !EndsSequence(ps[k])
    case LoneEscape => true
    case Control(c) => !IsKept(c) && c != ESC
  }

  /** Upper and lower case letters and the tilde. */
  predicate IsFinal(c: char) {
    0x41 <= c as int <= 0x5A || 0x61 <= c as int <= 0x7A || c as int == 0x7E
  }

  /** In plain terms: what is shown is plain, a sequence has its only final character at the end, and the
      other controls are those that are not plain, but for the escape. */
  lemma TokensInPlainTerms(t: Token)
    ensures t.Show? ==> (ValidToken(t) <==> IsPlain(t.c))
    ensures t.Sequence? ==>
      (ValidToken(t) <==> IsFinal(t.final) && forall k | 0 <= k < |t.parameters| :: !IsFinal(t.parameters[k]))
    ensures t.Sequence? ==> RenderToken(t) == "\U{1B}[" + t.parameters + [t.final]
    ensures t.Control? ==> (ValidToken(t) <==> !IsPlain(t.c) && t.c as int != 0x1B)
    ensures t.LoneEscape? ==> RenderToken(t) == "\U{1B}"
  {
    forall c: char
      ensures EndsSequence(c) <==> IsFinal(c)
    {
    }
    hide EndsSequence, IsFinal;
  }

  function RenderToken(t: Token): string {
    match t
    case Show(c) => [c]
    case Sequence(ps, final) => [ESC, '['] + ps + [final]
    case LoneEscape => [ESC]
    case Control(c) => [c]
  }

  function Render(ts: seq<Token>): string {
    if ts == [] then [] else RenderToken(ts[0]) + Render(ts[1..])
  }

  function Shown(ts: seq<Token>): string {
    if ts == [] then []
    else (match ts[0] case Show(c) => [c] case _ => "") + Shown(ts[1..])
  }

  /** Each token is valid, and a lone escape is not followed by a shown '['. */
  ghost predicate ValidTokens(ts: seq<Token>) {
    && (forall k | 0 <= k < |ts| :: ValidToken(ts[k]))
    && (forall k | 0 <= k < |ts| - 1 :: ts[k] == LoneEscape ==> ts[k + 1] != Show('['))
  }

  lemma {:induction false} SequenceIsSkipped(ps: string, final: char, rest: string)
    requires EndsSequence(final) && forall k | 0 <= k < |ps| :: !EndsSequence(ps[k])
    ensures AfterSequence(ps + [final] + rest) == rest
  {
    var s := ps + [final] + rest;
    if ps == [] {
      assert s[1..] == rest;
    } else {
      assert s[1..] == ps[1..] + [final] + rest;
      SequenceIsSkipped(ps[1..], final, rest);
    }
  }

  lemma FilterSequence(ps: string, final: char, rest: string)
    requires ValidToken(Sequence(ps, final))
    ensures Filter([ESC, '['] + ps + [final] + rest) == Filter(rest)
  {
    var s := [ESC, '['] + ps + [final] + rest;
    assert s[2..] == ps + [final] + rest;
    SequenceIsSkipped(ps, final, rest);
    hide AfterSequence;
  }

  /** Filtering handles one token at a time. */
  lemma FilterToken(t: Token, rest: string)
    requires ValidToken(t) && (t == LoneEscape ==> rest == [] || rest[0] != '[')
    ensures Filter(RenderToken(t) + rest) == (match t case Show(c) => [c] case _ => "") + Filter(rest)
  {
    hide AfterSequence;
    if t.Sequence? {
      FilterSequence(t.parameters, t.final, rest);
    } else {
      assert (RenderToken(t) + rest)[1..] == rest;
    }
  }

  /** An escape sequence that nothing ends, up to the end of the text; or nothing. */
  ghost predicate Unended(s: string) {
    s == "" || (|s| >= 2 && s[0] == ESC && s[1] == '[' && forall k | 2 <= k < |s| :: !EndsSequence(s[k]))
  }

  lemma {:induction false} NothingAfter(ps: string)
    requires forall k | 0 <= k < |ps| :: !EndsSequence(ps[k])
    ensures AfterSequence(ps) == ""
  {
    if ps != [] {
      NothingAfter(ps[1..]);
    }
  }

  /** Filtering a decorated text gives exactly the shown characters, in order; an unended
      escape sequence swallows the rest of the text, newlines included. */
  lemma {:induction false} FilterUndoesRender(ts: seq<Token>, tail: string)
    requires ValidTokens(ts) && Unended(tail)
    ensures Filter(Render(ts) + tail) == Shown(ts)
  {
    if ts == [] {
      assert Render(ts) + tail == tail;
      if tail != "" {
        NothingAfter(tail[2..]);
      }
    } else {
      var rest := Render(ts[1..]) + tail;
      assert Render(ts) + tail == RenderToken(ts[0]) + rest;
      FilterUndoesRender(ts[1..], tail);
      hide Filter, ValidToken, RenderToken;
      if |ts| > 1 {
        RenderStart(ts[1..]);
      }
      FilterToken(ts[0], rest);
    }
  }

  /** A rendering starts with '[' only if its first token shows one. */
  lemma RenderStart(ts: seq<Token>)
    requires ts != [] && ValidToken(ts[0])
    ensures Render(ts) != [] && (Render(ts)[0] == '[' <==> ts[0] == Show('['))
  {
  }

  /** The first token of a text that is not an unended sequence, and what follows it. */
  lemma FirstToken(raw: string) returns (t: Token, rest: string)
    requires raw != [] && !Unended(raw)
    ensures ValidToken(t) && raw == RenderToken(t) + rest && |rest| < |raw|
    ensures t == LoneEscape ==> rest == [] || rest[0] != '['
  {
    if raw[0] == ESC && |raw| > 1 && raw[1] == '[' {
      var n := FindEnd(raw[2..]);
      assert forall k | 2 <= k < |raw| :: raw[k] == raw[2..][k - 2];
      t, rest := Sequence(raw[2..n + 2], raw[n + 2]), raw[n + 3..];
      assert raw == [ESC, '['] + raw[2..n + 2] + [raw[n + 2]] + raw[n + 3..];
    } else {
      t := if raw[0] == ESC then LoneEscape else if IsKept(raw[0]) then Show(raw[0]) else Control(raw[0]);
      rest := raw[1..];
    }
  }

  /** Every text is such a decorated text, so the tokens say for every input what is kept. */
  lemma {:induction false} EveryTextIsRendered(raw: string) returns (ts: seq<Token>, tail: string)
    ensures ValidTokens(ts) && Unended(tail) && raw == Render(ts) + tail
    decreases |raw|
  {
    if Unended(raw) {
      ts, tail := [], raw;
      assert raw == Render(ts) + tail;
    } else {
      hide Unended, RenderToken, ValidToken;
      var t, rest := FirstToken(raw);
      ts, tail := EveryTextIsRendered(rest);
      if ts != [] {
        RenderStart(ts);
        assert rest[0] == Render(ts)[0];
      }
      ts := PrependToken(t, ts, tail);
    }
  }

  lemma PrependToken(t: Token, ts: seq<Token>, tail: string) returns (ts': seq<Token>)
    requires ValidTokens(ts) && ValidToken(t) && (t == LoneEscape && ts != [] ==> ts[0] != Show('['))
    ensures ValidTokens(ts') && Render(ts') + tail == RenderToken(t) + (Render(ts) + tail)
  {
    ts' := [t] + ts;
    assert ts'[1..] == ts;
    forall k | 0 <= k < |ts'| - 1
      ensures ts'[k] == LoneEscape ==> ts'[k + 1] != Show('[')
    {
      if k > 0 {
        assert ts[k - 1] == LoneEscape ==> ts[k] != Show('[');
      }
    }
    assert RenderToken(t) + Render(ts) + tail == RenderToken(t) + (Render(ts) + tail);
  }

  /** The position of the first character that ends an escape sequence, or the length. */
  lemma {:induction false} FindEnd(s: string) returns (n: nat)
    ensures n <= |s| && forall k | 0 <= k < n :: !EndsSequence(s[k])
    ensures n < |s| ==> EndsSequence(s[n])
  {
    if s == "" || EndsSequence(s[0]) {
      n := 0;
    } else {
      n := FindEnd(s[1..]);
      n := n + 1;
    }
  }

  lemma {:induction false} FilterKeepsPrefix(text: string, tail: string)
    requires Clean(text)
    ensures Filter(text + tail) == text + Filter(tail)
  {
    if text == [] {
      assert text + tail == tail;
    } else {
      assert IsKept(text[0]);
      assert (text + tail)[1..] == text[1..] + tail;
      FilterKeepsPrefix(text[1..], tail);
    }
  }

  /** A plain text between two sequences, say a colour and its reset, is shown as it is. */
  lemma ColoursGo(colour: Token, text: string, reset: Token)
    requires colour.Sequence? && ValidToken(colour) && reset.Sequence? && ValidToken(reset)
    requires forall k | 0 <= k < |text| :: IsPlain(text[k])
    ensures Filter(RenderToken(colour) + (text + RenderToken(reset))) == text
  {
    CleanIsPlain(text);
    FilterKeepsPrefix(text, RenderToken(reset));
    assert Filter("") == "";
    hide Filter, IsPlain, ValidToken;
    FilterSequence(reset.parameters, reset.final, "");
    FilterSequence(colour.parameters, colour.final, text + RenderToken(reset));
    assert RenderToken(reset) + "" == RenderToken(reset);
  }
}
