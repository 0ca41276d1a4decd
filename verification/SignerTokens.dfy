/** The Rust tokenizer and delimiter matcher of the signer inventory
    (scripts/check-raw-commitment-signers.py). */
module SignerTokens {
  import opened Basics

  /** A token, its line number, and where it starts. */
  datatype Token = Token(text: string, line: nat, start: nat)

  /** What stands at a position: something skipped, or a token; and where it ends. */
  datatype Lexeme = Skipped(end: nat) | Kept(end: nat)

  /** Python's `str.isspace`. */
  predicate IsSpace(c: char) {
    || '\t' <= c <= '\r' || '\U{1c}' <= c <= ' ' || c == '\U{85}' || c == '\U{a0}' || c == '\U{1680}'
    || '\U{2000}' <= c <= '\U{200a}' || c == '\U{2028}' || c == '\U{2029}' || c == '\U{202f}'
    || c == '\U{205f}' || c == '\U{3000}'
  }

  predicate IsWord(c: char) { 'a' <= c <= 'z' || 'A' <= c <= 'Z' || '0' <= c <= '9' || c == '_' }

  function Newlines(s: string, lo: nat, hi: nat): nat
    requires lo <= hi <= |s|
  {
    if lo == hi then 0 else Newlines(s, lo, hi - 1) + if s[hi - 1] == '\n' then 1 else 0
  }

  // ----- the ends of lexemes -----------------------------------------------------------

  function LineEnd(s: string, i: nat): (e: nat)
    requires i <= |s|
    ensures i <= e <= |s| && (e < |s| ==> s[e] == '\n') && forall k | i <= k < e :: s[k] != '\n'
    decreases |s| - i
  {
    if i == |s| || s[i] == '\n' then i else LineEnd(s, i + 1)
  }

  /** Where `depth` open block comments are all closed again. */
  function NestedEnd(s: string, i: nat, depth: nat): (e: nat)
    requires i <= |s|
    ensures i <= e <= |s|
    decreases |s| - i
  {
    if i == |s| || depth == 0 then i
    else if Two(s, i, '/', '*') then NestedEnd(s, i + 2, depth + 1)
    else if Two(s, i, '*', '/') then NestedEnd(s, i + 2, depth - 1)
    else NestedEnd(s, i + 1, depth)
  }

  function HashEnd(s: string, i: nat): (e: nat)
    requires i <= |s|
    ensures i <= e <= |s| && forall k | i <= k < e :: s[k] == '#'
    decreases |s| - i
  {
    if i == |s| || s[i] != '#' then i else HashEnd(s, i + 1)
  }

  /** The number of hashes and the start of the body of a raw string whose `r` stands at `p`. */
  function RawFrom(s: string, p: nat): (r: Option<(nat, nat)>)
    requires p <= |s|
    ensures r.Some? ==> p < r.value.1 <= |s|
  {
    if p == |s| || s[p] != 'r' then None
    else
      var h := HashEnd(s, p + 1);
      if h < |s| && s[h] == '"' then Some((h - p - 1, h + 1)) else None
  }

  /** The same for a raw string that opens at `i`, perhaps with a prefix. */
  function RawOpen(s: string, i: nat): (r: Option<(nat, nat)>)
    requires i < |s|
    ensures r.Some? ==> i < r.value.1 <= |s|
  {
    RawFrom(s, if s[i] == 'b' || s[i] == 'c' then i + 1 else i)
  }

  /** A quote followed by `hashes` hashes. */
  predicate RawCloses(s: string, i: nat, hashes: nat) {
    i + hashes < |s| && s[i] == '"' && forall k | i < k <= i + hashes :: s[k] == '#'
  }

  function RawEnd(s: string, i: nat, hashes: nat): (e: nat)
    requires i <= |s|
    ensures i <= e <= |s| && (e == |s| || e > i + hashes)
    decreases |s| - i
  {
    if i == |s| then i else if RawCloses(s, i, hashes) then i + hashes + 1 else RawEnd(s, i + 1, hashes)
  }

  predicate QuoteOpens(s: string, i: nat)
    requires i < |s|
  {
    s[i] == '"' || (s[i] == '\'' && ((i + 2 < |s| && s[i + 2] == '\'') || (i + 1 < |s| && s[i + 1] == '\\')))
  }

  function LiteralEnd(s: string, i: nat, quote: char): (e: nat)
    requires i <= |s|
    ensures i <= e <= |s|
    decreases |s| - i
  {
    if i == |s| then i
    else if s[i] == '\\' then LiteralEnd(s, if i + 2 <= |s| then i + 2 else |s|, quote)
    else if s[i] == quote then i + 1
    else LiteralEnd(s, i + 1, quote)
  }

  function WordEnd(s: string, i: nat): (e: nat)
    requires i <= |s|
    ensures i <= e <= |s| && (forall k | i <= k < e :: IsWord(s[k])) && (e < |s| ==> !IsWord(s[e]))
    decreases |s| - i
  {
    if i < |s| && IsWord(s[i]) then WordEnd(s, i + 1) else i
  }

  /** The branches of the scan, in order. */
  function Next(s: string, i: nat): (x: Lexeme)
    requires i < |s|
    ensures i < x.end <= |s|
  {
    if IsSpace(s[i]) then Skipped(i + 1)
    else if Two(s, i, '/', '/') then Skipped(LineEnd(s, i + 1))
    else if Two(s, i, '/', '*') then Skipped(NestedEnd(s, i + 2, 1))
    else if RawOpen(s, i).Some? then Skipped(RawEnd(s, RawOpen(s, i).value.1, RawOpen(s, i).value.0))
    else if QuoteOpens(s, i) then Skipped(LiteralEnd(s, i + 1, s[i]))
    else Kept(if IsWord(s[i]) then WordEnd(s, i + 1) else i + 1)
  }

  function Lex(s: string, i: nat, line: nat): seq<Token>
    requires i <= |s|
    decreases |s| - i
  {
    if i == |s| then []
    else
      var x := Next(s, i);
      var rest := Lex(s, x.end, line + Newlines(s, i, x.end));
      if x.Kept? then [Token(s[i..x.end], line, i)] + rest else rest
  }

  // ----- the loops ---------------------------------------------------------------------

  method SkipLine(s: string, i: nat) returns (e: nat)
    requires i < |s| && s[i] != '\n'
    ensures e == LineEnd(s, i + 1)
  {
    e := i + 1;
    while e < |s| && s[e] != '\n'
      invariant i + 1 <= e <= |s| && LineEnd(s, i + 1) == LineEnd(s, e)
    {
      e := e + 1;
    }
  }

  method SkipBlock(s: string, start: nat) returns (i: nat)
    requires start <= |s|
    ensures i == NestedEnd(s, start, 1)
  {
    i := start;
    var depth := 1;
    while i < |s| && depth != 0
      invariant i <= |s| && depth >= 0 && NestedEnd(s, start, 1) == NestedEnd(s, i, depth)
      decreases |s| - i
    {
      if Two(s, i, '/', '*') {
        depth, i := depth + 1, i + 2;
      } else if Two(s, i, '*', '/') {
        depth, i := depth - 1, i + 2;
      } else {
        i := i + 1;
      }
    }
  }

  method SkipRaw(s: string, start: nat, hashes: nat) returns (e: nat)
    requires start <= |s|
    ensures e == RawEnd(s, start, hashes)
  {
    e := start;
    while e < |s|
      invariant start <= e <= |s| && RawEnd(s, start, hashes) == RawEnd(s, e, hashes)
    {
      if RawCloses(s, e, hashes) { return e + hashes + 1; }
      e := e + 1;
    }
  }

  method SkipLiteral(s: string, start: nat, quote: char) returns (i: nat)
    requires start <= |s|
    ensures i == LiteralEnd(s, start, quote)
  {
    i := start;
    while i < |s|
      invariant i <= |s| && LiteralEnd(s, start, quote) == LiteralEnd(s, i, quote)
      decreases |s| - i
    {
      if s[i] == '\\' {
        i := if i + 2 <= |s| then i + 2 else |s|;
      } else if s[i] == quote {
        return i + 1;
      } else {
        i := i + 1;
      }
    }
  }

  method TakeWord(s: string, start: nat) returns (i: nat)
    requires start <= |s|
    ensures i == WordEnd(s, start)
  {
    i := start;
    while i < |s| && IsWord(s[i])
      invariant start <= i <= |s| && WordEnd(s, start) == WordEnd(s, i)
    {
      i := i + 1;
    }
  }

  method NextLexeme(s: string, i: nat) returns (x: Lexeme)
    requires i < |s|
    ensures x == Next(s, i)
  {
    if IsSpace(s[i]) { return Skipped(i + 1); }
    var end: nat := i + 1;
    if Two(s, i, '/', '/') {
      end := SkipLine(s, i);
      return Skipped(end);
    }
    if Two(s, i, '/', '*') {
      end := SkipBlock(s, i + 2);
      return Skipped(end);
    }
    var raw := RawOpen(s, i);
    if raw.Some? {
      end := SkipRaw(s, raw.value.1, raw.value.0);
      return Skipped(end);
    }
    if QuoteOpens(s, i) {
      end := SkipLiteral(s, i + 1, s[i]);
      return Skipped(end);
    }
    if IsWord(s[i]) { end := TakeWord(s, i + 1); }
    return Kept(end);
  }

  method Tokens(source: string) returns (out: seq<Token>)
    ensures out == Lex(source, 0, 1)
  {
    out := [];
    var i: nat, line: nat := 0, 1;
    while i < |source|
      invariant i <= |source| && Lex(source, 0, 1) == out + Lex(source, i, line)
      decreases |source| - i
    {
      var x := NextLexeme(source, i);
      ghost var rest := Lex(source, x.end, line + Newlines(source, i, x.end));
      if x.Kept? {
        var t := Token(source[i..x.end], line, i);
        assert out + ([t] + rest) == (out + [t]) + rest;
        out := out + [t];
      }
      line, i := line + Newlines(source, i, x.end), x.end;
    }
  }

  // ----- where tokens stand ------------------------------------------------------------

  /** As many as there are newline characters. */
  lemma {:induction false} NewlinesAre(s: string, lo: nat, hi: nat)
    requires lo <= hi <= |s|
    ensures Newlines(s, lo, hi) == multiset(s[lo..hi])['\n']
  {
    if lo < hi {
      NewlinesAre(s, lo, hi - 1);
      assert s[lo..hi] == s[lo..hi - 1] + [s[hi - 1]];
    }
  }

  lemma {:induction false} NewlinesSplit(s: string, lo: nat, mid: nat, hi: nat)
    requires lo <= mid <= hi <= |s|
    ensures Newlines(s, lo, hi) == Newlines(s, lo, mid) + Newlines(s, mid, hi)
  {
    if mid < hi { NewlinesSplit(s, lo, mid, hi - 1); }
  }

  /** A token is its own source text, non-empty and in bounds, on the line its position has. */
  ghost predicate Placed(s: string, t: Token) {
    && t.text != "" && t.start + |t.text| <= |s|
    && s[t.start..t.start + |t.text|] == t.text
    && t.line == 1 + Newlines(s, 0, t.start)
  }

  /** Placed tokens at or after `i`, in source order and without overlap. */
  ghost predicate InOrder(s: string, i: nat, ts: seq<Token>) {
    && (forall k | 0 <= k < |ts| :: Placed(s, ts[k]) && i <= ts[k].start)
    && (forall k | 0 < k < |ts| :: ts[k - 1].start + |ts[k - 1].text| <= ts[k].start)
  }

  lemma InOrderCons(s: string, t: Token, rest: seq<Token>)
    requires Placed(s, t) && InOrder(s, t.start + |t.text|, rest)
    ensures InOrder(s, t.start, [t] + rest)
  {
    var ts := [t] + rest;
    forall k | 0 <= k < |ts| ensures Placed(s, ts[k]) && t.start <= ts[k].start {
      if k > 0 { assert ts[k] == rest[k - 1]; }
    }
    forall k | 0 < k < |ts| ensures ts[k - 1].start + |ts[k - 1].text| <= ts[k].start {
      assert ts[k] == rest[k - 1];
      if k > 1 { assert ts[k - 1] == rest[k - 2]; }
    }
  }

  lemma InOrderWeaken(s: string, i: nat, j: nat, ts: seq<Token>)
    requires i <= j && InOrder(s, j, ts)
    ensures InOrder(s, i, ts)
  {
  }

  /** Tokens come in source order without overlap, each placed on its line. */
  lemma {:induction false} TokensArePlaced(s: string, i: nat, line: nat)
    requires i <= |s| && line == 1 + Newlines(s, 0, i)
    ensures InOrder(s, i, Lex(s, i, line))
    decreases |s| - i
  {
    if i < |s| {
      var x := Next(s, i);
      var after := line + Newlines(s, i, x.end);
      NewlinesSplit(s, 0, i, x.end);
      TokensArePlaced(s, x.end, after);
      var rest := Lex(s, x.end, after);
      if x.Skipped? { InOrderWeaken(s, i, x.end, rest); } else { InOrderCons(s, Token(s[i..x.end], line, i), rest); }
    }
  }

  /** Identifiers are taken whole: a token is one character, or a run of word characters that the next
      character does not continue. */
  lemma {:induction false} TokensAreMaximal(s: string, i: nat, line: nat)
    requires i <= |s|
    ensures forall t | t in Lex(s, i, line) ::
              && t.start + |t.text| <= |s| && t.text != ""
              && (if IsWord(t.text[0])
                  then (forall k | 0 <= k < |t.text| :: IsWord(t.text[k]))
                       && (t.start + |t.text| < |s| ==> !IsWord(s[t.start + |t.text|]))
                  else |t.text| == 1 && !IsSpace(t.text[0]))
    decreases |s| - i
  {
    if i < |s| { TokensAreMaximal(s, Next(s, i).end, line + Newlines(s, i, Next(s, i).end)); }
  }

  // ----- nested comments ---------------------------------------------------------------

  /** Closing `a + b` open comments is closing `a` of them and then the other `b`: every terminator
      closes the innermost comment. */
  lemma {:induction false} NestedComposes(s: string, i: nat, a: nat, b: nat)
    requires i <= |s|
    ensures NestedEnd(s, i, a + b) == NestedEnd(s, NestedEnd(s, i, a), b)
    decreases |s| - i
  {
    if i < |s| && a > 0 {
      if Two(s, i, '/', '*') {
        NestedComposes(s, i + 2, a + 1, b);
      } else if Two(s, i, '*', '/') {
        NestedComposes(s, i + 2, a - 1, b);
      } else {
        NestedComposes(s, i + 1, a, b);
      }
    }
  }

  /** An inner comment is skipped whole: the outer one resumes right after it. */
  lemma InnerCommentIsSkipped(s: string, i: nat)
    requires Two(s, i, '/', '*')
    ensures NestedEnd(s, i, 1) == NestedEnd(s, NestedEnd(s, i + 2, 1), 1)
  {
    NestedComposes(s, i + 2, 1, 1);
  }

  /** Without an inner opener a comment ends at its first terminator. */
  lemma {:induction false} FlatCommentEnds(s: string, i: nat, e: nat)
    requires i <= e && Two(s, e, '*', '/')
    requires forall k | i <= k < e :: !Two(s, k, '/', '*') && !Two(s, k, '*', '/')
    ensures NestedEnd(s, i, 1) == e + 2
    decreases e - i
  {
    if i < e { FlatCommentEnds(s, i + 1, e); }
  }

  // ----- literals ----------------------------------------------------------------------

  /** A raw string ends right after the first quote with as many hashes as opened it. */
  lemma {:induction false} RawStringEnds(s: string, i: nat, e: nat, hashes: nat)
    requires i <= e && RawCloses(s, e, hashes)
    requires forall k | i <= k < e :: !RawCloses(s, k, hashes)
    ensures RawEnd(s, i, hashes) == e + hashes + 1
    decreases e - i
  {
    if i < e { RawStringEnds(s, i + 1, e, hashes); }
  }

  /** The rest of a written literal, after its opening quote: backslashes with any character after them
      and other characters but the quote, up to a closing quote. */
  predicate ClosesAtEnd(word: string, quote: char)
    decreases |word|
  {
    && word != ""
    && if word[0] == '\\' then |word| >= 2 && ClosesAtEnd(word[2..], quote)
       else if word[0] == quote then |word| == 1
       else ClosesAtEnd(word[1..], quote)
  }

  lemma HasAtRest(s: string, i: nat, a: string, b: string)
    requires HasAt(s, i, a + b)
    ensures HasAt(s, i + |a|, b) && forall k | 0 <= k < |a| :: s[i + k] == a[k]
  {
    var c := a + b;
    forall k | 0 <= k < |a| ensures s[i + k] == a[k] { assert s[i..i + |c|][k] == c[k]; }
    assert s[i + |a|..i + |c|] == c[|a|..] == b;
  }

  /** Whatever its text and its escapes, a literal is skipped exactly to the end of its closing quote. */
  lemma {:induction false} LiteralIsSkipped(s: string, i: nat, word: string, quote: char)
    requires HasAt(s, i, word) && ClosesAtEnd(word, quote)
    ensures LiteralEnd(s, i, quote) == i + |word|
    decreases |word|
  {
    var n := if word[0] == '\\' then 2 else 1;
    assert word == word[..n] + word[n..];
    HasAtRest(s, i, word[..n], word[n..]);
    assert s[i + 0] == word[0];
    if word[0] == '\\' || word[0] != quote { LiteralIsSkipped(s, i + n, word[n..], quote); }
  }

  // ----- what stands at a position -----------------------------------------------------

  /** Spaces and words among the ASCII characters. */
  lemma AsciiKinds(c: char)
    requires c < '\U{80}'
    ensures IsSpace(c) <==> c == ' ' || c == '\t' || c == '\n' || c == '\r' || c == '\U{0b}' || c == '\U{0c}'
                            || c == '\U{1c}' || c == '\U{1d}' || c == '\U{1e}' || c == '\U{1f}'
    ensures IsWord(c) <==> var n := c as int; 48 <= n <= 57 || 65 <= n <= 90 || n == 95 || 97 <= n <= 122
  {
  }

  /** A line comment goes up to the end of its line. */
  lemma LineCommentIsNext(s: string, i: nat, e: nat)
    requires Two(s, i, '/', '/') && i < e <= |s| && (e < |s| ==> s[e] == '\n') && '\n' !in s[i..e]
    ensures Next(s, i) == Skipped(e)
  {
    assert forall k | i <= k < e :: s[k] == s[i..e][k - i];
  }

  /** A block comment goes up to where as many are ended as were opened. */
  lemma BlockCommentIsNext(s: string, i: nat)
    requires Two(s, i, '/', '*')
    ensures Next(s, i) == Skipped(NestedEnd(s, i + 2, 1))
  {
  }

  function Hashes(n: nat): string { seq(n, _ => '#') }

  /** A raw string as written, after its prefix. */
  function Raw(n: nat, text: string): string { "r" + (Hashes(n) + ("\"" + RawRest(n, text))) }

  function RawRest(n: nat, text: string): string { text + ("\"" + Hashes(n)) }

  lemma RawRestEnds(s: string, i: nat, n: nat, text: string)
    requires HasAt(s, i, RawRest(n, text)) && forall k | 0 <= k < |text| :: !RawCloses(RawRest(n, text), k, n)
    ensures RawEnd(s, i, n) == i + |text| + n + 1
  {
    var w := RawRest(n, text);
    assert forall k | 0 <= k < |w| :: s[i + k] == s[i..i + |w|][k] == w[k];
    assert w[|text|] == '"' && forall k | |text| < k < |w| :: w[k] == '#';
    forall e | i <= e < i + |text| ensures !RawCloses(s, e, n) {
      assert !RawCloses(w, e - i, n);
      if RawCloses(s, e, n) {
        assert e + n < i + |w|;
        forall k | e - i < k <= e - i + n ensures w[k] == '#' { assert s[i + k] == '#'; }
        assert false;
      }
    }
    forall k | i + |text| < k <= i + |text| + n ensures s[k] == '#' { assert s[i + (k - i)] == w[k - i]; }
    assert s[i + |text|] == w[|text|];
    assert RawCloses(s, i + |text|, n);
    hide RawCloses;
    RawStringEnds(s, i, i + |text|, n);
  }

  lemma HasInside(s: string, i: nat, word: string)
    requires i + |word| <= |s| && forall k | 0 <= k < |word| :: s[i + k] == word[k]
    ensures word != "" ==> s[i] == word[0]
  {
    if word != "" { assert s[i + 0] == word[0]; }
  }

  lemma AllHashes(s: string, i: nat, hashes: string)
    requires i + |hashes| <= |s| && forall k | 0 <= k < |hashes| :: s[i + k] == hashes[k] == '#'
    ensures forall k | i <= k < i + |hashes| :: s[k] == '#'
  {
    forall k | i <= k < i + |hashes| ensures s[k] == '#' { assert s[i + (k - i)] == hashes[k - i]; }
  }

  lemma RawFromIs(s: string, p: nat, n: nat, text: string)
    requires HasAt(s, p, Raw(n, text))
    ensures p < |s| && s[p] == 'r'
    ensures RawFrom(s, p) == Some((n, p + n + 2)) && HasAt(s, p + n + 2, RawRest(n, text))
  {
    var w, hashes := RawRest(n, text), Hashes(n);
    HasAtRest(s, p, "r", hashes + ("\"" + w));
    HasAtRest(s, p + 1, hashes, "\"" + w);
    HasAtRest(s, p + 1 + n, "\"", w);
    var h := p + 1 + n;
    HasInside(s, p, "r");
    HasInside(s, h, "\"");
    hide HasAt, HashEnd, Raw, RawRest;
    AllHashes(s, p + 1, hashes);
    HashEndIs(s, p + 1, h);
  }

  lemma {:induction false} HashEndIs(s: string, i: nat, e: nat)
    requires i <= e < |s| && s[e] != '#' && forall k | i <= k < e :: s[k] == '#'
    ensures HashEnd(s, i) == e
    decreases e - i
  {
    if i < e { HashEndIs(s, i + 1, e); }
  }

  /** A raw string, alone or behind `b` or `c`, goes up to its own closing quote and hashes, whatever
      delimiters, escapes and comments its text holds. */
  lemma RawIsNext(s: string, i: nat, prefix: string, n: nat, text: string)
    requires (prefix == "" || prefix == "b" || prefix == "c") && HasAt(s, i, prefix + Raw(n, text))
    requires forall k | 0 <= k < |text| :: !RawCloses(RawRest(n, text), k, n)
    ensures i < |s| && Next(s, i) == Skipped(i + |prefix + Raw(n, text)|)
  {
    hide RawFrom, RawEnd, HashEnd, HasAt, RawRest, NestedEnd, LineEnd, LiteralEnd, WordEnd;
    var p := i + |prefix|;
    assert |Raw(n, text)| == n + |RawRest(n, text)| + 2;
    HasAtRest(s, i, prefix, Raw(n, text));
    hide Raw;
    HasInside(s, i, prefix);
    RawFromIs(s, p, n, text);
    RawRestEnds(s, p + n + 2, n, text);
    RawSize(n, text);
  }

  lemma RawSize(n: nat, text: string)
    ensures |RawRest(n, text)| == |text| + n + 1
  {
  }

  /** A character literal, escaped or not, is skipped like a string; an apostrophe that opens none, as of a
      lifetime, is a token of its own. */
  lemma TickIsNext(s: string, i: nat)
    requires i < |s| && s[i] == '\''
    ensures i + 2 < |s| && s[i + 1] != '\'' && s[i + 1] != '\\' && s[i + 2] == '\'' ==> Next(s, i) == Skipped(i + 3)
    ensures i + 1 < |s| && s[i + 1] == '\\' ==> Next(s, i) == Skipped(LiteralEnd(s, i + 1, '\''))
    ensures (i + 1 < |s| ==> s[i + 1] != '\\') && (i + 2 < |s| ==> s[i + 2] != '\'') ==> Next(s, i) == Kept(i + 1)
  {
    if i + 2 < |s| && s[i + 1] != '\'' && s[i + 1] != '\\' && s[i + 2] == '\'' {
      assert LiteralEnd(s, i + 2, '\'') == i + 3;
    }
    hide NestedEnd, LineEnd, HashEnd, RawEnd, WordEnd;
  }

  /** Everything else is kept: a word whole, any other character by itself. */
  lemma KeptIsNext(s: string, i: nat)
    requires i < |s| && s[i] < '\U{80}' && !IsSpace(s[i]) && s[i] != '/' && s[i] != '"' && s[i] != '\''
    requires RawOpen(s, i).None?
    ensures Next(s, i).Kept? && (!IsWord(s[i]) ==> Next(s, i).end == i + 1)
  {
    hide WordEnd, RawOpen;
  }

  // ----- scanning looks ahead only so far ----------------------------------------------

  /** The sources agree for `m` characters, which are all that is left of both. */
  ghost predicate Whole(s: string, i: nat, t: string, j: nat, m: nat) { i + m == |s| && j + m == |t| }

  /** The sources agree for `m` characters: to the end of both, or up to a double quote. */
  ghost predicate Shared(s: string, i: nat, t: string, j: nat, m: nat) {
    && i + m <= |s| && j + m <= |t| && s[i..i + m] == t[j..j + m]
    && (Whole(s, i, t, j, m) || (m > 0 && s[i + m - 1] == '"'))
  }

  /** A lexeme of `s` that ends at `e` ends where the sources still agree. */
  ghost predicate Decided(s: string, i: nat, t: string, j: nat, m: nat, e: nat) {
    Whole(s, i, t, j, m) || e < i + m
  }

  lemma SharedAt(s: string, i: nat, t: string, j: nat, m: nat, k: nat)
    requires Shared(s, i, t, j, m) && k <= m && (k < m || Whole(s, i, t, j, m))
    ensures i + k <= |s| && j + k <= |t| && Shared(s, i + k, t, j + k, m - k)
    ensures k < m ==> i + k < |s| && j + k < |t| && s[i + k] == t[j + k]
    ensures Whole(s, i, t, j, m) == Whole(s, i + k, t, j + k, m - k)
  {
    assert s[i + k..i + m] == s[i..i + m][k..];
    assert t[j + k..j + m] == t[j..j + m][k..];
    if k < m { assert s[i..i + m][k] == s[i + k] && t[j..j + m][k] == t[j + k]; }
  }

  lemma SharedSize(s: string, i: nat, t: string, j: nat, m: nat)
    requires Shared(s, i, t, j, m)
    ensures i + m <= |s| && j + m <= |t|
  {
  }

  lemma {:induction false} SameLineEnd(s: string, i: nat, t: string, j: nat, m: nat)
    requires i <= |s| && j <= |t| && Shared(s, i, t, j, m) && Decided(s, i, t, j, m, LineEnd(s, i))
    ensures LineEnd(s, i) - i == LineEnd(t, j) - j
    decreases |s| - i
  {
    if i < |s| {
      SharedAt(s, i, t, j, m, 0);
      if s[i] != '\n' {
        SharedAt(s, i, t, j, m, 1);
        SameLineEnd(s, i + 1, t, j + 1, m - 1);
      }
    }
  }

  lemma SameTwo(s: string, i: nat, t: string, j: nat, m: nat, a: char, b: char)
    requires Shared(s, i, t, j, m) && (Whole(s, i, t, j, m) || m > 1)
    ensures Two(s, i, a, b) == Two(t, j, a, b)
    ensures Two(s, i, a, b) ==> i + 2 <= |s| && j + 2 <= |t| && m > 1
  {
    if m > 1 {
      SharedAt(s, i, t, j, m, 0);
      SharedAt(s, i, t, j, m, 1);
    }
  }

  lemma {:induction false} SameNestedEnd(s: string, i: nat, t: string, j: nat, m: nat, depth: nat)
    requires i <= |s| && j <= |t| && Shared(s, i, t, j, m) && Decided(s, i, t, j, m, NestedEnd(s, i, depth))
    ensures NestedEnd(s, i, depth) - i == NestedEnd(t, j, depth) - j
    decreases |s| - i
  {
    SharedSize(s, i, t, j, m);
    hide Shared, Two;
    if i < |s| && depth > 0 {
      SameTwo(s, i, t, j, m, '/', '*');
      SameTwo(s, i, t, j, m, '*', '/');
      var n := if Two(s, i, '/', '*') || Two(s, i, '*', '/') then 2 else 1;
      var d := if Two(s, i, '/', '*') then depth + 1 else if Two(s, i, '*', '/') then depth - 1 else depth;
      SharedAt(s, i, t, j, m, n);
      SameNestedEnd(s, i + n, t, j + n, m - n, d);
    }
  }

  lemma {:induction false} SameHashEnd(s: string, i: nat, t: string, j: nat, m: nat)
    requires i <= |s| && j <= |t| && Shared(s, i, t, j, m)
    ensures HashEnd(s, i) - i == HashEnd(t, j) - j && Decided(s, i, t, j, m, HashEnd(s, i))
    decreases |s| - i
  {
    if i < |s| {
      SharedAt(s, i, t, j, m, 0);
      if s[i] == '#' {
        SharedAt(s, i, t, j, m, 1);
        SameHashEnd(s, i + 1, t, j + 1, m - 1);
      }
    }
  }

  lemma SameRawCloses(s: string, i: nat, t: string, j: nat, m: nat, hashes: nat)
    requires Shared(s, i, t, j, m) && (Whole(s, i, t, j, m) || hashes < m)
    ensures RawCloses(s, i, hashes) <==> RawCloses(t, j, hashes)
  {
    if hashes < m {
      SharedAt(s, i, t, j, m, 0);
      if RawCloses(s, i, hashes) {
        forall k | j < k <= j + hashes ensures t[k] == '#' { SharedAt(s, i, t, j, m, k - j); }
      }
      if RawCloses(t, j, hashes) {
        forall k | i < k <= i + hashes ensures s[k] == '#' { SharedAt(s, i, t, j, m, k - i); }
      }
    }
  }

  lemma {:induction false} SameRawEnd(s: string, i: nat, t: string, j: nat, m: nat, hashes: nat)
    requires i <= |s| && j <= |t| && Shared(s, i, t, j, m) && Decided(s, i, t, j, m, RawEnd(s, i, hashes))
    ensures RawEnd(s, i, hashes) - i == RawEnd(t, j, hashes) - j
    decreases |s| - i
  {
    hide RawCloses;
    if i < |s| {
      SameRawCloses(s, i, t, j, m, hashes);
      if !RawCloses(s, i, hashes) {
        SharedAt(s, i, t, j, m, 1);
        SameRawEnd(s, i + 1, t, j + 1, m - 1, hashes);
      }
    }
  }

  lemma {:induction false} SameLiteralEnd(s: string, i: nat, t: string, j: nat, m: nat, quote: char)
    requires i <= |s| && j <= |t| && Shared(s, i, t, j, m) && Decided(s, i, t, j, m, LiteralEnd(s, i, quote))
    ensures LiteralEnd(s, i, quote) - i == LiteralEnd(t, j, quote) - j
    decreases |s| - i
  {
    SharedSize(s, i, t, j, m);
    hide Shared;
    if i < |s| {
      SharedAt(s, i, t, j, m, 0);
      if s[i] == '\\' {
        if i + 2 <= |s| {
          SharedAt(s, i, t, j, m, 2);
          SameLiteralEnd(s, i + 2, t, j + 2, m - 2, quote);
        }
      } else if s[i] != quote {
        SharedAt(s, i, t, j, m, 1);
        SameLiteralEnd(s, i + 1, t, j + 1, m - 1, quote);
      }
    }
  }

  lemma {:induction false} SameWordEnd(s: string, i: nat, t: string, j: nat, m: nat)
    requires i <= |s| && j <= |t| && Shared(s, i, t, j, m)
    ensures WordEnd(s, i) - i == WordEnd(t, j) - j
    decreases |s| - i
  {
    if i < |s| {
      SharedAt(s, i, t, j, m, 0);
      if IsWord(s[i]) {
        SharedAt(s, i, t, j, m, 1);
        SameWordEnd(s, i + 1, t, j + 1, m - 1);
      }
    }
  }

  lemma SameRawFrom(s: string, p: nat, t: string, q: nat, m: nat)
    requires p <= |s| && q <= |t| && Shared(s, p, t, q, m)
    ensures var a, b := RawFrom(s, p), RawFrom(t, q);
            a.Some? == b.Some? && (a.Some? ==> a.value.0 == b.value.0 && a.value.1 - p == b.value.1 - q)
  {
    if p < |s| {
      SharedAt(s, p, t, q, m, 0);
      if s[p] == 'r' {
        SharedAt(s, p, t, q, m, 1);
        hide Shared, HashEnd;
        SameHashEnd(s, p + 1, t, q + 1, m - 1);
        SharedAt(s, p, t, q, m, HashEnd(s, p + 1) - p);
      }
    }
  }

  lemma SameRawOpen(s: string, i: nat, t: string, j: nat, m: nat)
    requires i < |s| && j < |t| && Shared(s, i, t, j, m) && (Whole(s, i, t, j, m) || m > 1)
    ensures var a, b := RawOpen(s, i), RawOpen(t, j);
            a.Some? == b.Some? && (a.Some? ==> a.value.0 == b.value.0 && a.value.1 - i == b.value.1 - j)
  {
    hide Shared, RawFrom;
    SharedAt(s, i, t, j, m, 0);
    SharedAt(s, i, t, j, m, 1);
    SameRawFrom(s, i, t, j, m);
    SameRawFrom(s, i + 1, t, j + 1, m - 1);
  }

  lemma SameNextLong(s: string, i: nat, t: string, j: nat, m: nat)
    requires i < |s| && j < |t| && Shared(s, i, t, j, m) && Decided(s, i, t, j, m, Next(s, i).end)
    requires !IsSpace(s[i]) && s[i] == t[j] && !(Two(s, i, '/', '/') || Two(s, i, '/', '*'))
    requires !(Two(t, j, '/', '/') || Two(t, j, '/', '*')) && QuoteOpens(s, i) == QuoteOpens(t, j)
    ensures var x, y := Next(s, i), Next(t, j); x.Kept? == y.Kept? && x.end - i == y.end - j
  {
    hide RawOpen, RawEnd, LiteralEnd, WordEnd, Shared, IsSpace, IsWord, QuoteOpens, Two;
    SharedAt(s, i, t, j, m, 1);
    SameRawOpen(s, i, t, j, m);
    var raw := RawOpen(s, i);
    if raw.Some? {
      SharedAt(s, i, t, j, m, raw.value.1 - i);
      SameRawEnd(s, raw.value.1, t, RawOpen(t, j).value.1, m - (raw.value.1 - i), raw.value.0);
    } else if QuoteOpens(s, i) {
      SameLiteralEnd(s, i + 1, t, j + 1, m - 1, s[i]);
    } else {
      SameWordEnd(s, i + 1, t, j + 1, m - 1);
    }
  }

  /** What stands at a position is decided by the source up to its end, and by whether a quote opens. */
  lemma SameNext(s: string, i: nat, t: string, j: nat, m: nat)
    requires i < |s| && j < |t| && Shared(s, i, t, j, m) && Decided(s, i, t, j, m, Next(s, i).end)
    requires QuoteOpens(s, i) == QuoteOpens(t, j)
    ensures var x, y := Next(s, i), Next(t, j); x.Kept? == y.Kept? && x.end - i == y.end - j
  {
    assert !IsSpace('/');
    hide RawOpen, RawEnd, LineEnd, NestedEnd, LiteralEnd, WordEnd, Shared, IsSpace, IsWord, QuoteOpens;
    SharedAt(s, i, t, j, m, 0);
    SharedAt(s, i, t, j, m, 1);
    if Two(s, i, '/', '/') {
      SameLineEnd(s, i + 1, t, j + 1, m - 1);
    } else if Two(s, i, '/', '*') {
      SharedAt(s, i, t, j, m, 2);
      SameNestedEnd(s, i + 2, t, j + 2, m - 2, 1);
    } else if !IsSpace(s[i]) {
      SameNextLong(s, i, t, j, m);
    }
  }

  // ----- the text of a literal does not matter -----------------------------------------

  /** The texts of the tokens from `i` on. */
  function TextsFrom(s: string, i: nat): seq<string>
    requires i <= |s|
    decreases |s| - i
  {
    if i == |s| then [] else
    var x := Next(s, i);
    (if x.Kept? then [s[i..x.end]] else []) + TextsFrom(s, x.end)
  }

  function TokenText(t: Token): string { t.text }

  function Texts(ts: seq<Token>): seq<string> { Image(ts, TokenText) }

  lemma {:induction false} TextsOfLex(s: string, i: nat, line: nat)
    requires i <= |s|
    ensures Texts(Lex(s, i, line)) == TextsFrom(s, i)
    decreases |s| - i
  {
    hide Next, Newlines;
    if i < |s| {
      var x := Next(s, i);
      TextsOfLex(s, x.end, line + Newlines(s, i, x.end));
    }
  }

  lemma SameQuote(s: string, i: nat, t: string, j: nat, m: nat)
    requires i < |s| && j < |t| && Shared(s, i, t, j, m) && (Whole(s, i, t, j, m) || m > 2)
    ensures QuoteOpens(s, i) == QuoteOpens(t, j)
  {
    SharedAt(s, i, t, j, m, 0);
    if m > 1 { SharedAt(s, i, t, j, m, 1); }
    if m > 2 { SharedAt(s, i, t, j, m, 2); }
  }

  lemma {:induction false} SameTexts(s: string, i: nat, t: string, j: nat, m: nat)
    requires i <= |s| && j <= |t| && Shared(s, i, t, j, m) && Whole(s, i, t, j, m)
    ensures TextsFrom(s, i) == TextsFrom(t, j)
    decreases |s| - i
  {
    hide Next, QuoteOpens;
    if i < |s| {
      SameQuote(s, i, t, j, m);
      SameNext(s, i, t, j, m);
      var x, y := Next(s, i), Next(t, j);
      SharedSlice(s, i, t, j, m, x.end, y.end);
      SharedAt(s, i, t, j, m, x.end - i);
      SameTexts(s, x.end, t, y.end, m - (x.end - i));
    }
  }

  lemma SharedSlice(s: string, i: nat, t: string, j: nat, m: nat, e: nat, e': nat)
    requires Shared(s, i, t, j, m) && i <= e <= i + m && e - i == e' - j
    ensures s[i..e] == t[j..e']
  {
    assert s[i..e] == s[i..i + m][..e - i];
    assert t[j..e'] == t[j..j + m][..e' - j];
  }

  /** `n` is where the scan from `i` ends one lexeme and starts the next. */
  predicate Reaches(s: string, i: nat, n: nat)
    requires i <= |s|
    decreases |s| - i
  {
    i == n || (i < n && i < |s| && Reaches(s, Next(s, i).end, n))
  }

  /** The sources agree up to a double quote at `n`, and go on for one character at least. */
  ghost predicate AgreeTo(s: string, t: string, n: nat) {
    n + 1 < |s| && n + 1 < |t| && s[..n + 1] == t[..n + 1] && s[n] == '"'
  }

  lemma AgreeIsShared(s: string, t: string, n: nat, i: nat)
    requires AgreeTo(s, t, n) && i <= n
    ensures Shared(s, i, t, i, n + 1 - i) && s[i] == t[i] && t[n] == '"'
  {
    assert s[i..n + 1] == s[..n + 1][i..] && t[i..n + 1] == t[..n + 1][i..];
    assert s[..n + 1][i] == t[..n + 1][i] && s[..n + 1][n] == t[..n + 1][n];
  }

  /** In `t` an apostrophe that is a token of `s`, right before the quote, opens a literal of that quote. */
  predicate Trips(s: string, t: string, i: nat, n: nat)
    requires i <= |s|
  {
    i < n < |s| && n + 1 < |t| && s[n - 1] == '\'' && t[n + 1] == '\'' && Reaches(s, i, n - 1)
  }

  lemma TickBeforeQuote(s: string, i: nat)
    requires i + 2 < |s| && s[i] == '\'' && s[i + 1] == '"'
    ensures QuoteOpens(s, i) == (s[i + 2] == '\'')
    ensures if QuoteOpens(s, i) then Next(s, i).end > i + 1 else Next(s, i) == Kept(i + 1)
  {
    hide NestedEnd, LineEnd, HashEnd, RawEnd, WordEnd;
  }

  lemma PrefixStep(s: string, t: string, i: nat, n: nat)
    requires AgreeTo(s, t, n) && i < n && Next(s, i).end <= n
    requires s[i] != '\'' || i + 1 < n || t[n + 1] != '\''
    ensures Next(t, i) == Next(s, i) && s[i..Next(s, i).end] == t[i..Next(s, i).end]
  {
    hide Next, QuoteOpens;
    AgreeIsShared(s, t, n, i);
    if i + 1 < n {
      SameQuote(s, i, t, i, n + 1 - i);
    } else if s[i] == '\'' {
      AgreeIsShared(s, t, n, n);
      TickBeforeQuote(s, i);
      TickBeforeQuote(t, i);
    } else {
      NoTickQuote(s, i, t, i);
    }
    SameNext(s, i, t, i, n + 1 - i);
    SharedSlice(s, i, t, i, n + 1 - i, Next(s, i).end, Next(s, i).end);
  }

  lemma NoTickQuote(s: string, i: nat, t: string, j: nat)
    requires i < |s| && j < |t| && s[i] == t[j] && s[i] != '\''
    ensures QuoteOpens(s, i) == QuoteOpens(t, j)
  {
  }

  lemma {:induction false} PrefixSame(s: string, t: string, i: nat, n: nat)
    requires AgreeTo(s, t, n) && i <= n && Reaches(s, i, n)
    ensures Reaches(t, i, n) <==> !Trips(s, t, i, n)
    ensures Reaches(t, i, n) && TextsFrom(s, n) == TextsFrom(t, n) ==> TextsFrom(s, i) == TextsFrom(t, i)
    decreases n - i
  {
    hide Next;
    if i < n {
      if i + 1 == n && s[i] == '\'' && t[n + 1] == '\'' {
        AgreeIsShared(s, t, n, i);
        AgreeIsShared(s, t, n, n);
        TickBeforeQuote(t, i);
      } else {
        ReachesInside(s, i, n);
        PrefixStep(s, t, i, n);
        TripsLater(s, t, i, n);
        PrefixSame(s, t, Next(s, i).end, n);
      }
    }
  }

  lemma TripsLater(s: string, t: string, i: nat, n: nat)
    requires i < n < |s| && n + 1 < |t| && Next(s, i).end <= n
    requires i + 1 < n || !(s[i] == '\'' && t[n + 1] == '\'')
    ensures Trips(s, t, i, n) <==> Trips(s, t, Next(s, i).end, n)
  {
    hide Next;
    var e := Next(s, i).end;
    if i + 1 < n { assert Reaches(s, i, n - 1) == Reaches(s, e, n - 1); }
  }

  lemma ReachesInside(s: string, i: nat, n: nat)
    requires i < n <= |s| && Reaches(s, i, n)
    ensures Next(s, i).end <= n
  {
    hide Next;
  }

  /** A string literal as written, with any escapes in it. */
  predicate IsLiteral(word: string) { word != "" && word[0] == '"' && ClosesAtEnd(word[1..], '"') }

  lemma LiteralIsNext(s: string, i: nat, word: string)
    requires HasAt(s, i, word) && IsLiteral(word)
    ensures i < |s| && Next(s, i) == Skipped(i + |word|)
  {
    hide HasAt, ClosesAtEnd, LiteralEnd, RawEnd, NestedEnd, WordEnd, LineEnd;
    assert word == word[..1] + word[1..];
    HasAtRest(s, i, word[..1], word[1..]);
    assert s[i + 0] == word[0];
    LiteralIsSkipped(s, i + 1, word[1..], '"');
  }

  function WithLiteral(before: string, word: string, after: string): string { before + (word + after) }

  /** The literal's text starts with an apostrophe. */
  predicate StartsWithTick(word: string) { |word| > 1 && word[1] == '\'' }

  lemma LiteralStands(before: string, word: string, after: string)
    requires IsLiteral(word)
    ensures var s, n := WithLiteral(before, word, after), |before|;
            && HasAt(s, n, word) && n + 1 < |s| && s[n] == '"' && n + |word| <= |s|
            && (s[n + 1] == '\'' <==> StartsWithTick(word)) && s[..n] == before
            && s[n + |word|..] == after
  {
    var s, n := WithLiteral(before, word, after), |before|;
    assert s[n..n + |word|] == word;
    assert |word| > 1 && s[n + 1] == word[1] && s[n] == word[0];
  }

  lemma SharedRest(s: string, e: nat, t: string, e': nat, rest: string)
    requires e <= |s| && e' <= |t| && s[e..] == rest == t[e'..]
    ensures Shared(s, e, t, e', |rest|) && Whole(s, e, t, e', |rest|)
  {
    assert s[e..e + |rest|] == s[e..] && t[e'..e' + |rest|] == t[e'..];
  }

  lemma TextsSkip(s: string, i: nat, e: nat)
    requires i < |s| && Next(s, i) == Skipped(e)
    ensures TextsFrom(s, i) == TextsFrom(s, e)
  {
    hide Next;
  }

  lemma SameAfterLiteral(before: string, word: string, word': string, after: string)
    requires IsLiteral(word) && IsLiteral(word')
    ensures TextsFrom(WithLiteral(before, word, after), |before|)
         == TextsFrom(WithLiteral(before, word', after), |before|)
  {
    hide Next, IsLiteral, WithLiteral, TextsFrom, HasAt, Shared, Whole;
    var s, t, n := WithLiteral(before, word, after), WithLiteral(before, word', after), |before|;
    LiteralStands(before, word, after);
    LiteralStands(before, word', after);
    LiteralIsNext(s, n, word);
    LiteralIsNext(t, n, word');
    var e, e' := n + |word|, n + |word'|;
    SharedRest(s, e, t, e', after);
    TextsSkip(s, n, e);
    TextsSkip(t, n, e');
    SameTexts(s, e, t, e', |after|);
  }

  /** Nothing inside a string literal affects the tokens: sources that differ only in one, of whatever
      length and with whatever delimiters and escapes in it, have the same token texts, provided the scan
      of both comes to stand at the literal. If the scan of one does, that of the other does unless an
      apostrophe that is a token of the first stands right before the literal and the other text starts
      with an apostrophe, which makes a character literal of the opening quote. */
  lemma LiteralTextIsIrrelevant(before: string, word: string, word': string, after: string)
    requires IsLiteral(word) && IsLiteral(word')
    requires Reaches(WithLiteral(before, word, after), 0, |before|)
    ensures var s, t, n := WithLiteral(before, word, after), WithLiteral(before, word', after), |before|;
            && (Reaches(t, 0, n) <==>
                  !(n > 0 && before[n - 1] == '\'' && Reaches(s, 0, n - 1) && StartsWithTick(word')))
            && (Reaches(t, 0, n) ==> Texts(Lex(s, 0, 1)) == Texts(Lex(t, 0, 1)))
  {
    hide TextsFrom, Texts, Lex, Reaches, WithLiteral, IsLiteral;
    var s, t, n := WithLiteral(before, word, after), WithLiteral(before, word', after), |before|;
    LiteralStands(before, word, after);
    LiteralStands(before, word', after);
    assert s[..n + 1] == s[..n] + [s[n]] == t[..n] + [t[n]] == t[..n + 1];
    assert n > 0 ==> s[n - 1] == s[..n][n - 1] == before[n - 1];
    PrefixSame(s, t, 0, n);
    SameAfterLiteral(before, word, word', after);
    TextsOfLex(s, 0, 1);
    TextsOfLex(t, 0, 1);
  }

  /** After an apostrophe, the literals `"'"` and `"x"` are told apart: `'"'` is a character literal. */
  lemma TickBeforeLiteralExists()
    ensures IsLiteral("\"x\"") && IsLiteral("\"'\"")
    ensures WithLiteral("'", "\"x\"", "") == "'\"x\"" && WithLiteral("'", "\"'\"", "") == "'\"'\""
    ensures TextsFrom("'\"x\"", 0) == ["'"] && TextsFrom("'\"'\"", 0) == []
  {
    var kept, tripped := "'\"x\"", "'\"'\"";
    assert "\"x\""[1..] == "x\"" && "x\""[1..] == "\"" && "\"'\""[1..] == "'\"" && "'\""[1..] == "\"";
    assert ClosesAtEnd("\"", '"');
    TickBeforeQuote(kept, 0);
    assert LiteralEnd(kept, 3, '"') == 4 && LiteralEnd(kept, 2, '"') == 4;
    assert Next(kept, 1) == Skipped(4);
    assert TextsFrom(kept, 4) == [] && TextsFrom(kept, 1) == [];
    assert LiteralEnd(tripped, 2, '\'') == 3 && LiteralEnd(tripped, 1, '\'') == 3;
    assert Next(tripped, 0) == Skipped(3) && Next(tripped, 3) == Skipped(4);
    assert TextsFrom(tripped, 4) == [] && TextsFrom(tripped, 3) == [];
  }

  /** A token is not empty and has no space in it. */
  predicate IsPlain(text: string) { text != "" && ' ' !in text }

  predicate ArePlain(texts: seq<string>) { forall k | 0 <= k < |texts| :: IsPlain(texts[k]) }

  lemma TokensArePlain(s: string)
    ensures ArePlain(Texts(Lex(s, 0, 1)))
  {
    hide Lex;
    TokensAreMaximal(s, 0, 1);
    var ts := Lex(s, 0, 1);
    forall k | 0 <= k < |ts| ensures IsPlain(ts[k].text) {
      assert ts[k] in ts;
    }
  }

  // ----- matching delimiters -----------------------------------------------------------

  /** Opening minus ending delimiters among `t[lo..hi]`. */
  function Balance(t: seq<string>, lo: nat, hi: nat, opening: string, ending: string): int
    requires lo <= hi <= |t|
  {
    if lo == hi then 0
    else Balance(t, lo, hi - 1, opening, ending)
         + (if t[hi - 1] == opening then 1 else 0) - (if t[hi - 1] == ending then 1 else 0)
  }

  lemma {:induction false} BalanceCounts(t: seq<string>, lo: nat, hi: nat, opening: string, ending: string)
    requires lo <= hi <= |t|
    ensures Balance(t, lo, hi, opening, ending) + multiset(t[lo..hi])[ending] == multiset(t[lo..hi])[opening]
  {
    if lo < hi {
      BalanceCounts(t, lo, hi - 1, opening, ending);
      assert t[lo..hi] == t[lo..hi - 1] + [t[hi - 1]];
    }
  }

  predicate Closes(t: seq<string>, start: nat, i: nat, opening: string, ending: string)
    requires start <= i < |t|
  {
    t[i] == ending && Balance(t, start, i + 1, opening, ending) == 0
  }

  /** The first delimiter at or after `i` that closes, or none. */
  function ClosingFrom(t: seq<string>, start: nat, i: nat, opening: string, ending: string): (r: Option<nat>)
    requires start <= i <= |t|
    ensures r.Some? ==> i <= r.value < |t| && Closes(t, start, r.value, opening, ending)
    ensures forall j | i <= j < (if r.Some? then r.value else |t|) :: !Closes(t, start, j, opening, ending)
    decreases |t| - i
  {
    if i == |t| then None
    else if Closes(t, start, i, opening, ending) then Some(i)
    else ClosingFrom(t, start, i + 1, opening, ending)
  }

  function Closing(t: seq<string>, start: nat, opening: string, ending: string): Option<nat>
    requires start <= |t|
  {
    ClosingFrom(t, start, start, opening, ending)
  }

  /** The matching delimiter, or none where the script raises an error. */
  method Close(t: seq<string>, start: nat, opening: string, ending: string) returns (r: Option<nat>)
    requires start <= |t|
    ensures r == Closing(t, start, opening, ending)
    ensures r.Some? ==> start <= r.value < |t| && Closes(t, start, r.value, opening, ending)
    ensures forall j | start <= j < (if r.Some? then r.value else |t|) :: !Closes(t, start, j, opening, ending)
  {
    var depth := 0;
    for i := start to |t|
      invariant depth == Balance(t, start, i, opening, ending)
      invariant Closing(t, start, opening, ending) == ClosingFrom(t, start, i, opening, ending)
    {
      if t[i] == opening { depth := depth + 1; }
      if t[i] == ending {
        depth := depth - 1;
        if depth == 0 { return Some(i); }
      }
    }
    r := None;
  }

  /** When the first token opens, the delimiter found is the first point at which opens and closes
      balance at all: before it the balance is positive throughout. */
  lemma {:induction false} CloseIsFirstBalance(t: seq<string>, start: nat, i: nat, opening: string, ending: string)
    requires opening != ending && start < i <= |t| && t[start] == opening
    requires forall j | start <= j < i :: !Closes(t, start, j, opening, ending)
    ensures Balance(t, start, i, opening, ending) > 0
  {
    if i == start + 1 {
      assert Balance(t, start, start, opening, ending) == 0;
    } else {
      CloseIsFirstBalance(t, start, i - 1, opening, ending);
      assert !Closes(t, start, i - 1, opening, ending);
    }
  }
}
