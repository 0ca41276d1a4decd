/** Escaping of untrusted text for issue bodies (scripts/bench-triage.py). */
module Sanitizer {
  import opened Basics

  predicate IsBreak(c: char) { c == '\r' || c == '\n' }

  /** Every run of line breaks becomes one space. */
  function JoinLines(s: string): string {
    if s == "" then ""
    else if !IsBreak(s[0]) then [s[0]] + JoinLines(s[1..])
    else if |s| > 1 && IsBreak(s[1]) then JoinLines(s[1..])
    else " " + JoinLines(s[1..])
  }

  /** Python's `str.replace` of a single character. */
  function Replace(s: string, c: char, w: string): string {
    if s == "" then "" else (if s[0] == c then w else [s[0]]) + Replace(s[1..], c, w)
  }

  function Html(s: string): string {
    Replace(Replace(Replace(s, '&', "&amp;"), '<', "&lt;"), '>', "&gt;")
  }

  function Markdown(s: string): string {
    Replace(Replace(Replace(Replace(s, '\\', "\\\\"), '|', "\\|"), '`', "\\`"), '@', "@<!-- -->")
  }

  function CodeSpan(s: string): string { Replace(Replace(s, '`', "'"), '|', "\\|") }

  function Sanitize(text: string, code: bool): string {
    var s := Html(JoinLines(text));
    if code then "`" + CodeSpan(s) + "`" else Markdown(s)
  }

  // ----- line breaks -------------------------------------------------------------------

  predicate IsOneLine(s: string) { '\r' !in s && '\n' !in s }

  lemma {:induction false} JoinLinesKeeps(a: string, b: string)
    requires IsOneLine(a)
    ensures JoinLines(a + b) == a + JoinLines(b)
  {
    if a == "" {
      assert a + b == b;
    } else {
      assert (a + b)[1..] == a[1..] + b;
      JoinLinesKeeps(a[1..], b);
    }
  }

  lemma {:induction false} JoinLinesRun(run: string, b: string)
    requires run != "" && (forall c | c in run :: c == '\r' || c == '\n') && (b != "" ==> b[0] != '\r' && b[0] != '\n')
    ensures JoinLines(run + b) == " " + JoinLines(b)
  {
    var s := run + b;
    assert s[0] == run[0] && run[0] in run;
    assert s[1..] == run[1..] + b;
    if |run| == 1 {
      assert s[1..] == b;
    } else {
      assert s[1] == run[1] && run[1] in run;
      assert forall c | c in run[1..] :: c in run;
      JoinLinesRun(run[1..], b);
    }
  }

  /** A text on one line is kept, and every maximal run of carriage returns and line feeds is one space. */
  lemma JoinLinesIs(a: string, run: string, b: string)
    requires IsOneLine(a) && run != "" && (forall c | c in run :: c == '\r' || c == '\n')
    requires b != "" ==> b[0] != '\r' && b[0] != '\n'
    ensures JoinLines(a) == a && JoinLines(a + (run + b)) == a + (" " + JoinLines(b))
  {
    JoinLinesKeeps(a, "");
    assert a + "" == a;
    JoinLinesKeeps(a, run + b);
    JoinLinesRun(run, b);
  }

  // ----- one substitution per character ------------------------------------------------

  function Escape(c: char): string {
    if c == '&' then "&amp;" else if c == '<' then "&lt;" else if c == '>' then "&gt;"
    else if c == '\\' then "\\\\" else if c == '|' then "\\|" else if c == '`' then "\\`"
    else if c == '@' then "@<!-- -->" else [c]
  }

  function EscapeCode(c: char): string {
    if c == '&' then "&amp;" else if c == '<' then "&lt;" else if c == '>' then "&gt;"
    else if c == '`' then "'" else if c == '|' then "\\|" else [c]
  }

  function Substitute(f: char -> string, s: string): string {
    if s == "" then "" else f(s[0]) + Substitute(f, s[1..])
  }

  lemma {:induction false} ReplaceAppend(a: string, b: string, c: char, w: string)
    ensures Replace(a + b, c, w) == Replace(a, c, w) + Replace(b, c, w)
  {
    if a == "" {
      assert a + b == b;
    } else {
      assert (a + b)[1..] == a[1..] + b;
      ReplaceAppend(a[1..], b, c, w);
    }
  }

  lemma {:induction false} ReplaceAbsent(s: string, c: char, w: string)
    requires c !in s
    ensures Replace(s, c, w) == s
  {
    if s != "" {
      ReplaceAbsent(s[1..], c, w);
      assert s == [s[0]] + s[1..];
    }
  }

  lemma ReplaceOne(c: char, w: string)
    ensures Replace([c], c, w) == w
  {
    assert [c][1..] == "";
  }

  lemma HtmlAppend(a: string, b: string)
    ensures Html(a + b) == Html(a) + Html(b)
  {
    ReplaceAppend(a, b, '&', "&amp;");
    var a', b' := Replace(a, '&', "&amp;"), Replace(b, '&', "&amp;");
    ReplaceAppend(a', b', '<', "&lt;");
    ReplaceAppend(Replace(a', '<', "&lt;"), Replace(b', '<', "&lt;"), '>', "&gt;");
  }

  lemma MarkdownAppend(a: string, b: string)
    ensures Markdown(a + b) == Markdown(a) + Markdown(b)
  {
    ReplaceAppend(a, b, '\\', "\\\\");
    var a1, b1 := Replace(a, '\\', "\\\\"), Replace(b, '\\', "\\\\");
    ReplaceAppend(a1, b1, '|', "\\|");
    var a2, b2 := Replace(a1, '|', "\\|"), Replace(b1, '|', "\\|");
    ReplaceAppend(a2, b2, '`', "\\`");
    ReplaceAppend(Replace(a2, '`', "\\`"), Replace(b2, '`', "\\`"), '@', "@<!-- -->");
  }

  lemma CodeSpanAppend(a: string, b: string)
    ensures CodeSpan(a + b) == CodeSpan(a) + CodeSpan(b)
  {
    ReplaceAppend(a, b, '`', "'");
    ReplaceAppend(Replace(a, '`', "'"), Replace(b, '`', "'"), '|', "\\|");
  }

  lemma HtmlOne(c: char)
    ensures Html([c]) == if c == '&' then "&amp;" else if c == '<' then "&lt;" else if c == '>' then "&gt;" else [c]
  {
    if c == '&' {
      ReplaceOne('&', "&amp;");
      ReplaceAbsent("&amp;", '<', "&lt;");
      ReplaceAbsent("&amp;", '>', "&gt;");
    } else {
      ReplaceAbsent([c], '&', "&amp;");
      if c == '<' {
        ReplaceOne('<', "&lt;");
        ReplaceAbsent("&lt;", '>', "&gt;");
      } else {
        ReplaceAbsent([c], '<', "&lt;");
        if c == '>' { ReplaceOne('>', "&gt;"); } else { ReplaceAbsent([c], '>', "&gt;"); }
      }
    }
  }

  lemma MarkdownPlain(s: string)
    requires '\\' !in s && '|' !in s && '`' !in s && '@' !in s
    ensures Markdown(s) == s
  {
    ReplaceAbsent(s, '\\', "\\\\");
    ReplaceAbsent(s, '|', "\\|");
    ReplaceAbsent(s, '`', "\\`");
    ReplaceAbsent(s, '@', "@<!-- -->");
  }

  lemma MarkdownOne(c: char)
    ensures Markdown([c]) == if c == '\\' then "\\\\" else if c == '|' then "\\|" else if c == '`' then "\\`"
                             else if c == '@' then "@<!-- -->" else [c]
  {
    if c == '\\' {
      ReplaceOne(c, "\\\\");
      ReplaceAbsent("\\\\", '|', "\\|");
      ReplaceAbsent("\\\\", '`', "\\`");
      ReplaceAbsent("\\\\", '@', "@<!-- -->");
    } else {
      ReplaceAbsent([c], '\\', "\\\\");
      if c == '|' {
        ReplaceOne(c, "\\|");
        ReplaceAbsent("\\|", '`', "\\`");
        ReplaceAbsent("\\|", '@', "@<!-- -->");
      } else {
        ReplaceAbsent([c], '|', "\\|");
        if c == '`' {
          ReplaceOne(c, "\\`");
          ReplaceAbsent("\\`", '@', "@<!-- -->");
        } else {
          ReplaceAbsent([c], '`', "\\`");
          if c == '@' { ReplaceOne(c, "@<!-- -->"); } else { ReplaceAbsent([c], '@', "@<!-- -->"); }
        }
      }
    }
  }

  lemma CodeSpanOne(c: char)
    ensures CodeSpan([c]) == if c == '`' then "'" else if c == '|' then "\\|" else [c]
  {
    if c == '`' {
      ReplaceOne(c, "'");
      ReplaceAbsent("'", '|', "\\|");
    } else {
      ReplaceAbsent([c], '`', "'");
      if c == '|' { ReplaceOne(c, "\\|"); } else { ReplaceAbsent([c], '|', "\\|"); }
    }
  }

  lemma EscapeOne(c: char)
    ensures Markdown(Html([c])) == Escape(c) && CodeSpan(Html([c])) == EscapeCode(c)
  {
    HtmlOne(c);
    if c == '&' || c == '<' || c == '>' {
      MarkdownPlain(Html([c]));
      ReplaceAbsent(Html([c]), '`', "'");
      ReplaceAbsent(Html([c]), '|', "\\|");
    } else {
      MarkdownOne(c);
      CodeSpanOne(c);
    }
  }

  /** The ordered whole-string replacements never touch each other's output: together they are one
      substitution per character. */
  lemma {:induction false} ReplacesAreOneSubstitution(s: string)
    ensures Markdown(Html(s)) == Substitute(Escape, s)
    ensures CodeSpan(Html(s)) == Substitute(EscapeCode, s)
  {
    if s != "" {
      var head, tail := [s[0]], s[1..];
      ReplacesAreOneSubstitution(tail);
      assert s == head + tail;
      HtmlAppend(head, tail);
      MarkdownAppend(Html(head), Html(tail));
      CodeSpanAppend(Html(head), Html(tail));
      EscapeOne(s[0]);
    }
  }

  // ----- decoding ----------------------------------------------------------------------

  /** One step of decoding: the character read and the length of its escape. */
  function Decode(a: char, b: char): (char, nat) {
    if a == '&' && b == 'a' then ('&', 5)
    else if a == '&' && b == 'l' then ('<', 4)
    else if a == '&' && b == 'g' then ('>', 4)
    else if a == '@' then ('@', 9)
    else if a == '\\' then (b, 2)
    else (a, 1)
  }

  lemma DecodeEscape(c: char, b: char)
    ensures var e := Escape(c); e != "" && Decode(e[0], if |e| > 1 then e[1] else b) == (c, |e|)
  {
  }

  /** Reads an escaped text back. The code is prefix-free: the first character, and after an ampersand
      the second, tells which escape follows. */
  function Unescape(t: string): string
    decreases |t|
  {
    if t == "" then "" else
    var (c, n) := Decode(t[0], if |t| > 1 then t[1] else ' ');
    if n <= |t| then [c] + Unescape(t[n..]) else t
  }

  lemma UnescapeOne(c: char, t: string)
    ensures Unescape(Escape(c) + t) == [c] + Unescape(t)
  {
    var e := Escape(c);
    var u := e + t;
    assert u[|e|..] == t && u[0] == e[0] && (|e| > 1 ==> u[1] == e[1]);
    DecodeEscape(c, if |u| > 1 then u[1] else ' ');
  }

  lemma {:induction false} UnescapeSubstitute(s: string)
    ensures Unescape(Substitute(Escape, s)) == s
  {
    if s != "" {
      UnescapeSubstitute(s[1..]);
      UnescapeOne(s[0], Substitute(Escape, s[1..]));
    }
  }

  /** Nothing but line structure is lost: the newline-joined text can be read back exactly. */
  lemma SanitizeRoundTrip(text: string)
    ensures Unescape(Sanitize(text, false)) == JoinLines(text)
  {
    ReplacesAreOneSubstitution(JoinLines(text));
    UnescapeSubstitute(JoinLines(text));
  }

  /** So two texts are rendered alike exactly when they differ in line breaks only. */
  lemma SanitizeIsInjective(a: string, b: string)
    ensures Sanitize(a, false) == Sanitize(b, false) <==> JoinLines(a) == JoinLines(b)
  {
    SanitizeRoundTrip(a);
    SanitizeRoundTrip(b);
  }

  // ----- decoding a code span ----------------------------------------------------------

  function DecodeCode(a: char, b: char): (char, nat) {
    if a == '&' && b == 'a' then ('&', 5)
    else if a == '&' && b == 'l' then ('<', 4)
    else if a == '&' && b == 'g' then ('>', 4)
    else if a == '\\' && b == '|' then ('|', 2)
    else (a, 1)
  }

  function UnescapeCode(t: string): string
    decreases |t|
  {
    if t == "" then "" else
    var (c, n) := DecodeCode(t[0], if |t| > 1 then t[1] else ' ');
    if n <= |t| then [c] + UnescapeCode(t[n..]) else t
  }

  function Quoted(c: char): char { if c == '`' then '\'' else c }

  lemma DecodeCodeEscape(c: char, b: char)
    requires b != '|'
    ensures var e := EscapeCode(c); e != "" && DecodeCode(e[0], if |e| > 1 then e[1] else b) == (Quoted(c), |e|)
  {
  }

  lemma UnescapeCodeOne(c: char, t: string)
    requires t != "" ==> t[0] != '|'
    ensures UnescapeCode(EscapeCode(c) + t) == [Quoted(c)] + UnescapeCode(t)
  {
    var e := EscapeCode(c);
    var u := e + t;
    var b := if t != "" then t[0] else ' ';
    DecodeCodeEscape(c, b);
    hide EscapeCode, DecodeCode, Quoted;
    assert u[|e|..] == t && u[0] == e[0] && (|e| > 1 ==> u[1] == e[1]) && (|e| == 1 && |u| > 1 ==> u[1] == b);
  }

  lemma {:induction false} UnescapeCodeSubstitute(s: string)
    ensures var t := Substitute(EscapeCode, s); t != "" ==> t[0] != '|'
    ensures UnescapeCode(Substitute(EscapeCode, s)) == Image(s, Quoted)
  {
    if s != "" {
      UnescapeCodeSubstitute(s[1..]);
      UnescapeCodeOne(s[0], Substitute(EscapeCode, s[1..]));
      assert Image(s, Quoted) == [Quoted(s[0])] + Image(s[1..], Quoted);
    }
  }

  /** Between its backticks a code span holds the newline-joined text, with apostrophes for backticks. */
  lemma CodeRoundTrip(text: string)
    ensures var r := Sanitize(text, true);
            |r| >= 2 && UnescapeCode(r[1..|r| - 1]) == Image(JoinLines(text), Quoted)
  {
    ReplacesAreOneSubstitution(JoinLines(text));
    UnescapeCodeSubstitute(JoinLines(text));
    var inner := Substitute(EscapeCode, JoinLines(text));
    assert Sanitize(text, true)[1..|Sanitize(text, true)| - 1] == inner;
  }

  // ----- what reaches the renderer -----------------------------------------------------

  predicate IsActive(c: char) { c == '<' || c == '>' || c == '|' || c == '`' || IsBreak(c) }

  /** `word` starts the text, and what follows it is inert. */
  predicate Passes(t: string, word: string)
    requires word != ""
    decreases |t|, 0
  {
    |t| >= |word| && t[..|word|] == word && Inert(t[|word|..])
  }

  /** No active character outside a backslash escape or the trusted empty comment after an at sign, and no
      ampersand but at the start of one of the three entities. */
  predicate Inert(t: string)
    decreases |t|, 1
  {
    if t == "" then true
    else if t[0] == '@' then Passes(t, "@<!-- -->")
    else if t[0] == '&' then Passes(t, "&amp;") || Passes(t, "&lt;") || Passes(t, "&gt;")
    else if t[0] == '\\' then Passes(t, "\\\\") || Passes(t, "\\|") || Passes(t, "\\`")
    else !IsActive(t[0]) && Inert(t[1..])
  }

  lemma InertOne(c: char, t: string)
    requires !IsBreak(c) && Inert(t)
    ensures Inert(Escape(c) + t)
  {
    var e := Escape(c);
    var u := e + t;
    assert u[|e|..] == t && u[..|e|] == e && u[0] == e[0];
    if |e| > 1 { assert Passes(u, e); }
  }

  lemma {:induction false} JoinLinesHasNoBreak(s: string)
    ensures forall c | c in JoinLines(s) :: !IsBreak(c)
  {
    if s != "" { JoinLinesHasNoBreak(s[1..]); }
  }

  lemma {:induction false} InertSubstitute(s: string)
    requires forall c | c in s :: !IsBreak(c)
    ensures Inert(Substitute(Escape, s))
  {
    if s != "" {
      InertSubstitute(s[1..]);
      InertOne(s[0], Substitute(Escape, s[1..]));
    }
  }

  /** Whatever the input, a plain cell holds no live tag, entity, mention, cell or row break or code span. */
  lemma SanitizeIsInert(text: string)
    ensures Inert(Sanitize(text, false))
  {
    JoinLinesHasNoBreak(text);
    ReplacesAreOneSubstitution(JoinLines(text));
    InertSubstitute(JoinLines(text));
  }

  lemma {:induction false} CodeSubstituteStays(s: string)
    requires forall c | c in s :: !IsBreak(c)
    ensures forall c | c in Substitute(EscapeCode, s) :: c != '`' && c != '<' && c != '>' && !IsBreak(c)
  {
    if s != "" { CodeSubstituteStays(s[1..]); }
  }

  /** Every pipe has a backslash right before it. */
  predicate PipesEscaped(t: string) { forall k | 0 <= k < |t| && t[k] == '|' :: k > 0 && t[k - 1] == '\\' }

  lemma PipesEscapedBehind(e: string, t: string)
    requires PipesEscaped(e) && PipesEscaped(t)
    ensures PipesEscaped(e + t)
  {
    var u := e + t;
    forall k | 0 <= k < |u| && u[k] == '|' ensures k > 0 && u[k - 1] == '\\' {
      if k >= |e| { assert u[k] == t[k - |e|]; }
    }
  }

  lemma {:induction false} CodePipesEscaped(s: string)
    ensures PipesEscaped(Substitute(EscapeCode, s))
  {
    if s != "" {
      CodePipesEscaped(s[1..]);
      PipesEscapedBehind(EscapeCode(s[0]), Substitute(EscapeCode, s[1..]));
    }
  }

  /** A code span holds no backtick that could end it, no tag or line break, and no pipe that could end
      its table cell. */
  lemma CodeSpanIsClosed(text: string)
    ensures var r := Sanitize(text, true);
            && |r| >= 2 && r[0] == r[|r| - 1] == '`'
            && (forall c | c in r[1..|r| - 1] :: c != '`' && c != '<' && c != '>' && !IsBreak(c))
            && PipesEscaped(r[1..|r| - 1])
  {
    JoinLinesHasNoBreak(text);
    ReplacesAreOneSubstitution(JoinLines(text));
    CodeSubstituteStays(JoinLines(text));
    CodePipesEscaped(JoinLines(text));
    var inner := Substitute(EscapeCode, JoinLines(text));
    assert Sanitize(text, true)[1..|Sanitize(text, true)| - 1] == inner;
  }
}
