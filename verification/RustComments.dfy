/** Blanking of Rust comments before a scan (scripts/check-no-dyn-dispatch.py). */
module RustComments {
  import opened Basics

  // ----- where comments are ------------------------------------------------------------

  datatype Mark = Newline | LineOpen | BlockOpen | BlockClose

  predicate At(text: string, i: nat, mark: Mark) {
    match mark
    case Newline => i < |text| && text[i] == '\n'
    case LineOpen => Two(text, i, '/', '/')
    case BlockOpen => Two(text, i, '/', '*')
    case BlockClose => Two(text, i, '*', '/')
  }

  predicate IsOpener(text: string, i: nat) { At(text, i, LineOpen) || At(text, i, BlockOpen) }

  /** The first such mark at or after `i`, or the end of the text. */
  function First(text: string, i: nat, mark: Mark): (r: nat)
    requires i <= |text|
    ensures i <= r <= |text|
    ensures r < |text| ==> At(text, r, mark)
    ensures forall k | i <= k < r :: !At(text, k, mark)
    decreases |text| - i
  {
    if i == |text| || At(text, i, mark) then i else First(text, i + 1, mark)
  }

  function FirstOpener(text: string, i: nat): (r: nat)
    requires i <= |text|
    ensures i <= r <= |text|
    ensures r < |text| ==> IsOpener(text, r)
    ensures forall k | i <= k < r :: !IsOpener(text, k)
  {
    var line, block := First(text, i, LineOpen), First(text, i, BlockOpen);
    if line <= block then line else block
  }

  /** Just past the first block terminator at or after `i`, or the end of the text. */
  function BlockEnd(text: string, i: nat): (e: nat)
    requires i <= |text|
    ensures i <= e <= |text|
  {
    var s := First(text, i, BlockClose);
    if s == |text| then s else s + 2
  }

  /** The end of the comment opened at `s`: a line comment stops before its newline, a block comment
      after the first terminator, and either at the end of the text. */
  function CommentEnd(text: string, s: nat): (e: nat)
    requires s < |text| && IsOpener(text, s)
    ensures s + 2 <= e <= |text|
  {
    if At(text, s, LineOpen) then First(text, s + 2, Newline) else BlockEnd(text, s + 2)
  }

  /** Position `i` lies in a comment opened at or after `p`, going comment by comment. */
  predicate InComment(text: string, p: nat, i: nat)
    requires p <= |text|
    decreases |text| - p
  {
    var s := FirstOpener(text, p);
    s < |text| && s <= i && (i < CommentEnd(text, s) || InComment(text, CommentEnd(text, s), i))
  }

  // ----- blanking ----------------------------------------------------------------------

  function BlankChar(c: char): char { if c == '\n' then c else ' ' }

  /** `text[lo..hi]` blanked. */
  function Blank(text: string, lo: nat, hi: nat): (r: string)
    requires lo <= hi <= |text|
    ensures |r| == hi - lo && forall k | 0 <= k < |r| :: r[k] == BlankChar(text[lo + k])
  {
    seq(hi - lo, k requires 0 <= k < hi - lo => BlankChar(text[lo + k]))
  }

  /** `text[p..]` with its comments blanked. */
  function Blanked(text: string, p: nat): string
    requires p <= |text|
    decreases |text| - p
  {
    var s := FirstOpener(text, p);
    if s == |text| then text[p..]
    else text[p..s] + (Blank(text, s, CommentEnd(text, s)) + Blanked(text, CommentEnd(text, s)))
  }

  // ----- the loop ----------------------------------------------------------------------

  datatype Mode = Code | Line | Block

  /** What the scan still owes at `i`. */
  ghost function Remaining(text: string, i: nat, mode: Mode): string
    requires i <= |text|
  {
    match mode
    case Code => Blanked(text, i)
    case Line => var e := First(text, i, Newline); Blank(text, i, e) + Blanked(text, e)
    case Block => var e := BlockEnd(text, i); Blank(text, i, e) + Blanked(text, e)
  }

  lemma FirstOpenerUnique(text: string, i: nat, s: nat)
    requires i <= s <= |text|
    requires s < |text| ==> IsOpener(text, s)
    requires forall k | i <= k < s :: !IsOpener(text, k)
    ensures FirstOpener(text, i) == s
  {
  }

  lemma CodeStep(text: string, i: nat)
    requires i < |text| && !IsOpener(text, i)
    ensures Remaining(text, i, Code) == [text[i]] + Remaining(text, i + 1, Code)
  {
    var s := FirstOpener(text, i);
    FirstOpenerUnique(text, i + 1, s);
    if s == |text| {
      assert text[i..] == [text[i]] + text[i + 1..];
    } else {
      assert text[i..s] == [text[i]] + text[i + 1..s];
    }
  }

  lemma BlankStep(text: string, i: nat, e: nat)
    requires i < e <= |text|
    ensures Blank(text, i, e) == [BlankChar(text[i])] + Blank(text, i + 1, e)
  {
  }

  lemma BlankTwo(text: string, i: nat, e: nat)
    requires i + 2 <= e <= |text| && text[i] != '\n' && text[i + 1] != '\n'
    ensures Blank(text, i, e) == "  " + Blank(text, i + 2, e)
  {
    BlankStep(text, i, e);
    BlankStep(text, i + 1, e);
  }

  lemma OpenStep(text: string, i: nat)
    requires i < |text| && IsOpener(text, i)
    ensures Remaining(text, i, Code) == "  " + Remaining(text, i + 2, if At(text, i, LineOpen) then Line else Block)
  {
    FirstOpenerUnique(text, i, i);
    var e := CommentEnd(text, i);
    assert text[i..i] == [];
    BlankTwo(text, i, e);
  }

  lemma LineStep(text: string, i: nat)
    requires i < |text|
    ensures text[i] == '\n' ==> Remaining(text, i, Line) == [text[i]] + Remaining(text, i + 1, Code)
    ensures text[i] != '\n' ==> Remaining(text, i, Line) == " " + Remaining(text, i + 1, Line)
  {
    if text[i] == '\n' {
      assert First(text, i, Newline) == i && Blank(text, i, i) == [];
      CodeStep(text, i);
    } else {
      BlankStep(text, i, First(text, i, Newline));
    }
  }

  lemma BlockClosesHere(text: string, i: nat)
    requires At(text, i, BlockClose)
    ensures Remaining(text, i, Block) == "  " + Remaining(text, i + 2, Code)
  {
    assert BlockEnd(text, i) == i + 2;
    BlankTwo(text, i, i + 2);
    assert Blank(text, i + 2, i + 2) == [];
  }

  lemma BlockGoesOn(text: string, i: nat)
    requires i < |text| && !At(text, i, BlockClose)
    ensures Remaining(text, i, Block) == [BlankChar(text[i])] + Remaining(text, i + 1, Block)
  {
    assert BlockEnd(text, i) == BlockEnd(text, i + 1);
    BlankStep(text, i, BlockEnd(text, i));
  }

  function ModeOf(inLine: bool, inBlock: bool): Mode { if inLine then Line else if inBlock then Block else Code }

  /** One iteration: what it writes, where it goes on, and in which mode. */
  function Step(text: string, i: nat, mode: Mode): (string, nat, Mode)
    requires i < |text|
  {
    match mode
    case Line => if text[i] == '\n' then ("\n", i + 1, Code) else (" ", i + 1, Line)
    case Block =>
      if At(text, i, BlockClose) then ("  ", i + 2, Code) else ([BlankChar(text[i])], i + 1, Block)
    case Code =>
      if At(text, i, LineOpen) then ("  ", i + 2, Line)
      else if At(text, i, BlockOpen) then ("  ", i + 2, Block)
      else ([text[i]], i + 1, Code)
  }

  lemma StepIsOwed(text: string, i: nat, mode: Mode)
    requires i < |text|
    ensures var (piece, j, next) := Step(text, i, mode);
            i < j <= |text| && Remaining(text, i, mode) == piece + Remaining(text, j, next)
  {
    match mode {
      case Line => LineStep(text, i);
      case Block => if At(text, i, BlockClose) { BlockClosesHere(text, i); } else { BlockGoesOn(text, i); }
      case Code => if IsOpener(text, i) { OpenStep(text, i); } else { CodeStep(text, i); }
    }
  }

  lemma Append(whole: string, out: string, owed: string, piece: string, rest: string)
    requires whole == out + owed && owed == piece + rest
    ensures whole == (out + piece) + rest
  {
  }

  lemma NothingOwedAtEnd(text: string, mode: Mode)
    ensures Remaining(text, |text|, mode) == []
  {
  }

  /** The body of the loop, with its two flags. */
  method Advance(text: string, i: nat, inLine: bool, inBlock: bool)
      returns (piece: string, j: nat, line: bool, block: bool)
    requires i < |text| && !(inLine && inBlock)
    ensures (piece, j, ModeOf(line, block)) == Step(text, i, ModeOf(inLine, inBlock)) && !(line && block)
  {
    var c := text[i];
    var next := if i + 1 < |text| then [text[i + 1]] else "";
    line, block := inLine, inBlock;
    if inLine {
      if c == '\n' {
        return [c], i + 1, false, block;
      }
      return " ", i + 1, line, block;
    }
    if inBlock {
      if c == '*' && next == "/" {
        return "  ", i + 2, line, false;
      }
      return [if c == '\n' then '\n' else ' '], i + 1, line, block;
    }
    if c == '/' && next == "/" {
      return "  ", i + 2, true, block;
    }
    if c == '/' && next == "*" {
      return "  ", i + 2, line, true;
    }
    return [c], i + 1, line, block;
  }

  method StripRustComments(text: string) returns (out: string)
    ensures out == Blanked(text, 0)
  {
    out := "";
    var i: nat := 0;
    var inLine, inBlock := false, false;
    ghost var whole := Blanked(text, 0);
    assert out + whole == whole;
    while i < |text|
      invariant i <= |text| && !(inLine && inBlock)
      invariant whole == out + Remaining(text, i, ModeOf(inLine, inBlock))
      decreases |text| - i
    {
      StepIsOwed(text, i, ModeOf(inLine, inBlock));
      var piece, j, line, block := Advance(text, i, inLine, inBlock);
      Append(whole, out, Remaining(text, i, ModeOf(inLine, inBlock)), piece, Remaining(text, j, ModeOf(line, block)));
      out, i, inLine, inBlock := out + piece, j, line, block;
    }
    NothingOwedAtEnd(text, ModeOf(inLine, inBlock));
  }

  // ----- properties --------------------------------------------------------------------

  lemma {:induction false} BlankedLength(text: string, p: nat)
    requires p <= |text|
    ensures |Blanked(text, p)| == |text| - p
    decreases |text| - p
  {
    var s := FirstOpener(text, p);
    if s < |text| { BlankedLength(text, CommentEnd(text, s)); }
  }

  /** Character by character: comments become spaces, newlines and code stay. */
  lemma {:induction false} BlankedAt(text: string, p: nat, i: nat)
    requires p <= i < |text|
    ensures |Blanked(text, p)| == |text| - p
    ensures Blanked(text, p)[i - p] == if InComment(text, p, i) then BlankChar(text[i]) else text[i]
    decreases |text| - p
  {
    BlankedLength(text, p);
    var s := FirstOpener(text, p);
    if s < |text| {
      var e := CommentEnd(text, s);
      BlankedLength(text, e);
      if i >= e { BlankedAt(text, e, i); }
    }
  }

  /** Length and every newline position are preserved, and a character changes only inside a comment
      and only to a space. */
  lemma StripKeepsLayout(text: string, i: nat)
    requires i < |text|
    ensures |Blanked(text, 0)| == |text|
    ensures Blanked(text, 0)[i] == '\n' <==> text[i] == '\n'
    ensures Blanked(text, 0)[i] != text[i] ==> Blanked(text, 0)[i] == ' ' && InComment(text, 0, i)
    ensures InComment(text, 0, i) && text[i] != '\n' ==> Blanked(text, 0)[i] == ' '
  {
    BlankedAt(text, 0, i);
  }

  lemma {:induction false} OpenersAreInComments(text: string, p: nat, i: nat)
    requires p <= i < |text| && IsOpener(text, i)
    ensures InComment(text, p, i)
    decreases |text| - p
  {
    var s := FirstOpener(text, p);
    if i >= CommentEnd(text, s) { OpenersAreInComments(text, CommentEnd(text, s), i); }
  }

  /** No comment opener survives. */
  lemma StripLeavesNoOpener(text: string, i: nat)
    ensures !IsOpener(Blanked(text, 0), i)
  {
    hide Blanked, InComment;
    var r := Blanked(text, 0);
    BlankedLength(text, 0);
    if i + 1 < |text| && r[i] == '/' && (r[i + 1] == '/' || r[i + 1] == '*') {
      StripKeepsLayout(text, i);
      StripKeepsLayout(text, i + 1);
      OpenersAreInComments(text, 0, i);
      assert false;
    }
  }

  /** Stripping twice is stripping once. */
  lemma StripIsIdempotent(text: string)
    ensures Blanked(Blanked(text, 0), 0) == Blanked(text, 0)
  {
    var r := Blanked(text, 0);
    if FirstOpener(r, 0) < |r| {
      StripLeavesNoOpener(text, FirstOpener(r, 0));
      assert false;
    }
  }

  // ----- stripping written out ---------------------------------------------------------

  /** From `p` to `s` no comment opens. */
  predicate IsCode(text: string, p: nat, s: nat) {
    forall k | p <= k < s && k + 1 < |text| :: !(text[k] == '/' && (text[k + 1] == '/' || text[k + 1] == '*'))
  }

  /** From `p` on the code up to `s` is kept, what is between `s` and `e` blanked, and the rest stripped. */
  ghost predicate Strips(text: string, p: nat, s: nat, e: nat) {
    p <= s <= e <= |text| && Blanked(text, p) == text[p..s] + (Blank(text, s, e) + Blanked(text, e))
  }

  /** Where no comment opens nothing changes. */
  lemma StripCode(text: string, p: nat)
    requires p <= |text| && IsCode(text, p, |text|)
    ensures Blanked(text, p) == text[p..]
  {
    FirstOpenerUnique(text, p, |text|);
  }

  lemma FirstIs(text: string, i: nat, r: nat, mark: Mark)
    requires i <= r <= |text| && (r < |text| ==> At(text, r, mark)) && forall k | i <= k < r :: !At(text, k, mark)
    ensures First(text, i, mark) == r
  {
  }

  lemma StripComment(text: string, p: nat, s: nat)
    requires p <= s < |text| && IsCode(text, p, s) && IsOpener(text, s)
    ensures Strips(text, p, s, CommentEnd(text, s))
  {
    FirstOpenerUnique(text, p, s);
    hide CommentEnd, Blank;
  }

  /** A line comment is blanked up to the end of its line, whatever it holds. */
  lemma StripLine(text: string, p: nat, s: nat, e: nat)
    requires p <= s && s + 2 <= e <= |text| && IsCode(text, p, s) && text[s] == '/' && text[s + 1] == '/'
    requires (e < |text| ==> text[e] == '\n') && forall k | s + 2 <= k < e :: text[k] != '\n'
    ensures Strips(text, p, s, e)
  {
    FirstIs(text, s + 2, e, Newline);
    StripComment(text, p, s);
    hide Strips;
  }

  /** A block comment is blanked up to its first terminator: it does not nest. */
  lemma StripBlock(text: string, p: nat, s: nat, e: nat)
    requires p <= s && s + 4 <= e <= |text| && IsCode(text, p, s) && text[s] == '/' && text[s + 1] == '*'
    requires text[e - 2] == '*' && text[e - 1] == '/'
    requires forall k | s + 2 <= k < e - 2 :: !(text[k] == '*' && text[k + 1] == '/')
    ensures Strips(text, p, s, e)
  {
    hide First, FirstOpener, Blanked;
    assert At(text, e - 2, BlockClose);
    forall k | s + 2 <= k < e - 2 ensures !At(text, k, BlockClose) {}
    FirstIs(text, s + 2, e - 2, BlockClose);
    StripComment(text, p, s);
    hide Strips;
  }

  /** One that is not terminated is blanked to the end of the text. */
  lemma StripUnterminated(text: string, p: nat, s: nat)
    requires p <= s && s + 2 <= |text| && IsCode(text, p, s) && text[s] == '/' && text[s + 1] == '*'
    requires forall k | s + 2 <= k < |text| - 1 :: !(text[k] == '*' && text[k + 1] == '/')
    ensures Strips(text, p, s, |text|)
  {
    hide First, FirstOpener, Blanked;
    FirstIs(text, s + 2, |text|, BlockClose);
    StripComment(text, p, s);
    hide Strips;
  }
}
