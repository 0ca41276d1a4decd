/** Which configuration attributes the signer inventory takes for test-only: every `#[cfg(..)]` the Rust
    grammar has, against what it is compiled under (scripts/check-raw-commitment-signers.py). */
module CfgAttributes {
  import opened Basics
  import opened SignerScan
  import opened SignerTokens

  /** A configuration predicate; the string of `name = "..."` is no token. */
  datatype Cfg = Flag(name: string) | Value(name: string) | Group(op: string, args: seq<Cfg>)

  function Written(c: Cfg): seq<string> {
    match c
    case Flag(name) => [name]
    case Value(name) => [name, "="]
    case Group(op, args) => [op, "("] + (Listed(args) + [")"])
  }

  /** Predicates separated by commas. */
  function Listed(args: seq<Cfg>): seq<string> {
    if args == [] then [] else Written(args[0]) + (if |args| == 1 then [] else [","] + Listed(args[1..]))
  }

  /** The tokens between the brackets of `#[cfg(c)]`. */
  function Attribute(c: Cfg): seq<string> { ["cfg", "("] + (Written(c) + [")"]) }

  predicate IsName(w: string) { w != "(" && w != ")" && w != "[" && w != "]" }

  predicate IsNamed(c: Cfg) {
    match c
    case Flag(name) => IsName(name)
    case Value(name) => IsName(name)
    case Group(op, args) => IsName(op) && forall k | 0 <= k < |args| :: IsNamed(args[k])
  }

  /** The token a predicate starts with. */
  function Head(c: Cfg): string { if c.Group? then c.op else c.name }

  /** `c` is `test`, or `all(..)` with an argument that starts with `test`. */
  predicate SaysTest(c: Cfg) {
    c == Flag("test") || (c.Group? && c.op == "all" && exists k | 0 <= k < |c.args| :: Head(c.args[k]) == "test")
  }

  // ----- bare tokens -------------------------------------------------------------------

  /** `test` stands at `k`, outside every parenthesis. */
  ghost predicate BareAt(s: seq<string>, k: nat) {
    k < |s| && s[k] == "test" && Balance(s, 0, k, "(", ")") == 0
  }

  ghost predicate IsBare(s: seq<string>) { exists k: nat :: BareAt(s, k) }

  lemma BalanceFront(s: seq<string>, t: seq<string>, k: nat, opening: string, ending: string)
    requires k <= |s|
    ensures Balance(s + t, 0, k, opening, ending) == Balance(s, 0, k, opening, ending)
  {
    if k > 0 {
      BalanceFront(s, t, k - 1, opening, ending);
      assert (s + t)[k - 1] == s[k - 1];
    }
  }

  lemma BalanceBack(s: seq<string>, t: seq<string>, k: nat, opening: string, ending: string)
    requires k <= |t| && Balance(s, 0, |s|, opening, ending) == 0
    ensures Balance(s + t, 0, |s| + k, opening, ending) == Balance(t, 0, k, opening, ending)
  {
    assert (s + t)[|s|..|s| + |t|] == t;
    BalanceFront(s, t, |s|, opening, ending);
    BalanceBehind(s + t, 0, |s|, t, k, opening, ending);
  }

  lemma BareJoin(s: seq<string>, t: seq<string>)
    requires Balanced(s, "(", ")")
    ensures IsBare(s + t) <==> IsBare(s) || IsBare(t)
  {
    if IsBare(s) {
      var k: nat :| BareAt(s, k);
      BalanceFront(s, t, k, "(", ")");
      assert BareAt(s + t, k);
    }
    if IsBare(t) {
      var k: nat :| BareAt(t, k);
      BalanceBack(s, t, k, "(", ")");
      assert BareAt(s + t, |s| + k);
    }
    if IsBare(s + t) {
      var k: nat :| BareAt(s + t, k);
      if k < |s| {
        BalanceFront(s, t, k, "(", ")");
        assert BareAt(s, k);
      } else {
        BalanceBack(s, t, k - |s|, "(", ")");
        assert BareAt(t, k - |s|);
      }
    }
  }

  lemma BalancedJoin(s: seq<string>, t: seq<string>, opening: string, ending: string)
    requires Balanced(s, opening, ending) && Balanced(t, opening, ending)
    ensures Balanced(s + t, opening, ending)
  {
    forall k | 0 <= k <= |s + t| ensures Balance(s + t, 0, k, opening, ending) >= 0 {
      if k <= |s| {
        BalanceFront(s, t, k, opening, ending);
      } else {
        BalanceBack(s, t, k - |s|, opening, ending);
      }
    }
    BalanceBack(s, t, |t|, opening, ending);
  }

  /** A single token that is no parenthesis. */
  lemma BareOne(w: string)
    requires w != "(" && w != ")"
    ensures Balanced([w], "(", ")") && (IsBare([w]) <==> w == "test") && !IsBare([])
  {
    OneIsBalanced(w, "(", ")");
    assert Balance([w], 0, 0, "(", ")") == 0;
    if w == "test" { assert BareAt([w], 0); }
  }

  /** Nothing inside parentheses is bare. */
  lemma BareGroup(op: string, inner: seq<string>)
    requires op != "(" && op != ")" && Balanced(inner, "(", ")")
    ensures var s := [op, "("] + (inner + [")"]); Balanced(s, "(", ")") && (IsBare(s) <==> op == "test")
  {
    var s := [op, "("] + (inner + [")"]);
    assert s[0] == op && s[1] == "(" && s[|inner| + 2] == ")" && s[2..2 + |inner|] == inner;
    assert Balance(s, 0, 0, "(", ")") == 0 && Balance(s, 0, 1, "(", ")") == 0 && Balance(s, 0, 2, "(", ")") == 1;
    forall k: nat | 2 <= k < |s| ensures Balance(s, 0, k, "(", ")") >= 1 {
      BalanceBehind(s, 0, 2, inner, k - 2, "(", ")");
    }
    BalanceBehind(s, 0, 2, inner, |inner|, "(", ")");
    assert Balance(s, 0, |s|, "(", ")") == 0;
    if op == "test" { assert BareAt(s, 0); }
  }

  // ----- what a written predicate looks like -------------------------------------------

  lemma {:induction false} WrittenIs(c: Cfg)
    requires IsNamed(c)
    ensures Balanced(Written(c), "(", ")") && (IsBare(Written(c)) <==> Head(c) == "test")
    decreases c, 1
  {
    hide Balanced, IsBare;
    match c
    case Flag(name) => BareOne(name);
    case Value(name) =>
      BareOne(name);
      BareOne("=");
      assert [name] + ["="] == [name, "="];
      BareJoin([name], ["="]);
      BalancedJoin([name], ["="], "(", ")");
    case Group(op, args) =>
      ListedIs(args);
      BareGroup(op, Listed(args));
  }

  lemma {:induction false} ListedIs(args: seq<Cfg>)
    requires forall k | 0 <= k < |args| :: IsNamed(args[k])
    ensures Balanced(Listed(args), "(", ")")
    ensures IsBare(Listed(args)) <==> exists k | 0 <= k < |args| :: Head(args[k]) == "test"
    decreases args, 0
  {
    hide Balanced, IsBare;
    BareOne(",");
    OneIsBalanced(",", "(", ")");
    if args != [] {
      WrittenIs(args[0]);
      var tail := if |args| == 1 then [] else [","] + Listed(args[1..]);
      if |args| > 1 {
        ListedIs(args[1..]);
        BareJoin([","], Listed(args[1..]));
        BalancedJoin([","], Listed(args[1..]), "(", ")");
        assert forall k | 1 <= k < |args| :: args[k] == args[1..][k - 1];
      }
      BareJoin(Written(args[0]), tail);
      BalancedJoin(Written(args[0]), tail, "(", ")");
    }
  }

  /** No bracket is written. */
  lemma {:induction false} WrittenPlain(c: Cfg)
    requires IsNamed(c)
    ensures "[" !in Written(c) && "]" !in Written(c)
    decreases c, 1
  {
    if c.Group? { ListedPlain(c.args); }
  }

  lemma {:induction false} ListedPlain(args: seq<Cfg>)
    requires forall k | 0 <= k < |args| :: IsNamed(args[k])
    ensures "[" !in Listed(args) && "]" !in Listed(args)
    decreases args, 0
  {
    if args != [] {
      WrittenPlain(args[0]);
      if |args| > 1 { ListedPlain(args[1..]); }
    }
  }

  lemma {:induction false} NoneIsBalanced(s: seq<string>, k: nat, opening: string, ending: string)
    requires k <= |s| && opening !in s && ending !in s
    ensures Balance(s, 0, k, opening, ending) == 0
  {
    if k > 0 { NoneIsBalanced(s, k - 1, opening, ending); }
  }

  lemma AttributeIsBalanced(c: Cfg)
    requires IsNamed(c)
    ensures Balanced(Attribute(c), "[", "]")
  {
    WrittenPlain(c);
    forall k | 0 <= k <= |Attribute(c)| ensures Balance(Attribute(c), 0, k, "[", "]") == 0 {
      NoneIsBalanced(Attribute(c), k, "[", "]");
    }
  }

  // ----- which attributes are test-only ------------------------------------------------

  lemma AttributeStart(c: Cfg)
    ensures Attribute(c) != ["test"] && (Attribute(c) == ["cfg", "(", "test", ")"] <==> c == Flag("test"))
    ensures ["cfg", "(", "all", "("] <= Attribute(c) <==> c.Group? && c.op == "all"
  {
    var s := Attribute(c);
    assert s[0] == "cfg" && s[1] == "(" && s[2] == Written(c)[0];
    assert s[3] == (Written(c) + [")"])[1];
    if c.Group? { assert Written(c)[1] == "("; }
  }

  lemma BareBehind(s: seq<string>)
    requires |s| >= 4
    ensures HasBareTest(s, 4) <==> IsBare(s[4..])
  {
    forall k | 4 <= k <= |s|
      ensures Balance(s, 4, k, "(", ")") == Balance(s[4..], 0, k - 4, "(", ")")
    {
      assert s[4..4 + |s[4..]|] == s[4..];
      assert Balance(s, 4, 4, "(", ")") == 0;
      BalanceBehind(s, 4, 4, s[4..], k - 4, "(", ")");
    }
    if HasBareTest(s, 4) {
      var k :| 4 <= k < |s| && s[k] == "test" && Balance(s, 4, k, "(", ")") == 0;
      assert BareAt(s[4..], k - 4);
    }
    if IsBare(s[4..]) {
      var k: nat :| BareAt(s[4..], k);
      assert s[4 + k] == "test" && Balance(s, 4, 4 + k, "(", ")") == 0;
    }
  }

  lemma NoBareEnd()
    ensures !IsBare([")", ")"])
  {
  }

  /** Of all attributes `#[cfg(c)]` those are test-only where `c` is `test` or has the form `all(..)` with an
      argument that starts with `test`. */
  lemma CfgIff(c: Cfg)
    requires IsNamed(c)
    ensures IsTestOnly(Attribute(c)) <==> SaysTest(c)
  {
    hide IsBare, Balanced, HasBareTest;
    AttributeStart(c);
    if c.Group? && c.op == "all" {
      var s, inner := Attribute(c), Listed(c.args);
      assert s[4..] == inner + [")", ")"];
      BareBehind(s);
      ListedIs(c.args);
      BareJoin(inner, [")", ")"]);
      NoBareEnd();
    }
  }

  // ----- what an item is compiled under ------------------------------------------------

  /** Whether an item under `c` is compiled when the options for which `on` says so are set. */
  ghost predicate Holds(c: Cfg, on: Cfg -> bool) {
    if c.Group? && c.op == "all" then forall k | 0 <= k < |c.args| :: Holds(c.args[k], on)
    else if c.Group? && c.op == "any" then exists k | 0 <= k < |c.args| :: Holds(c.args[k], on)
    else if c.Group? && c.op == "not" && |c.args| == 1 then !Holds(c.args[0], on)
    else on(c)
  }

  /** `test` is used only as the flag it is. */
  predicate TestIsFlag(c: Cfg) {
    if c.Group? then c.op != "test" && forall k | 0 <= k < |c.args| :: TestIsFlag(c.args[k]) else c != Value("test")
  }

  /** An item that is skipped is compiled only for tests, wherever `test` is only used as a flag. */
  lemma SkippedIsTestOnly(c: Cfg, on: Cfg -> bool)
    requires IsNamed(c) && TestIsFlag(c) && IsTestOnly(Attribute(c))
    ensures Holds(c, on) ==> on(Flag("test"))
  {
    CfgIff(c);
    if c.Group? {
      var k :| 0 <= k < |c.args| && Head(c.args[k]) == "test";
      assert TestIsFlag(c.args[k]) && c.args[k] == Flag("test");
    }
  }

  /** The other way it errs on the side of reporting: `all(all(test))` is compiled only for tests and not
      skipped. */
  lemma NestedTestIsReported(on: Cfg -> bool)
    ensures var c := Group("all", [Group("all", [Flag("test")])]);
            (Holds(c, on) ==> on(Flag("test"))) && !IsTestOnly(Attribute(c))
  {
    var inner := Group("all", [Flag("test")]);
    var c := Group("all", [inner]);
    assert c.args[0] == inner && inner.args[0] == Flag("test");
    CfgIff(c);
    assert !SaysTest(c);
  }

  /** `test = ".."` is taken for the flag. */
  lemma TestValueIsSkipped(on: Cfg -> bool)
    ensures var c := Group("all", [Value("test")]);
            IsTestOnly(Attribute(c)) && (Holds(c, on) <==> on(Value("test")))
  {
    var c := Group("all", [Value("test")]);
    assert c.args[0] == Value("test");
    CfgIff(c);
  }

  /** Nothing under a negation is skipped. */
  lemma NegatedIsReported(c: Cfg, more: seq<Cfg>)
    requires IsNamed(c) && forall k | 0 <= k < |more| :: IsNamed(more[k]) && Head(more[k]) != "test"
    ensures !IsTestOnly(Attribute(Group("not", [c])))
    ensures !IsTestOnly(Attribute(Group("all", [Group("not", [c])] + more)))
  {
    var n := Group("not", [c]);
    assert n.args[0] == c;
    CfgIff(n);
    var all := Group("all", [n] + more);
    assert all.args[0] == n && forall k | 1 <= k < |all.args| :: all.args[k] == more[k - 1];
    CfgIff(all);
  }

  // ----- from the attribute to the file ------------------------------------------------

  /** At an attribute the scan goes on behind its item exactly when the attribute says so. */
  lemma StepAtCfg(x: seq<string>, i: nat, c: Cfg)
    requires IsNamed(c) && HasAt(x, i, ["#", "["] + (Attribute(c) + ["]"]))
    ensures i + 3 + |Attribute(c)| <= |x|
    ensures StepAt(x, i) == if SaysTest(c) then ItemFrom(x, i + 3 + |Attribute(c)|) else Look
  {
    hide HasAt, Closing, ItemFrom, IsTestOnly, Balanced, StepAt, SaysTest, Attribute;
    var attr := Attribute(c);
    assert attr + (["]"] + []) == attr + ["]"];
    ItemParts(x, i, attr, []);
    AttributeIsBalanced(c);
    ClosesBehind(x, i + 1, attr, "[", "]");
    SliceIs(x, i + 2, attr);
    CfgIff(c);
    if SaysTest(c) { StepIs(x, i, i + 2 + |attr|); } else { StepLooks(x, i, i + 2 + |attr|); }
  }

  /** A file's calls are the same whatever an item under `#[cfg(test)]` or `#[cfg(all(.., test, ..))]` holds. */
  lemma CfgBodyIsInvisible(before: seq<string>, c: Cfg, header: seq<string>, body: seq<string>,
                           body': seq<string>, after: seq<string>)
    requires IsNamed(c) && SaysTest(c) && IsHeader(header) && Balanced(body, "{", "}") && Balanced(body', "{", "}")
    requires Walks(WithItem(before, Attribute(c), header, body, after), 0, |before|,
                   BraceAt(before, Attribute(c), header))
    requires !OpenCall(WithItem(before, Attribute(c), header, body, after), 0, |before|,
                       BraceAt(before, Attribute(c), header))
    ensures Calls(ScanFrom(WithItem(before, Attribute(c), header, body, after), 0))
         == Calls(ScanFrom(WithItem(before, Attribute(c), header, body', after), 0))
  {
    hide ScanFrom, Calls, WithItem, IsHeader, Walks, OpenCall, Balanced, IsTestOnly, SaysTest, Attribute;
    CfgIff(c);
    AttributeIsBalanced(c);
    TestBodyIsInvisible(before, Attribute(c), header, body, body', after);
  }

  /** A file that is one `#[cfg(test)] mod tests { .. }` reports nothing. */
  lemma TestModuleReportsNothing(body: seq<string>)
    requires Balanced(body, "{", "}")
    ensures var x := ["#", "[", "cfg", "(", "test", ")", "]", "mod", "tests", "{"] + (body + ["}"]);
            Calls(ScanFrom(x, 0)) == Some([])
  {
    var x := ["#", "[", "cfg", "(", "test", ")", "]", "mod", "tests", "{"] + (body + ["}"]);
    var c, header := Flag("test"), ["mod", "tests"];
    assert Attribute(c) == ["cfg", "(", "test", ")"];
    assert WithItem([], Attribute(c), header, body, []) == x;
    hide ScanFrom, Calls, WithItem, Balanced, IsTestOnly;
    CfgIff(c);
    AttributeIsBalanced(c);
    ItemCalls([], Attribute(c), header, body, []);
    NoCallsAtEnd(x, |x|);
  }
}
