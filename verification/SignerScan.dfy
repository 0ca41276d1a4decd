/** The inventory of raw signer calls in a token list, skipping test-only items
    (scripts/check-raw-commitment-signers.py). */
module SignerScan {
  import opened Basics
  import opened SignerTokens

  const RAW: set<string> := {"sign_commitment", "sign_commitment_with_salt",
                             "sign_commitment_with_status", "sign_commitment_with_holder"}

  // ----- test-only attributes ----------------------------------------------------------

  /** Some `test` stands outside every parenthesis opened from `lo` on. */
  predicate HasBareTest(attr: seq<string>, lo: nat)
    requires lo <= |attr|
  {
    exists k | lo <= k < |attr| :: attr[k] == "test" && Balance(attr, lo, k, "(", ")") == 0
  }

  predicate IsTestOnly(attr: seq<string>) {
    || attr == ["test"] || attr == ["cfg", "(", "test", ")"]
    || (["cfg", "(", "all", "("] <= attr && HasBareTest(attr, 4))
  }

  /** As many parentheses are opened as ended in `s`. */
  ghost predicate IsEven(s: seq<string>) { multiset(s)["("] == multiset(s)[")"] }

  /** The attribute is `test`, `cfg(test)`, or `cfg(all(` with a `test` behind it before which as many
      parentheses are opened as ended. */
  lemma TestOnlyIff(attr: seq<string>)
    ensures IsTestOnly(attr) <==>
            || attr == ["test"]
            || attr == ["cfg", "(", "test", ")"]
            || (|attr| >= 4 && attr[..4] == ["cfg", "(", "all", "("]
                && exists k | 4 <= k < |attr| :: attr[k] == "test" && IsEven(attr[4..k]))
  {
    if |attr| >= 4 && attr[..4] == ["cfg", "(", "all", "("] {
      forall k | 4 <= k < |attr| ensures Balance(attr, 4, k, "(", ")") == 0 <==> IsEven(attr[4..k]) {
        BalanceCounts(attr, 4, k, "(", ")");
      }
      assert ["cfg", "(", "all", "("] <= attr;
      hide Balance, IsEven;
    }
  }

  method TestOnlyAttribute(attr: seq<string>) returns (r: bool)
    ensures r == IsTestOnly(attr)
  {
    if attr == ["test"] || attr == ["cfg", "(", "test", ")"] { return true; }
    if ["cfg", "(", "all", "("] <= attr {
      var depth := 0;
      for k := 4 to |attr|
        invariant depth == Balance(attr, 4, k, "(", ")")
        invariant forall j | 4 <= j < k :: !(attr[j] == "test" && Balance(attr, 4, j, "(", ")") == 0)
      {
        if depth == 0 && attr[k] == "test" { return true; }
        if attr[k] == "(" { depth := depth + 1; }
        if attr[k] == ")" { depth := depth - 1; }
      }
    }
    return false;
  }

  // ----- the scan as a function --------------------------------------------------------

  /** A call: where its name stands, the signer, and its argument tokens joined by spaces. */
  datatype Site = Site(at: nat, signer: string, args: string)

  datatype Found = Found(calls: seq<Site>, modules: seq<string>)

  /** What the scan does at a position: fails, goes on after a test-only item, or looks for a call. */
  datatype Step = Stuck | SkipTo(next: nat, modules: seq<string>) | Look

  function Join(ss: seq<string>): string {
    if ss == [] then "" else if |ss| == 1 then ss[0] else ss[0] + (" " + Join(ss[1..]))
  }

  /** The first brace or semicolon at or after `i`, or the end. */
  function BodyStart(x: seq<string>, i: nat): (j: nat)
    requires i <= |x|
    ensures i <= j <= |x| && (j < |x| ==> x[j] == "{" || x[j] == ";")
    ensures forall k | i <= k < j :: x[k] != "{" && x[k] != ";"
    decreases |x| - i
  {
    if i == |x| || x[i] == "{" || x[i] == ";" then i else BodyStart(x, i + 1)
  }

  /** The item after a test-only attribute. */
  function ItemFrom(x: seq<string>, i: nat): Step
    requires i <= |x|
  {
    var modules := if i + 2 < |x| && x[i] == "mod" && x[i + 2] == ";" then [x[i + 1]] else [];
    var j := BodyStart(x, i);
    if j < |x| && x[j] == "{" then
      match Closing(x, j, "{", "}")
      case None => Stuck
      case Some(c) => SkipTo(c + 1, modules)
    else SkipTo(j + 1, modules)
  }

  predicate IsAttribute(x: seq<string>, i: nat) { i + 1 < |x| && x[i] == "#" && x[i + 1] == "[" }

  function StepAt(x: seq<string>, i: nat): Step
    requires i < |x|
  {
    if !IsAttribute(x, i) then Look
    else match Closing(x, i + 1, "[", "]")
      case None => Stuck
      case Some(end) =>
        CloseIsLater(x, i + 1, "[", "]");
        if IsTestOnly(x[i + 2..end]) then ItemFrom(x, end + 1) else Look
  }

  predicate IsCall(x: seq<string>, i: nat) {
    0 < i && i + 1 < |x| && x[i] in RAW && (x[i - 1] == "." || x[i - 1] == ":") && x[i + 1] == "("
  }

  function Both(a: Found, b: Option<Found>): Option<Found> {
    if b.None? then None else Some(Found(a.calls + b.value.calls, a.modules + b.value.modules))
  }

  /** The calls and test modules from `i` on; none where a delimiter is left open. */
  function ScanFrom(x: seq<string>, i: nat): Option<Found>
    decreases |x| - i
  {
    if i >= |x| then Some(Found([], []))
    else match StepAt(x, i)
      case Stuck => None
      case SkipTo(next, modules) => StepGoesOn(x, i); Both(Found([], modules), ScanFrom(x, next))
      case Look =>
        if !IsCall(x, i) then ScanFrom(x, i + 1)
        else match Closing(x, i + 1, "(", ")")
          case None => None
          case Some(end) =>
            CloseIsLater(x, i + 1, "(", ")");
            Both(Found([Site(i, x[i], Join(x[i + 2..end]))], []), ScanFrom(x, i + 1))
  }

  lemma CloseIsLater(x: seq<string>, start: nat, opening: string, ending: string)
    requires start < |x| && x[start] == opening && opening != ending
    ensures var r := Closing(x, start, opening, ending); r.Some? ==> start < r.value < |x|
  {
  }

  lemma StepGoesOn(x: seq<string>, i: nat)
    requires i < |x|
    ensures StepAt(x, i).SkipTo? ==> i < StepAt(x, i).next <= |x| + 1
  {
  }

  // ----- the loops ---------------------------------------------------------------------

  method SkipBody(x: seq<string>, start: nat) returns (s: Step)
    requires start <= |x|
    ensures s == ItemFrom(x, start)
  {
    var j := start;
    var modules := if j + 2 < |x| && x[j] == "mod" && x[j + 2] == ";" then [x[j + 1]] else [];
    while j < |x| && x[j] != "{" && x[j] != ";"
      invariant start <= j <= |x| && BodyStart(x, start) == BodyStart(x, j)
    {
      j := j + 1;
    }
    if j < |x| && x[j] == "{" {
      var c := Close(x, j, "{", "}");
      if c.None? { return Stuck; }
      j := c.value;
    }
    return SkipTo(j + 1, modules);
  }

  method SkipItem(x: seq<string>, i: nat) returns (s: Step)
    requires i < |x|
    ensures s == StepAt(x, i)
  {
    hide ItemFrom, IsTestOnly, ClosingFrom;
    if !IsAttribute(x, i) { return Look; }
    var end := Close(x, i + 1, "[", "]");
    if end.None? { return Stuck; }
    CloseIsLater(x, i + 1, "[", "]");
    var testOnly := TestOnlyAttribute(x[i + 2..end.value]);
    if !testOnly { return Look; }
    s := SkipBody(x, end.value + 1);
  }

  /** A call as reported, with the line its name stands on. */
  datatype Call = Call(line: nat, signer: string, args: string)

  function OnLine(t: seq<Token>): Site -> Call {
    (s: Site) => Call(if s.at < |t| then t[s.at].line else 0, s.signer, s.args)
  }

  lemma BothStep(a: Found, b: Found, rest: Option<Found>)
    ensures Both(a, Both(b, rest)) == Both(Found(a.calls + b.calls, a.modules + b.modules), rest)
  {
    if rest.Some? {
      assert a.calls + (b.calls + rest.value.calls) == a.calls + b.calls + rest.value.calls;
      assert a.modules + (b.modules + rest.value.modules) == a.modules + b.modules + rest.value.modules;
    }
  }

  lemma BothNothing(f: Option<Found>)
    ensures Both(Found([], []), f) == f
  {
    if f.Some? { assert [] + f.value.calls == f.value.calls && [] + f.value.modules == f.value.modules; }
  }

  lemma ScanSkips(x: seq<string>, i: nat)
    requires i < |x| && StepAt(x, i).SkipTo?
    ensures ScanFrom(x, i) == Both(Found([], StepAt(x, i).modules), ScanFrom(x, StepAt(x, i).next))
    ensures i < StepAt(x, i).next
  {
    hide StepAt;
    StepGoesOn(x, i);
  }

  lemma ScanStops(x: seq<string>, i: nat)
    requires i < |x|
    ensures StepAt(x, i).Stuck? || (StepAt(x, i).Look? && IsCall(x, i) && Closing(x, i + 1, "(", ")").None?)
            ==> ScanFrom(x, i).None?
  {
    hide StepAt, IsCall;
  }

  lemma ScanLooks(x: seq<string>, i: nat)
    requires i < |x| && StepAt(x, i).Look?
    ensures !IsCall(x, i) ==> ScanFrom(x, i) == ScanFrom(x, i + 1)
    ensures IsCall(x, i) && Closing(x, i + 1, "(", ")").Some? ==>
              var end := Closing(x, i + 1, "(", ")").value;
              && i + 2 <= end < |x|
              && ScanFrom(x, i) == Both(Found([Site(i, x[i], Join(x[i + 2..end]))], []), ScanFrom(x, i + 1))
  {
    if IsCall(x, i) { CloseIsLater(x, i + 1, "(", ")"); }
    hide StepAt, IsCall, Closing;
  }

  method Scan(t: seq<Token>) returns (r: Option<(seq<Call>, seq<string>)>)
    ensures var f := ScanFrom(Texts(t), 0);
            && r.Some? == f.Some?
            && (r.Some? ==> r.value == (Image(f.value.calls, OnLine(t)), f.value.modules))
  {
    hide StepAt, IsCall, Closing, ScanFrom, Both;
    var x := Texts(t);
    var calls: seq<Call>, modules: seq<string>, i: nat := [], [], 0;
    ghost var sites: seq<Site> := [];
    BothNothing(ScanFrom(x, 0));
    while i < |x|
      invariant ScanFrom(x, 0) == Both(Found(sites, modules), ScanFrom(x, i))
      invariant calls == Image(sites, OnLine(t))
      decreases |x| - i
    {
      var step := SkipItem(x, i);
      ScanStops(x, i);
      if step.Stuck? {
        StuckIsNone(Found(sites, modules), ScanFrom(x, i));
        return None;
      }
      if step.SkipTo? {
        ScanSkips(x, i);
        BothStep(Found(sites, modules), Found([], step.modules), ScanFrom(x, step.next));
        assert sites + [] == sites;
        modules, i := modules + step.modules, step.next;
      } else {
        ScanLooks(x, i);
        if IsCall(x, i) {
          var end := Close(x, i + 1, "(", ")");
          if end.None? {
            StuckIsNone(Found(sites, modules), ScanFrom(x, i));
            return None;
          }
          ghost var site := Site(i, x[i], Join(x[i + 2..end.value]));
          BothStep(Found(sites, modules), Found([site], []), ScanFrom(x, i + 1));
          assert modules + [] == modules;
          calls, sites := calls + [Call(t[i].line, x[i], Join(x[i + 2..end.value]))], sites + [site];
        }
        i := i + 1;
      }
    }
    ScanEnds(x, i, Found(sites, modules));
    r := Some((calls, modules));
  }

  lemma StuckIsNone(a: Found, b: Option<Found>)
    requires b.None?
    ensures Both(a, b).None?
  {
  }

  lemma ScanEnds(x: seq<string>, i: nat, a: Found)
    requires i >= |x|
    ensures Both(a, ScanFrom(x, i)) == Some(a)
  {
    assert a.calls + [] == a.calls && a.modules + [] == a.modules;
  }

  // ----- a test-only item is one step --------------------------------------------------

  /** Opened and ended in pairs, never ended before opened. */
  ghost predicate Balanced(s: seq<string>, opening: string, ending: string) {
    && Balance(s, 0, |s|, opening, ending) == 0
    && forall k | 0 <= k <= |s| :: Balance(s, 0, k, opening, ending) >= 0
  }

  lemma {:induction false} BalanceBehind(x: seq<string>, s: nat, m: nat, w: seq<string>, k: nat,
                                         opening: string, ending: string)
    requires s <= m && HasAt(x, m, w) && k <= |w|
    ensures Balance(x, s, m + k, opening, ending)
         == Balance(x, s, m, opening, ending) + Balance(w, 0, k, opening, ending)
  {
    if k > 0 {
      BalanceBehind(x, s, m, w, k - 1, opening, ending);
      assert x[m + k - 1] == x[m..m + |w|][k - 1] == w[k - 1];
    }
  }

  lemma BalanceInside(x: seq<string>, start: nat, inner: seq<string>, k: nat, opening: string, ending: string)
    requires start < |x| && x[start] == opening && opening != ending && HasAt(x, start + 1, inner) && k <= |inner|
    ensures Balance(x, start, start + 1 + k, opening, ending) == 1 + Balance(inner, 0, k, opening, ending)
  {
    assert Balance(x, start, start, opening, ending) == 0;
    BalanceBehind(x, start, start + 1, inner, k, opening, ending);
  }

  /** A delimiter is closed by the one behind its balanced contents. */
  lemma ClosesBehind(x: seq<string>, start: nat, inner: seq<string>, opening: string, ending: string)
    requires start < |x| && x[start] == opening && opening != ending && HasAt(x, start + 1, inner)
    requires start + 1 + |inner| < |x| && x[start + 1 + |inner|] == ending && Balanced(inner, opening, ending)
    ensures Closing(x, start, opening, ending) == Some(start + 1 + |inner|)
  {
    var end := start + 1 + |inner|;
    forall j | start <= j < end ensures !Closes(x, start, j, opening, ending) {
      BalanceInside(x, start, inner, j - start, opening, ending);
      assert Balance(inner, 0, j - start, opening, ending) >= 0;
    }
    BalanceInside(x, start, inner, |inner|, opening, ending);
    assert Closes(x, start, end, opening, ending);
  }

  /** The tokens before the body, and the body in braces. */
  function Braced(header: seq<string>, body: seq<string>): seq<string> { header + (["{"] + (body + ["}"])) }

  /** An attribute and what it stands on. */
  function Item(attr: seq<string>, header: seq<string>, body: seq<string>): (item: seq<string>)
    ensures |item| == |attr| + |header| + |body| + 5
  {
    ["#", "["] + (attr + (["]"] + Braced(header, body)))
  }

  /** A test-only attribute on an item, with attribute and body balanced in their own delimiters. */
  ghost predicate IsTestItem(attr: seq<string>, body: seq<string>) {
    IsTestOnly(attr) && Balanced(attr, "[", "]") && Balanced(body, "{", "}")
  }

  /** Nothing before the body where the search for the body stops. */
  predicate IsHeader(header: seq<string>) { forall k | 0 <= k < |header| :: header[k] != "{" && header[k] != ";" }

  lemma HasToken(x: seq<string>, i: nat, w: string)
    requires HasAt(x, i, [w])
    ensures i < |x| && x[i] == w
  {
    assert x[i..i + 1][0] == w;
  }

  lemma BodyStartIs(x: seq<string>, i: nat, header: seq<string>)
    requires HasAt(x, i, header) && i + |header| < |x| && x[i + |header|] == "{"
    ensures var j := BodyStart(x, i); j <= i + |header| && (j == i + |header| <==> IsHeader(header))
  {
    forall k | 0 <= k < |header| ensures header[k] == x[i + k] { assert x[i..i + |header|][k] == x[i + k]; }
    var j := BodyStart(x, i);
    if j < i + |header| { assert x[j] == header[j - i]; }
  }

  /** A brace opened in the header is not closed by the one that ends the item. */
  lemma HeaderBraceClosesElsewhere(x: seq<string>, j: nat, b: nat, body: seq<string>)
    requires j < b < |x| && x[j] == "{" && x[b] == "{" && HasAt(x, b + 1, body) && Balanced(body, "{", "}")
    requires b + 1 + |body| < |x| && x[b + 1 + |body|] == "}"
    ensures Closing(x, j, "{", "}") != Some(b + 1 + |body|)
  {
    var e := b + 1 + |body|;
    if Closing(x, j, "{", "}") == Some(e) {
      CloseIsFirstBalance(x, j, b, "{", "}");
      BalanceBehind(x, j, b + 1, body, |body|, "{", "}");
      assert false;
    }
  }

  ghost predicate SkipsTo(s: Step, next: nat) { s.SkipTo? && s.next == next }

  lemma BracedParts(x: seq<string>, i: nat, header: seq<string>, body: seq<string>)
    requires HasAt(x, i, Braced(header, body))
    ensures var b := i + |header|; var e := b + 1 + |body|;
            e < |x| && x[b] == "{" && x[e] == "}" && HasAt(x, i, header) && HasAt(x, b + 1, body)
  {
    var b := i + |header|;
    HasAtSplit(x, i, header, ["{"] + (body + ["}"]));
    HasAtSplit(x, b, ["{"], body + ["}"]);
    HasAtSplit(x, b + 1, body, ["}"]);
    HasToken(x, b, "{");
    HasToken(x, b + 1 + |body|, "}");
  }

  lemma ItemFromIff(x: seq<string>, i: nat, header: seq<string>, body: seq<string>)
    requires HasAt(x, i, Braced(header, body)) && Balanced(body, "{", "}")
    ensures i <= |x| && (SkipsTo(ItemFrom(x, i), i + |header| + |body| + 2) <==> IsHeader(header))
  {
    BracedParts(x, i, header, body);
    hide HasAt, Balanced, Closing, IsHeader, Braced;
    var b, j := i + |header|, BodyStart(x, i);
    BodyStartIs(x, i, header);
    if j == b {
      ClosesBehind(x, b, body, "{", "}");
    } else if x[j] == "{" {
      HeaderBraceClosesElsewhere(x, j, b, body);
    }
  }

  lemma ItemParts(x: seq<string>, i: nat, attr: seq<string>, rest: seq<string>)
    requires HasAt(x, i, ["#", "["] + (attr + (["]"] + rest)))
    ensures i + 2 + |attr| < |x| && x[i] == "#" && x[i + 1] == "[" && x[i + 2 + |attr|] == "]"
    ensures HasAt(x, i + 2, attr) && HasAt(x, i + 3 + |attr|, rest)
  {
    HasAtSplit(x, i, ["#", "["], attr + (["]"] + rest));
    HasAtSplit(x, i + 2, attr, ["]"] + rest);
    HasAtSplit(x, i + 2 + |attr|, ["]"], rest);
    HasToken(x, i + 2 + |attr|, "]");
    assert x[i..i + 2][0] == "#" && x[i..i + 2][1] == "[";
  }

  /** The scan goes on right behind a test-only item exactly when no semicolon or brace stands before the
      body: at a semicolon, say of an array type, it goes on inside the item, and a brace before the body
      closes before or behind the item's end. */
  lemma ItemIsSkipped(x: seq<string>, i: nat, attr: seq<string>, header: seq<string>, body: seq<string>)
    requires HasAt(x, i, Item(attr, header, body)) && IsTestItem(attr, body)
    ensures i < |x|
    ensures SkipsTo(StepAt(x, i), i + |Item(attr, header, body)|) <==> IsHeader(header)
  {
    hide HasAt, Closing, ItemFrom, IsTestOnly, Balanced, Braced, StepAt, IsHeader;
    ItemParts(x, i, attr, Braced(header, body));
    hide Item;
    ClosesBehind(x, i + 1, attr, "[", "]");
    SliceIs(x, i + 2, attr);
    StepIs(x, i, i + 2 + |attr|);
    ItemFromIff(x, i + 3 + |attr|, header, body);
  }

  lemma StepIs(x: seq<string>, i: nat, end: nat)
    requires IsAttribute(x, i) && i + 2 <= end < |x| && Closing(x, i + 1, "[", "]") == Some(end)
    requires IsTestOnly(x[i + 2..end])
    ensures StepAt(x, i) == ItemFrom(x, end + 1)
  {
    hide Closing, ItemFrom, IsTestOnly;
  }

  lemma StepLooks(x: seq<string>, i: nat, end: nat)
    requires IsAttribute(x, i) && i + 2 <= end < |x| && Closing(x, i + 1, "[", "]") == Some(end)
    requires !IsTestOnly(x[i + 2..end])
    ensures StepAt(x, i) == Look
  {
    hide Closing, ItemFrom, IsTestOnly;
  }

  lemma SliceIs(x: seq<string>, i: nat, word: seq<string>)
    requires HasAt(x, i, word)
    ensures i + |word| <= |x| && x[i..i + |word|] == word
  {
  }

  // ----- the scan depends on what is ahead ---------------------------------------------

  /** The reported calls without their positions. */
  function CallOf(s: Site): (string, string) { (s.signer, s.args) }

  function Calls(f: Option<Found>): Option<seq<(string, string)>> {
    if f.None? then None else Some(Image(f.value.calls, CallOf))
  }

  function Before(cs: seq<(string, string)>, rest: Option<seq<(string, string)>>): Option<seq<(string, string)>> {
    if rest.None? then None else Some(cs + rest.value)
  }

  lemma CallsBoth(a: Found, b: Option<Found>)
    ensures Calls(Both(a, b)) == Before(Image(a.calls, CallOf), Calls(b))
  {
    if b.Some? {
      var rest := b.value.calls;
      assert Image(a.calls + rest, CallOf) == Image(a.calls, CallOf) + Image(rest, CallOf);
    }
  }

  /** What the calls from `i` on are, in terms of those from the next position. */
  lemma CallsStep(x: seq<string>, i: nat)
    requires i < |x|
    ensures StepAt(x, i).Stuck? ==> Calls(ScanFrom(x, i)).None?
    ensures StepAt(x, i).SkipTo? ==>
              i < StepAt(x, i).next && Calls(ScanFrom(x, i)) == Calls(ScanFrom(x, StepAt(x, i).next))
    ensures StepAt(x, i).Look? && !IsCall(x, i) ==> Calls(ScanFrom(x, i)) == Calls(ScanFrom(x, i + 1))
    ensures StepAt(x, i).Look? && IsCall(x, i) && Closing(x, i + 1, "(", ")").None? ==> Calls(ScanFrom(x, i)).None?
    ensures StepAt(x, i).Look? && IsCall(x, i) && Closing(x, i + 1, "(", ")").Some? ==>
              var end := Closing(x, i + 1, "(", ")").value;
              && i + 2 <= end < |x|
              && Calls(ScanFrom(x, i)) == Before([(x[i], Join(x[i + 2..end]))], Calls(ScanFrom(x, i + 1)))
  {
    hide StepAt, IsCall, Closing, ScanFrom, Both;
    ScanStops(x, i);
    if StepAt(x, i).SkipTo? {
      ScanSkips(x, i);
      CallsBoth(Found([], StepAt(x, i).modules), ScanFrom(x, StepAt(x, i).next));
      assert Image([], CallOf) == [];
      BeforeNothing(Calls(ScanFrom(x, StepAt(x, i).next)));
    } else if StepAt(x, i).Look? {
      ScanLooks(x, i);
      if IsCall(x, i) && Closing(x, i + 1, "(", ")").Some? {
        var site := Site(i, x[i], Join(x[i + 2..Closing(x, i + 1, "(", ")").value]));
        CallsBoth(Found([site], []), ScanFrom(x, i + 1));
        assert Image([site], CallOf) == [CallOf(site)];
      }
    }
  }

  lemma BeforeNothing(rest: Option<seq<(string, string)>>)
    ensures Before([], rest) == rest
  {
    if rest.Some? { assert [] + rest.value == rest.value; }
  }

  ghost predicate SameRest(x: seq<string>, i: nat, y: seq<string>, j: nat) { i <= |x| && j <= |y| && x[i..] == y[j..] }

  lemma RestAt(x: seq<string>, i: nat, y: seq<string>, j: nat, k: nat)
    requires SameRest(x, i, y, j) && i + k <= |x|
    ensures j + k <= |y| && SameRest(x, i + k, y, j + k) && |x| - i == |y| - j
    ensures i + k < |x| ==> x[i + k] == y[j + k]
  {
    assert |x[i..]| == |y[j..]|;
    assert x[i + k..] == x[i..][k..] && y[j + k..] == y[j..][k..];
    if i + k < |x| { assert x[i..][k] == x[i + k] && y[j..][k] == y[j + k]; }
  }

  lemma {:induction false} SameBalance(x: seq<string>, i: nat, y: seq<string>, j: nat, k: nat,
                                       opening: string, ending: string)
    requires SameRest(x, i, y, j) && i + k <= |x| && j + k <= |y|
    ensures Balance(x, i, i + k, opening, ending) == Balance(y, j, j + k, opening, ending)
  {
    if k > 0 {
      SameBalance(x, i, y, j, k - 1, opening, ending);
      RestAt(x, i, y, j, k - 1);
    }
  }

  lemma SameCloses(x: seq<string>, i: nat, y: seq<string>, j: nat, k: nat, opening: string, ending: string)
    requires SameRest(x, i, y, j) && i + k < |x| && j + k < |y|
    ensures Closes(x, i, i + k, opening, ending) == Closes(y, j, j + k, opening, ending)
  {
    RestAt(x, i, y, j, k);
    SameBalance(x, i, y, j, k + 1, opening, ending);
  }

  lemma {:induction false} SameClosingFrom(x: seq<string>, i: nat, y: seq<string>, j: nat, k: nat,
                                           opening: string, ending: string)
    requires SameRest(x, i, y, j) && i + k <= |x| && j + k <= |y|
    ensures var a, b := ClosingFrom(x, i, i + k, opening, ending), ClosingFrom(y, j, j + k, opening, ending);
            a.Some? == b.Some? && (a.Some? ==> a.value - i == b.value - j)
    decreases |x| - i - k
  {
    RestAt(x, i, y, j, k);
    hide Closes;
    if i + k < |x| {
      SameCloses(x, i, y, j, k, opening, ending);
      if !Closes(x, i, i + k, opening, ending) { SameClosingFrom(x, i, y, j, k + 1, opening, ending); }
    }
  }

  lemma SameClosing(x: seq<string>, i: nat, y: seq<string>, j: nat, opening: string, ending: string)
    requires SameRest(x, i, y, j)
    ensures var a, b := Closing(x, i, opening, ending), Closing(y, j, opening, ending);
            a.Some? == b.Some? && (a.Some? ==> a.value - i == b.value - j)
  {
    SameClosingFrom(x, i, y, j, 0, opening, ending);
  }

  lemma RestSlice(x: seq<string>, i: nat, y: seq<string>, j: nat, k: nat, e: nat, e': nat)
    requires SameRest(x, i, y, j) && i + k <= e <= |x| && e - i == e' - j
    ensures j + k <= e' <= |y| && x[i + k..e] == y[j + k..e']
  {
    RestAt(x, i, y, j, e - i);
    SliceOfRest(x, i, k, e);
    SliceOfRest(y, j, k, e');
  }

  lemma {:induction false} SameBodyStart(x: seq<string>, i: nat, y: seq<string>, j: nat)
    requires SameRest(x, i, y, j)
    ensures BodyStart(x, i) - i == BodyStart(y, j) - j
    decreases |x| - i
  {
    RestAt(x, i, y, j, 0);
    if i < |x| {
      RestAt(x, i, y, j, 1);
      SameBodyStart(x, i + 1, y, j + 1);
    }
  }

  ghost predicate SameStep(a: Step, i: nat, b: Step, j: nat) {
    a.Stuck? == b.Stuck? && a.Look? == b.Look? && (a.SkipTo? ==> b.SkipTo? && a.next - i == b.next - j)
  }

  lemma SameItemFrom(x: seq<string>, i: nat, y: seq<string>, j: nat)
    requires SameRest(x, i, y, j)
    ensures SameStep(ItemFrom(x, i), i, ItemFrom(y, j), j)
  {
    SameBodyStart(x, i, y, j);
    var e, e' := BodyStart(x, i), BodyStart(y, j);
    RestAt(x, i, y, j, e - i);
    hide SameRest, BodyStart, Closing;
    if e < |x| && x[e] == "{" { SameClosing(x, e, y, e', "{", "}"); }
  }

  lemma SameItemStep(x: seq<string>, i: nat, y: seq<string>, j: nat, end: nat, end': nat)
    requires IsAttribute(x, i) && IsAttribute(y, j) && i + 2 <= end < |x| && j + 2 <= end' < |y| && end - i == end' - j
    requires Closing(x, i + 1, "[", "]") == Some(end) && Closing(y, j + 1, "[", "]") == Some(end')
    requires x[i + 2..end] == y[j + 2..end'] && SameStep(ItemFrom(x, end + 1), end + 1, ItemFrom(y, end' + 1), end' + 1)
    ensures SameStep(StepAt(x, i), i, StepAt(y, j), j)
  {
    hide Closing, ItemFrom, IsTestOnly, StepAt;
    if IsTestOnly(x[i + 2..end]) {
      StepIs(x, i, end);
      StepIs(y, j, end');
    } else {
      StepLooks(x, i, end);
      StepLooks(y, j, end');
    }
  }

  lemma SameStepAt(x: seq<string>, i: nat, y: seq<string>, j: nat)
    requires SameRest(x, i, y, j) && i < |x| && j < |y|
    ensures SameStep(StepAt(x, i), i, StepAt(y, j), j)
  {
    RestAt(x, i, y, j, 0);
    RestAt(x, i, y, j, 1);
    hide SameRest, SameStep, StepAt;
    if IsAttribute(x, i) { SameAttribute(x, i, y, j); } else { SameLook(x, i, y, j); }
  }

  lemma SameAttribute(x: seq<string>, i: nat, y: seq<string>, j: nat)
    requires SameRest(x, i, y, j) && IsAttribute(x, i) && IsAttribute(y, j)
    ensures SameStep(StepAt(x, i), i, StepAt(y, j), j)
  {
    RestAt(x, i, y, j, 1);
    hide SameRest, Closing, SameStep, StepAt, IsAttribute;
    SameClosing(x, i + 1, y, j + 1, "[", "]");
    if Closing(x, i + 1, "[", "]").None? {
      SameStuck(x, i, y, j);
    } else {
      SameClosed(x, i, y, j, Closing(x, i + 1, "[", "]").value, Closing(y, j + 1, "[", "]").value);
    }
  }

  lemma AttributeCloses(x: seq<string>, i: nat, end: nat)
    requires IsAttribute(x, i) && Closing(x, i + 1, "[", "]") == Some(end)
    ensures i + 2 <= end < |x|
  {
    CloseIsLater(x, i + 1, "[", "]");
  }

  lemma SameClosed(x: seq<string>, i: nat, y: seq<string>, j: nat, end: nat, end': nat)
    requires SameRest(x, i, y, j) && IsAttribute(x, i) && IsAttribute(y, j) && end - i == end' - j
    requires Closing(x, i + 1, "[", "]") == Some(end) && Closing(y, j + 1, "[", "]") == Some(end')
    ensures SameStep(StepAt(x, i), i, StepAt(y, j), j)
  {
    hide SameRest, Closing, SameStep, StepAt, IsAttribute, ItemFrom;
    AttributeCloses(x, i, end);
    AttributeCloses(y, j, end');
    RestSlice(x, i, y, j, 2, end, end');
    RestAt(x, i, y, j, end + 1 - i);
    SameItemFrom(x, end + 1, y, end' + 1);
    SameItemStep(x, i, y, j, end, end');
  }

  lemma SameLook(x: seq<string>, i: nat, y: seq<string>, j: nat)
    requires i < |x| && j < |y| && !IsAttribute(x, i) && !IsAttribute(y, j)
    ensures SameStep(StepAt(x, i), i, StepAt(y, j), j)
  {
    hide Closing, ItemFrom, IsTestOnly;
  }

  lemma SameStuck(x: seq<string>, i: nat, y: seq<string>, j: nat)
    requires IsAttribute(x, i) && IsAttribute(y, j)
    requires Closing(x, i + 1, "[", "]").None? && Closing(y, j + 1, "[", "]").None?
    ensures SameStep(StepAt(x, i), i, StepAt(y, j), j)
  {
    hide Closing, ItemFrom, IsTestOnly;
  }

  lemma NoCallsAtEnd(x: seq<string>, i: nat)
    requires i >= |x|
    ensures Calls(ScanFrom(x, i)) == Some([])
  {
    assert Image([], CallOf) == [];
  }

  lemma SameCallHere(x: seq<string>, i: nat, y: seq<string>, j: nat)
    requires SameRest(x, i, y, j) && i + 1 < |x|
    ensures j + 1 < |y| && IsCall(x, i + 1) == IsCall(y, j + 1)
    ensures IsCall(x, i + 1) ==>
              var a, b := Closing(x, i + 2, "(", ")"), Closing(y, j + 2, "(", ")");
              && a.Some? == b.Some?
              && (a.Some? ==> i + 3 <= a.value && j + 3 <= b.value && x[i + 1] == y[j + 1]
                              && x[i + 3..a.value] == y[j + 3..b.value])
  {
    RestAt(x, i, y, j, 0);
    RestAt(x, i, y, j, 1);
    RestAt(x, i, y, j, 2);
    hide SameRest, Closing;
    if IsCall(x, i + 1) {
      SameClosing(x, i + 2, y, j + 2, "(", ")");
      CloseIsLater(x, i + 2, "(", ")");
      CloseIsLater(y, j + 2, "(", ")");
      var a := Closing(x, i + 2, "(", ")");
      if a.Some? { RestSlice(x, i, y, j, 3, a.value, Closing(y, j + 2, "(", ")").value); }
    }
  }

  /** The calls from a position on depend on the tokens from the one before it on. */
  lemma {:induction false} SameCalls(x: seq<string>, i: nat, y: seq<string>, j: nat)
    requires i <= |x| && j <= |y| && SameRest(x, i, y, j)
    ensures Calls(ScanFrom(x, i + 1)) == Calls(ScanFrom(y, j + 1))
    decreases |x| - i
  {
    hide SameRest, StepAt, Closing, ScanFrom, Calls, Before, Join, IsCall;
    RestAt(x, i, y, j, 0);
    if i + 1 >= |x| {
      NoCallsAtEnd(x, i + 1);
      NoCallsAtEnd(y, j + 1);
    } else {
      RestAt(x, i, y, j, 1);
      SameStepAt(x, i + 1, y, j + 1);
      CallsStep(x, i + 1);
      CallsStep(y, j + 1);
      StepGoesOn(x, i + 1);
      var a, b := StepAt(x, i + 1), StepAt(y, j + 1);
      if a.SkipTo? {
        RestAt(x, i, y, j, a.next - 1 - i);
        SameCalls(x, a.next - 1, y, b.next - 1);
      } else if a.Look? {
        SameCallHere(x, i, y, j);
        SameCalls(x, i + 1, y, j + 1);
      }
    }
  }

  // ----- what stands before the item ---------------------------------------------------

  /** The two lists agree up to and including position `n`. */
  ghost predicate AgreeTo(x: seq<string>, y: seq<string>, n: nat) { n < |x| && n < |y| && x[..n + 1] == y[..n + 1] }

  lemma AgreeAt(x: seq<string>, y: seq<string>, n: nat, k: nat)
    requires AgreeTo(x, y, n) && k <= n
    ensures x[k] == y[k]
  {
    assert x[..n + 1][k] == y[..n + 1][k];
  }

  ghost predicate EndsBefore(r: Option<nat>, n: nat) { r.Some? && r.value < n }

  /** The scan from `i` comes to stand at `n`, and every attribute on the way closes before `b`. */
  ghost predicate Walks(x: seq<string>, i: nat, n: nat, b: nat)
    decreases |x| - i
  {
    || i == n
    || (&& i < n && i < |x|
        && (IsAttribute(x, i) ==> EndsBefore(Closing(x, i + 1, "[", "]"), b))
        && match StepAt(x, i)
           case Stuck => false
           case SkipTo(next, _) => StepGoesOn(x, i); Walks(x, next, n, b)
           case Look => Walks(x, i + 1, n, b))
  }

  /** Some call met on the way from `i` to `n` is not closed before `b`. */
  ghost predicate OpenCall(x: seq<string>, i: nat, n: nat, b: nat)
    decreases |x| - i
  {
    && i < n && i < |x|
    && match StepAt(x, i)
       case Stuck => false
       case SkipTo(next, _) => StepGoesOn(x, i); OpenCall(x, next, n, b)
       case Look => (IsCall(x, i) && !EndsBefore(Closing(x, i + 1, "(", ")"), b)) || OpenCall(x, i + 1, n, b)
  }

  // ----- what the scan reports ---------------------------------------------------------

  /** The four signers, called as a method or by path. */
  lemma CallIff(x: seq<string>, i: nat)
    ensures IsCall(x, i) <==>
            && 1 <= i < |x| - 1 && (x[i - 1] == "." || x[i - 1] == ":") && x[i + 1] == "("
            && (|| x[i] == "sign_commitment" || x[i] == "sign_commitment_with_salt"
                || x[i] == "sign_commitment_with_status" || x[i] == "sign_commitment_with_holder")
  {
  }

  /** The scan from `i` comes to stand at a position of the list. */
  ghost predicate Visits(x: seq<string>, i: nat, p: nat) { p < |x| && Walks(x, i, p, |x|) }

  /** A call the scan from `i` comes to, with its name and the tokens up to its closing parenthesis. */
  ghost predicate IsSite(x: seq<string>, i: nat, s: Site) {
    && Visits(x, i, s.at) && IsCall(x, s.at) && s.signer == x[s.at]
    && var end := Closing(x, s.at + 1, "(", ")");
       end.Some? && s.at + 2 <= end.value && s.args == Join(x[s.at + 2..end.value])
  }

  /** At `p` stands a test-only attribute on `mod m;`. */
  ghost predicate DeclaresTest(x: seq<string>, p: nat, m: string) {
    && IsAttribute(x, p)
    && var end := Closing(x, p + 1, "[", "]");
       && end.Some? && p + 2 <= end.value < |x| - 3 && IsTestOnly(x[p + 2..end.value])
       && x[end.value + 1] == "mod" && x[end.value + 2] == m && x[end.value + 3] == ";"
  }

  ghost predicate IsTestModule(x: seq<string>, i: nat, m: string) {
    exists p: nat :: Visits(x, i, p) && DeclaresTest(x, p, m)
  }

  lemma VisitsStep(x: seq<string>, i: nat, p: nat)
    requires i < |x|
    ensures StepAt(x, i).Look? ==> (Visits(x, i, p) <==> i == p || Visits(x, i + 1, p))
    ensures StepAt(x, i).SkipTo? ==> (Visits(x, i, p) <==> i == p || Visits(x, StepAt(x, i).next, p))
  {
    StepGoesOn(x, i);
    if IsAttribute(x, i) { CloseIsLater(x, i + 1, "[", "]"); }
    WalksOn(x, i, p, |x|);
    WalksOn(x, i + 1, p, |x|);
    if StepAt(x, i).SkipTo? { WalksOn(x, StepAt(x, i).next, p, |x|); }
    hide Closing, ItemFrom, IsTestOnly;
  }

  lemma WalksOn(x: seq<string>, i: nat, n: nat, b: nat)
    ensures Walks(x, i, n, b) ==> i <= n
  {
  }

  ghost predicate SitesAscend(calls: seq<Site>) { forall a, b | 0 <= a < b < |calls| :: calls[a].at < calls[b].at }

  lemma NoVisit(x: seq<string>, i: nat, p: nat)
    requires i >= |x|
    ensures !Visits(x, i, p)
  {
    WalksOn(x, i, p, |x|);
  }

  /** A step that reports no call. */
  lemma SitesQuiet(x: seq<string>, i: nat, next: nat, s: Site)
    requires i < |x| && !IsCall(x, i) && (Visits(x, i, s.at) <==> i == s.at || Visits(x, next, s.at))
    ensures IsSite(x, i, s) <==> IsSite(x, next, s)
  {
    hide IsCall, Visits, Closing;
  }

  /** A step that reports one. */
  lemma SitesCall(x: seq<string>, i: nat, end: nat, s: Site)
    requires i < |x| && IsCall(x, i) && Closing(x, i + 1, "(", ")") == Some(end) && i + 2 <= end < |x|
    requires (Visits(x, i, s.at) <==> i == s.at || Visits(x, i + 1, s.at)) && (Visits(x, i + 1, s.at) ==> i < s.at)
    ensures IsSite(x, i, s) <==> s == Site(i, x[i], Join(x[i + 2..end])) || IsSite(x, i + 1, s)
  {
    hide Visits, Closing, Join;
  }

  lemma VisitsLater(x: seq<string>, i: nat, p: nat)
    ensures Visits(x, i, p) ==> i <= p
  {
    WalksOn(x, i, p, |x|);
  }

  lemma AscendCons(s: Site, rest: seq<Site>)
    requires SitesAscend(rest) && forall t | t in rest :: s.at < t.at
    ensures SitesAscend([s] + rest)
  {
    var all := [s] + rest;
    assert forall k | 1 <= k < |all| :: all[k] == rest[k - 1] && all[k] in rest;
  }

  lemma AttributeIsNoCall(x: seq<string>, i: nat)
    requires i < |x| && !StepAt(x, i).Look?
    ensures !IsCall(x, i)
  {
    hide Closing, ItemFrom, IsTestOnly;
  }

  ghost predicate ReportsCalls(x: seq<string>, i: nat, calls: seq<Site>) {
    SitesAscend(calls) && forall s :: s in calls <==> IsSite(x, i, s)
  }

  lemma ReportsQuiet(x: seq<string>, i: nat, next: nat, calls: seq<Site>)
    requires i < |x| && !IsCall(x, i) && ReportsCalls(x, next, calls)
    requires (StepAt(x, i) == Look && next == i + 1) || (StepAt(x, i).SkipTo? && next == StepAt(x, i).next)
    ensures ReportsCalls(x, i, calls)
  {
    hide IsCall, StepAt, Visits, IsSite, SitesAscend;
    forall s: Site ensures IsSite(x, i, s) <==> IsSite(x, next, s) {
      VisitsStep(x, i, s.at);
      SitesQuiet(x, i, next, s);
    }
  }

  lemma ReportsCall(x: seq<string>, i: nat, end: nat, calls: seq<Site>)
    requires i < |x| && IsCall(x, i) && Closing(x, i + 1, "(", ")") == Some(end) && i + 2 <= end < |x|
    requires StepAt(x, i) == Look && ReportsCalls(x, i + 1, calls)
    ensures ReportsCalls(x, i, [Site(i, x[i], Join(x[i + 2..end]))] + calls)
  {
    var site := Site(i, x[i], Join(x[i + 2..end]));
    forall s: Site ensures IsSite(x, i, s) <==> s == site || IsSite(x, i + 1, s) {
      VisitsStep(x, i, s.at);
      VisitsLater(x, i + 1, s.at);
      SitesCall(x, i, end, s);
    }
    forall s | s in calls ensures i < s.at { VisitsLater(x, i + 1, s.at); }
    hide IsCall, StepAt, Visits, IsSite, SitesAscend, Join, Closing;
    AscendCons(site, calls);
  }

  /** The calls reported are those the scan comes to, in order. */
  lemma {:induction false} ScanReports(x: seq<string>, i: nat)
    ensures ScanFrom(x, i).Some? ==> ReportsCalls(x, i, ScanFrom(x, i).value.calls)
    decreases |x| - i
  {
    hide IsCall, StepAt, Closing, Join, Visits, IsSite;
    if i >= |x| {
      forall s: Site ensures !IsSite(x, i, s) { NoSite(x, i, s); }
    } else if ScanFrom(x, i).Some? {
      StepGoesOn(x, i);
      if StepAt(x, i).SkipTo? {
        ScanSkips(x, i);
        AttributeIsNoCall(x, i);
        ScanReports(x, StepAt(x, i).next);
        BothCalls(Found([], StepAt(x, i).modules), ScanFrom(x, StepAt(x, i).next));
        ReportsQuiet(x, i, StepAt(x, i).next, ScanFrom(x, i).value.calls);
      } else {
        ScanLooks(x, i);
        ScanStops(x, i);
        ScanReports(x, i + 1);
        if IsCall(x, i) {
          ReportsCall(x, i, Closing(x, i + 1, "(", ")").value, ScanFrom(x, i + 1).value.calls);
        } else {
          ReportsQuiet(x, i, i + 1, ScanFrom(x, i).value.calls);
        }
      }
    }
  }

  lemma BothCalls(a: Found, b: Option<Found>)
    requires a.calls == []
    ensures Both(a, b).Some? == b.Some? && (b.Some? ==> Both(a, b).value.calls == b.value.calls)
  {
  }

  lemma NoSite(x: seq<string>, i: nat, s: Site)
    requires i >= |x|
    ensures !IsSite(x, i, s)
  {
    NoVisit(x, i, s.at);
  }

  // ----- test modules ------------------------------------------------------------------

  lemma DeclaresIff(x: seq<string>, i: nat, m: string)
    requires i < |x| && !StepAt(x, i).Stuck?
    ensures DeclaresTest(x, i, m) ==> StepAt(x, i).SkipTo?
    ensures StepAt(x, i).SkipTo? ==> (m in StepAt(x, i).modules <==> DeclaresTest(x, i, m))
  {
    if IsAttribute(x, i) { CloseIsLater(x, i + 1, "[", "]"); }
    hide Closing, IsTestOnly, BodyStart;
  }

  lemma ModulesStep(x: seq<string>, i: nat, next: nat, m: string)
    requires i < |x| && !StepAt(x, i).Stuck?
    requires (StepAt(x, i) == Look && next == i + 1) || (StepAt(x, i).SkipTo? && next == StepAt(x, i).next)
    ensures IsTestModule(x, i, m) <==> DeclaresTest(x, i, m) || IsTestModule(x, next, m)
  {
    hide StepAt, Visits, DeclaresTest;
    VisitsStep(x, i, i);
    if IsTestModule(x, i, m) {
      var p: nat :| Visits(x, i, p) && DeclaresTest(x, p, m);
      VisitsStep(x, i, p);
    }
    if IsTestModule(x, next, m) {
      var p: nat :| Visits(x, next, p) && DeclaresTest(x, p, m);
      VisitsStep(x, i, p);
    }
  }

  /** The test modules reported are those declared by a test-only attribute the scan comes to. */
  lemma {:induction false} ScanModules(x: seq<string>, i: nat, m: string)
    ensures ScanFrom(x, i).Some? ==> (m in ScanFrom(x, i).value.modules <==> IsTestModule(x, i, m))
    decreases |x| - i
  {
    hide IsCall, StepAt, Closing, Join, Visits, DeclaresTest;
    if i >= |x| {
      forall p: nat ensures !Visits(x, i, p) { NoVisit(x, i, p); }
    } else if ScanFrom(x, i).Some? {
      StepGoesOn(x, i);
      DeclaresIff(x, i, m);
      ScanStops(x, i);
      var next := if StepAt(x, i).SkipTo? then StepAt(x, i).next else i + 1;
      ModulesStep(x, i, next, m);
      ScanModules(x, next, m);
      if StepAt(x, i).SkipTo? {
        ScanSkips(x, i);
      } else {
        ScanLooks(x, i);
      }
    }
  }

  lemma {:induction false} AgreeBalance(x: seq<string>, y: seq<string>, n: nat, i: nat, k: nat,
                                        opening: string, ending: string)
    requires AgreeTo(x, y, n) && i <= k <= n + 1
    ensures Balance(x, i, k, opening, ending) == Balance(y, i, k, opening, ending)
  {
    if i < k {
      AgreeBalance(x, y, n, i, k - 1, opening, ending);
      AgreeAt(x, y, n, k - 1);
    }
  }

  lemma AgreeCloses(x: seq<string>, y: seq<string>, n: nat, i: nat, k: nat, opening: string, ending: string)
    requires AgreeTo(x, y, n) && i <= k <= n
    ensures Closes(x, i, k, opening, ending) == Closes(y, i, k, opening, ending)
  {
    AgreeBalance(x, y, n, i, k + 1, opening, ending);
    AgreeAt(x, y, n, k);
  }

  lemma AgreeClosing(x: seq<string>, y: seq<string>, n: nat, i: nat, opening: string, ending: string)
    requires AgreeTo(x, y, n) && i <= |x| && i <= |y| && EndsBefore(Closing(x, i, opening, ending), n)
    ensures Closing(y, i, opening, ending) == Closing(x, i, opening, ending)
  {
    var e := Closing(x, i, opening, ending).value;
    forall k | i <= k <= e ensures Closes(y, i, k, opening, ending) == Closes(x, i, k, opening, ending) {
      AgreeCloses(x, y, n, i, k, opening, ending);
    }
  }

  lemma AgreeBodyStart(x: seq<string>, y: seq<string>, n: nat, i: nat)
    requires AgreeTo(x, y, n) && i <= |x| && i <= |y| && BodyStart(x, i) < n
    ensures BodyStart(y, i) == BodyStart(x, i)
  {
    forall k | i <= k <= BodyStart(x, i) ensures x[k] == y[k] { AgreeAt(x, y, n, k); }
  }

  lemma AgreeItemFrom(x: seq<string>, y: seq<string>, n: nat, i: nat)
    requires AgreeTo(x, y, n) && i <= n && ItemFrom(x, i).SkipTo? && ItemFrom(x, i).next <= n
    ensures ItemFrom(y, i).SkipTo? && ItemFrom(y, i).next == ItemFrom(x, i).next
  {
    var j := BodyStart(x, i);
    assert j < n by { if x[j..] != [] && x[j] == "{" { CloseIsLater(x, j, "{", "}"); } }
    AgreeBodyStart(x, y, n, i);
    AgreeAt(x, y, n, j);
    hide BodyStart, Closing;
    if x[j] == "{" { AgreeClosing(x, y, n, j, "{", "}"); }
  }

  lemma AgreeSlice(x: seq<string>, y: seq<string>, n: nat, i: nat, e: nat)
    requires AgreeTo(x, y, n) && i <= e <= n
    ensures x[i..e] == y[i..e]
  {
    assert x[i..e] == x[..n + 1][i..e] && y[i..e] == y[..n + 1][i..e];
  }

  lemma AgreeStep(x: seq<string>, y: seq<string>, n: nat, i: nat)
    requires AgreeTo(x, y, n) && i < n
    requires IsAttribute(x, i) ==> EndsBefore(Closing(x, i + 1, "[", "]"), n)
    requires StepAt(x, i).Look? || (StepAt(x, i).SkipTo? && StepAt(x, i).next <= n)
    ensures SameStep(StepAt(x, i), i, StepAt(y, i), i)
  {
    AgreeAt(x, y, n, i);
    AgreeAt(x, y, n, i + 1);
    hide Closing, AgreeTo, StepAt, EndsBefore;
    if IsAttribute(x, i) { AgreeAttribute(x, y, n, i); } else { SameLook(x, i, y, i); }
  }

  lemma AgreeAttribute(x: seq<string>, y: seq<string>, n: nat, i: nat)
    requires AgreeTo(x, y, n) && i < n && IsAttribute(x, i) && IsAttribute(y, i)
    requires EndsBefore(Closing(x, i + 1, "[", "]"), n)
    requires StepAt(x, i).Look? || (StepAt(x, i).SkipTo? && StepAt(x, i).next <= n)
    ensures SameStep(StepAt(x, i), i, StepAt(y, i), i)
  {
    AgreeAt(x, y, n, i + 1);
    hide Closing, ItemFrom, IsTestOnly, AgreeTo, StepAt;
    AgreeClosing(x, y, n, i + 1, "[", "]");
    CloseIsLater(x, i + 1, "[", "]");
    CloseIsLater(y, i + 1, "[", "]");
    var end := Closing(x, i + 1, "[", "]").value;
    AgreeSlice(x, y, n, i + 2, end);
    if IsTestOnly(x[i + 2..end]) {
      StepIs(x, i, end);
      StepIs(y, i, end);
      AgreeItemFrom(x, y, n, end + 1);
    } else {
      StepLooks(x, i, end);
      StepLooks(y, i, end);
    }
  }

  lemma AgreeCallHere(x: seq<string>, y: seq<string>, n: nat, i: nat)
    requires AgreeTo(x, y, n) && i < n && (IsCall(x, i) ==> EndsBefore(Closing(x, i + 1, "(", ")"), n))
    ensures IsCall(x, i) == IsCall(y, i)
    ensures IsCall(x, i) ==>
              var a, b := Closing(x, i + 1, "(", ")"), Closing(y, i + 1, "(", ")");
              a.Some? && a == b && i + 2 <= a.value && x[i] == y[i] && x[i + 2..a.value] == y[i + 2..a.value]
  {
    AgreeAt(x, y, n, i);
    AgreeAt(x, y, n, i + 1);
    if i > 0 { AgreeAt(x, y, n, i - 1); }
    hide Closing;
    if IsCall(x, i) {
      AgreeClosing(x, y, n, i + 1, "(", ")");
      CloseIsLater(x, i + 1, "(", ")");
      AgreeSlice(x, y, n, i + 2, Closing(x, i + 1, "(", ")").value);
    }
  }

  lemma WalkStep(x: seq<string>, i: nat, n: nat, b: nat)
    requires i < n && i < |x| && Walks(x, i, n, b)
    ensures !StepAt(x, i).Stuck? && (IsAttribute(x, i) ==> EndsBefore(Closing(x, i + 1, "[", "]"), b))
    ensures StepAt(x, i).SkipTo? ==>
              var next := StepAt(x, i).next;
              next <= n && Walks(x, next, n, b) && OpenCall(x, i, n, b) == OpenCall(x, next, n, b)
    ensures StepAt(x, i).Look? ==>
              && Walks(x, i + 1, n, b)
              && (OpenCall(x, i, n, b) <==>
                    (IsCall(x, i) && !EndsBefore(Closing(x, i + 1, "(", ")"), b)) || OpenCall(x, i + 1, n, b))
  {
    hide StepAt, IsCall, Closing, EndsBefore;
  }

  lemma {:induction false} AgreeCalls(x: seq<string>, y: seq<string>, n: nat, b: nat, i: nat)
    requires AgreeTo(x, y, b) && i <= n <= b < |x| && b < |y| && Walks(x, i, n, b) && !OpenCall(x, i, n, b)
    requires Calls(ScanFrom(x, n)) == Calls(ScanFrom(y, n))
    ensures Calls(ScanFrom(x, i)) == Calls(ScanFrom(y, i))
    decreases n - i
  {
    hide AgreeTo, Walks, OpenCall, StepAt, Closing, ScanFrom, Calls, Before, Join, IsCall, IsAttribute, EndsBefore;
    if i < n {
      WalkStep(x, i, n, b);
      AgreeStep(x, y, b, i);
      CallsStep(x, i);
      CallsStep(y, i);
      if StepAt(x, i).SkipTo? {
        AgreeCalls(x, y, n, b, StepAt(x, i).next);
      } else {
        AgreeCallHere(x, y, b, i);
        AgreeCalls(x, y, n, b, i + 1);
      }
    }
  }

  // ----- the body of a test-only item does not matter ----------------------------------

  function WithItem(before: seq<string>, attr: seq<string>, header: seq<string>, body: seq<string>,
                    after: seq<string>): seq<string>
  {
    before + (Item(attr, header, body) + after)
  }

  /** Everything up to and including the brace that opens the body. */
  function Opened(before: seq<string>, attr: seq<string>, header: seq<string>): seq<string> {
    before + (["#", "["] + (attr + (["]"] + (header + ["{"]))))
  }

  /** Where the body's brace stands. */
  function BraceAt(before: seq<string>, attr: seq<string>, header: seq<string>): nat {
    |before| + |attr| + |header| + 3
  }

  lemma OpenedEnds(before: seq<string>, attr: seq<string>, header: seq<string>)
    ensures var p, b := Opened(before, attr, header), BraceAt(before, attr, header);
            |p| == b + 1 && p[b] == "{"
  {
  }

  lemma ItemAroundBody(before: seq<string>, attr: seq<string>, header: seq<string>, body: seq<string>,
                       after: seq<string>)
    ensures WithItem(before, attr, header, body, after)
         == Opened(before, attr, header) + (body + (["}"] + after))
  {
  }

  lemma ItemStands(before: seq<string>, attr: seq<string>, header: seq<string>, body: seq<string>, after: seq<string>)
    ensures var x, n, e := WithItem(before, attr, header, body, after), |before|, |before| + |Item(attr, header, body)|;
            HasAt(x, n, Item(attr, header, body)) && n < e <= |x| && x[e - 1..] == ["}"] + after
  {
    var item := Item(attr, header, body);
    var x, n, e := WithItem(before, attr, header, body, after), |before|, |before| + |item|;
    assert x[n..e] == item && item[|item| - 1] == "}";
    assert x[e - 1..] == [x[e - 1]] + x[e..];
  }

  lemma ItemCalls(before: seq<string>, attr: seq<string>, header: seq<string>, body: seq<string>, after: seq<string>)
    requires IsTestItem(attr, body) && IsHeader(header)
    ensures var x := WithItem(before, attr, header, body, after);
            Calls(ScanFrom(x, |before|)) == Calls(ScanFrom(x, |before| + |Item(attr, header, body)|))
  {
    hide StepAt, ScanFrom, Calls, Item, WithItem, HasAt, IsTestItem, IsCall, Closing, Before, IsHeader;
    var x := WithItem(before, attr, header, body, after);
    ItemStands(before, attr, header, body, after);
    ItemIsSkipped(x, |before|, attr, header, body);
    CallsStep(x, |before|);
  }

  lemma SameAfterItem(before: seq<string>, attr: seq<string>, header: seq<string>, body: seq<string>,
                      body': seq<string>, after: seq<string>)
    requires IsTestItem(attr, body) && IsTestItem(attr, body') && IsHeader(header)
    ensures var x, y := WithItem(before, attr, header, body, after), WithItem(before, attr, header, body', after);
            Calls(ScanFrom(x, |before|)) == Calls(ScanFrom(y, |before|))
  {
    hide ScanFrom, Calls, Item, WithItem, IsTestItem, IsHeader;
    var x, y := WithItem(before, attr, header, body, after), WithItem(before, attr, header, body', after);
    ItemStands(before, attr, header, body, after);
    ItemStands(before, attr, header, body', after);
    ItemCalls(before, attr, header, body, after);
    ItemCalls(before, attr, header, body', after);
    var e, e' := |before| + |Item(attr, header, body)|, |before| + |Item(attr, header, body')|;
    SameCalls(x, e - 1, y, e' - 1);
  }

  lemma SharePrefix(p: seq<string>, u: seq<string>, v: seq<string>)
    requires p != []
    ensures AgreeTo(p + u, p + v, |p| - 1)
  {
    assert (p + u)[..|p|] == p == (p + v)[..|p|];
  }

  /** Whatever a test-only item holds between balanced braces, calls of raw signers included, the calls
      reported for the whole file are the same, provided no semicolon or brace stands before the body, the
      scan comes to stand at the item, and no attribute or call met before is open at the body's brace. */
  lemma TestBodyIsInvisible(before: seq<string>, attr: seq<string>, header: seq<string>, body: seq<string>,
                            body': seq<string>, after: seq<string>)
    requires IsTestItem(attr, body) && IsTestItem(attr, body') && IsHeader(header)
    requires Walks(WithItem(before, attr, header, body, after), 0, |before|, BraceAt(before, attr, header))
    requires !OpenCall(WithItem(before, attr, header, body, after), 0, |before|, BraceAt(before, attr, header))
    ensures Calls(ScanFrom(WithItem(before, attr, header, body, after), 0))
         == Calls(ScanFrom(WithItem(before, attr, header, body', after), 0))
  {
    hide ScanFrom, Calls, Item, WithItem, IsTestItem, IsHeader, Walks, OpenCall, Opened, AgreeTo;
    var x, y := WithItem(before, attr, header, body, after), WithItem(before, attr, header, body', after);
    var p, rest := Opened(before, attr, header), ["}"] + after;
    OpenedEnds(before, attr, header);
    ItemAroundBody(before, attr, header, body, after);
    ItemAroundBody(before, attr, header, body', after);
    SharePrefix(p, body + rest, body' + rest);
    SameAfterItem(before, attr, header, body, body', after);
    AgreeCalls(x, y, |before|, |p| - 1, 0);
  }

  // ----- ... unless the item stands in the arguments of a call -------------------------

  /** The tokens in order, with one space between them. */
  lemma {:induction false} JoinIs(a: seq<string>, b: seq<string>)
    ensures Join([]) == "" && forall w :: Join([w]) == w
    ensures a != [] && b != [] ==> Join(a + b) == Join(a) + (" " + Join(b))
  {
    if a != [] && b != [] {
      assert (a + b)[1..] == a[1..] + b;
      if |a| > 1 {
        JoinIs(a[1..], b);
      } else {
        assert a[1..] + b == b;
      }
    }
  }

  lemma JoinStarts(ss: seq<string>)
    requires ArePlain(ss) && ss != []
    ensures Join(ss) != "" && (|ss| == 1 <==> ' ' !in Join(ss))
  {
    assert IsPlain(ss[0]);
    if |ss| > 1 { assert Join(ss)[|ss[0]|] == ' '; }
  }

  /** Tokens that are not empty and hold no space can be read off their joined text. */
  lemma {:induction false} JoinIsInjective(a: seq<string>, b: seq<string>)
    requires ArePlain(a) && ArePlain(b) && Join(a) == Join(b)
    ensures a == b
  {
    if a != [] { JoinStarts(a); }
    if b != [] { JoinStarts(b); }
    if |a| > 1 && |b| > 1 {
      assert IsPlain(a[0]) && IsPlain(b[0]);
      SpaceSplits(a[0], b[0], Join(a[1..]), Join(b[1..]));
      JoinIsInjective(a[1..], b[1..]);
      assert a == [a[0]] + a[1..] && b == [b[0]] + b[1..];
    }
  }

  lemma {:induction false} ClosingSkips(x: seq<string>, s: nat, m: nat, opening: string, ending: string)
    requires s <= m <= |x| && forall j | s <= j < m :: !Closes(x, s, j, opening, ending)
    ensures Closing(x, s, opening, ending) == ClosingFrom(x, s, m, opening, ending)
  {
    if s < m { ClosingSkips(x, s, m - 1, opening, ending); }
  }

  /** A delimiter still open before a balanced stretch is open behind it, to the same depth. */
  lemma OpenOver(x: seq<string>, s: nat, m: nat, body: seq<string>, opening: string, ending: string)
    requires s < m && m + |body| <= |x| && x[s] == opening && opening != ending
    requires HasAt(x, m, body) && Balanced(body, opening, ending)
    requires forall j | s <= j < m :: !Closes(x, s, j, opening, ending)
    ensures Balance(x, s, m + |body|, opening, ending) == Balance(x, s, m, opening, ending)
    ensures Closing(x, s, opening, ending) == ClosingFrom(x, s, m + |body|, opening, ending)
  {
    CloseIsFirstBalance(x, s, m, opening, ending);
    BalanceBehind(x, s, m, body, |body|, opening, ending);
    forall j | s <= j < m + |body| ensures !Closes(x, s, j, opening, ending) {
      if j >= m {
        BalanceBehind(x, s, m, body, j + 1 - m, opening, ending);
        assert Balance(body, 0, j + 1 - m, opening, ending) >= 0;
      }
    }
    ClosingSkips(x, s, m + |body|, opening, ending);
  }

  ghost predicate SameBehind(a: Option<nat>, m: nat, b: Option<nat>, m': nat) {
    a.Some? == b.Some? && (a.Some? ==> a.value >= m && b.value >= m' && a.value - m == b.value - m')
  }

  lemma {:induction false} SameClosingBehind(x: seq<string>, m: nat, y: seq<string>, m': nat, s: nat, r: seq<string>,
                                             k: nat, opening: string, ending: string)
    requires s <= m && s <= m' && k <= |r| && m + |r| == |x| && m' + |r| == |y| && HasAt(x, m, r) && HasAt(y, m', r)
    requires Balance(x, s, m, opening, ending) == Balance(y, s, m', opening, ending)
    ensures SameBehind(ClosingFrom(x, s, m + k, opening, ending), m, ClosingFrom(y, s, m' + k, opening, ending), m')
    decreases |r| - k
  {
    if k < |r| {
      BalanceBehind(x, s, m, r, k + 1, opening, ending);
      BalanceBehind(y, s, m', r, k + 1, opening, ending);
      assert x[m + k] == x[m..m + |r|][k] == r[k] && y[m' + k] == y[m'..m' + |r|][k] == r[k];
      assert Closes(x, s, m + k, opening, ending) == Closes(y, s, m' + k, opening, ending);
      SameClosingBehind(x, m, y, m', s, r, k + 1, opening, ending);
    }
  }

  lemma HasParts(p: seq<string>, body: seq<string>, r: seq<string>)
    ensures var x := p + (body + r);
            HasAt(x, |p|, body) && HasAt(x, |p| + |body|, r) && |x| == |p| + |body| + |r|
  {
    var x := p + (body + r);
    assert x[|p|..|p| + |body|] == body && x[|p| + |body|..|p| + |body| + |r|] == r;
  }

  lemma ClosesPast(x: seq<string>, y: seq<string>, m: nat, body: seq<string>, body': seq<string>, r: seq<string>,
                   s: nat)
    requires s < m && AgreeTo(x, y, m - 1) && x[s] == "(" && Balanced(body, "(", ")") && Balanced(body', "(", ")")
    requires HasAt(x, m, body) && HasAt(x, m + |body|, r) && |x| == m + |body| + |r|
    requires HasAt(y, m, body') && HasAt(y, m + |body'|, r) && |y| == m + |body'| + |r|
    requires !EndsBefore(Closing(x, s, "(", ")"), m)
    ensures SameBehind(Closing(x, s, "(", ")"), m + |body|, Closing(y, s, "(", ")"), m + |body'|)
  {
    AgreeAt(x, y, m - 1, s);
    hide HasAt, Balanced, AgreeTo;
    forall j | s <= j < m ensures !Closes(x, s, j, "(", ")") && !Closes(y, s, j, "(", ")") {
      AgreeCloses(x, y, m - 1, s, j, "(", ")");
    }
    AgreeBalance(x, y, m - 1, s, m, "(", ")");
    hide Closing, Closes;
    OpenOver(x, s, m, body, "(", ")");
    OpenOver(y, s, m, body', "(", ")");
    SameClosingBehind(x, m + |body|, y, m + |body'|, s, r, 0, "(", ")");
  }

  /** A parenthesis open at the body closes behind it, at the same token for either body. */
  lemma ClosesPastBody(p: seq<string>, body: seq<string>, body': seq<string>, r: seq<string>, s: nat)
    requires s < |p| && p[s] == "(" && Balanced(body, "(", ")") && Balanced(body', "(", ")")
    requires !EndsBefore(Closing(p + (body + r), s, "(", ")"), |p|)
    ensures SameBehind(Closing(p + (body + r), s, "(", ")"), |p| + |body|,
                       Closing(p + (body' + r), s, "(", ")"), |p| + |body'|)
  {
    HasParts(p, body, r);
    HasParts(p, body', r);
    SharePrefix(p, body + r, body' + r);
    assert (p + (body + r))[s] == p[s];
    hide HasAt, Balanced, AgreeTo, Closing, EndsBefore, SameBehind;
    ClosesPast(p + (body + r), p + (body' + r), |p|, body, body', r, s);
  }

  /** The arguments of a call that spans the body, with the body in them. */
  lemma SpanningArguments(p: seq<string>, body: seq<string>, r: seq<string>, s: nat, k: nat)
    requires s < |p| && k <= |r|
    ensures (p + (body + r))[s + 1..|p| + |body| + k] == p[s + 1..] + (body + r[..k])
  {
  }

  lemma SplitMiddle(a: seq<string>, b: seq<string>, c: seq<string>, d: seq<string>)
    requires a + (b + d) == a + (c + d)
    ensures b == c
  {
    var u, v := a + (b + d), a + (c + d);
    assert |b| == |c|;
    assert u[|a|..|a| + |b|] == b && v[|a|..|a| + |c|] == c;
  }

  lemma PlainSlice(x: seq<string>, lo: nat, hi: nat)
    requires ArePlain(x) && lo <= hi <= |x|
    ensures ArePlain(x[lo..hi])
  {
  }

  /** Such a call reports different arguments for different bodies. */
  lemma SpanningCallShows(p: seq<string>, body: seq<string>, body': seq<string>, r: seq<string>, s: nat)
    requires s < |p| && p[s] == "(" && Balanced(body, "(", ")") && Balanced(body', "(", ")") && body != body'
    requires !EndsBefore(Closing(p + (body + r), s, "(", ")"), |p|)
    requires ArePlain(p + (body + r)) && ArePlain(p + (body' + r))
    ensures var x, y := p + (body + r), p + (body' + r);
            var a, b := Closing(x, s, "(", ")"), Closing(y, s, "(", ")");
            && a.Some? == b.Some?
            && (a.Some? ==> s < a.value <= |x| && s < b.value <= |y|
                            && Join(x[s + 1..a.value]) != Join(y[s + 1..b.value]))
  {
    hide Balanced, EndsBefore, Join, ArePlain;
    var x, y := p + (body + r), p + (body' + r);
    ClosesPastBody(p, body, body', r, s);
    var a, b := Closing(x, s, "(", ")"), Closing(y, s, "(", ")");
    if a.Some? {
      var k := a.value - |p| - |body|;
      SpanningArguments(p, body, r, s, k);
      SpanningArguments(p, body', r, s, k);
      PlainSlice(x, s + 1, a.value);
      PlainSlice(y, s + 1, b.value);
      if Join(x[s + 1..a.value]) == Join(y[s + 1..b.value]) {
        JoinIsInjective(x[s + 1..a.value], y[s + 1..b.value]);
        SplitMiddle(p[s + 1..], body, body', r[..k]);
        assert false;
      }
    }
  }

  lemma BeforeDiffers(a: (string, string), s: Option<seq<(string, string)>>,
                      b: (string, string), t: Option<seq<(string, string)>>)
    ensures Before([a], s).None? == s.None?
    ensures s.Some? && t.Some? ==> (Before([a], s) == Before([b], t) <==> a == b && s == t)
  {
    if s.Some? && t.Some? {
      assert ([a] + s.value)[0] == a && ([a] + s.value)[1..] == s.value;
      assert ([b] + t.value)[0] == b && ([b] + t.value)[1..] == t.value;
    }
  }

  ghost predicate ShowsFrom(x: seq<string>, y: seq<string>, i: nat, open: bool) {
    var a, b := Calls(ScanFrom(x, i)), Calls(ScanFrom(y, i));
    a.None? == b.None? && (a.Some? ==> (a == b <==> !open))
  }

  /** Two token lists that differ in a stretch balanced in parentheses, right behind a brace. */
  ghost predicate Differ(x: seq<string>, y: seq<string>, p: seq<string>, body: seq<string>, body': seq<string>,
                         r: seq<string>)
  {
    && x == p + (body + r) && y == p + (body' + r) && p != [] && p[|p| - 1] == "{" && body != body'
    && Balanced(body, "(", ")") && Balanced(body', "(", ")") && ArePlain(x) && ArePlain(y)
  }

  lemma DifferAgree(x: seq<string>, y: seq<string>, p: seq<string>, body: seq<string>, body': seq<string>,
                    r: seq<string>)
    requires Differ(x, y, p, body, body', r)
    ensures p != [] && |p| <= |x| && |p| <= |y| && AgreeTo(x, y, |p| - 1) && x[|p| - 1] == "{"
  {
    hide Balanced, ArePlain;
    SharePrefix(p, body + r, body' + r);
  }

  /** A call met before the item that is open at the brace. */
  lemma OpenCallShows(x: seq<string>, y: seq<string>, p: seq<string>, body: seq<string>, body': seq<string>,
                      r: seq<string>, i: nat)
    requires Differ(x, y, p, body, body', r) && i < |p| - 1 && IsCall(x, i)
    requires !EndsBefore(Closing(x, i + 1, "(", ")"), |p| - 1)
    ensures i + 1 < |x| && i + 1 < |y|
    ensures var a, b := Closing(x, i + 1, "(", ")"), Closing(y, i + 1, "(", ")");
            && a.Some? == b.Some?
            && (a.Some? ==> i + 2 <= a.value <= |x| && i + 2 <= b.value <= |y|
                            && Join(x[i + 2..a.value]) != Join(y[i + 2..b.value]))
  {
    assert x[i + 1] == p[i + 1] && x[|p| - 1] == "{";
    var a := Closing(x, i + 1, "(", ")");
    assert a.Some? ==> a.value != |p| - 1;
    hide Balanced, ArePlain, Join, Closing;
    SpanningCallShows(p, body, body', r, i + 1);
  }

  /** At a call met before the item. */
  lemma ShowsAtCall(x: seq<string>, y: seq<string>, p: seq<string>, body: seq<string>, body': seq<string>,
                    r: seq<string>, i: nat, open: bool)
    requires Differ(x, y, p, body, body', r) && i < |p| - 1 && i + 1 < |x| && i + 1 < |y|
    requires IsCall(x, i) && StepAt(x, i).Look? && StepAt(y, i).Look? && ShowsFrom(x, y, i + 1, open)
    ensures ShowsFrom(x, y, i, open || !EndsBefore(Closing(x, i + 1, "(", ")"), |p| - 1))
  {
    hide Differ, Closing, StepAt, ScanFrom, Calls, Before, Join, AgreeTo, IsCall;
    DifferAgree(x, y, p, body, body', r);
    SameCallName(x, y, |p| - 1, i);
    CallsStep(x, i);
    CallsStep(y, i);
    var e, e' := Closing(x, i + 1, "(", ")"), Closing(y, i + 1, "(", ")");
    if EndsBefore(e, |p| - 1) {
      AgreeCallHere(x, y, |p| - 1, i);
    } else {
      OpenCallShows(x, y, p, body, body', r, i);
    }
    if e.Some? {
      BeforeDiffers((x[i], Join(x[i + 2..e.value])), Calls(ScanFrom(x, i + 1)),
                    (y[i], Join(y[i + 2..e'.value])), Calls(ScanFrom(y, i + 1)));
      BeforeDiffers((y[i], Join(y[i + 2..e'.value])), Calls(ScanFrom(y, i + 1)),
                    (x[i], Join(x[i + 2..e.value])), Calls(ScanFrom(x, i + 1)));
    }
  }

  lemma SameCallName(x: seq<string>, y: seq<string>, n: nat, i: nat)
    requires AgreeTo(x, y, n) && i < n
    ensures IsCall(x, i) == IsCall(y, i) && x[i] == y[i]
  {
    AgreeAt(x, y, n, i);
    AgreeAt(x, y, n, i + 1);
    if i > 0 { AgreeAt(x, y, n, i - 1); }
  }

  lemma NoOpenCall(x: seq<string>, n: nat, b: nat)
    ensures !OpenCall(x, n, n, b)
  {
  }

  lemma {:induction false} ShowsOnTheWay(x: seq<string>, y: seq<string>, p: seq<string>, body: seq<string>,
                                         body': seq<string>, r: seq<string>, n: nat, i: nat)
    requires Differ(x, y, p, body, body', r) && i <= n < |p| && Walks(x, i, n, |p| - 1)
    requires Calls(ScanFrom(x, n)) == Calls(ScanFrom(y, n))
    ensures ShowsFrom(x, y, i, OpenCall(x, i, n, |p| - 1))
    decreases n - i
  {
    hide Differ, AgreeTo, Walks, StepAt, Closing, ScanFrom, Calls, Before, Join;
    hide IsCall, IsAttribute, OpenCall, EndsBefore;
    DifferAgree(x, y, p, body, body', r);
    var b := |p| - 1;
    NoOpenCall(x, n, b);
    if i < n {
      WalkStep(x, i, n, b);
      AgreeStep(x, y, b, i);
      CallsStep(x, i);
      CallsStep(y, i);
      if StepAt(x, i).SkipTo? {
        ShowsOnTheWay(x, y, p, body, body', r, n, StepAt(x, i).next);
      } else {
        ShowsOnTheWay(x, y, p, body, body', r, n, i + 1);
        SameCallName(x, y, b, i);
        if IsCall(x, i) { ShowsAtCall(x, y, p, body, body', r, i, OpenCall(x, i + 1, n, b)); }
      }
    }
  }

  /** When the bodies are balanced in parentheses as well, the calls reported are the same exactly when the
      scan fails, the bodies are equal, or no call met before the item is open at the body's brace: the
      arguments of a call that spans the item hold the body. */
  lemma TestBodyShowsIff(before: seq<string>, attr: seq<string>, header: seq<string>, body: seq<string>,
                         body': seq<string>, after: seq<string>)
    requires IsTestItem(attr, body) && IsTestItem(attr, body') && IsHeader(header)
    requires Balanced(body, "(", ")") && Balanced(body', "(", ")")
    requires ArePlain(WithItem(before, attr, header, body, after))
    requires ArePlain(WithItem(before, attr, header, body', after))
    requires Walks(WithItem(before, attr, header, body, after), 0, |before|, BraceAt(before, attr, header))
    ensures var x, y := WithItem(before, attr, header, body, after), WithItem(before, attr, header, body', after);
            Calls(ScanFrom(x, 0)) == Calls(ScanFrom(y, 0)) <==>
            || Calls(ScanFrom(x, 0)).None? || body == body'
            || !OpenCall(x, 0, |before|, BraceAt(before, attr, header))
  {
    hide ScanFrom, Calls, Item, WithItem, IsTestItem, IsHeader, Walks, OpenCall, Opened, Balanced, ArePlain;
    if body != body' {
      var p, rest := Opened(before, attr, header), ["}"] + after;
      OpenedEnds(before, attr, header);
      ItemAroundBody(before, attr, header, body, after);
      ItemAroundBody(before, attr, header, body', after);
      SameAfterItem(before, attr, header, body, body', after);
      ShowsOnTheWay(WithItem(before, attr, header, body, after), WithItem(before, attr, header, body', after),
                    p, body, body', rest, |before|, 0);
    }
  }

  // ----- instances ---------------------------------------------------------------------

  /** Between `i` and `j` stands neither an attribute nor a call. */
  predicate IsQuiet(x: seq<string>, i: nat, j: nat) {
    forall k | i <= k < j :: !IsAttribute(x, k) && !IsCall(x, k)
  }

  lemma {:induction false} QuietCalls(x: seq<string>, i: nat, j: nat)
    requires i <= j <= |x| && IsQuiet(x, i, j)
    ensures Calls(ScanFrom(x, i)) == Calls(ScanFrom(x, j))
    decreases j - i
  {
    if i < j {
      assert StepAt(x, i) == Look;
      CallsStep(x, i);
      QuietCalls(x, i + 1, j);
    }
  }

  lemma OneIsBalanced(w: string, opening: string, ending: string)
    requires w != opening && w != ending
    ensures Balanced([w], opening, ending) && Balanced([], opening, ending)
  {
    assert Balance([w], 0, 0, opening, ending) == 0;
    assert Balance([w], 0, 1, opening, ending) == 0;
  }

  lemma TestIsBalanced()
    ensures IsTestOnly(["test"]) && Balanced(["test"], "[", "]")
  {
    OneIsBalanced("test", "[", "]");
  }

  /** `# [ test ] fn f [ u8 ; 4 ] { body }`: the array type ends the search for the body. */
  function ArrayItem(body: seq<string>): seq<string> {
    WithItem([], ["test"], ["fn", "f", "[", "u8", ";", "4", "]"], body, [])
  }

  lemma ArrayItemGoesOn(body: seq<string>)
    ensures |ArrayItem(body)| > 9 && Calls(ScanFrom(ArrayItem(body), 0)) == Calls(ScanFrom(ArrayItem(body), 9))
  {
    var x := ArrayItem(body);
    assert x[..9] == ["#", "[", "test", "]", "fn", "f", "[", "u8", ";"];
    assert x[0] == x[..9][0] && x[1] == x[..9][1] && x[3] == x[..9][3] && x[8] == x[..9][8];
    assert x[4] == x[..9][4] && x[5] == x[..9][5] && x[6] == x[..9][6] && x[7] == x[..9][7];
    assert x[2..3] == x[..9][2..3] == ["test"];
    TestIsBalanced();
    ClosesBehind(x, 1, ["test"], "[", "]");
    StepIs(x, 0, 3);
    assert BodyStart(x, 4) == 8;
    assert ItemFrom(x, 4).SkipTo? && ItemFrom(x, 4).next == 9;
    hide ScanFrom;
    CallsStep(x, 0);
  }

  lemma ArrayItemQuiet()
    ensures Calls(ScanFrom(ArrayItem([]), 9)) == Some([])
  {
    var y := ArrayItem([]);
    assert y == ["#", "[", "test", "]", "fn", "f", "[", "u8", ";", "4", "]", "{", "}"];
    hide ScanFrom, Calls, ArrayItem;
    QuietCalls(y, 9, 13);
    NoCallsAtEnd(y, 13);
  }

  /** The tokens of `4 ] { . sign_commitment ( ) }` at 9. */
  lemma CallBehindArray(x: seq<string>)
    requires |x| == 17 && x[9..] == ["4", "]", "{", ".", "sign_commitment", "(", ")", "}"]
    ensures Calls(ScanFrom(x, 9)) == Some([("sign_commitment", "")])
  {
    var tail := x[9..];
    assert x[9] == tail[0] && x[10] == tail[1] && x[11] == tail[2] && x[12] == tail[3];
    assert x[13] == tail[4] && x[14] == tail[5] && x[15] == tail[6] && x[16] == tail[7];
    hide ScanFrom, Calls, Before, Closing;
    QuietCalls(x, 9, 13);
    assert IsCall(x, 13) && StepAt(x, 13) == Look;
    OneIsBalanced("", "(", ")");
    ClosesBehind(x, 14, [], "(", ")");
    CallsStep(x, 13);
    QuietCalls(x, 14, 17);
    NoCallsAtEnd(x, 17);
    assert x[15..15] == [];
    OnlyCall();
  }

  lemma OnlyCall()
    ensures Before([("sign_commitment", Join([]))], Some([])) == Some([("sign_commitment", "")])
  {
    assert [("sign_commitment", "")] + [] == [("sign_commitment", "")];
  }

  /** So a call in the body of a test is reported. */
  lemma ArrayHeaderExists()
    ensures Calls(ScanFrom(ArrayItem([".", "sign_commitment", "(", ")"]), 0)) == Some([("sign_commitment", "")])
    ensures Calls(ScanFrom(ArrayItem([]), 0)) == Some([])
  {
    hide ScanFrom, Calls, ArrayItem;
    ArrayItemGoesOn([".", "sign_commitment", "(", ")"]);
    ArrayItemGoesOn([]);
    ArrayItemQuiet();
    ArrayItemTail();
    CallBehindArray(ArrayItem([".", "sign_commitment", "(", ")"]));
  }

  lemma ArrayItemTail()
    ensures var x := ArrayItem([".", "sign_commitment", "(", ")"]);
            |x| == 17 && x[9..] == ["4", "]", "{", ".", "sign_commitment", "(", ")", "}"]
  {
  }

  /** `. sign_commitment ( # [ test ] fn f { body } )`: a test in the arguments of a call. */
  function EnclosedItem(body: seq<string>): seq<string> {
    WithItem([".", "sign_commitment", "("], ["test"], ["fn", "f"], body, [")"])
  }

  lemma EnclosedCall(body: seq<string>)
    requires Balanced(body, "{", "}") && Balanced(body, "(", ")")
    ensures var x := EnclosedItem(body);
            && Walks(x, 0, 3, 9) && OpenCall(x, 0, 3, 9)
            && Closing(x, 2, "(", ")") == Some(11 + |body|)
  {
    var x := EnclosedItem(body);
    var head, tail := [".", "sign_commitment", "(", "#", "[", "test", "]", "fn", "f", "{"], ["}", ")"];
    assert x == head + (body + tail);
    assert x[0] == "." && x[1] == "sign_commitment" && x[2] == "(" && x[3] == "#";
    HasParts(head, body, tail);
    OpenTail(x, head, body);
    assert IsCall(x, 1) && StepAt(x, 0) == StepAt(x, 1) == StepAt(x, 2) == Look;
    assert OpenCall(x, 1, 3, 9);
    assert Walks(x, 2, 3, 9) && Walks(x, 1, 3, 9);
  }

  lemma OpenTail(x: seq<string>, head: seq<string>, body: seq<string>)
    requires head == [".", "sign_commitment", "(", "#", "[", "test", "]", "fn", "f", "{"]
    requires x == head + (body + ["}", ")"]) && HasAt(x, 10, body) && Balanced(body, "(", ")")
    ensures Closing(x, 2, "(", ")") == Some(11 + |body|)
  {
    var m := 10 + |body|;
    assert x[m] == "}" && x[m + 1] == ")";
    assert forall k | 3 <= k < 10 :: x[k] == head[k] && head[k] != "(" && head[k] != ")";
    OpenFrom(x, 10);
    OpenOver(x, 2, 10, body, "(", ")");
    assert Balance(x, 2, m + 1, "(", ")") == 1 && Balance(x, 2, m + 2, "(", ")") == 0;
    assert ClosingFrom(x, 2, m + 1, "(", ")") == Some(m + 1);
  }

  lemma {:induction false} OpenFrom(x: seq<string>, k: nat)
    requires 3 <= k <= |x| && x[2] == "(" && forall j | 3 <= j < k :: x[j] != "(" && x[j] != ")"
    ensures Balance(x, 2, k, "(", ")") == 1 && forall j | 2 <= j < k :: !Closes(x, 2, j, "(", ")")
  {
    if k == 3 {
      assert Balance(x, 2, 2, "(", ")") == 0;
    } else {
      OpenFrom(x, k - 1);
    }
  }

  lemma EnclosedParts()
    ensures IsTestItem(["test"], []) && IsTestItem(["test"], ["z"]) && IsHeader(["fn", "f"])
    ensures Balanced([], "(", ")") && Balanced(["z"], "(", ")") && Balanced([], "{", "}") && Balanced(["z"], "{", "}")
  {
    hide Balanced;
    TestIsBalanced();
    OneIsBalanced("z", "{", "}");
    OneIsBalanced("z", "(", ")");
  }

  lemma EnclosedTokens()
    ensures EnclosedItem([]) == [".", "sign_commitment", "(", "#", "[", "test", "]", "fn", "f", "{", "}", ")"]
    ensures ArePlain(EnclosedItem([])) && ArePlain(EnclosedItem(["z"]))
  {
    assert EnclosedItem(["z"]) == [".", "sign_commitment", "(", "#", "[", "test", "]", "fn", "f", "{", "z", "}", ")"];
  }

  /** There the reported arguments tell the bodies apart. */
  lemma EnclosedItemExists()
    ensures Calls(ScanFrom(EnclosedItem([]), 0)).Some?
    ensures Calls(ScanFrom(EnclosedItem([]), 0)) != Calls(ScanFrom(EnclosedItem(["z"]), 0))
  {
    hide ScanFrom, Calls, Walks, OpenCall, Balanced, WithItem, IsTestItem, IsHeader, ArePlain, Closing;
    EnclosedParts();
    EnclosedTokens();
    EnclosedCall([]);
    EnclosedSucceeds();
    TestBodyShowsIff([".", "sign_commitment", "("], ["test"], ["fn", "f"], [], ["z"], [")"]);
  }

  lemma EnclosedTail(x: seq<string>)
    requires x == EnclosedItem([])
    ensures Calls(ScanFrom(x, 3)).Some?
  {
    hide ScanFrom, Calls, Walks, OpenCall, Balanced, WithItem, IsTestItem, IsHeader, Closing, StepAt;
    EnclosedParts();
    EnclosedTokens();
    ItemCalls([".", "sign_commitment", "("], ["test"], ["fn", "f"], [], [")"]);
    QuietCalls(x, 11, 12);
    NoCallsAtEnd(x, 12);
  }

  lemma HeadSteps(x: seq<string>)
    requires |x| > 3 && x[0] == "." && x[1] == "sign_commitment" && x[2] == "("
    ensures StepAt(x, 1) == Look && IsCall(x, 1) && IsQuiet(x, 2, 3) && IsQuiet(x, 0, 1)
  {
  }

  lemma EnclosedHead(x: seq<string>)
    requires |x| > 3 && x[0] == "." && x[1] == "sign_commitment" && x[2] == "("
    requires Closing(x, 2, "(", ")").Some? && Calls(ScanFrom(x, 3)).Some?
    ensures Calls(ScanFrom(x, 0)).Some?
  {
    HeadSteps(x);
    hide ScanFrom, Calls, Closing, StepAt, IsQuiet, IsCall;
    QuietCalls(x, 2, 3);
    CallsStep(x, 1);
    QuietCalls(x, 0, 1);
  }

  lemma EnclosedSucceeds()
    ensures Calls(ScanFrom(EnclosedItem([]), 0)).Some?
  {
    hide ScanFrom, Calls, Closing, Walks, OpenCall, Balanced;
    EnclosedParts();
    EnclosedTokens();
    EnclosedCall([]);
    EnclosedTail(EnclosedItem([]));
    EnclosedHead(EnclosedItem([]));
  }

  // ----- from the source on ------------------------------------------------------------

  /** Sources that differ only in a string literal report the same calls and test modules. */
  lemma LiteralTextIsInvisible(before: string, word: string, word': string, after: string)
    requires IsLiteral(word) && IsLiteral(word')
    requires Reaches(WithLiteral(before, word, after), 0, |before|)
    requires Reaches(WithLiteral(before, word', after), 0, |before|)
    ensures ScanFrom(Texts(Lex(WithLiteral(before, word, after), 0, 1)), 0)
         == ScanFrom(Texts(Lex(WithLiteral(before, word', after), 0, 1)), 0)
  {
    LiteralTextIsIrrelevant(before, word, word', after);
  }
}
