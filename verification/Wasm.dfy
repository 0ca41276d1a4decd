/** The WebAssembly section reader (scripts/check-wasm-features.py): unsigned LEB128 integers
    (section 5.2.2 of the WebAssembly Core Specification), sections (5.5.2) and custom sections
    (5.5.3), with encoders to state round trips. */
module Wasm {
  import opened Basics

  type Byte = b: nat | b < 256
  type Bytes = seq<Byte>

  datatype Result<T> = Ok(value: T) | Err

  /** A section: where its id byte, its payload and the next section start. */
  datatype Span = Span(id: Byte, start: nat, body: nat, end: nat)

  /** A feature as the script lists it; names go through a `decode` function, Python's UTF-8 decoder with
      replacement, which is taken as given. */
  datatype Feature = Feature(prefix: char, name: string)

  const MAGIC: Bytes := [0, 97, 115, 109]
  const HEADER: nat := 8
  const MAX_ULEB_BYTES: nat := 10
  /** The bytes of "target_features". */
  const TARGET_FEATURES: Bytes := [116, 97, 114, 103, 101, 116, 95, 102, 101, 97, 116, 117, 114, 101, 115]

  function Pow128(k: nat): (r: nat)
    ensures r > 0
  {
    if k == 0 then 1 else 128 * Pow128(k - 1)
  }

  /** Python's `buf[lo:hi]`, which stops at the end of the buffer. */
  function Slice(buf: Bytes, lo: nat, hi: nat): Bytes
    requires lo <= hi
  {
    var n := |buf|;
    if lo >= n then [] else if hi >= n then buf[lo..] else buf[lo..hi]
  }

  // ----- unsigned LEB128 ---------------------------------------------------------------

  /** The value and end of the integer whose byte number `k` is at `pos`. */
  function UlebFrom(buf: Bytes, pos: nat, k: nat): Result<(nat, nat)>
    requires k < MAX_ULEB_BYTES
    decreases MAX_ULEB_BYTES - k
  {
    if pos >= |buf| then Err
    else if buf[pos] < 128 then Ok((buf[pos], pos + 1))
    else if k + 1 == MAX_ULEB_BYTES then Err
    else match UlebFrom(buf, pos + 1, k + 1)
      case Ok((v, end)) => Ok((buf[pos] - 128 + 128 * v, end))
      case Err => Err
  }

  function Uleb(buf: Bytes, pos: nat): Result<(nat, nat)> { UlebFrom(buf, pos, 0) }

  lemma {:induction false} Pow128Injective(j: nat, k: nat)
    ensures j < k ==> Pow128(j) < Pow128(k)
    ensures Pow128(j) == Pow128(k) ==> j == k
  {
    if j > 0 && k > 0 { Pow128Injective(j - 1, k - 1); }
  }

  /** Bytes that encode one integer: continuation bits on all but the last. */
  predicate IsUleb(bs: Bytes) {
    && 1 <= |bs| <= 10
    && (forall i | 0 <= i < |bs| - 1 :: bs[i] >= 128)
    && bs[|bs| - 1] < 128
  }

  /** The low seven bits of each byte, least significant first. */
  function Base128(bs: Bytes): nat {
    if bs == [] then 0 else bs[0] % 128 + 128 * Base128(bs[1..])
  }

  lemma {:induction false} Base128Below(bs: Bytes)
    ensures Base128(bs) < Pow128(|bs|)
  {
    if bs != [] { Base128Below(bs[1..]); }
  }

  ghost predicate ContinuesFrom(bs: Bytes, k: nat) {
    && 1 <= |bs| <= MAX_ULEB_BYTES - k
    && (forall i | 0 <= i < |bs| - 1 :: bs[i] >= 128)
    && bs[|bs| - 1] < 128
  }

  lemma {:induction false} UlebFromSound(buf: Bytes, pos: nat, k: nat)
    requires k < MAX_ULEB_BYTES && UlebFrom(buf, pos, k).Ok?
    ensures var (v, end) := UlebFrom(buf, pos, k).value;
            pos < end <= |buf| && ContinuesFrom(buf[pos..end], k) && v == Base128(buf[pos..end])
    decreases MAX_ULEB_BYTES - k
  {
    var (v, end) := UlebFrom(buf, pos, k).value;
    if buf[pos] < 128 {
      assert buf[pos..end] == [buf[pos]] && [buf[pos]][1..] == [];
    } else {
      UlebFromSound(buf, pos + 1, k + 1);
      assert buf[pos..end] == [buf[pos]] + buf[pos + 1..end];
    }
  }

  lemma {:induction false} UlebFromComplete(buf: Bytes, pos: nat, end: nat, k: nat)
    requires k < MAX_ULEB_BYTES && pos < end <= |buf| && ContinuesFrom(buf[pos..end], k)
    ensures UlebFrom(buf, pos, k) == Ok((Base128(buf[pos..end]), end))
    decreases MAX_ULEB_BYTES - k
  {
    var bs := buf[pos..end];
    assert bs[0] == buf[pos];
    assert bs[1..] == buf[pos + 1..end];
    if |bs| > 1 {
      UlebFromComplete(buf, pos + 1, end, k + 1);
    } else {
      assert bs[1..] == [];
    }
  }

  /** Reading succeeds exactly on one to ten in-bounds bytes with the right continuation bits; it
      then consumes them and returns their base-128 value. */
  lemma UlebIff(buf: Bytes, pos: nat, v: nat, end: nat)
    ensures Uleb(buf, pos) == Ok((v, end))
       <==> pos < end <= |buf| && IsUleb(buf[pos..end]) && v == Base128(buf[pos..end])
  {
    if Uleb(buf, pos) == Ok((v, end)) { UlebFromSound(buf, pos, 0); }
    if pos < end <= |buf| && IsUleb(buf[pos..end]) { UlebFromComplete(buf, pos, end, 0); }
  }

  /** Hence every value read is below 2 to the 70th. */
  lemma UlebBounds(buf: Bytes, pos: nat)
    ensures Uleb(buf, pos).Ok? ==> var (v, end) := Uleb(buf, pos).value;
                                   pos < end <= |buf| && end <= pos + 10 && v < Pow128(10)
  {
    if Uleb(buf, pos).Ok? {
      var (v, end) := Uleb(buf, pos).value;
      UlebIff(buf, pos, v, end);
      Base128Below(buf[pos..end]);
      Pow128Injective(|buf[pos..end]|, 10);
    }
  }

  lemma ScaleDigit(x: nat, p: nat)
    ensures 128 * (x * p) == x * (128 * p)
  {
  }

  /** A further byte adds its low bits at the next weight. */
  lemma {:induction false} Base128Append(bs: Bytes, b: Byte)
    ensures Base128(bs + [b]) == Base128(bs) + b % 128 * Pow128(|bs|)
  {
    if bs == [] {
      assert bs + [b] == [b] && [b][1..] == [];
    } else {
      assert (bs + [b])[1..] == bs[1..] + [b];
      Base128Append(bs[1..], b);
      ScaleDigit(b % 128, Pow128(|bs| - 1));
    }
  }

  lemma AddByte(buf: Bytes, start: nat, pos: nat)
    requires start <= pos < |buf|
    ensures Base128(buf[start..pos]) + buf[pos] % 128 * Pow128(pos - start) == Base128(buf[start..pos + 1])
    ensures Base128(buf[start..pos]) < Pow128(pos - start)
    ensures pos == start ==> Base128(buf[start..pos]) == 0
  {
    assert buf[start..pos + 1] == buf[start..pos] + [buf[pos]];
    Base128Append(buf[start..pos], buf[pos]);
    Base128Below(buf[start..pos]);
  }

  lemma LastByteIsLow(buf: Bytes, start: nat, v: nat, end: nat)
    requires Uleb(buf, start) == Ok((v, end))
    ensures start < end <= |buf| && end <= start + MAX_ULEB_BYTES && buf[end - 1] < 128
  {
    UlebIff(buf, start, v, end);
    assert buf[start..end][end - start - 1] == buf[end - 1];
  }

  lemma NoUlebWithoutLastByte(buf: Bytes, start: nat, pos: nat)
    requires start <= pos && (pos == start + MAX_ULEB_BYTES || pos >= |buf|)
    requires forall i | start <= i < pos && i < |buf| :: buf[i] >= 128
    ensures Uleb(buf, start) == Err
  {
    if Uleb(buf, start).Ok? {
      var (v, end) := Uleb(buf, start).value;
      LastByteIsLow(buf, start, v, end);
      assert false;
    }
  }

  lemma UlebEndsHere(buf: Bytes, start: nat, pos: nat)
    requires start <= pos < |buf| && pos < start + MAX_ULEB_BYTES && buf[pos] < 128
    requires forall i | start <= i < pos :: buf[i] >= 128
    ensures Uleb(buf, start) == Ok((Base128(buf[start..pos + 1]), pos + 1))
  {
    var bs := buf[start..pos + 1];
    assert forall i | 0 <= i < |bs| :: bs[i] == buf[start + i];
    UlebIff(buf, start, Base128(bs), pos + 1);
  }

  /** The decoding loop. The low bits of a byte are added at weight `2^shift`; since the value so far
      is below that weight, adding and OR-ing are the same. */
  method ReadUleb128(buf: Bytes, start: nat) returns (r: Result<(nat, nat)>)
    ensures r == Uleb(buf, start)
  {
    var result: nat, shift: nat, pos: nat := 0, 0, start;
    while true
      invariant start <= pos < start + MAX_ULEB_BYTES && shift == 7 * (pos - start)
      invariant pos > start ==> pos <= |buf|
      invariant forall i | start <= i < pos :: buf[i] >= 128
      invariant result == if pos == start then 0 else Base128(buf[start..pos])
      decreases start + MAX_ULEB_BYTES - pos
    {
      if pos >= |buf| {
        NoUlebWithoutLastByte(buf, start, pos);
        return Err;
      }
      var byte := buf[pos];
      AddByte(buf, start, pos);
      assert shift / 7 == pos - start;
      result, pos := result + byte % 128 * Pow128(shift / 7), pos + 1;
      if byte < 128 {
        UlebEndsHere(buf, start, pos - 1);
        return Ok((result, pos));
      }
      shift := shift + 7;
      if shift > 63 {
        NoUlebWithoutLastByte(buf, start, pos);
        return Err;
      }
    }
  }

  function EncodeUleb(n: nat): (bs: Bytes)
    ensures bs != []
  {
    if n < 128 then [n] else [128 + n % 128] + EncodeUleb(n / 128)
  }

  lemma {:induction false} EncodeUlebShape(n: nat, k: nat)
    requires 1 <= k <= MAX_ULEB_BYTES && n < Pow128(k)
    ensures var bs := EncodeUleb(n);
            && 1 <= |bs| <= k && bs[|bs| - 1] < 128 && (forall i | 0 <= i < |bs| - 1 :: bs[i] >= 128)
            && Base128(bs) == n
  {
    var bs := EncodeUleb(n);
    if n < 128 {
      assert bs[1..] == [];
    } else {
      assert k > 1 by { assert Pow128(1) == 128; }
      EncodeUlebShape(n / 128, k - 1);
      assert bs[1..] == EncodeUleb(n / 128);
    }
  }

  /** `enc` is an encoding of `n`, minimal or padded. */
  predicate Encodes(enc: Bytes, n: nat) { IsUleb(enc) && Base128(enc) == n }

  /** Exactly the numbers below 2 to the 70th have an encoding. */
  lemma EncodableIff(n: nat)
    ensures n < Pow128(10) <==> exists enc :: Encodes(enc, n)
  {
    if n < Pow128(MAX_ULEB_BYTES) {
      EncodeUlebShape(n, MAX_ULEB_BYTES);
      assert Encodes(EncodeUleb(n), n);
    }
    if enc :| Encodes(enc, n) {
      Base128Below(enc);
      Pow128Injective(|enc|, MAX_ULEB_BYTES);
    }
  }

  lemma HasByte(buf: Bytes, pos: nat, b: Byte)
    requires HasAt(buf, pos, [b])
    ensures pos < |buf| && buf[pos] == b
  {
    assert buf[pos..pos + 1][0] == b;
  }

  /** An encoded integer reads back wherever it stands. */
  lemma UlebRoundTrip(buf: Bytes, pos: nat, enc: Bytes, n: nat)
    requires Encodes(enc, n) && HasAt(buf, pos, enc)
    ensures Uleb(buf, pos) == Ok((n, pos + |enc|))
  {
    UlebIff(buf, pos, n, pos + |enc|);
  }

  // ----- sections ----------------------------------------------------------------------

  /** A list of results with `out` already collected in front. */
  function After<T>(out: seq<T>, r: Result<seq<T>>): Result<seq<T>> {
    match r
    case Err => Err
    case Ok(rest) => Ok(out + rest)
  }

  lemma AfterNothing<T>(r: Result<seq<T>>)
    ensures After([], r) == r
  {
    if r.Ok? { assert [] + r.value == r.value; }
  }

  lemma AfterStep<T>(out: seq<T>, x: T, r: Result<seq<T>>)
    ensures After(out, After([x], r)) == After(out + [x], r)
  {
    if r.Ok? { assert out + ([x] + r.value) == out + [x] + r.value; }
  }

  predicate HasHeader(buf: Bytes) { |buf| >= HEADER && buf[..4] == MAGIC }

  function NextSection(buf: Bytes, pos: nat): (r: Result<Span>)
    requires pos < |buf|
    ensures r.Ok? ==> pos < r.value.body <= r.value.end <= |buf|
  {
    match Uleb(buf, pos + 1)
    case Err => Err
    case Ok((size, body)) =>
      UlebBounds(buf, pos + 1);
      if body + size > |buf| then Err else Ok(Span(buf[pos], pos, body, body + size))
  }

  function SectionsFrom(buf: Bytes, pos: nat): Result<seq<Span>>
    decreases |buf| - pos
  {
    if pos >= |buf| then Ok([])
    else match NextSection(buf, pos)
      case Err => Err
      case Ok(s) => After([s], SectionsFrom(buf, s.end))
  }

  function Sections(buf: Bytes): Result<seq<Span>> {
    if !HasHeader(buf) then Err else SectionsFrom(buf, HEADER)
  }

  method ReadSection(buf: Bytes, pos: nat) returns (r: Result<Span>)
    requires pos < |buf|
    ensures r == NextSection(buf, pos)
  {
    var size := ReadUleb128(buf, pos + 1);
    if size.Err? { return Err; }
    var (n, body) := size.value;
    UlebBounds(buf, pos + 1);
    if |Slice(buf, body, body + n)| != n { return Err; }
    r := Ok(Span(buf[pos], pos, body, body + n));
  }

  /** The section generator, run to its end. */
  method IterSections(buf: Bytes) returns (r: Result<seq<Span>>)
    ensures r == Sections(buf)
  {
    if |buf| < HEADER || buf[..4] != MAGIC { return Err; }
    var pos, out := HEADER, [];
    AfterNothing(SectionsFrom(buf, pos));
    while pos < |buf|
      invariant HEADER <= pos <= |buf|
      invariant Sections(buf) == After(out, SectionsFrom(buf, pos))
    {
      var s := ReadSection(buf, pos);
      if s.Err? { return Err; }
      AfterStep(out, s.value, SectionsFrom(buf, s.value.end));
      out, pos := out + [s.value], s.value.end;
    }
    assert out + [] == out;
    r := Ok(out);
  }

  /** Spans that cover `buf[pos..]` end to end, each an id byte, a size and that many bytes. */
  ghost predicate Tiles(buf: Bytes, pos: nat, spans: seq<Span>)
    decreases |spans|
  {
    if spans == [] then pos == |buf|
    else
      var s := spans[0];
      && pos == s.start < s.body <= s.end <= |buf|
      && s.id == buf[s.start]
      && IsUleb(buf[s.start + 1..s.body]) && Base128(buf[s.start + 1..s.body]) == s.end - s.body
      && Tiles(buf, s.end, spans[1..])
  }

  lemma NextSectionSpan(buf: Bytes, pos: nat)
    requires pos < |buf| && NextSection(buf, pos).Ok?
    ensures var s := NextSection(buf, pos).value;
            && pos == s.start < s.body <= s.end <= |buf| && s.id == buf[pos]
            && IsUleb(buf[s.start + 1..s.body]) && Base128(buf[s.start + 1..s.body]) == s.end - s.body
  {
    var s := NextSection(buf, pos).value;
    UlebIff(buf, pos + 1, s.end - s.body, s.body);
  }

  lemma {:induction false} SectionsAreTiles(buf: Bytes, pos: nat)
    requires pos <= |buf| && SectionsFrom(buf, pos).Ok?
    ensures Tiles(buf, pos, SectionsFrom(buf, pos).value)
    decreases |buf| - pos
  {
    if pos < |buf| {
      var s := NextSection(buf, pos).value;
      var rest := SectionsFrom(buf, s.end).value;
      NextSectionSpan(buf, pos);
      SectionsAreTiles(buf, s.end);
      assert ([s] + rest)[1..] == rest;
    }
  }

  lemma SizeReads(buf: Bytes, pos: nat, size: nat, body: nat)
    requires pos < body <= |buf| && IsUleb(buf[pos..body]) && Base128(buf[pos..body]) == size
    ensures Uleb(buf, pos) == Ok((size, body))
  {
    UlebIff(buf, pos, size, body);
  }

  lemma SpanIsNext(buf: Bytes, s: Span, size: nat)
    requires s.start < s.body <= s.end <= |buf| && s.id == buf[s.start] && size == s.end - s.body
    requires Uleb(buf, s.start + 1) == Ok((size, s.body))
    ensures NextSection(buf, s.start) == Ok(s)
  {
    hide Uleb;
  }

  lemma TileIsNext(buf: Bytes, pos: nat, spans: seq<Span>)
    requires pos <= |buf| && Tiles(buf, pos, spans) && spans != []
    ensures var s := spans[0];
            && pos == s.start < s.end <= |buf| && Tiles(buf, s.end, spans[1..]) && NextSection(buf, pos) == Ok(s)
  {
    var s := spans[0];
    SizeReads(buf, pos + 1, s.end - s.body, s.body);
    SpanIsNext(buf, s, s.end - s.body);
  }

  lemma {:induction false} TilesAreSections(buf: Bytes, pos: nat, spans: seq<Span>)
    requires pos <= |buf| && Tiles(buf, pos, spans)
    ensures SectionsFrom(buf, pos) == Ok(spans)
    decreases |spans|
  {
    if spans != [] {
      hide NextSection;
      TileIsNext(buf, pos, spans);
      TilesAreSections(buf, spans[0].end, spans[1..]);
      assert spans == [spans[0]] + spans[1..];
    }
  }

  /** Iteration ends without error exactly on spans that tile the buffer after its header. */
  lemma SectionsTile(buf: Bytes, spans: seq<Span>)
    ensures Sections(buf) == Ok(spans) <==> HasHeader(buf) && Tiles(buf, HEADER, spans)
  {
    if Sections(buf) == Ok(spans) { SectionsAreTiles(buf, HEADER); }
    if HasHeader(buf) && Tiles(buf, HEADER, spans) { TilesAreSections(buf, HEADER, spans); }
  }

  // ----- the target_features section ---------------------------------------------------

  /** The name and the contents of a custom section's payload. */
  function Custom(payload: Bytes): Result<(Bytes, Bytes)> {
    match Uleb(payload, 0)
    case Err => Err
    case Ok((n, p)) => Ok((Slice(payload, p, p + n), Slice(payload, p + n, |payload| + p + n)))
  }

  function FindFrom(buf: Bytes, pos: nat): Result<Option<Bytes>>
    decreases |buf| - pos
  {
    if pos >= |buf| then Ok(None)
    else match NextSection(buf, pos)
      case Err => Err
      case Ok(s) =>
        if s.id != 0 then FindFrom(buf, s.end)
        else match Custom(Slice(buf, s.body, s.end))
          case Err => Err
          case Ok((name, contents)) => if name == TARGET_FEATURES then Ok(Some(contents)) else FindFrom(buf, s.end)
  }

  function Find(buf: Bytes): Result<Option<Bytes>> { if !HasHeader(buf) then Err else FindFrom(buf, HEADER) }

  method ReadCustom(payload: Bytes) returns (r: Result<(Bytes, Bytes)>)
    ensures r == Custom(payload)
  {
    var len := ReadUleb128(payload, 0);
    if len.Err? { return Err; }
    var (n, p) := len.value;
    r := Ok((Slice(payload, p, p + n), Slice(payload, p + n, |payload| + p + n)));
  }

  /** Stops at the first section of that name, so nothing after it is even read. */
  method FindTargetFeatures(buf: Bytes) returns (r: Result<Option<Bytes>>)
    ensures r == Find(buf)
  {
    if |buf| < HEADER || buf[..4] != MAGIC { return Err; }
    var pos := HEADER;
    while pos < |buf|
      invariant HEADER <= pos <= |buf|
      invariant Find(buf) == FindFrom(buf, pos)
    {
      var s := ReadSection(buf, pos);
      if s.Err? { return Err; }
      var span := s.value;
      if span.id == 0 {
        var custom := ReadCustom(Slice(buf, span.body, span.end));
        if custom.Err? { return Err; }
        if custom.value.0 == TARGET_FEATURES { return Ok(Some(custom.value.1)); }
      }
      pos := span.end;
    }
    r := Ok(None);
  }

  /** The search passes over this section. */
  predicate Passes(buf: Bytes, s: Span)
    requires s.body <= s.end
  {
    s.id != 0 || (Custom(Slice(buf, s.body, s.end)).Ok? && Custom(Slice(buf, s.body, s.end)).value.0 != TARGET_FEATURES)
  }

  /** `spans` are consecutive sections from `pos` on, all passed over but the last, which is the
      target_features section with these contents. */
  ghost predicate LeadsTo(buf: Bytes, pos: nat, spans: seq<Span>, contents: Bytes)
    decreases |spans|
  {
    && spans != [] && pos < |buf| && NextSection(buf, pos) == Ok(spans[0])
    && if |spans| == 1
       then spans[0].id == 0 && Custom(Slice(buf, spans[0].body, spans[0].end)) == Ok((TARGET_FEATURES, contents))
       else Passes(buf, spans[0]) && LeadsTo(buf, spans[0].end, spans[1..], contents)
  }

  lemma {:induction false} FoundHere(buf: Bytes, pos: nat, contents: Bytes) returns (spans: seq<Span>)
    requires FindFrom(buf, pos) == Ok(Some(contents))
    ensures LeadsTo(buf, pos, spans, contents)
    decreases |buf| - pos
  {
    hide NextSection, Custom;
    var s := NextSection(buf, pos).value;
    if Passes(buf, s) {
      var rest := FoundHere(buf, s.end, contents);
      spans := [s] + rest;
      assert spans[1..] == rest;
    } else {
      spans := [s];
    }
  }

  lemma {:induction false} LeadsToFinds(buf: Bytes, pos: nat, spans: seq<Span>, contents: Bytes)
    requires LeadsTo(buf, pos, spans, contents)
    ensures FindFrom(buf, pos) == Ok(Some(contents))
    decreases |spans|
  {
    hide NextSection, Custom;
    if |spans| > 1 { LeadsToFinds(buf, spans[0].end, spans[1..], contents); }
  }

  /** Contents are returned exactly when readable sections of other kinds and names lead to a
      target_features section that holds them; what follows it does not matter. */
  lemma FindIff(buf: Bytes, contents: Bytes)
    ensures Find(buf) == Ok(Some(contents)) <==>
            HasHeader(buf) && exists spans :: LeadsTo(buf, HEADER, spans, contents)
  {
    hide FindFrom, LeadsTo;
    if Find(buf) == Ok(Some(contents)) { var spans := FoundHere(buf, HEADER, contents); }
    if HasHeader(buf) {
      forall spans | LeadsTo(buf, HEADER, spans, contents) ensures FindFrom(buf, HEADER) == Ok(Some(contents)) {
        LeadsToFinds(buf, HEADER, spans, contents);
      }
    }
  }

  ghost predicate AllPass(buf: Bytes, spans: seq<Span>) {
    forall i | 0 <= i < |spans| :: spans[i].body <= spans[i].end && Passes(buf, spans[i])
  }

  lemma AllPassCons(buf: Bytes, s: Span, rest: seq<Span>)
    requires s.body <= s.end
    ensures AllPass(buf, [s] + rest) <==> Passes(buf, s) && AllPass(buf, rest)
  {
    hide Passes;
    var all := [s] + rest;
    assert all[0] == s && forall i | 0 <= i < |rest| :: all[i + 1] == rest[i];
  }

  lemma {:induction false} AbsentFrom(buf: Bytes, pos: nat)
    ensures FindFrom(buf, pos) == Ok(None) <==>
            SectionsFrom(buf, pos).Ok? && AllPass(buf, SectionsFrom(buf, pos).value)
    decreases |buf| - pos
  {
    hide NextSection, Custom;
    if pos < |buf| && NextSection(buf, pos).Ok? {
      var s := NextSection(buf, pos).value;
      AbsentFrom(buf, s.end);
      if SectionsFrom(buf, s.end).Ok? { AllPassCons(buf, s, SectionsFrom(buf, s.end).value); }
    }
  }

  /** The section is reported absent exactly when the whole buffer reads as sections and none of them is it. */
  lemma AbsentIff(buf: Bytes)
    ensures Find(buf) == Ok(None) <==> Sections(buf).Ok? && AllPass(buf, Sections(buf).value)
  {
    hide FindFrom, SectionsFrom, AllPass;
    AbsentFrom(buf, HEADER);
  }

  function ParseFrom(contents: Bytes, pos: nat, count: nat, decode: Bytes -> string): Result<seq<Feature>>
    decreases count
  {
    if count == 0 then Ok([])
    else if pos >= |contents| then Err
    else match Uleb(contents, pos + 1)
      case Err => Err
      case Ok((n, p)) =>
        After([Feature(contents[pos] as char, decode(Slice(contents, p, p + n)))],
              ParseFrom(contents, p + n, count - 1, decode))
  }

  function Parse(contents: Bytes, decode: Bytes -> string): Result<seq<Feature>> {
    match Uleb(contents, 0)
    case Err => Err
    case Ok((count, pos)) => ParseFrom(contents, pos, count, decode)
  }

  method ParseFeatures(contents: Bytes, decode: Bytes -> string) returns (r: Result<seq<Feature>>)
    ensures r == Parse(contents, decode)
  {
    hide Uleb;
    var head := ReadUleb128(contents, 0);
    if head.Err? { return Err; }
    var (count, pos) := head.value;
    var features := [];
    AfterNothing(ParseFrom(contents, pos, count, decode));
    for i := 0 to count
      invariant Parse(contents, decode) == After(features, ParseFrom(contents, pos, count - i, decode))
    {
      if pos >= |contents| { return Err; }
      var prefix := contents[pos] as char;
      var len := ReadUleb128(contents, pos + 1);
      if len.Err? { return Err; }
      var (n, p) := len.value;
      var f := Feature(prefix, decode(Slice(contents, p, p + n)));
      AfterStep(features, f, ParseFrom(contents, p + n, count - i - 1, decode));
      features := features + [f];
      pos := p + n;
    }
    assert features + [] == features;
    r := Ok(features);
  }

  // ----- the readings, over the bytes --------------------------------------------------

  lemma HeaderIff(buf: Bytes)
    ensures HasHeader(buf) <==> |buf| >= 8 && buf[0] == 0 && buf[1] == 0x61 && buf[2] == 0x73 && buf[3] == 0x6d
  {
    if |buf| >= 8 {
      assert buf[..4] == [buf[0], buf[1], buf[2], buf[3]];
      assert [buf[0], buf[1], buf[2], buf[3]] == MAGIC <==>
             buf[0] == MAGIC[0] && buf[1] == MAGIC[1] && buf[2] == MAGIC[2] && buf[3] == MAGIC[3];
    }
  }

  lemma TargetNameIs(k: nat)
    ensures |TARGET_FEATURES| == |"target_features"|
    ensures k < 15 ==> TARGET_FEATURES[k] == "target_features"[k] as int
  {
  }

  function Least(a: nat, b: nat): nat { if a <= b then a else b }

  /** The bytes from `p` on, `n` of them or as many as there are. */
  function Clipped(buf: Bytes, p: nat, n: nat): Bytes
    requires p <= |buf|
  {
    buf[p..Least(p + n, |buf|)]
  }

  lemma SliceIsClipped(buf: Bytes, p: nat, n: nat)
    requires p <= |buf|
    ensures Slice(buf, p, p + n) == Clipped(buf, p, n)
    ensures Slice(buf, p + n, |buf| + p + n) == buf[Least(p + n, |buf|)..]
  {
  }

  /** A custom section's payload is an integer in its first `p` bytes, that many bytes of name, and the rest;
      a name that is cut off is taken as far as it goes. */
  ghost predicate IsCustom(payload: Bytes, p: nat, name: Bytes, contents: Bytes) {
    && 0 < p <= |payload| && IsUleb(payload[..p])
    && var n := Base128(payload[..p]); name == Clipped(payload, p, n) && contents == payload[Least(p + n, |payload|)..]
  }

  lemma CustomIff(payload: Bytes, name: Bytes, contents: Bytes)
    ensures Custom(payload) == Ok((name, contents)) <==> exists p: nat :: IsCustom(payload, p, name, contents)
  {
    hide Uleb, Slice, IsUleb, Base128;
    if Custom(payload) == Ok((name, contents)) {
      var (n, p) := Uleb(payload, 0).value;
      UlebIff(payload, 0, n, p);
      assert payload[0..p] == payload[..p];
      SliceIsClipped(payload, p, n);
      assert IsCustom(payload, p, name, contents);
    }
    if p: nat :| IsCustom(payload, p, name, contents) {
      var n := Base128(payload[..p]);
      assert payload[0..p] == payload[..p];
      UlebIff(payload, 0, n, p);
      SliceIsClipped(payload, p, n);
    }
  }

  /** An entry at `pos`: a prefix byte, the integer `n` up to `p`, and that many bytes of name. */
  ghost predicate IsEntry(contents: Bytes, pos: nat, p: nat, n: nat, f: Feature, decode: Bytes -> string) {
    && pos + 1 < p <= |contents| && IsUleb(contents[pos + 1..p]) && Base128(contents[pos + 1..p]) == n
    && f == Feature(contents[pos] as char, decode(Clipped(contents, p, n)))
  }

  /** Entries stand one behind the other from `pos` on; the last name may be cut off. */
  ghost predicate AreEntries(contents: Bytes, pos: nat, fs: seq<Feature>, decode: Bytes -> string)
    decreases |fs|
  {
    || fs == []
    || exists p: nat, n: nat ::
         IsEntry(contents, pos, p, n, fs[0], decode) && AreEntries(contents, p + n, fs[1..], decode)
  }

  lemma EntryIs(contents: Bytes, pos: nat, decode: Bytes -> string, n: nat, p: nat)
    requires pos < |contents| && Uleb(contents, pos + 1) == Ok((n, p))
    ensures IsEntry(contents, pos, p, n, Feature(contents[pos] as char, decode(Slice(contents, p, p + n))), decode)
  {
    hide Uleb, Slice;
    UlebIff(contents, pos + 1, n, p);
    SliceIsClipped(contents, p, n);
  }

  lemma EntryReads(contents: Bytes, pos: nat, decode: Bytes -> string, p: nat, n: nat, f: Feature)
    requires IsEntry(contents, pos, p, n, f, decode)
    ensures pos < |contents| && Uleb(contents, pos + 1) == Ok((n, p))
    ensures f == Feature(contents[pos] as char, decode(Slice(contents, p, p + n)))
  {
    hide Uleb, Slice;
    UlebIff(contents, pos + 1, n, p);
    SliceIsClipped(contents, p, n);
  }

  lemma {:induction false} ParsedAreEntries(contents: Bytes, pos: nat, count: nat, decode: Bytes -> string)
    requires ParseFrom(contents, pos, count, decode).Ok?
    ensures var fs := ParseFrom(contents, pos, count, decode).value;
            |fs| == count && AreEntries(contents, pos, fs, decode)
    decreases count
  {
    hide Uleb, Slice, IsEntry, Base128;
    if count > 0 {
      var (n, p) := Uleb(contents, pos + 1).value;
      EntryIs(contents, pos, decode, n, p);
      ParsedAreEntries(contents, p + n, count - 1, decode);
      var rest := ParseFrom(contents, p + n, count - 1, decode).value;
      var f := Feature(contents[pos] as char, decode(Slice(contents, p, p + n)));
      assert ([f] + rest)[1..] == rest && ([f] + rest)[0] == f;
    }
  }

  lemma {:induction false} EntriesAreParsed(contents: Bytes, pos: nat, fs: seq<Feature>, decode: Bytes -> string)
    requires AreEntries(contents, pos, fs, decode)
    ensures ParseFrom(contents, pos, |fs|, decode) == Ok(fs)
    decreases |fs|
  {
    hide Uleb, Slice, IsEntry, Base128;
    if fs != [] {
      var p: nat, n: nat :| IsEntry(contents, pos, p, n, fs[0], decode) && AreEntries(contents, p + n, fs[1..], decode);
      EntryReads(contents, pos, decode, p, n, fs[0]);
      EntriesAreParsed(contents, p + n, fs[1..], decode);
      assert fs == [fs[0]] + fs[1..];
    }
  }

  ghost predicate IsFeatureList(contents: Bytes, p: nat, fs: seq<Feature>, decode: Bytes -> string) {
    && 0 < p <= |contents| && IsUleb(contents[..p]) && Base128(contents[..p]) == |fs|
    && AreEntries(contents, p, fs, decode)
  }

  /** Parsing yields a feature list exactly when the contents are its length and that many entries in a row,
      whatever follows; in every other case it fails. */
  lemma ParseIff(contents: Bytes, fs: seq<Feature>, decode: Bytes -> string)
    ensures Parse(contents, decode) == Ok(fs) <==> exists p: nat :: IsFeatureList(contents, p, fs, decode)
  {
    hide Uleb, IsUleb, Base128, AreEntries, ParseFrom;
    if Parse(contents, decode) == Ok(fs) {
      var (n, p) := Uleb(contents, 0).value;
      UlebIff(contents, 0, n, p);
      assert contents[0..p] == contents[..p];
      ParsedAreEntries(contents, p, n, decode);
      assert IsFeatureList(contents, p, fs, decode);
    }
    if p: nat :| IsFeatureList(contents, p, fs, decode) {
      assert contents[0..p] == contents[..p];
      UlebIff(contents, 0, |fs|, p);
      EntriesAreParsed(contents, p, fs, decode);
    }
  }

  // ----- the verdict -------------------------------------------------------------------

  /** The module lists the feature as used or required. */
  ghost predicate Carries(buf: Bytes, feature: string, decode: Bytes -> string) {
    && Find(buf).Ok? && Find(buf).value.Some?
    && var fs := Parse(Find(buf).value.value, decode);
       fs.Ok? && (Feature('+', feature) in fs.value || Feature('=', feature) in fs.value)
  }

  /** Exit code of a run that requires a feature: 0 exactly when the module carries it. */
  method Require(buf: Bytes, feature: string, decode: Bytes -> string) returns (code: nat)
    ensures code <= 1 && (code == 0 <==> Carries(buf, feature, decode))
  {
    var found := FindTargetFeatures(buf);
    if found.Err? { return 1; }
    if found.value.None? { return 1; }
    var features := ParseFeatures(found.value.value, decode);
    if features.Err? { return 1; }
    var present: set<string> := {};
    for i := 0 to |features.value|
      invariant forall name :: name in present <==>
                  Feature('+', name) in features.value[..i] || Feature('=', name) in features.value[..i]
    {
      var f := features.value[i];
      assert features.value[..i + 1] == features.value[..i] + [f];
      if f.prefix == '+' || f.prefix == '=' { present := present + {f.name}; }
    }
    assert features.value[..|features.value|] == features.value;
    code := if feature in present then 0 else 1;
  }

  // ----- round trips -------------------------------------------------------------------

  /** A section as written: its id, its encoded size and its payload. */
  datatype Section = Section(id: Byte, size: Bytes, payload: Bytes) {
    predicate Valid() { Encodes(size, |payload|) }
    function Written(): Bytes { [id] + (size + payload) }
  }

  /** A feature entry as written: prefix, encoded length, name. */
  datatype Entry = Entry(prefix: Byte, size: Bytes, name: Bytes) {
    predicate Valid() { Encodes(size, |name|) }
    function Written(): Bytes { [prefix] + (size + name) }
    function Meaning(decode: Bytes -> string): Feature { Feature(prefix as char, decode(name)) }
  }

  function SectionsBytes(ss: seq<Section>): Bytes { if ss == [] then [] else ss[0].Written() + SectionsBytes(ss[1..]) }

  function EntriesBytes(es: seq<Entry>): Bytes { if es == [] then [] else es[0].Written() + EntriesBytes(es[1..]) }

  function Meanings(es: seq<Entry>, decode: Bytes -> string): seq<Feature> {
    Image(es, (e: Entry) => e.Meaning(decode))
  }

  lemma SliceHas(buf: Bytes, pos: nat, bytes: Bytes)
    requires HasAt(buf, pos, bytes)
    ensures Slice(buf, pos, pos + |bytes|) == bytes
  {
    if pos + |bytes| == |buf| { assert buf[pos..] == buf[pos..pos + |bytes|]; }
  }

  /** A tag byte, an encoded length and that many bytes, read back. */
  lemma SizedRoundTrip(buf: Bytes, pos: nat, tag: Byte, size: Bytes, body: Bytes)
    requires Encodes(size, |body|) && HasAt(buf, pos, [tag] + (size + body))
    ensures pos < |buf| && buf[pos] == tag
    ensures Uleb(buf, pos + 1) == Ok((|body|, pos + 1 + |size|))
    ensures pos + 1 + |size| + |body| <= |buf|
    ensures Slice(buf, pos + 1 + |size|, pos + 1 + |size| + |body|) == body
  {
    HasAtSplit(buf, pos, [tag], size + body);
    HasByte(buf, pos, tag);
    HasAtSplit(buf, pos + 1, size, body);
    UlebRoundTrip(buf, pos + 1, size, |body|);
    SliceHas(buf, pos + 1 + |size|, body);
  }

  lemma SectionRoundTrip(buf: Bytes, pos: nat, s: Section)
    requires s.Valid() && HasAt(buf, pos, s.Written())
    ensures pos < |buf|
    ensures var r := NextSection(buf, pos);
            && r == Ok(Span(s.id, pos, pos + 1 + |s.size|, pos + |s.Written()|))
            && Slice(buf, r.value.body, r.value.end) == s.payload
  {
    SizedRoundTrip(buf, pos, s.id, s.size, s.payload);
  }

  lemma CustomRoundTrip(size: Bytes, name: Bytes, contents: Bytes)
    requires Encodes(size, |name|)
    ensures Custom(size + (name + contents)) == Ok((name, contents))
  {
    var payload := size + (name + contents);
    assert HasAt(payload, 0, payload);
    HasAtSplit(payload, 0, size, name + contents);
    HasAtSplit(payload, |size|, name, contents);
    UlebRoundTrip(payload, 0, size, |name|);
    SliceHas(payload, |size|, name);
    assert payload[|size| + |name|..] == contents;
  }

  /** A section the search passes over: not custom, or custom with a readable other name. */
  predicate IsSkipped(s: Section) {
    s.Valid() && (s.id != 0 || (Custom(s.payload).Ok? && Custom(s.payload).value.0 != TARGET_FEATURES))
  }

  predicate AllSkipped(ss: seq<Section>) { ss == [] || (IsSkipped(ss[0]) && AllSkipped(ss[1..])) }

  lemma FindSkipsOne(buf: Bytes, pos: nat, s: Section)
    requires IsSkipped(s) && HasAt(buf, pos, s.Written())
    ensures FindFrom(buf, pos) == FindFrom(buf, pos + |s.Written()|)
  {
    hide Uleb, Custom, NextSection;
    SectionRoundTrip(buf, pos, s);
  }

  lemma {:induction false} FindSkips(buf: Bytes, pos: nat, ss: seq<Section>)
    requires AllSkipped(ss) && HasAt(buf, pos, SectionsBytes(ss))
    ensures FindFrom(buf, pos) == FindFrom(buf, pos + |SectionsBytes(ss)|)
    decreases |ss|
  {
    hide Uleb, Custom, NextSection, IsSkipped;
    if ss != [] {
      HasAtSplit(buf, pos, ss[0].Written(), SectionsBytes(ss[1..]));
      FindSkipsOne(buf, pos, ss[0]);
      FindSkips(buf, pos + |ss[0].Written()|, ss[1..]);
    }
  }

  predicate AllValid(es: seq<Entry>) { es == [] || (es[0].Valid() && AllValid(es[1..])) }

  lemma ParseStep(buf: Bytes, pos: nat, e: Entry, rest: seq<Feature>, decode: Bytes -> string)
    requires e.Valid() && HasAt(buf, pos, e.Written())
    requires ParseFrom(buf, pos + |e.Written()|, |rest|, decode) == Ok(rest)
    ensures ParseFrom(buf, pos, |rest| + 1, decode) == Ok([e.Meaning(decode)] + rest)
  {
    hide Uleb, Encodes, Slice;
    SizedRoundTrip(buf, pos, e.prefix, e.size, e.name);
  }

  lemma {:induction false} EntriesRoundTrip(buf: Bytes, pos: nat, es: seq<Entry>, decode: Bytes -> string)
    requires AllValid(es) && HasAt(buf, pos, EntriesBytes(es))
    ensures ParseFrom(buf, pos, |es|, decode) == Ok(Meanings(es, decode))
    decreases |es|
  {
    hide Uleb, Encodes;
    if es != [] {
      HasAtSplit(buf, pos, es[0].Written(), EntriesBytes(es[1..]));
      EntriesRoundTrip(buf, pos + |es[0].Written()|, es[1..], decode);
      ParseStep(buf, pos, es[0], Meanings(es[1..], decode), decode);
      assert Meanings(es, decode) == [es[0].Meaning(decode)] + Meanings(es[1..], decode);
    }
  }

  lemma FeaturesRoundTrip(count: Bytes, es: seq<Entry>, decode: Bytes -> string)
    requires Encodes(count, |es|) && AllValid(es)
    ensures Parse(count + EntriesBytes(es), decode) == Ok(Meanings(es, decode))
  {
    hide Uleb, Encodes, ParseFrom, EntriesBytes;
    var buf := count + EntriesBytes(es);
    assert HasAt(buf, 0, buf);
    HasAtSplit(buf, 0, count, EntriesBytes(es));
    UlebRoundTrip(buf, 0, count, |es|);
    EntriesRoundTrip(buf, |count|, es, decode);
  }

  /** A custom section named target_features with these contents. */
  ghost predicate IsTarget(s: Section, contents: Bytes) {
    s.Valid() && s.id == 0
    && exists size :: Encodes(size, |TARGET_FEATURES|) && s.payload == size + (TARGET_FEATURES + contents)
  }

  lemma TargetIsFound(buf: Bytes, pos: nat, s: Section, contents: Bytes)
    requires IsTarget(s, contents) && HasAt(buf, pos, s.Written())
    ensures FindFrom(buf, pos) == Ok(Some(contents))
  {
    SectionRoundTrip(buf, pos, s);
    var size :| Encodes(size, |TARGET_FEATURES|) && s.payload == size + (TARGET_FEATURES + contents);
    CustomRoundTrip(size, TARGET_FEATURES, contents);
  }

  /** Any feature list, in a target_features section after any sections of other kinds and names and
      before any bytes at all, is found and parsed back exactly, however its integers are encoded. */
  lemma ModuleRoundTrip(version: Bytes, ss: seq<Section>, target: Section, count: Bytes, es: seq<Entry>, after: Bytes,
                        decode: Bytes -> string)
    requires |version| == 4 && AllSkipped(ss)
    requires Encodes(count, |es|) && AllValid(es) && IsTarget(target, count + EntriesBytes(es))
    ensures var r := Find(MAGIC + version + (SectionsBytes(ss) + (target.Written() + after)));
            r.Ok? && r.value.Some? && Parse(r.value.value, decode) == Ok(Meanings(es, decode))
  {
    hide FindFrom, ParseFrom, Parse, Encodes, IsTarget, AllSkipped, AllValid, SectionsBytes, EntriesBytes;
    var head, rest := MAGIC + version, SectionsBytes(ss) + (target.Written() + after);
    var buf := head + rest;
    assert buf[..4] == MAGIC;
    assert HasAt(buf, 0, head + rest);
    HasAtSplit(buf, 0, head, rest);
    HasAtSplit(buf, HEADER, SectionsBytes(ss), target.Written() + after);
    HasAtSplit(buf, HEADER + |SectionsBytes(ss)|, target.Written(), after);
    FindSkips(buf, HEADER, ss);
    TargetIsFound(buf, HEADER + |SectionsBytes(ss)|, target, count + EntriesBytes(es));
    FeaturesRoundTrip(count, es, decode);
  }

  lemma MeaningIn(es: seq<Entry>, decode: Bytes -> string, f: Feature)
    ensures f in Meanings(es, decode) <==> exists e | e in es :: e.Meaning(decode) == f
  {
    if f in Meanings(es, decode) {
      var k :| 0 <= k < |es| && Meanings(es, decode)[k] == f;
      assert es[k] in es;
    }
    if e :| e in es && e.Meaning(decode) == f {
      var k :| 0 <= k < |es| && es[k] == e;
      assert Meanings(es, decode)[k] == f;
    }
  }

  /** A written module carries a feature exactly when an entry with prefix `+` (43) or `=` (61) names it. */
  lemma ModuleCarriesIff(version: Bytes, ss: seq<Section>, target: Section, count: Bytes, es: seq<Entry>, after: Bytes,
                         feature: string, decode: Bytes -> string)
    requires |version| == 4 && AllSkipped(ss)
    requires Encodes(count, |es|) && AllValid(es) && IsTarget(target, count + EntriesBytes(es))
    ensures Carries(MAGIC + version + (SectionsBytes(ss) + (target.Written() + after)), feature, decode) <==>
            exists e | e in es :: (e.prefix == 43 || e.prefix == 61) && decode(e.name) == feature
  {
    hide Find, Parse, Encodes, IsTarget, AllSkipped, AllValid, SectionsBytes, EntriesBytes, Meanings;
    ModuleRoundTrip(version, ss, target, count, es, after, decode);
    MeaningIn(es, decode, Feature('+', feature));
    MeaningIn(es, decode, Feature('=', feature));
  }
}
