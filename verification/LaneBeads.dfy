/** The append-only log of demoted-lane failures (scripts/ci-file-demoted-lane-failure.py). */
module LaneBeads {
  import opened Basics

  /** A line of the log: a record, or anything that does not parse as one. An empty id is no id, as in
      the script's truth tests. */
  datatype Line = Junk | Rec(isIssue: bool, id: Option<string>, title: string, status: string)

  const MARKER: string := "[demoted-lane]"
  const TITLE_HEAD: string := "[BUG] [demoted-lane] lane="
  const TITLE_TAIL: string := ": full-form CI run failed" + " (demotion safety-net)"
  const DIGEST: nat := 64
  const SHORTEST: nat := 5

  function Title(lane: string): string { TITLE_HEAD + lane + TITLE_TAIL }

  predicate IsOpen(status: string) { status == "open" || status == "in_progress" || status == "blocked" }

  predicate Contains(s: string, w: string) { exists i | 0 <= i <= |s| :: HasAt(s, i, w) }

  // ----- lanes -------------------------------------------------------------------------

  predicate IsSafeChar(c: char) {
    'A' <= c <= 'Z' || 'a' <= c <= 'z' || '0' <= c <= '9' || c == '.' || c == '_' || c == '-'
  }

  predicate IsSafe(lane: string) { lane != "" && forall i | 0 <= i < |lane| :: IsSafeChar(lane[i]) }

  function Slug(s: string): (r: string)
    ensures |r| == |s| && forall i | 0 <= i < |r| :: IsSafeChar(r[i])
  {
    seq(|s|, i requires 0 <= i < |s| => if IsSafeChar(s[i]) then s[i] else '-')
  }

  function StripLeft(s: string): string { if s != "" && s[0] == '-' then StripLeft(s[1..]) else s }

  function StripRight(s: string): string {
    if s != "" && s[|s| - 1] == '-' then StripRight(s[..|s| - 1]) else s
  }

  function SanitizeLane(lane: string): string {
    var s := StripRight(StripLeft(Slug(lane)));
    if s == "" then "lane" else s
  }

  lemma {:induction false} StripIsSafe(s: string)
    requires forall i | 0 <= i < |s| :: IsSafeChar(s[i])
    ensures forall i | 0 <= i < |StripLeft(s)| :: IsSafeChar(StripLeft(s)[i])
    ensures forall i | 0 <= i < |StripRight(s)| :: IsSafeChar(StripRight(s)[i])
    decreases |s|
  {
    if s != "" {
      StripIsSafe(s[1..]);
      StripIsSafe(s[..|s| - 1]);
    }
  }

  /** A safe name that neither starts nor ends with a dash: the lanes that can be filed. */
  predicate IsSlug(lane: string) { IsSafe(lane) && lane[0] != '-' && lane[|lane| - 1] != '-' }

  lemma {:induction false} StripEnds(s: string)
    ensures StripLeft(s) == "" || StripLeft(s)[0] != '-'
    ensures StripRight(s) == "" || (StripRight(s)[|StripRight(s)| - 1] != '-' && StripRight(s)[0] == s[0])
    decreases |s|
  {
    if s != "" {
      StripEnds(s[1..]);
      StripEnds(s[..|s| - 1]);
    }
  }

  /** Sanitizing yields a slug, and exactly the slugs are left as they are. */
  lemma SanitizedIsSlug(lane: string)
    ensures IsSlug(SanitizeLane(lane))
    ensures SanitizeLane(lane) == lane <==> IsSlug(lane)
  {
    var left := StripLeft(Slug(lane));
    StripIsSafe(Slug(lane));
    StripIsSafe(left);
    StripEnds(Slug(lane));
    StripEnds(left);
    if IsSlug(lane) { assert Slug(lane) == lane; }
  }

  /** Letters, digits, dot, underscore and dash. */
  lemma SafeCharIff(c: char)
    ensures IsSafeChar(c) <==>
            var n := c as int; 45 <= n <= 46 || 48 <= n <= 57 || 65 <= n <= 90 || n == 95 || 97 <= n <= 122
  {
  }

  /** `r` is `lane[i..j]` with a dash for every character that is not safe, or "lane" if that is empty, and
      outside there is nothing but dashes and what is not safe. */
  ghost predicate IsTrimmed(lane: string, i: nat, j: nat, r: string) {
    && i <= j <= |lane|
    && (forall k | 0 <= k < |lane| && !(i <= k < j) :: lane[k] == '-' || !IsSafeChar(lane[k]))
    && (i == j ==> r == "lane")
    && (i < j ==>
          |r| == j - i && forall k | 0 <= k < |r| :: r[k] == if IsSafeChar(lane[i + k]) then lane[i + k] else '-')
  }

  lemma {:induction false} StripLeftIs(s: string) returns (i: nat)
    ensures i <= |s| && StripLeft(s) == s[i..] && forall k | 0 <= k < i :: s[k] == '-'
  {
    if s != "" && s[0] == '-' {
      i := StripLeftIs(s[1..]);
      i := i + 1;
    } else {
      i := 0;
    }
  }

  lemma {:induction false} StripRightIs(s: string) returns (j: nat)
    ensures j <= |s| && StripRight(s) == s[..j] && forall k | j <= k < |s| :: s[k] == '-'
  {
    if s != "" && s[|s| - 1] == '-' {
      j := StripRightIs(s[..|s| - 1]);
    } else {
      j := |s|;
    }
  }

  lemma SlugIsTrimmed(lane: string, i: nat, j: nat)
    requires i <= j <= |lane| && forall k | 0 <= k < |lane| && !(i <= k < j) :: Slug(lane)[k] == '-'
    ensures IsTrimmed(lane, i, j, if i == j then "lane" else Slug(lane)[i..j])
  {
    var s := Slug(lane);
    assert forall k | 0 <= k < |lane| :: s[k] == if IsSafeChar(lane[k]) then lane[k] else '-';
    hide IsSafeChar;
  }

  lemma SanitizedIs(lane: string) returns (i: nat, j: nat)
    ensures IsTrimmed(lane, i, j, SanitizeLane(lane))
  {
    hide IsTrimmed, IsSafeChar, StripLeft, StripRight, Slug;
    var s := Slug(lane);
    i := StripLeftIs(s);
    var n := StripRightIs(s[i..]);
    j := i + n;
    assert s[i..][..n] == s[i..j];
    forall k | 0 <= k < |lane| && !(i <= k < j) ensures s[k] == '-' {
      if k >= j { assert s[k] == s[i..][k - i]; }
    }
    SlugIsTrimmed(lane, i, j);
  }

  // ----- one run of the filer ----------------------------------------------------------

  predicate Tracks(line: Line, lane: string) {
    && line.Rec? && line.isIssue && IsOpen(line.status)
    && Contains(line.title, MARKER) && Contains(line.title, "lane=" + lane)
  }

  /** The id of the first open record that mentions the lane. */
  function TrackedBy(log: seq<Line>, lane: string): Option<string> {
    if log == [] then None
    else if Tracks(log[0], lane) then log[0].id
    else TrackedBy(log[1..], lane)
  }

  function Ids(log: seq<Line>): set<string> {
    set i | 0 <= i < |log| && log[i].Rec? && log[i].id.Some? :: log[i].id.value
  }

  /** The id with `n` characters of the digest; a longer prefix than the digest is the digest. */
  function Candidate(prefix: string, digest: string, n: nat): string {
    "sq-" + prefix + if n <= |digest| then digest[..n] else digest
  }

  /** The id the search settles on, or none when it runs past the digest and never ends. */
  function SearchId(prefix: string, digest: string, ids: set<string>, n: nat): Option<string>
    requires n <= |digest|
    decreases |digest| - n
  {
    if Candidate(prefix, digest, n) !in ids then Some(Candidate(prefix, digest, n))
    else if n == |digest| then None
    else SearchId(prefix, digest, ids, n + 1)
  }

  /** `id` is "sq-", the prefix and `n` characters of the digest, with every shorter one from five on taken. */
  ghost predicate IsShortestFree(prefix: string, digest: string, ids: set<string>, n: nat, id: string) {
    && n <= |digest| && id == "sq-" + prefix + digest[..n] && id !in ids
    && forall k | 5 <= k < n :: "sq-" + prefix + digest[..k] in ids
  }

  method DeriveBeadId(prefix: string, digest: string, ids: set<string>) returns (id: string)
    requires |digest| == DIGEST
    requires exists n :: SHORTEST <= n <= DIGEST && Candidate(prefix, digest, n) !in ids
    ensures SearchId(prefix, digest, ids, SHORTEST) == Some(id)
    ensures exists n | 5 <= n <= 64 :: IsShortestFree(prefix, digest, ids, n, id)
  {
    ghost var free :| SHORTEST <= free <= DIGEST && Candidate(prefix, digest, free) !in ids;
    var n := SHORTEST;
    id := Candidate(prefix, digest, n);
    while id in ids
      invariant SHORTEST <= n <= free && id == Candidate(prefix, digest, n)
      invariant SearchId(prefix, digest, ids, SHORTEST) == SearchId(prefix, digest, ids, n)
      invariant forall k | 5 <= k < n :: "sq-" + prefix + digest[..k] in ids
      decreases free - n
    {
      n := n + 1;
      id := Candidate(prefix, digest, n);
    }
    assert IsShortestFree(prefix, digest, ids, n, id);
  }

  function NewBead(id: string, lane: string): Line { Rec(true, Some(id), Title(lane), "open") }

  /** A run for a sanitized lane: the log afterwards, or none when the id search never ends. */
  function Run(log: seq<Line>, lane: string, prefix: string, digest: string): Option<seq<Line>>
    requires |digest| == DIGEST
  {
    if TrackedBy(log, lane).Some? then Some(log)
    else match SearchId(prefix, digest, Ids(log), SHORTEST)
      case None => None
      case Some(id) => Some(log + [NewBead(id, lane)])
  }

  /** The log file and the operations a run makes on it. */
  class BeadLog {
    var lines: seq<Line>

    constructor (lines: seq<Line>)
      ensures this.lines == lines
    {
      this.lines := lines;
    }

    method OpenBeadForLane(lane: string) returns (id: Option<string>)
      ensures id == TrackedBy(lines, lane)
    {
      for i := 0 to |lines|
        invariant TrackedBy(lines, lane) == TrackedBy(lines[i..], lane)
      {
        assert lines[i..][1..] == lines[i + 1..];
        if Tracks(lines[i], lane) { return lines[i].id; }
      }
      id := None;
    }

    method AllBeadIds() returns (ids: set<string>)
      ensures ids == Ids(lines)
    {
      ids := {};
      for i := 0 to |lines|
        invariant ids == Ids(lines[..i])
      {
        if lines[i].Rec? && lines[i].id.Some? { ids := ids + {lines[i].id.value}; }
        IdsGrow(lines, i);
      }
      assert lines[..|lines|] == lines;
    }

    /** Files a failure of the lane: appends a bead unless an open one already mentions it. */
    method FileFailure(lane: string, prefix: string, digest: string) returns (id: string)
      requires |digest| == DIGEST
      requires Run(lines, SanitizeLane(lane), prefix, digest).Some?
      modifies this
      ensures Some(lines) == old(Run(lines, SanitizeLane(lane), prefix, digest))
      ensures id in Ids(lines)
      ensures old(TrackedBy(lines, SanitizeLane(lane))).None? ==> id !in old(Ids(lines))
    {
      var slug := SanitizeLane(lane);
      var existing := OpenBeadForLane(slug);
      if existing.Some? {
        TrackedIsListed(lines, slug);
        return existing.value;
      }
      var ids := AllBeadIds();
      SearchFindsShortest(prefix, digest, ids, SHORTEST);
      id := DeriveBeadId(prefix, digest, ids);
      lines := lines + [NewBead(id, slug)];
      assert lines[|lines| - 1].id == Some(id);
    }
  }

  lemma IdsGrow(log: seq<Line>, i: nat)
    requires i < |log|
    ensures Ids(log[..i + 1]) == Ids(log[..i]) + if log[i].Rec? && log[i].id.Some? then {log[i].id.value} else {}
  {
    var a, b := log[..i], log[..i + 1];
    assert b == a + [log[i]];
    forall x ensures x in Ids(b) <==> x in Ids(a) || (log[i].Rec? && log[i].id == Some(x)) {
      if x in Ids(a) {
        var k :| 0 <= k < |a| && a[k].Rec? && a[k].id == Some(x);
        assert b[k] == a[k];
      }
      if log[i].Rec? && log[i].id == Some(x) { assert b[i].id == Some(x); }
    }
  }

  lemma {:induction false} TrackedIsListed(log: seq<Line>, lane: string)
    ensures TrackedBy(log, lane).Some? ==> TrackedBy(log, lane).value in Ids(log)
  {
    if log != [] && !Tracks(log[0], lane) && TrackedBy(log, lane).Some? {
      TrackedIsListed(log[1..], lane);
      var x := TrackedBy(log, lane).value;
      var k :| 0 <= k < |log[1..]| && log[1..][k].Rec? && log[1..][k].id == Some(x);
      assert log[k + 1].id == Some(x);
    }
  }

  // ----- the id search -----------------------------------------------------------------

  lemma {:induction false} SearchFindsShortest(prefix: string, digest: string, ids: set<string>, n: nat)
    requires n <= |digest|
    ensures SearchId(prefix, digest, ids, n).None?
       <==> forall m | n <= m <= |digest| :: Candidate(prefix, digest, m) in ids
    ensures SearchId(prefix, digest, ids, n).Some? ==>
              exists m | n <= m <= |digest| ::
                && SearchId(prefix, digest, ids, n) == Some(Candidate(prefix, digest, m))
                && Candidate(prefix, digest, m) !in ids
                && forall k | n <= k < m :: Candidate(prefix, digest, k) in ids
    decreases |digest| - n
  {
    if n < |digest| && Candidate(prefix, digest, n) in ids { SearchFindsShortest(prefix, digest, ids, n + 1); }
  }

  /** Past the digest the candidate no longer changes, so an unsuccessful search never ends: it ends
      exactly when some prefix of 5 to 64 characters is free. */
  lemma SearchEndsIff(prefix: string, digest: string, ids: set<string>)
    requires |digest| == DIGEST
    ensures SearchId(prefix, digest, ids, SHORTEST).Some? <==>
            exists n: nat :: n >= SHORTEST && Candidate(prefix, digest, n) !in ids
  {
    SearchFindsShortest(prefix, digest, ids, SHORTEST);
    forall n: nat | n > DIGEST ensures Candidate(prefix, digest, n) == Candidate(prefix, digest, DIGEST) {}
    if SearchId(prefix, digest, ids, SHORTEST).None? {
      forall n: nat | n >= SHORTEST ensures Candidate(prefix, digest, n) in ids {}
    }
  }

  ghost function Candidates(prefix: string, digest: string, hi: nat): set<string>
    requires hi <= |digest| + 1
  {
    set n | SHORTEST <= n < hi :: Candidate(prefix, digest, n)
  }

  lemma {:induction false} CandidatesAreMany(prefix: string, digest: string, hi: nat)
    requires SHORTEST <= hi <= |digest| + 1
    ensures |Candidates(prefix, digest, hi)| == hi - SHORTEST
  {
    if hi == SHORTEST {
      assert Candidates(prefix, digest, hi) == {};
    } else {
      CandidatesAreMany(prefix, digest, hi - 1);
      var last := Candidate(prefix, digest, hi - 1);
      assert Candidates(prefix, digest, hi) == Candidates(prefix, digest, hi - 1) + {last};
      assert forall n | SHORTEST <= n < hi - 1 :: |Candidate(prefix, digest, n)| < |last|;
    }
  }

  lemma SubsetSize<T>(a: set<T>, b: set<T>)
    requires a <= b
    ensures |a| <= |b|
  {
    assert |b| == |a| + |b - a| by { assert b == a + (b - a); }
  }

  ghost function AllCandidates(prefix: string, digest: string): set<string> {
    Candidates(prefix, digest, |digest| + 1)
  }

  /** The search ends exactly when fewer than sixty of the ids are candidates; so whenever the log has
      fewer than sixty ids at all. */
  lemma SearchEndsWithRoom(prefix: string, digest: string, ids: set<string>)
    requires |digest| == DIGEST
    ensures SearchId(prefix, digest, ids, SHORTEST).Some? <==> |ids * AllCandidates(prefix, digest)| < 60
    ensures |ids| < 60 ==> SearchId(prefix, digest, ids, SHORTEST).Some?
  {
    var all := AllCandidates(prefix, digest);
    SearchFindsShortest(prefix, digest, ids, SHORTEST);
    CandidatesAreMany(prefix, digest, DIGEST + 1);
    SubsetSize(ids * all, ids);
    if SearchId(prefix, digest, ids, SHORTEST).None? {
      assert ids * all == all;
    } else {
      var m :| SHORTEST <= m <= DIGEST && Candidate(prefix, digest, m) !in ids;
      assert Candidate(prefix, digest, m) in all;
      SubsetSize(ids * all, all - {Candidate(prefix, digest, m)});
    }
  }

  // ----- what a run does, over the log -------------------------------------------------

  ghost predicate Surrounds(s: string, a: string, w: string, b: string) { s == a + (w + b) }

  ghost predicate Occurs(s: string, w: string) { exists a, b :: Surrounds(s, a, w, b) }

  lemma OccursIff(s: string, w: string)
    ensures Contains(s, w) <==> Occurs(s, w)
  {
    if Contains(s, w) {
      var i :| 0 <= i <= |s| && HasAt(s, i, w);
      assert s == s[..i] + (s[i..i + |w|] + s[i + |w|..]);
      assert Surrounds(s, s[..i], w, s[i + |w|..]);
    }
    if Occurs(s, w) {
      var a, b :| Surrounds(s, a, w, b);
      assert s[|a|..|a| + |w|] == w;
      assert HasAt(s, |a|, w);
    }
  }

  /** An issue that is open, in progress or blocked, whose title holds the marker and names the lane. */
  ghost predicate StopsAt(line: Line, lane: string) {
    && line.Rec? && line.isIssue && (line.status == "open" || line.status == "in_progress" || line.status == "blocked")
    && Occurs(line.title, "[demoted-lane]") && Occurs(line.title, "lane=" + lane)
  }

  lemma StopsIff(line: Line, lane: string)
    ensures Tracks(line, lane) <==> StopsAt(line, lane)
  {
    if line.Rec? {
      OccursIff(line.title, "[demoted-lane]");
      OccursIff(line.title, "lane=" + lane);
    }
    hide Occurs, Contains;
  }

  ghost predicate IsTaken(log: seq<Line>, id: string) {
    exists i | 0 <= i < |log| :: log[i].Rec? && log[i].id == Some(id)
  }

  lemma TakenIff(log: seq<Line>, id: string)
    ensures id in Ids(log) <==> IsTaken(log, id)
  {
  }

  /** The first record at which the dedupe stops, if there is one, has an id. */
  ghost predicate IsTrackedAlready(log: seq<Line>, lane: string) {
    exists k | 0 <= k < |log| && StopsAt(log[k], lane) ::
      log[k].id.Some? && forall i | 0 <= i < k :: !StopsAt(log[i], lane)
  }

  /** One bead is appended, under the shortest free id, with the lane in its title. */
  ghost predicate IsFiled(log: seq<Line>, after: seq<Line>, lane: string, prefix: string, digest: string, n: nat) {
    && 5 <= n <= 64 && n <= |digest|
    && !IsTaken(log, "sq-" + prefix + digest[..n])
    && (forall k | 5 <= k < n :: IsTaken(log, "sq-" + prefix + digest[..k]))
    && after == log + [Rec(true, Some("sq-" + prefix + digest[..n]),
                           "[BUG] [demoted-lane] lane=" + lane + ": full-form CI run failed (demotion safety-net)",
                           "open")]
  }

  lemma TitleIs(lane: string)
    ensures Title(lane) == "[BUG] [demoted-lane] lane=" + lane + ": full-form CI run failed (demotion safety-net)"
  {
    assert TITLE_TAIL == ": full-form CI run failed (demotion safety-net)";
  }

  lemma TrackedAlreadyIff(log: seq<Line>, lane: string)
    ensures TrackedBy(log, lane).Some? <==> IsTrackedAlready(log, lane)
  {
    hide Tracks, StopsAt;
    forall i | 0 <= i < |log| ensures Tracks(log[i], lane) <==> StopsAt(log[i], lane) { StopsIff(log[i], lane); }
    var k := FirstTracker(log, lane);
  }

  /** A run leaves the log alone when the first open record that names the lane has an id, and appends one
      bead otherwise. */
  lemma RunIs(log: seq<Line>, lane: string, prefix: string, digest: string)
    requires |digest| == DIGEST && Run(log, lane, prefix, digest).Some?
    ensures var after := Run(log, lane, prefix, digest).value;
            if IsTrackedAlready(log, lane) then after == log
            else exists n: nat :: IsFiled(log, after, lane, prefix, digest, n)
  {
    hide Tracks, StopsAt, Ids, IsTaken, TrackedBy, IsTrackedAlready;
    TrackedAlreadyIff(log, lane);
    if !IsTrackedAlready(log, lane) {
      SearchFindsShortest(prefix, digest, Ids(log), SHORTEST);
      TitleIs(lane);
      forall id ensures id in Ids(log) <==> IsTaken(log, id) { TakenIff(log, id); }
      var n :| SHORTEST <= n <= |digest|
               && SearchId(prefix, digest, Ids(log), SHORTEST) == Some(Candidate(prefix, digest, n))
               && Candidate(prefix, digest, n) !in Ids(log)
               && forall k | SHORTEST <= k < n :: Candidate(prefix, digest, k) in Ids(log);
      forall k | 5 <= k < n ensures IsTaken(log, "sq-" + prefix + digest[..k]) {
        assert Candidate(prefix, digest, k) in Ids(log);
      }
      assert IsFiled(log, Run(log, lane, prefix, digest).value, lane, prefix, digest, n);
    }
  }

  // ----- which lanes a title mentions --------------------------------------------------

  lemma HeadHasOneEquals(k: nat)
    requires k < |TITLE_HEAD|
    ensures TITLE_HEAD[k] == '=' <==> k == |TITLE_HEAD| - 1
  {
  }

  lemma TailHasNoEquals(k: nat)
    requires k < |TITLE_TAIL|
    ensures TITLE_TAIL[k] != '='
  {
  }

  lemma TitleEquals(lane: string, k: nat)
    requires IsSafe(lane) && k < |Title(lane)|
    ensures Title(lane)[k] == '=' <==> k == |TITLE_HEAD| - 1
  {
    if k < |TITLE_HEAD| {
      HeadHasOneEquals(k);
    } else if k >= |TITLE_HEAD| + |lane| {
      TailHasNoEquals(k - |TITLE_HEAD| - |lane|);
    }
  }

  /** The only place in a title where "lane=" followed by a lane can stand. */
  lemma MentionIsAligned(own: string, lane: string, i: nat)
    requires IsSafe(own) && HasAt(Title(own), i, "lane=" + lane)
    ensures i + 5 == |TITLE_HEAD|
  {
    var t, w := Title(own), "lane=" + lane;
    assert w[4] == "lane="[4] == '=' && t[i + 4] == t[i..i + |w|][4];
    TitleEquals(own, i + 4);
  }

  lemma PrefixIsMentioned(own: string, lane: string)
    requires lane <= own
    ensures Contains(Title(own), "lane=" + lane)
  {
    var t, w, h := Title(own), "lane=" + lane, |TITLE_HEAD|;
    assert TITLE_HEAD[h - 5..] == "lane=";
    assert t[h - 5..h - 5 + |w|] == w;
    assert HasAt(t, h - 5, w);
  }

  lemma MentionIsPrefix(own: string, lane: string, i: nat)
    requires IsSafe(own) && IsSafe(lane) && HasAt(Title(own), i, "lane=" + lane)
    ensures lane <= own
  {
    MentionIsAligned(own, lane, i);
    var t, w, h := Title(own), "lane=" + lane, |TITLE_HEAD|;
    forall k | 0 <= k < |lane| ensures t[h + k] == lane[k] && t[h + k] != ':' {
      assert t[i..i + |w|][5 + k] == w[5 + k];
    }
    // the colon after the title's own lane is not part of a lane
    assert t[h + |own|] == ':' && |lane| <= |own|;
    assert own[..|lane|] == lane;
  }

  /** The dedupe looks for "lane=" followed by the lane anywhere in the title, so the title of one lane
      mentions exactly the lanes that are prefixes of it. */
  lemma TitleMentionsPrefixes(own: string, lane: string)
    requires IsSafe(own) && IsSafe(lane)
    ensures Contains(Title(own), "lane=" + lane) <==> lane <= own
  {
    if lane <= own { PrefixIsMentioned(own, lane); }
    if Contains(Title(own), "lane=" + lane) {
      var i :| 0 <= i <= |Title(own)| && HasAt(Title(own), i, "lane=" + lane);
      MentionIsPrefix(own, lane, i);
    }
  }

  lemma TitleIsMarked(lane: string)
    ensures Contains(Title(lane), MARKER)
  {
    assert TITLE_HEAD[6..20] == MARKER;
    assert Title(lane)[6..6 + |MARKER|] == MARKER;
    assert HasAt(Title(lane), 6, MARKER);
  }

  // ----- any history of runs and closings ----------------------------------------------

  /** A failing lane is filed, or someone closes a bead. */
  datatype Event = Fail(lane: string, prefix: string, digest: string) | Close(i: nat, status: string)

  /** What the script makes of its prefix argument. */
  predicate IsPrefix(prefix: string) {
    1 <= |prefix| <= 4 && forall i | 0 <= i < |prefix| :: 'a' <= prefix[i] <= 'z' || '0' <= prefix[i] <= '9'
  }

  /** A digest of 64 hexadecimal digits, written with the first sixteen letters. */
  predicate IsDigest(digest: string) { |digest| == DIGEST && forall i | 0 <= i < |digest| :: 'a' <= digest[i] <= 'p' }

  ghost predicate IsEvent(e: Event) {
    if e.Fail? then IsPrefix(e.prefix) && IsDigest(e.digest) else !IsOpen(e.status)
  }

  ghost predicate AllEvents(es: seq<Event>) { forall i | 0 <= i < |es| :: IsEvent(es[i]) }

  ghost function Apply(log: seq<Line>, e: Event): Option<seq<Line>>
    requires IsEvent(e)
  {
    match e
    case Fail(lane, prefix, digest) => Run(log, SanitizeLane(lane), prefix, digest)
    case Close(i, status) =>
      Some(if i < |log| && log[i].Rec? then log[i := log[i].(status := status)] else log)
  }

  /** The log after these events, or none when a run among them never ends. */
  ghost function Replay(log: seq<Line>, es: seq<Event>): Option<seq<Line>>
    requires AllEvents(es)
  {
    if es == [] then Some(log) else
    match Replay(log, es[..|es| - 1])
    case None => None
    case Some(now) => Apply(now, es[|es| - 1])
  }

  /** An open bead filed for exactly this lane. */
  predicate OpenBead(line: Line, lane: string) {
    line.Rec? && line.isIssue && IsOpen(line.status) && line.title == Title(lane)
  }

  ghost predicate OneOpenPerLane(log: seq<Line>) {
    forall i, j, lane | 0 <= i < j < |log| && IsSlug(lane) :: !(OpenBead(log[i], lane) && OpenBead(log[j], lane))
  }

  /** Every line that the dedupe of some lane would stop at has an id. */
  ghost predicate Named(log: seq<Line>) {
    forall i, lane | 0 <= i < |log| && IsSlug(lane) && Tracks(log[i], lane) :: log[i].id.Some?
  }

  /** The same record, except that an open one may have been closed. */
  predicate SameBead(before: Line, after: Line) {
    || before == after
    || (before.Rec? && after.Rec? && after == before.(status := after.status) && !IsOpen(after.status))
  }

  /** `after` has the lines of `before`, in place, and possibly more. */
  ghost predicate Extends(before: seq<Line>, after: seq<Line>) {
    |before| <= |after| && forall i | 0 <= i < |before| :: SameBead(before[i], after[i])
  }

  ghost predicate IsFresh(log: seq<Line>, j: nat)
    requires j < |log|
  {
    log[j].Rec? && log[j].id.Some? && forall i | 0 <= i < j :: log[i].Rec? ==> log[i].id != log[j].id
  }

  /** Every line from `n` on has an id no earlier line has. */
  ghost predicate FreshFrom(log: seq<Line>, n: nat) { forall j | n <= j < |log| :: IsFresh(log, j) }

  // ----- what the dedupe finds ---------------------------------------------------------

  /** Some open record mentions the lane. */
  ghost predicate IsMentioned(log: seq<Line>, lane: string) { exists i | 0 <= i < |log| :: Tracks(log[i], lane) }

  ghost predicate IsFirst(log: seq<Line>, lane: string, k: nat)
    requires k < |log|
  {
    Tracks(log[k], lane) && forall i | 0 <= i < k :: !Tracks(log[i], lane)
  }

  /** The first record that mentions the lane has no id, and so reads as no record at all. */
  ghost predicate FirstIsNameless(log: seq<Line>, lane: string) {
    exists k | 0 <= k < |log| :: IsFirst(log, lane, k) && log[k].id.None?
  }

  lemma {:induction false} FirstTracker(log: seq<Line>, lane: string) returns (k: nat)
    ensures k <= |log| && forall i | 0 <= i < k :: !Tracks(log[i], lane)
    ensures k == |log| ==> TrackedBy(log, lane) == None
    ensures k < |log| ==> Tracks(log[k], lane) && TrackedBy(log, lane) == log[k].id
  {
    if log == [] || Tracks(log[0], lane) {
      k := 0;
    } else {
      k := FirstTracker(log[1..], lane);
      k := k + 1;
    }
  }

  lemma TrackedIff(log: seq<Line>, lane: string)
    ensures TrackedBy(log, lane).Some? <==> IsMentioned(log, lane) && !FirstIsNameless(log, lane)
  {
    var k := FirstTracker(log, lane);
    if k < |log| { assert IsFirst(log, lane, k); }
  }

  lemma BeadTracksItsLane(line: Line, lane: string)
    requires OpenBead(line, lane) && IsSafe(lane)
    ensures Tracks(line, lane)
  {
    TitleIsMarked(lane);
    TitleMentionsPrefixes(lane, lane);
  }

  lemma TitleIsInjective(a: string, b: string)
    requires Title(a) == Title(b)
    ensures a == b
  {
    assert |a| == |b|;
    assert Title(a)[|TITLE_HEAD|..|TITLE_HEAD| + |a|] == a;
    assert Title(b)[|TITLE_HEAD|..|TITLE_HEAD| + |b|] == b;
  }

  // ----- what every history keeps ------------------------------------------------------

  lemma FilingKeepsOneOpen(log: seq<Line>, lane: string, id: string)
    requires IsSlug(lane) && OneOpenPerLane(log) && !IsMentioned(log, lane)
    ensures OneOpenPerLane(log + [NewBead(id, lane)])
  {
    var after := log + [NewBead(id, lane)];
    forall i, j, l | 0 <= i < j < |after| && IsSlug(l) ensures !(OpenBead(after[i], l) && OpenBead(after[j], l)) {
      if j == |log| && OpenBead(after[i], l) && OpenBead(after[j], l) {
        TitleIsInjective(l, lane);
        BeadTracksItsLane(log[i], lane);
        assert false;
      }
    }
  }

  lemma RunKeeps(log: seq<Line>, lane: string, prefix: string, digest: string, n: nat)
    requires |digest| == DIGEST && IsSlug(lane) && n <= |log| && FreshFrom(log, n)
    requires Run(log, lane, prefix, digest).Some?
    ensures var after := Run(log, lane, prefix, digest).value;
            && log <= after && |after| <= |log| + 1 && FreshFrom(after, n)
            && (OneOpenPerLane(log) && Named(log) ==> OneOpenPerLane(after) && Named(after))
  {
    if TrackedBy(log, lane).None? {
      SearchFindsShortest(prefix, digest, Ids(log), SHORTEST);
      var id := SearchId(prefix, digest, Ids(log), SHORTEST).value;
      var after := log + [NewBead(id, lane)];
      forall j | n <= j < |after| ensures IsFresh(after, j) { if j < |log| { assert IsFresh(log, j); } }
      if OneOpenPerLane(log) && Named(log) {
        TrackedIff(log, lane);
        FilingKeepsOneOpen(log, lane, id);
      }
    }
  }

  lemma ExtendsTransitive(a: seq<Line>, b: seq<Line>, c: seq<Line>)
    requires Extends(a, b) && Extends(b, c)
    ensures Extends(a, c)
  {
    forall i | 0 <= i < |a| ensures SameBead(a[i], c[i]) {
      assert SameBead(a[i], b[i]) && SameBead(b[i], c[i]);
    }
  }

  lemma CloseKeeps(log: seq<Line>, i: nat, status: string, n: nat)
    requires !IsOpen(status) && FreshFrom(log, n)
    ensures var after := Apply(log, Close(i, status)).value;
            && Extends(log, after) && FreshFrom(after, n)
            && (OneOpenPerLane(log) && Named(log) ==> OneOpenPerLane(after) && Named(after))
  {
    var after := Apply(log, Close(i, status)).value;
    forall j | n <= j < |after| ensures IsFresh(after, j) { assert IsFresh(log, j); }
    if OneOpenPerLane(log) && Named(log) {
      forall j, k, l | 0 <= j < k < |after| && IsSlug(l) ensures !(OpenBead(after[j], l) && OpenBead(after[k], l)) {
        assert !(OpenBead(log[j], l) && OpenBead(log[k], l));
      }
      forall j, l | 0 <= j < |after| && IsSlug(l) && Tracks(after[j], l) ensures after[j].id.Some? {
        assert Tracks(log[j], l);
      }
    }
  }

  /** Over any history, the log only grows at its end, earlier lines change at most by being closed, and
      every added line has an id no line before it has. If at first no lane has two open beads and every
      record the dedupe can stop at has an id, no lane ever has two. */
  lemma {:induction false} HistoryKeeps(log: seq<Line>, es: seq<Event>)
    requires AllEvents(es) && Replay(log, es).Some?
    ensures var after := Replay(log, es).value;
            && Extends(log, after) && FreshFrom(after, |log|)
            && (OneOpenPerLane(log) && Named(log) ==> OneOpenPerLane(after) && Named(after))
  {
    if es != [] {
      var init, e := es[..|es| - 1], es[|es| - 1];
      HistoryKeeps(log, init);
      var now := Replay(log, init).value;
      match e {
        case Fail(lane, prefix, digest) =>
          SanitizedIsSlug(lane);
          RunKeeps(now, SanitizeLane(lane), prefix, digest, |log|);
          var after := Replay(log, es).value;
          assert forall i | 0 <= i < |now| :: after[i] == now[i];
          ExtendsTransitive(log, now, after);
        case Close(i, status) =>
          CloseKeeps(now, i, status, |log|);
          ExtendsTransitive(log, now, Replay(log, es).value);
      }
    }
  }

  // ----- ... and that the ids are needed for it ----------------------------------------

  /** While the first record that mentions the lane has no id, every run files the lane anew. */
  lemma NamelessIsRefiled(log: seq<Line>, lane: string, prefix: string, digest: string)
    requires |digest| == DIGEST && FirstIsNameless(log, lane)
    ensures var after := Run(log, lane, prefix, digest);
            after.Some? ==> |after.value| == |log| + 1 && OpenBead(after.value[|log|], lane)
                            && FirstIsNameless(after.value, lane) && log <= after.value
  {
    TrackedIff(log, lane);
    var after := Run(log, lane, prefix, digest);
    if after.Some? {
      var k :| 0 <= k < |log| && IsFirst(log, lane, k) && log[k].id.None?;
      assert IsFirst(after.value, lane, k);
    }
  }

  /** An open bead without an id is one open bead of its lane; a run of that lane makes them two. */
  lemma NamelessBeadExists(lane: string, prefix: string, digest: string)
    requires |digest| == DIGEST && IsSlug(lane)
    ensures var log := [Rec(true, None, Title(lane), "open")];
            var after := Run(log, lane, prefix, digest);
            OneOpenPerLane(log) && after.Some? && !OneOpenPerLane(after.value)
  {
    var log := [Rec(true, None, Title(lane), "open")];
    BeadTracksItsLane(log[0], lane);
    assert IsFirst(log, lane, 0);
    NamelessIsRefiled(log, lane, prefix, digest);
    assert Ids(log) == {};
    SearchEndsWithRoom(prefix, digest, Ids(log));
    assert OpenBead(log[0], lane);
  }

  ghost function CloseFirst(k: nat): seq<Event> {
    if k == 0 then [] else CloseFirst(k - 1) + [Close(k - 1, "closed")]
  }

  /** Closes the first `k` records and then files the lane twice. */
  ghost function Refile(k: nat, lane: string, prefix: string, digest: string, digest': string): seq<Event> {
    CloseFirst(k) + [Fail(lane, prefix, digest)] + [Fail(lane, prefix, digest')]
  }

  lemma ReplayStep(log: seq<Line>, es: seq<Event>, e: Event)
    requires AllEvents(es) && IsEvent(e)
    ensures AllEvents(es + [e])
    ensures Replay(log, es + [e]) == match Replay(log, es) case None => None case Some(now) => Apply(now, e)
  {
    assert (es + [e])[..|es + [e]| - 1] == es;
  }

  ghost predicate ClosedUpTo(log: seq<Line>, now: seq<Line>, k: nat) {
    && k <= |now| == |log| && Ids(now) == Ids(log)
    && (forall i | k <= i < |log| :: now[i] == log[i])
    && (forall i | 0 <= i < k :: now[i].Rec? ==> !IsOpen(now[i].status))
  }

  lemma CloseKeepsIds(log: seq<Line>, i: nat, status: string)
    requires !IsOpen(status)
    ensures Ids(Apply(log, Close(i, status)).value) == Ids(log)
  {
    var after := Apply(log, Close(i, status)).value;
    forall x ensures x in Ids(after) <==> x in Ids(log) {
      if x in Ids(log) {
        var k :| 0 <= k < |log| && log[k].Rec? && log[k].id == Some(x);
        assert after[k].Rec? && after[k].id == Some(x);
      }
      if x in Ids(after) {
        var k :| 0 <= k < |after| && after[k].Rec? && after[k].id == Some(x);
        assert log[k].Rec? && log[k].id == Some(x);
      }
    }
  }

  lemma ClosesOneMore(log: seq<Line>, now: seq<Line>, k: nat)
    requires ClosedUpTo(log, now, k) && k < |log|
    ensures var after := Apply(now, Close(k, "closed")); after.Some? && ClosedUpTo(log, after.value, k + 1)
  {
    hide Ids;
    CloseKeepsIds(now, k, "closed");
  }

  lemma ClosesNone(log: seq<Line>)
    ensures AllEvents(CloseFirst(0)) && Replay(log, CloseFirst(0)) == Some(log) && ClosedUpTo(log, log, 0)
  {
  }

  lemma {:induction false} ClosesFirst(log: seq<Line>, k: nat)
    requires k <= |log|
    ensures AllEvents(CloseFirst(k)) && Replay(log, CloseFirst(k)).Some?
    ensures ClosedUpTo(log, Replay(log, CloseFirst(k)).value, k)
  {
    hide ClosedUpTo, Apply, Replay;
    if k == 0 {
      ClosesNone(log);
    } else {
      ClosesFirst(log, k - 1);
      ReplayStep(log, CloseFirst(k - 1), Close(k - 1, "closed"));
      ClosesOneMore(log, Replay(log, CloseFirst(k - 1)).value, k - 1);
    }
  }

  lemma NamelessIsFirst(log: seq<Line>, now: seq<Line>, k: nat, lane: string)
    requires k < |log| && ClosedUpTo(log, now, k) && Tracks(log[k], lane) && log[k].id.None?
    ensures FirstIsNameless(now, lane)
  {
    assert IsFirst(now, lane, k);
  }

  /** If a record that mentions a lane has no id, then closing the records before it and filing the lane
      twice leaves two open beads of that lane, whatever the prefix and digests, unless the id search of
      one of the two runs never ends. */
  lemma NamelessBreaks(log: seq<Line>, k: nat, lane: string, prefix: string, digest: string, digest': string)
    requires k < |log| && IsSlug(lane) && Tracks(log[k], lane) && log[k].id.None?
    requires IsPrefix(prefix) && IsDigest(digest) && IsDigest(digest')
    ensures AllEvents(Refile(k, lane, prefix, digest, digest')) && AllEvents(CloseFirst(k))
    ensures var now, after := Replay(log, CloseFirst(k)), Replay(log, Refile(k, lane, prefix, digest, digest'));
            && now.Some? && Ids(now.value) == Ids(log)
            && (after.Some? ==> !OneOpenPerLane(after.value))
            && (after.Some? <==> var once := Run(now.value, lane, prefix, digest);
                                 once.Some? && Run(once.value, lane, prefix, digest').Some?)
  {
    hide Tracks, Ids, TrackedBy, CloseFirst, SearchId, SanitizeLane, IsSlug, IsPrefix;
    var e, e', closing := Fail(lane, prefix, digest), Fail(lane, prefix, digest'), CloseFirst(k);
    ClosesFirst(log, k);
    SanitizedIsSlug(lane);
    ReplayStep(log, closing, e);
    ReplayStep(log, closing + [e], e');
    var now := Replay(log, closing).value;
    NamelessIsFirst(log, now, k, lane);
    NamelessIsRefiled(now, lane, prefix, digest);
    var once := Run(now, lane, prefix, digest);
    if once.Some? { NamelessIsRefiled(once.value, lane, prefix, digest'); }
  }

  function Pow2(n: nat): nat { if n == 0 then 1 else 2 * Pow2(n - 1) }

  /** The ids that go on with an `a` behind the first `n` characters. */
  function GoingOnWithA(ids: set<string>, n: nat): set<string> { set x | x in ids && |x| > n && x[n] == 'a' }

  /** Fewer than `2^n` ids leave an extension of `head` by `n` letters free. */
  lemma {:induction false} FreeExtension(head: string, n: nat, ids: set<string>) returns (w: string)
    requires |ids| < Pow2(n)
    ensures |w| == n && (forall i | 0 <= i < n :: 'a' <= w[i] <= 'b') && head + w !in ids
    decreases n
  {
    if n == 0 {
      w := "";
    } else {
      var some := GoingOnWithA(ids, |head|);
      var others := ids - some;
      assert |ids| == |some| + |others| by { assert ids == some + others; }
      var c := if |some| < Pow2(n - 1) then 'a' else 'b';
      var rest := FreeExtension(head + [c], n - 1, if c == 'a' then some else others);
      w := [c] + rest;
      assert head + w == head + [c] + rest && (head + w)[|head|] == c;
    }
  }

  lemma FreeDigest(prefix: string, ids: set<string>) returns (digest: string)
    requires |ids| < Pow2(DIGEST)
    ensures IsDigest(digest) && SearchId(prefix, digest, ids, SHORTEST).Some?
  {
    digest := FreeExtension("sq-" + prefix, DIGEST, ids);
    assert Candidate(prefix, digest, DIGEST) == "sq-" + prefix + digest;
    SearchFindsShortest(prefix, digest, ids, SHORTEST);
  }

  lemma FilingAddsOneId(log: seq<Line>, line: Line)
    ensures |Ids(log + [line])| <= |Ids(log)| + 1
  {
    var after := log + [line];
    assert after[..|log|] == log && after[..|log| + 1] == after;
    IdsGrow(after, |log|);
  }

  lemma RunAddsOneId(log: seq<Line>, lane: string, prefix: string, digest: string)
    requires |digest| == DIGEST && Run(log, lane, prefix, digest).Some?
    ensures |Ids(Run(log, lane, prefix, digest).value)| <= |Ids(log)| + 1
  {
    hide Ids;
    if TrackedBy(log, lane).None? {
      FilingAddsOneId(log, NewBead(SearchId(prefix, digest, Ids(log), SHORTEST).value, lane));
    }
  }

  /** No lane ever gets a second open bead. */
  ghost predicate StaysOneOpen(log: seq<Line>) {
    forall es | AllEvents(es) && Replay(log, es).Some? :: OneOpenPerLane(Replay(log, es).value)
  }

  lemma NamelessHistory(log: seq<Line>, k: nat, lane: string) returns (es: seq<Event>)
    requires k < |log| && IsSlug(lane) && Tracks(log[k], lane) && log[k].id.None? && |Ids(log)| < Pow2(DIGEST) - 1
    ensures AllEvents(es) && Replay(log, es).Some? && !OneOpenPerLane(Replay(log, es).value)
  {
    assert IsPrefix("dl");
    hide Tracks, Ids, SearchId, IsDigest, IsPrefix, Pow2, IsSlug, CloseFirst, Refile, OneOpenPerLane;
    var digest := FreeDigest("dl", Ids(log));
    NamelessBreaks(log, k, lane, "dl", digest, digest);
    var now := Replay(log, CloseFirst(k)).value;
    DigestSize(digest);
    var once := Run(now, lane, "dl", digest).value;
    RunAddsOneId(now, lane, "dl", digest);
    var digest' := FreeDigest("dl", Ids(once));
    DigestSize(digest');
    NamelessBreaks(log, k, lane, "dl", digest, digest');
    es := Refile(k, lane, "dl", digest, digest');
  }

  lemma DigestSize(digest: string)
    requires IsDigest(digest)
    ensures |digest| == DIGEST
  {
  }

  /** At most one open bead per lane survives every history exactly when it holds at first and every
      record the dedupe of some lane can stop at has an id; the ids are needed as long as there are fewer
      than 2 to the 64th of them, so that no id search runs on for ever. */
  lemma OneOpenStaysIff(log: seq<Line>)
    ensures OneOpenPerLane(log) && Named(log) ==> StaysOneOpen(log)
    ensures |Ids(log)| < Pow2(DIGEST) - 1 ==> (StaysOneOpen(log) <==> OneOpenPerLane(log) && Named(log))
  {
    hide Pow2, Ids;
    if OneOpenPerLane(log) && Named(log) {
      forall es | AllEvents(es) && Replay(log, es).Some? ensures OneOpenPerLane(Replay(log, es).value) {
        HistoryKeeps(log, es);
      }
    }
    if StaysOneOpen(log) && |Ids(log)| < Pow2(DIGEST) - 1 {
      assert AllEvents([]) && Replay(log, []) == Some(log);
      forall i, lane | 0 <= i < |log| && IsSlug(lane) && Tracks(log[i], lane) ensures log[i].id.Some? {
        if log[i].id.None? {
          var es := NamelessHistory(log, i, lane);
          assert false;
        }
      }
    }
  }

  /** Filing the same lane again changes nothing, except exactly when the first record that mentions the
      lane has no id: then every run that ends files it anew. */
  lemma RunIsIdempotent(log: seq<Line>, lane: string, prefix: string, digest: string, prefix': string, digest': string)
    requires |digest| == DIGEST && |digest'| == DIGEST && IsSlug(lane)
    requires Run(log, lane, prefix, digest).Some?
    ensures var after := Run(log, lane, prefix, digest).value;
            Run(after, lane, prefix', digest') == Some(after) <==> !FirstIsNameless(log, lane)
  {
    var after := Run(log, lane, prefix, digest).value;
    TrackedIff(log, lane);
    if FirstIsNameless(log, lane) {
      NamelessIsRefiled(log, lane, prefix, digest);
      NamelessIsRefiled(after, lane, prefix', digest');
    } else if TrackedBy(log, lane).None? {
      BeadTracksItsLane(after[|log|], lane);
      assert IsFirst(after, lane, |log|);
      TrackedIff(after, lane);
      if k :| 0 <= k < |after| && IsFirst(after, lane, k) && after[k].id.None? { assert false; }
    }
  }

  // ----- does every failing lane get its own bead? -------------------------------------

  /** Every open record carrying the marker was filed for some lane. */
  ghost predicate AllFiled(log: seq<Line>) {
    forall i | && 0 <= i < |log| && log[i].Rec? && log[i].isIssue && IsOpen(log[i].status)
               && Contains(log[i].title, MARKER) ::
      exists own :: IsSafe(own) && log[i].title == Title(own)
  }

  ghost predicate HasOwnBead(log: seq<Line>, lane: string) { exists i | 0 <= i < |log| :: OpenBead(log[i], lane) }

  /** Some other open bead's lane extends this one. */
  ghost predicate IsShadowed(log: seq<Line>, lane: string) {
    exists i, own | 0 <= i < |log| && IsSafe(own) && own != lane && lane <= own :: OpenBead(log[i], own)
  }

  /** Where only filed beads carry the marker, a lane is mentioned by its own bead or a shadowing one. */
  lemma MentionedIff(log: seq<Line>, lane: string)
    requires IsSafe(lane) && AllFiled(log)
    ensures IsMentioned(log, lane) <==> HasOwnBead(log, lane) || IsShadowed(log, lane)
  {
    if IsMentioned(log, lane) {
      var i :| 0 <= i < |log| && Tracks(log[i], lane);
      var own :| IsSafe(own) && log[i].title == Title(own);
      TitleMentionsPrefixes(own, lane);
      assert OpenBead(log[i], own);
    }
    if i, own :| 0 <= i < |log| && IsSafe(own) && lane <= own && OpenBead(log[i], own) {
      TitleIsMarked(own);
      TitleMentionsPrefixes(own, lane);
      assert Tracks(log[i], lane);
    }
    if i :| 0 <= i < |log| && OpenBead(log[i], lane) { BeadTracksItsLane(log[i], lane); }
  }

  /** After a run the lane has an open bead of its own exactly when it had one, or nothing open mentions
      it, or the first record that does has no id. Where only filed beads carry the marker, "nothing
      mentions it" is that no open bead belongs to a lane whose name extends it. */
  lemma OwnBeadIff(log: seq<Line>, lane: string, prefix: string, digest: string)
    requires |digest| == DIGEST && IsSlug(lane) && Run(log, lane, prefix, digest).Some?
    ensures var own := HasOwnBead(Run(log, lane, prefix, digest).value, lane);
            && (own <==> HasOwnBead(log, lane) || !IsMentioned(log, lane) || FirstIsNameless(log, lane))
            && (AllFiled(log) ==>
                 (own <==> HasOwnBead(log, lane) || !IsShadowed(log, lane) || FirstIsNameless(log, lane)))
  {
    TrackedIff(log, lane);
    var after := Run(log, lane, prefix, digest).value;
    if TrackedBy(log, lane).None? { assert OpenBead(after[|log|], lane); }
    if AllFiled(log) { MentionedIff(log, lane); }
  }

  /** A lane named "fuzz" gets no bead while one for "fuzz-randomized" is open. */
  lemma ShadowedLaneExists(id: string, prefix: string, digest: string)
    requires |digest| == DIGEST
    ensures var log := [NewBead(id, "fuzz-randomized")];
            Run(log, "fuzz", prefix, digest) == Some(log) && !HasOwnBead(log, "fuzz")
  {
    var log := [NewBead(id, "fuzz-randomized")];
    TitleIsMarked("fuzz-randomized");
    TitleMentionsPrefixes("fuzz-randomized", "fuzz");
    assert Tracks(log[0], "fuzz");
    if HasOwnBead(log, "fuzz") { TitleIsInjective("fuzz-randomized", "fuzz"); }
  }

  // ----- the file behind the log -------------------------------------------------------

  function FirstNewline(text: string): (e: nat)
    ensures e <= |text| && (e < |text| ==> text[e] == '\n') && forall k | 0 <= k < e :: text[k] != '\n'
  {
    if text == "" || text[0] == '\n' then 0 else 1 + FirstNewline(text[1..])
  }

  /** The lines of a text, without their newlines; the last may be unfinished. */
  function Lines(text: string): (ls: seq<string>)
    ensures ls == [] <==> text == ""
    decreases |text|
  {
    if text == "" then [] else
    var e := FirstNewline(text);
    if e == |text| then [text] else [text[..e]] + Lines(text[e + 1..])
  }

  predicate IsUnfinished(text: string) { text != "" && text[|text| - 1] != '\n' }

  function AppendRecord(text: string, record: string): string { text + (record + "\n") }

  lemma FirstLine(line: string, rest: string)
    requires '\n' !in line
    ensures Lines(line + ("\n" + rest)) == [line] + Lines(rest)
  {
    var text := line + ("\n" + rest);
    assert text[|line|] == '\n' && forall k | 0 <= k < |line| :: text[k] == line[k];
    assert FirstNewline(text) == |line|;
    assert text[..|line|] == line && text[|line| + 1..] == rest;
  }

  /** `after` is `before` with the record as a new line, or joined to the unfinished last one. */
  ghost predicate IsAppended(before: seq<string>, after: seq<string>, record: string, unfinished: bool) {
    if unfinished then before != [] && after == before[..|before| - 1] + [before[|before| - 1] + record]
    else after == before + [record]
  }

  lemma AppendedBehind(line: string, before: seq<string>, after: seq<string>, record: string, unfinished: bool)
    requires IsAppended(before, after, record, unfinished)
    ensures IsAppended([line] + before, [line] + after, record, unfinished)
  {
    if unfinished {
      assert ([line] + before)[..|before|] == [line] + before[..|before| - 1];
    }
  }

  lemma AppendToOneLine(text: string, record: string)
    requires '\n' !in text && '\n' !in record
    ensures IsAppended(Lines(text), Lines(AppendRecord(text, record)), record, IsUnfinished(text))
  {
    assert AppendRecord(text, record) == (text + record) + ("\n" + "");
    FirstLine(text + record, "");
    assert text == "" ==> text + record == record;
    assert FirstNewline(text) == |text|;
  }

  lemma {:induction false} AppendedLines(text: string, record: string)
    requires '\n' !in record
    ensures IsAppended(Lines(text), Lines(AppendRecord(text, record)), record, IsUnfinished(text))
    decreases |text|
  {
    hide Lines, IsAppended, FirstNewline;
    var e := FirstNewline(text);
    if e == |text| {
      AppendToOneLine(text, record);
    } else {
      var line, rest := text[..e], text[e + 1..];
      AppendedLines(rest, record);
      assert text == line + ("\n" + rest);
      assert AppendRecord(text, record) == line + ("\n" + AppendRecord(rest, record));
      FirstLine(line, rest);
      FirstLine(line, AppendRecord(rest, record));
      AppendedBehind(line, Lines(rest), Lines(AppendRecord(rest, record)), record, IsUnfinished(rest));
    }
  }

  /** Appending a record leaves the lines before it alone exactly when the file is empty or ends with a
      newline; otherwise the record is joined to the unfinished last line. Either way the next append
      finds a finished file. */
  lemma AppendKeepsLinesIff(text: string, record: string)
    requires '\n' !in record
    ensures Lines(AppendRecord(text, record)) == Lines(text) + [record] <==> !IsUnfinished(text)
    ensures IsUnfinished(text) ==> |Lines(AppendRecord(text, record))| == |Lines(text)|
    ensures !IsUnfinished(AppendRecord(text, record))
  {
    AppendedLines(text, record);
  }
}
