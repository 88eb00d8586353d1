/** The artifact name grammar: `backup-<node>-<ts>[-stack-<stack>].tar.gz`. */
module Grammar {
  import opened Artifacts
  import opened Common
  import opened Calendar

  const PREFIX := "backup-"
  const SUFFIX := ".tar.gz"
  const MARKER := "-stack-"
  const SIDECAR := ".json"

  // ---- characters ---------------------------------------------------------

  predicate IsDigit(c: char) { '0' <= c <= '9' }

  predicate IsAlnum(c: char) { 'a' <= c <= 'z' || 'A' <= c <= 'Z' || IsDigit(c) }

  predicate IsSegmentChar(c: char) { IsAlnum(c) || c == '.' || c == '_' || c == '-' }

  predicate AllSegmentChars(s: string) { forall i :: 0 <= i < |s| ==> IsSegmentChar(s[i]) }

  // ---- sanitising ---------------------------------------------------------

  /** Every character outside the segment alphabet becomes a dash. */
  function MapChars(s: string): (r: string)
    ensures |r| == |s| && AllSegmentChars(r)
    ensures AllSegmentChars(s) ==> r == s
  {
    seq(|s|, i requires 0 <= i < |s| => if IsSegmentChar(s[i]) then s[i] else '-')
  }

  /** `strings.ReplaceAll(s, "-stack-", "-")`: left to right, without overlaps. */
  function DropMarkers(s: string): (r: string)
    ensures AllSegmentChars(s) ==> AllSegmentChars(r)
  {
    if s == "" then ""
    else if MARKER <= s then "-" + DropMarkers(s[|MARKER|..])
    else
      assert AllSegmentChars(s) ==> AllSegmentChars(s[1..]);
      [s[0]] + DropMarkers(s[1..])
  }

  function TrimLeft(s: string): (r: string)
    ensures AllSegmentChars(s) ==> AllSegmentChars(r)
    ensures r != "" ==> r[0] != '-'
  {
    if s != "" && s[0] == '-' then TrimLeft(s[1..]) else s
  }

  function TrimRight(s: string): (r: string)
    ensures r <= s
    ensures r != "" ==> r[|r| - 1] != '-'
  {
    if s != "" && s[|s| - 1] == '-' then TrimRight(s[..|s| - 1]) else s
  }

  function Sanitise(s: string): (r: string)
    ensures r != "" && AllSegmentChars(r)
    ensures r[0] != '-' && r[|r| - 1] != '-'
  {
    var out := TrimRight(TrimLeft(DropMarkers(MapChars(s))));
    if out == "" then "unknown" else out
  }

  // ---- time stamps --------------------------------------------------------

  predicate Digits2(s: string, i: nat)
    requires i + 2 <= |s|
  {
    IsDigit(s[i]) && IsDigit(s[i + 1])
  }

  /** `\d{4}-\d{2}-\d{2}T\d{2}-\d{2}-\d{2}` read from position `i`. */
  predicate StampShape(s: string, i: nat) {
    && i + 19 <= |s|
    && Digits2(s, i) && Digits2(s, i + 2) && s[i + 4] == '-'
    && Digits2(s, i + 5) && s[i + 7] == '-'
    && Digits2(s, i + 8) && s[i + 10] == 'T'
    && Digits2(s, i + 11) && s[i + 13] == '-'
    && Digits2(s, i + 14) && s[i + 16] == '-'
    && Digits2(s, i + 17)
  }

  function DigitValue(c: char): int { c as int - '0' as int }

  function DigitChar(d: int): (c: char)
    requires 0 <= d < 10
    ensures IsDigit(c) && DigitValue(c) == d
  {
    ('0' as int + d) as char
  }

  function Pad2(n: int): string
    requires 0 <= n < 100
  {
    [DigitChar(n / 10), DigitChar(n % 10)]
  }

  function Number2(s: string, i: nat): int
    requires i + 2 <= |s|
  {
    DigitValue(s[i]) * 10 + DigitValue(s[i + 1])
  }

  /** The layout 2006-01-02T15-04-05, position by position. */
  function StampChar(s: Stamp, i: nat): char
    requires Valid(s) && i < 19
  {
    if i == 4 || i == 7 || i == 13 || i == 16 then '-'
    else if i == 10 then 'T'
    else if i < 2 then Pad2(s.year / 100)[i]
    else if i < 4 then Pad2(s.year % 100)[i - 2]
    else if i < 7 then Pad2(s.month)[i - 5]
    else if i < 10 then Pad2(s.day)[i - 8]
    else if i < 13 then Pad2(s.hour)[i - 11]
    else if i < 16 then Pad2(s.minute)[i - 14]
    else Pad2(s.second)[i - 17]
  }

  function FormatStamp(s: Stamp): (r: string)
    requires Valid(s)
    ensures |r| == 19
  {
    seq(19, i requires 0 <= i < 19 => StampChar(s, i))
  }

  function ReadStamp(s: string, i: nat): Stamp
    requires i + 19 <= |s|
  {
    Stamp(Number2(s, i) * 100 + Number2(s, i + 2), Number2(s, i + 5), Number2(s, i + 8),
          Number2(s, i + 11), Number2(s, i + 14), Number2(s, i + 17))
  }

  /** Where each field of a formatted stamp stands. */
  lemma FormatLayout(s: Stamp)
    requires Valid(s)
    ensures var r := FormatStamp(s);
            && r[0] == DigitChar(s.year / 100 / 10) && r[1] == DigitChar(s.year / 100 % 10)
            && r[2] == DigitChar(s.year % 100 / 10) && r[3] == DigitChar(s.year % 100 % 10)
            && r[5] == DigitChar(s.month / 10) && r[6] == DigitChar(s.month % 10)
            && r[8] == DigitChar(s.day / 10) && r[9] == DigitChar(s.day % 10)
            && r[11] == DigitChar(s.hour / 10) && r[12] == DigitChar(s.hour % 10)
            && r[14] == DigitChar(s.minute / 10) && r[15] == DigitChar(s.minute % 10)
            && r[17] == DigitChar(s.second / 10) && r[18] == DigitChar(s.second % 10)
            && r[4] == '-' && r[7] == '-' && r[10] == 'T' && r[13] == '-' && r[16] == '-'
  {
  }

  lemma FormatThenRead(s: Stamp)
    requires Valid(s)
    ensures StampShape(FormatStamp(s), 0)
    ensures ReadStamp(FormatStamp(s), 0) == s
  {
    FormatLayout(s);
  }

  /** Two digits are the printing of the number they read as. */
  lemma DigitsReprinted(s: string, i: nat)
    requires i + 2 <= |s| && Digits2(s, i)
    ensures var n := Number2(s, i);
            0 <= n < 100 && DigitChar(n / 10) == s[i] && DigitChar(n % 10) == s[i + 1]
  {
  }

  lemma SameChars(r: string, s: string, i: nat)
    requires |r| == 19 && i + 19 <= |s|
    requires r[0] == s[i] && r[1] == s[i + 1] && r[2] == s[i + 2] && r[3] == s[i + 3] && r[4] == s[i + 4]
    requires r[5] == s[i + 5] && r[6] == s[i + 6] && r[7] == s[i + 7] && r[8] == s[i + 8] && r[9] == s[i + 9]
    requires r[10] == s[i + 10] && r[11] == s[i + 11] && r[12] == s[i + 12] && r[13] == s[i + 13] && r[14] == s[i + 14]
    requires r[15] == s[i + 15] && r[16] == s[i + 16] && r[17] == s[i + 17] && r[18] == s[i + 18]
    ensures r == s[i..i + 19]
  {
  }

  lemma ReadThenFormat(s: string, i: nat)
    requires StampShape(s, i) && Valid(ReadStamp(s, i))
    ensures FormatStamp(ReadStamp(s, i)) == s[i..i + 19]
  {
    var stamp := ReadStamp(s, i);
    FormatLayout(stamp);
    DigitsReprinted(s, i);
    DigitsReprinted(s, i + 2);
    assert stamp.year / 100 == Number2(s, i) && stamp.year % 100 == Number2(s, i + 2);
    DigitsReprinted(s, i + 5);
    DigitsReprinted(s, i + 8);
    DigitsReprinted(s, i + 11);
    DigitsReprinted(s, i + 14);
    DigitsReprinted(s, i + 17);
    SameChars(FormatStamp(stamp), s, i);
  }

  // ---- printing -----------------------------------------------------------

  /** What follows the time stamp; the empty stack is the whole-node shape. */
  function Tail(stack: string): string {
    (if stack == "" then "" else MARKER + stack) + SUFFIX
  }

  /** A name from its fields. */
  function Render(node: string, ts: string, stack: string): string {
    PREFIX + Body(node, ts, stack)
  }

  function Body(node: string, ts: string, stack: string): string {
    node + ("-" + (ts + Tail(stack)))
  }

  ghost function ArtifactName(stack: string, node: string, at: int): string
    requires Representable(at)
  {
    Render(Sanitise(node), FormatStamp(StampAt(at)), Sanitise(stack))
  }

  function ManifestName(name: string): string { name + SIDECAR }

  // ---- parsing ------------------------------------------------------------

  function StripSlashes(s: string): (r: string)
    ensures r <= s && (r != "" ==> r[|r| - 1] != '/')
  {
    if s != "" && s[|s| - 1] == '/' then StripSlashes(s[..|s| - 1]) else s
  }

  function AfterSlash(s: string): (r: string)
    ensures '/' !in r && ('/' !in s ==> r == s)
  {
    if s == "" then ""
    else if s[|s| - 1] == '/' then ""
    else AfterSlash(s[..|s| - 1]) + [s[|s| - 1]]
  }

  /** `filepath.Base`. */
  function Base(s: string): (r: string)
    ensures '/' !in s && s != "" ==> r == s
    ensures '/' in r ==> r == "/"
  {
    if s == "" then "." else
    var leaf := AfterSlash(StripSlashes(s));
    if leaf == "" then "/" else leaf
  }

  /** What may follow the time stamp: the suffix alone, or the marker, a stack without a
      newline, and the suffix. */
  function TailStack(t: string): Option<string> {
    if t == SUFFIX then Some("")
    else if && |t| > |MARKER| + |SUFFIX| && MARKER <= t && t[|t| - |SUFFIX|..] == SUFFIX
            && '\n' !in t[|MARKER|..|t| - |SUFFIX|]
    then Some(t[|MARKER|..|t| - |SUFFIX|])
    else None
  }

  /** The first `k` characters can stand in a node. */
  predicate SegmentPrefix(x: string, k: nat)
    requires k <= |x|
  {
    k == 0 || (IsSegmentChar(x[k - 1]) && SegmentPrefix(x, k - 1))
  }

  lemma {:induction false} SegmentPrefixMeaning(x: string, k: nat)
    requires k <= |x|
    ensures SegmentPrefix(x, k) <==> AllSegmentChars(x[..k])
  {
    if k > 0 {
      SegmentPrefixMeaning(x, k - 1);
      assert x[..k] == x[..k - 1] + [x[k - 1]];
      assert x[..k][k - 1] == x[k - 1];
      assert forall i :: 0 <= i < k - 1 ==> x[..k - 1][i] == x[..k][i];
    }
  }

  /** The pattern matches `x`, a name without its prefix, with a node of length `k`. */
  predicate MatchesAt(x: string, k: nat) {
    && 1 <= k && k + 20 <= |x|
    && IsAlnum(x[0]) && SegmentPrefix(x, k)
    && x[k] == '-' && StampShape(x, k + 1)
    && TailStack(x[k + 20..]).Some?
  }

  /** The lazy quantifier takes the shortest node for which the rest matches. */
  function ShortestNode(x: string, k: nat): (r: Option<nat>)
    ensures r.Some? ==> k <= r.value && MatchesAt(x, r.value)
    decreases |x| - k
  {
    if |x| < k then None
    else if MatchesAt(x, k) then Some(k)
    else ShortestNode(x, k + 1)
  }

  lemma {:induction false} ShortestIsLeast(x: string, k: nat, j: nat)
    requires k <= j && MatchesAt(x, j)
    ensures ShortestNode(x, k).Some? && ShortestNode(x, k).value <= j
    decreases |x| - k
  {
    if !MatchesAt(x, k) {
      ShortestIsLeast(x, k + 1, j);
    }
  }

  function ParseLeaf(name: string): Option<Artifact> {
    if !(PREFIX <= name) then None else
    var x := name[|PREFIX|..];
    match ShortestNode(x, 1)
    case None => None
    case Some(k) =>
      var stamp := ReadStamp(x, k + 1);
      if Valid(stamp)
      then Some(Artifact(TailStack(x[k + 20..]).value, x[..k], Seconds(stamp), name))
      else None
  }

  function ParseArtifact(name: string): Option<Artifact> {
    ParseLeaf(Base(name))
  }

  // ---- every accepted name is its own printing ----------------------------

  lemma TailIsRendered(t: string)
    requires TailStack(t).Some?
    ensures t == Tail(TailStack(t).value)
  {
    if t != SUFFIX {
      var stack := t[|MARKER|..|t| - |SUFFIX|];
      assert t == t[..|MARKER|] + stack + t[|t| - |SUFFIX|..];
    }
  }

  lemma SplitAt<T>(x: seq<T>, k: nat, n: nat)
    requires k + 1 + n <= |x|
    ensures x == x[..k] + ([x[k]] + (x[k + 1..k + 1 + n] + x[k + 1 + n..]))
  {
  }

  lemma BodyFromParts(x: string, k: nat, stack: string)
    requires k + 20 <= |x| && x[k] == '-' && x[k + 20..] == Tail(stack)
    ensures x == Body(x[..k], x[k + 1..k + 20], stack)
  {
    SplitAt(x, k, 19);
  }

  lemma MatchIsRendered(x: string, k: nat)
    requires MatchesAt(x, k)
    ensures x == Body(x[..k], x[k + 1..k + 20], TailStack(x[k + 20..]).value)
  {
    TailIsRendered(x[k + 20..]);
    BodyFromParts(x, k, TailStack(x[k + 20..]).value);
  }

  lemma NodeHasNoSlash(x: string, k: nat)
    requires MatchesAt(x, k)
    ensures '/' !in x[..k]
  {
    SegmentPrefixMeaning(x, k);
  }

  /** Where a parsed name's fields come from. */
  lemma ParsedAt(name: string, a: Artifact) returns (x: string, k: nat)
    requires ParseArtifact(name) == Some(a)
    ensures a.name == Base(name) == PREFIX + x && MatchesAt(x, k)
    ensures a.stack == TailStack(x[k + 20..]).value && a.node == x[..k]
    ensures Valid(ReadStamp(x, k + 1)) && Seconds(ReadStamp(x, k + 1)) == a.at
  {
    x, k := LeafParsedAt(Base(name), a);
  }

  lemma LeafParsedAt(leaf: string, a: Artifact) returns (x: string, k: nat)
    requires ParseLeaf(leaf) == Some(a)
    ensures a.name == leaf == PREFIX + x && MatchesAt(x, k)
    ensures a.stack == TailStack(x[k + 20..]).value && a.node == x[..k]
    ensures Valid(ReadStamp(x, k + 1)) && Seconds(ReadStamp(x, k + 1)) == a.at
  {
    x := leaf[|PREFIX|..];
    assert leaf == PREFIX + x;
    k := ShortestNode(x, 1).value;
  }

  lemma MatchFields(x: string, k: nat) returns (ts: string)
    requires MatchesAt(x, k)
    ensures x == Body(x[..k], ts, TailStack(x[k + 20..]).value)
    ensures |ts| == 19 && StampShape(ts, 0) && ReadStamp(ts, 0) == ReadStamp(x, k + 1)
  {
    ts := x[k + 1..k + 20];
    StampMoved(x, k + 1, ts);
    MatchIsRendered(x, k);
  }

  lemma ParsedBody(name: string, a: Artifact) returns (ts: string)
    requires ParseArtifact(name) == Some(a)
    ensures a.name == Base(name) == Render(a.node, ts, a.stack)
    ensures a.node != "" && '/' !in a.node
    ensures |ts| == 19 && StampShape(ts, 0) && Valid(ReadStamp(ts, 0)) && Seconds(ReadStamp(ts, 0)) == a.at
  {
    var x, k := ParsedAt(name, a);
    NodeHasNoSlash(x, k);
    ts := MatchFields(x, k);
  }

  lemma ReadWholeThenFormat(ts: string)
    requires |ts| == 19 && StampShape(ts, 0) && Valid(ReadStamp(ts, 0))
    ensures FormatStamp(ReadStamp(ts, 0)) == ts
  {
    ReadThenFormat(ts, 0);
    assert ts[0..19] == ts;
  }

  lemma StampIsReprinted(ts: string, t: int)
    requires |ts| == 19 && StampShape(ts, 0) && Valid(ReadStamp(ts, 0)) && Seconds(ReadStamp(ts, 0)) == t
    ensures Representable(t) && FormatStamp(StampAt(t)) == ts
  {
    ReadWholeThenFormat(ts);
    StampAtIs(ReadStamp(ts, 0), t);
  }

  lemma StampAtIs(stamp: Stamp, t: int)
    requires Valid(stamp) && Seconds(stamp) == t
    ensures Representable(t) && StampAt(t) == stamp
  {
    assert Representable(t);
    SecondsInjective(stamp, StampAt(t));
  }

  /** Rebuilding: printing the parsed fields gives back the leaf name, byte for byte. */
  lemma ParsedNameIsRebuilt(name: string)
    requires ParseArtifact(name).Some?
    ensures var a := ParseArtifact(name).value;
            && Representable(a.at)
            && a.name == Base(name) == Render(a.node, FormatStamp(StampAt(a.at)), a.stack)
            && a.node != "" && '/' !in a.node
  {
    var a := ParseArtifact(name).value;
    var ts := ParsedBody(name, a);
    StampIsReprinted(ts, a.at);
  }

  /** Within one (node, stack) the instant identifies the artifact: the sort that ranks a
      group never meets a tie. */
  lemma OneNamePerInstant(m: string, n: string)
    requires ParseArtifact(m).Some? && ParseArtifact(n).Some?
    requires var a, b := ParseArtifact(m).value, ParseArtifact(n).value;
             SameGroup(a, b) && a.at == b.at
    ensures ParseArtifact(m) == ParseArtifact(n)
  {
    ParsedNameIsRebuilt(m);
    ParsedNameIsRebuilt(n);
  }

  // ---- the round trip -----------------------------------------------------

  /** A stamp and the stack marker occur inside the node itself, counting the dash that
      the printer puts after the node. */
  predicate StampedMarkerAt(node: string, k: nat) {
    var s := node + "-";
    && k < |s| && s[k] == '-'
    && StampShape(s, k + 1) && MarkerAt(s, k + 20)
  }

  predicate HidesMarker(node: string) {
    exists k :: 1 <= k < |node| && StampedMarkerAt(node, k)
  }

  lemma BodyLayout(node: string, ts: string, stack: string)
    ensures var x := Body(node, ts, stack);
            && node + "-" <= x
            && |node| + 1 + |ts| + |SUFFIX| <= |x|
            && (forall i {:trigger ts[i]} :: 0 <= i < |ts| ==> x[|node| + 1 + i] == ts[i])
            && x[|node| + 1 + |ts|..] == Tail(stack)
            && x[|x| - |SUFFIX|..] == SUFFIX
  {
    var x := Body(node, ts, stack);
    var t := ts + Tail(stack);
    assert x == (node + "-") + t;
    assert x[|node| + 1..] == t;
    assert Tail(stack)[|Tail(stack)| - |SUFFIX|..] == SUFFIX;
  }

  lemma ShapeAgrees(s: string, x: string, i: nat)
    requires s <= x && i + 19 <= |s|
    ensures StampShape(s, i) <==> StampShape(x, i)
  {
    assert forall j :: 0 <= j < |s| ==> s[j] == x[j];
  }

  /** The marker stands at position `i`. */
  predicate MarkerAt(s: string, i: nat) {
    && i + 7 <= |s|
    && s[i] == '-' && s[i + 1] == 's' && s[i + 2] == 't' && s[i + 3] == 'a' && s[i + 4] == 'c' && s[i + 5] == 'k'
    && s[i + 6] == '-'
  }

  lemma MarkerAtIsPrefix(s: string, i: nat)
    requires i <= |s|
    ensures MarkerAt(s, i) <==> MARKER <= s[i..]
  {
    if MARKER <= s[i..] {
      assert forall j :: 0 <= j < |MARKER| ==> s[i..][j] == MARKER[j];
    }
  }

  /** A stamp cannot straddle the end of the node: four digits follow the printer's dash,
      and no dash of the pattern is followed by more than two. */
  lemma NoStraddle(x: string, k: nat, d: nat)
    requires 1 <= d && k + d + 5 <= |x|
    requires x[k] == '-' && StampShape(x, k + 1) && MarkerAt(x, k + 20)
    requires x[k + d] == '-' && Digits2(x, k + d + 1) && Digits2(x, k + d + 3)
    ensures 26 <= d
  {
  }

  lemma TailFromWithin(x: string, i: nat)
    requires i + |MARKER| + |SUFFIX| < |x| && MarkerAt(x, i)
    requires x[|x| - |SUFFIX|..] == SUFFIX && '\n' !in x
    ensures TailStack(x[i..]).Some?
  {
    var t := x[i..];
    MarkerAtIsPrefix(x, i);
    assert t[|t| - |SUFFIX|..] == x[|x| - |SUFFIX|..];
    assert forall c :: c in t ==> c in x;
  }

  lemma NoNewline(node: string, ts: string, stack: string)
    requires AllSegmentChars(node) && AllSegmentChars(stack)
    requires |ts| == 19 && StampShape(ts, 0)
    ensures '\n' !in Body(node, ts, stack)
  {
    assert '\n' !in node && '\n' !in stack && '\n' !in ts;
  }

  lemma HiddenMarkerMatches(x: string, node: string, k: nat)
    requires AllSegmentChars(node) && 1 <= k < |node| && IsAlnum(node[0])
    requires node + "-" <= x && |node| + 20 + |SUFFIX| <= |x|
    requires x[|x| - |SUFFIX|..] == SUFFIX && '\n' !in x
    requires StampedMarkerAt(node, k)
    ensures MatchesAt(x, k)
  {
    var s := node + "-";
    assert forall i :: 0 <= i < |s| ==> s[i] == x[i];
    ShapeAgrees(s, x, k + 1);
    TailFromWithin(x, k + 20);
    SegmentPrefixMeaning(x, k);
    assert forall i :: 0 <= i < k ==> x[..k][i] == node[i];
  }

  lemma MatchIsHiddenMarker(x: string, node: string, k: nat)
    requires 1 <= k < |node|
    requires node + "-" <= x && |node| + 20 + |SUFFIX| <= |x|
    requires Digits2(x, |node| + 1) && Digits2(x, |node| + 3)
    requires MatchesAt(x, k)
    ensures StampedMarkerAt(node, k)
  {
    var s := node + "-";
    assert forall i :: 0 <= i < |s| ==> s[i] == x[i];
    assert MARKER <= x[k + 20..];
    MarkerAtIsPrefix(x, k + 20);
    NoStraddle(x, k, |node| - k);
    ShapeAgrees(s, x, k + 1);
  }

  lemma IntendedFields(node: string, ts: string, stack: string)
    requires |ts| == 19 && AllSegmentChars(stack) && node != ""
    ensures var x := Body(node, ts, stack);
            && |node| + 20 <= |x| && x[..|node|] == node && x[0] == node[0] && x[|node|] == '-'
            && (StampShape(x, |node| + 1) <==> StampShape(ts, 0))
            && ReadStamp(x, |node| + 1) == ReadStamp(ts, 0)
            && TailStack(x[|node| + 20..]) == Some(stack)
  {
    var x := Body(node, ts, stack);
    BodyLayout(node, ts, stack);
    assert x[..|node|] == (node + "-")[..|node|] == node;
    assert x[|node|] == (node + "-")[|node|];
    StampMoved(x, |node| + 1, ts);
    TailRoundTrip(stack);
  }

  lemma IntendedMatch(x: string, node: string)
    requires AllSegmentChars(node) && node != "" && |node| + 20 <= |x| && x[..|node|] == node
    requires x[|node|] == '-' && StampShape(x, |node| + 1) && TailStack(x[|node| + 20..]).Some?
    ensures MatchesAt(x, |node|) <==> IsAlnum(node[0])
  {
    SegmentPrefixMeaning(x, |node|);
    assert x[0] == x[..|node|][0];
  }

  lemma StampMoved(x: string, i: nat, ts: string)
    requires |ts| == 19 && i + 19 <= |x|
    requires forall j {:trigger ts[j]} :: 0 <= j < |ts| ==> x[i + j] == ts[j]
    ensures StampShape(x, i) <==> StampShape(ts, 0)
    ensures ReadStamp(x, i) == ReadStamp(ts, 0)
  {
  }

  lemma TailRoundTrip(stack: string)
    requires AllSegmentChars(stack)
    ensures TailStack(Tail(stack)) == Some(stack)
  {
    if stack != "" {
      var t := Tail(stack);
      assert t[|MARKER|..|t| - |SUFFIX|] == stack;
      assert t[0] == '-';
      assert '\n' !in stack;
    }
  }

  /** Over a string that matches at the end of the node, the lazy search stops there
      exactly when the node hides no stamped marker. */
  lemma SearchStopsAtNode(x: string, node: string)
    requires AllSegmentChars(node) && node != "" && MatchesAt(x, |node|)
    requires node + "-" <= x && |node| + 20 + |SUFFIX| <= |x|
    requires Digits2(x, |node| + 1) && Digits2(x, |node| + 3)
    requires x[|x| - |SUFFIX|..] == SUFFIX && '\n' !in x
    ensures ShortestNode(x, 1).Some?
    ensures ShortestNode(x, 1).value == |node| <==> !HidesMarker(node)
  {
    assert x[0] == (node + "-")[0];
    ShortestIsLeast(x, 1, |node|);
    var found := ShortestNode(x, 1).value;
    if found < |node| {
      MatchIsHiddenMarker(x, node, found);
    }
    if HidesMarker(node) {
      var k :| 1 <= k < |node| && StampedMarkerAt(node, k);
      HiddenMarkerMatches(x, node, k);
      ShortestIsLeast(x, 1, k);
    }
  }

  lemma BodyReads(n: string, ts: string, s: string)
    requires AllSegmentChars(n) && AllSegmentChars(s) && |ts| == 19 && StampShape(ts, 0)
    ensures var x := Body(n, ts, s);
            && n + "-" <= x && |n| + 20 + |SUFFIX| <= |x|
            && Digits2(x, |n| + 1) && Digits2(x, |n| + 3)
            && x[|x| - |SUFFIX|..] == SUFFIX && '\n' !in x
  {
    BodyLayout(n, ts, s);
    NoNewline(n, ts, s);
    DigitsMoved(n, ts, Body(n, ts, s));
  }

  lemma DigitsMoved(n: string, ts: string, x: string)
    requires |ts| == 19 && StampShape(ts, 0) && |n| + 20 <= |x|
    requires forall i {:trigger ts[i]} :: 0 <= i < |ts| ==> x[|n| + 1 + i] == ts[i]
    ensures Digits2(x, |n| + 1) && Digits2(x, |n| + 3)
  {
    assert x[|n| + 1] == ts[0] && x[|n| + 2] == ts[1] && x[|n| + 3] == ts[2] && x[|n| + 4] == ts[3];
  }

  lemma SearchOfFields(x: string, n: string)
    requires AllSegmentChars(n) && n != "" && (MatchesAt(x, |n|) <==> IsAlnum(n[0]))
    requires n + "-" <= x && |n| + 20 + |SUFFIX| <= |x|
    requires Digits2(x, |n| + 1) && Digits2(x, |n| + 3)
    requires x[|x| - |SUFFIX|..] == SUFFIX && '\n' !in x
    ensures ShortestNode(x, 1) == Some(|n|) <==> IsAlnum(n[0]) && !HidesMarker(n)
  {
    if IsAlnum(n[0]) {
      SearchStopsAtNode(x, n);
    }
  }

  /** The round trip of any fields, those of a legacy name without a stack included. */
  lemma RoundTripFields(n: string, ts: string, s: string)
    requires AllSegmentChars(n) && n != "" && AllSegmentChars(s)
    requires |ts| == 19 && StampShape(ts, 0) && Valid(ReadStamp(ts, 0))
    ensures var name := Render(n, ts, s);
            ParseLeaf(name) == Some(Artifact(s, n, Seconds(ReadStamp(ts, 0)), name))
            <==> IsAlnum(n[0]) && !HidesMarker(n)
  {
    var name, x := Render(n, ts, s), Body(n, ts, s);
    IntendedFields(n, ts, s);
    IntendedMatch(x, n);
    BodyReads(n, ts, s);
    SearchOfFields(x, n);
    ParseOf(name, x, n, s, Seconds(ReadStamp(ts, 0)));
  }

  lemma ParseOf(name: string, x: string, n: string, s: string, at: int)
    requires name == PREFIX + x && n != ""
    requires |n| + 20 <= |x| && x[..|n|] == n
    requires Valid(ReadStamp(x, |n| + 1)) && Seconds(ReadStamp(x, |n| + 1)) == at
    requires TailStack(x[|n| + 20..]) == Some(s)
    ensures ParseLeaf(name) == Some(Artifact(s, n, at, name)) <==> ShortestNode(x, 1) == Some(|n|)
  {
    assert name[|PREFIX|..] == x;
  }

  /** The round trip, exactly: printing then parsing returns the sanitised fields and the
      instant if and only if the sanitised node starts alphanumeric and hides no stamped
      marker. */
  lemma RoundTrip(stack: string, node: string, at: int)
    requires Representable(at)
    ensures var name := ArtifactName(stack, node, at);
            ParseArtifact(name) == Some(Artifact(Sanitise(stack), Sanitise(node), at, name))
            <==> IsAlnum(Sanitise(node)[0]) && !HidesMarker(Sanitise(node))
  {
    var n, s, ts := Sanitise(node), Sanitise(stack), FormatStamp(StampAt(at));
    FormatThenRead(StampAt(at));
    LeafName(n, ts, s);
    RoundTripFields(n, ts, s);
  }

  /** A node recognises its own artifacts by comparing parsed fields with its raw names:
      that works exactly for names that sanitising leaves alone. */
  lemma OwnArtifactRecognised(stack: string, node: string, at: int)
    requires Representable(at) && IsAlnum(Sanitise(node)[0]) && !HidesMarker(Sanitise(node))
    ensures var r := ParseArtifact(ArtifactName(stack, node, at));
            && r.Some?
            && (r.value.node == node && r.value.stack == stack <==> Sanitise(node) == node && Sanitise(stack) == stack)
  {
    RoundTrip(stack, node, at);
  }

  lemma LeafName(node: string, ts: string, stack: string)
    requires AllSegmentChars(node) && AllSegmentChars(stack) && StampShape(ts, 0) && |ts| == 19
    ensures Base(Render(node, ts, stack)) == Render(node, ts, stack)
  {
    NoSlash(node, ts, stack);
  }

  lemma NoSlash(node: string, ts: string, stack: string)
    requires AllSegmentChars(node) && AllSegmentChars(stack) && StampShape(ts, 0) && |ts| == 19
    ensures '/' !in Render(node, ts, stack)
  {
    assert '/' !in node && '/' !in stack;
    assert '/' !in ts;
    assert '/' !in Tail(stack);
    assert '/' !in ts + Tail(stack);
    assert '/' !in Body(node, ts, stack);
  }

  lemma ParsedNameEnds(name: string)
    requires ParseArtifact(name).Some?
    ensures var leaf := ParseArtifact(name).value.name; leaf != "" && leaf[|leaf| - 1] == 'z'
  {
    var a := ParseArtifact(name).value;
    var ts := ParsedBody(name, a);
  }

  /** Sidecars never parse, so leaving them out of a listing changes nothing. */
  lemma SidecarNeverParses(name: string)
    ensures ParseArtifact(ManifestName(name)).None?
  {
    var m := ManifestName(name);
    assert m[|m| - 1] == 'n';
    assert StripSlashes(m) == m;
    var leaf := AfterSlash(m);
    assert leaf[|leaf| - 1] == 'n';
    assert Base(m) == leaf;
    if ParseArtifact(m).Some? {
      ParsedNameEnds(m);
      assert false;
    }
  }

  lemma {:induction false} AfterSlashOf(d: string, n: string)
    requires '/' !in n
    ensures AfterSlash(d + "/" + n) == n
    decreases |n|
  {
    var s := d + "/" + n;
    if n == "" {
      assert s[|s| - 1] == '/';
    } else {
      var m := n[..|n| - 1];
      AfterSlashOf(d, m);
      assert s[..|s| - 1] == d + "/" + m;
      assert s[|s| - 1] == n[|n| - 1] && n[|n| - 1] in n;
      assert n == m + [n[|n| - 1]];
    }
  }

  // ---- group keys ---------------------------------------------------------

  function GroupKey(a: Artifact): string { a.node + "/" + a.stack }

  /** The planner's map key separates exactly the (node, stack) pairs. */
  lemma GroupKeySeparates(a: Artifact, b: Artifact)
    requires '/' !in a.node && '/' !in b.node
    ensures GroupKey(a) == GroupKey(b) <==> SameGroup(a, b)
  {
    var x, y := GroupKey(a), GroupKey(b);
    assert x[|a.node|] == '/' && y[|b.node|] == '/';
    assert forall i :: 0 <= i < |a.node| ==> x[i] == a.node[i] && x[i] != '/';
    assert forall i :: 0 <= i < |b.node| ==> y[i] == b.node[i] && y[i] != '/';
    if x == y {
      assert |a.node| == |b.node|;
      assert x[..|a.node|] == a.node && y[..|b.node|] == b.node;
      assert x[|a.node| + 1..] == a.stack && y[|b.node| + 1..] == b.stack;
    }
  }
}
