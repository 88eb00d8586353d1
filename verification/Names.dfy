/** Names as text: what they look like, how they sort, and what sanitising does to them
    character by character. */
module Names {
  import opened Artifacts
  import opened Calendar
  import opened Common
  import opened Grammar
  import opened Markers

  // ---- order --------------------------------------------------------------

  /** The first difference is at `k`, and `x` has the smaller character there. */
  ghost predicate SmallerAt(x: string, y: string, k: nat) {
    k < |x| && k < |y| && x[..k] == y[..k] && x[k] < y[k]
  }

  /** `x` sorts before `y`, the two being alike up to a first difference. */
  ghost predicate SortsBefore(x: string, y: string) {
    exists k: nat :: SmallerAt(x, y, k)
  }

  lemma SortsOneWay(x: string, y: string)
    requires SortsBefore(x, y)
    ensures x != y && !SortsBefore(y, x)
  {
    var k: nat :| SmallerAt(x, y, k);
    forall j: nat
      ensures !SmallerAt(y, x, j)
    {
      NotBothWays(x, y, k, j);
    }
  }

  lemma NotBothWays(x: string, y: string, k: nat, j: nat)
    requires SmallerAt(x, y, k)
    ensures !SmallerAt(y, x, j)
  {
    assert j < k ==> x[..k][j] == y[..k][j];
    assert k < j <= |x| && j <= |y| ==> x[..j][k] == x[k] && y[..j][k] == y[k];
  }

  lemma TwoDigitsDiffer(x: string, y: string, i: nat, m: int, n: int)
    requires i + 2 <= |x| && i + 2 <= |y| && x[..i] == y[..i] && 0 <= m < n < 100
    requires x[i] == DigitChar(m / 10) && x[i + 1] == DigitChar(m % 10)
    requires y[i] == DigitChar(n / 10) && y[i + 1] == DigitChar(n % 10)
    ensures SortsBefore(x, y)
  {
    if m / 10 < n / 10 {
      assert SmallerAt(x, y, i);
    } else {
      assert x[..i + 1] == x[..i] + [x[i]] && y[..i + 1] == y[..i] + [y[i]];
      assert SmallerAt(x, y, i + 1);
    }
  }

  lemma SamePrefix(x: string, y: string, i: nat)
    requires i <= |x| && i <= |y| && forall j :: 0 <= j < i ==> x[j] == y[j]
    ensures x[..i] == y[..i]
  {
  }

  lemma EarlierYearSorts(a: Stamp, b: Stamp)
    requires Valid(a) && Valid(b) && a.year < b.year
    ensures SortsBefore(FormatStamp(a), FormatStamp(b))
  {
    var x, y := FormatStamp(a), FormatStamp(b);
    FormatLayout(a);
    FormatLayout(b);
    if a.year / 100 < b.year / 100 {
      TwoDigitsDiffer(x, y, 0, a.year / 100, b.year / 100);
    } else {
      SamePrefix(x, y, 2);
      TwoDigitsDiffer(x, y, 2, a.year % 100, b.year % 100);
    }
  }

  lemma EarlierDateSorts(a: Stamp, b: Stamp)
    requires Valid(a) && Valid(b) && a.year == b.year
    requires a.month < b.month || (a.month == b.month && a.day < b.day)
    ensures SortsBefore(FormatStamp(a), FormatStamp(b))
  {
    var x, y := FormatStamp(a), FormatStamp(b);
    FormatLayout(a);
    FormatLayout(b);
    if a.month < b.month {
      SamePrefix(x, y, 5);
      TwoDigitsDiffer(x, y, 5, a.month, b.month);
    } else {
      SamePrefix(x, y, 8);
      TwoDigitsDiffer(x, y, 8, a.day, b.day);
    }
  }

  lemma EarlierTimeSorts(a: Stamp, b: Stamp)
    requires Valid(a) && Valid(b) && SameDate(a, b) && Precedes(a, b)
    ensures SortsBefore(FormatStamp(a), FormatStamp(b))
  {
    var x, y := FormatStamp(a), FormatStamp(b);
    FormatLayout(a);
    FormatLayout(b);
    if a.hour < b.hour {
      SamePrefix(x, y, 11);
      TwoDigitsDiffer(x, y, 11, a.hour, b.hour);
    } else if a.minute < b.minute {
      SamePrefix(x, y, 14);
      TwoDigitsDiffer(x, y, 14, a.minute, b.minute);
    } else {
      SamePrefix(x, y, 17);
      TwoDigitsDiffer(x, y, 17, a.second, b.second);
    }
  }

  lemma EarlierSorts(a: Stamp, b: Stamp)
    requires Valid(a) && Valid(b) && Seconds(a) < Seconds(b)
    ensures SortsBefore(FormatStamp(a), FormatStamp(b))
  {
    SecondsInOrder(a, b);
    if a.year < b.year {
      EarlierYearSorts(a, b);
    } else if !SameDate(a, b) {
      EarlierDateSorts(a, b);
    } else {
      EarlierTimeSorts(a, b);
    }
  }

  /** Stamps sort as text in the order of their instants. */
  lemma StampsSortByTime(a: Stamp, b: Stamp)
    requires Valid(a) && Valid(b)
    ensures Seconds(a) < Seconds(b) <==> SortsBefore(FormatStamp(a), FormatStamp(b))
  {
    if Seconds(a) < Seconds(b) {
      EarlierSorts(a, b);
    } else if SortsBefore(FormatStamp(a), FormatStamp(b)) {
      SortsOneWay(FormatStamp(a), FormatStamp(b));
      if Seconds(b) < Seconds(a) {
        EarlierSorts(b, a);
      } else {
        SecondsInjective(a, b);
      }
    }
  }

  lemma SurroundedSorts(u: string, x: string, y: string, v: string)
    requires SortsBefore(x, y)
    ensures SortsBefore(u + (x + v), u + (y + v))
  {
    var k: nat :| SmallerAt(x, y, k);
    var l, r := u + (x + v), u + (y + v);
    assert l[..|u| + k] == u + x[..k] && r[..|u| + k] == u + y[..k];
    assert SmallerAt(l, r, |u| + k);
  }

  lemma EarlierNameSorts(a: Artifact, b: Artifact)
    requires Representable(a.at) && Representable(b.at) && SameGroup(a, b) && a.at < b.at
    ensures SortsBefore(Render(a.node, FormatStamp(StampAt(a.at)), a.stack),
                        Render(b.node, FormatStamp(StampAt(b.at)), b.stack))
  {
    var x, y := FormatStamp(StampAt(a.at)), FormatStamp(StampAt(b.at));
    var u, v := PREFIX + (a.node + "-"), Tail(a.stack);
    EarlierSorts(StampAt(a.at), StampAt(b.at));
    SurroundedSorts(u, x, y, v);
    RenderSplits(a.node, x, a.stack, u);
    RenderSplits(b.node, y, b.stack, u);
  }

  lemma RenderSplits(node: string, ts: string, stack: string, u: string)
    requires u == PREFIX + (node + "-")
    ensures Render(node, ts, stack) == u + (ts + Tail(stack))
  {
    var t := ts + Tail(stack);
    assert PREFIX + (node + ("-" + t)) == u + t;
  }

  /** Within one (node, stack) the archives sort by name in the order they were taken: the
      later stamp is the larger instant. */
  lemma NamesSortByTime(m: string, n: string, a: Artifact, b: Artifact)
    requires ParseArtifact(m) == Some(a) && ParseArtifact(n) == Some(b) && SameGroup(a, b)
    ensures a.at < b.at <==> SortsBefore(a.name, b.name)
  {
    ParsedNameIsRebuilt(m);
    ParsedNameIsRebuilt(n);
    RebuiltNamesSort(a, b);
  }

  lemma RebuiltNamesSort(a: Artifact, b: Artifact)
    requires Representable(a.at) && Representable(b.at) && SameGroup(a, b)
    requires a.name == Render(a.node, FormatStamp(StampAt(a.at)), a.stack)
    requires b.name == Render(b.node, FormatStamp(StampAt(b.at)), b.stack)
    ensures a.at < b.at <==> SortsBefore(a.name, b.name)
  {
    if a.at < b.at {
      EarlierNameSorts(a, b);
    } else if SortsBefore(a.name, b.name) {
      SortsOneWay(a.name, b.name);
      if b.at < a.at {
        EarlierNameSorts(b, a);
      }
    }
  }

  // ---- what names look like -----------------------------------------------

  lemma SpelledStamp(s: Stamp)
    requires s == Stamp(2024, 5, 1, 23, 4, 59)
    ensures Valid(s) && FormatStamp(s) == "2024-05-01T23-04-59"
  {
    var ts := "2024-05-01T23-04-59";
    assert ReadStamp(ts, 0) == s;
    ReadWholeThenFormat(ts);
  }

  lemma ShortNameUnchanged(t: string)
    requires 0 < |t| < 7 && AllSegmentChars(t) && t[0] != '-' && t[|t| - 1] != '-'
    ensures Sanitise(t) == t
  {
    ShortHasNoMarker(t);
    UnchangedIffMarkerFree(t);
  }

  /** One name in full, as it is printed and read back. */
  lemma SpelledName(s: Stamp)
    requires s == Stamp(2024, 5, 1, 23, 4, 59)
    ensures Representable(Seconds(s))
    ensures var name := "backup-" + ("node1" + ("-" + ("2024-05-01T23-04-59" + ("-stack-" + "web" + ".tar.gz"))));
            && ArtifactName("web", "node1", Seconds(s)) == name
            && ParseArtifact(name) == Some(Artifact("web", "node1", Seconds(s), name))
            && ManifestName(name) == name + ".json"
  {
    SpelledStamp(s);
    StampAtIs(s, Seconds(s));
    ShortNameUnchanged("web");
    ShortNameUnchanged("node1");
    RoundTrip("web", "node1", Seconds(s));
  }

  /** A legacy name, without a stack, is read back with none. */
  lemma LegacyRoundTrip(node: string, at: int)
    requires Representable(at)
    ensures var n := Sanitise(node);
            var name := "backup-" + (n + ("-" + (FormatStamp(StampAt(at)) + ".tar.gz")));
            ParseArtifact(name) == Some(Artifact("", n, at, name)) <==> IsAlnum(n[0]) && !HidesMarker(n)
  {
    var n, ts := Sanitise(node), FormatStamp(StampAt(at));
    FormatThenRead(StampAt(at));
    LeafName(n, ts, "");
    RoundTripFields(n, ts, "");
    assert Tail("") == ".tar.gz";
  }

  /** A name with a line break is nobody's artifact. */
  lemma LineBreakNeverParses(name: string)
    requires '\n' in Base(name)
    ensures ParseArtifact(name).None?
  {
    if ParseArtifact(name).Some? {
      var a := ParseArtifact(name).value;
      var x, k := ParsedAt(name, a);
      MatchHasNoLineBreak(x, k);
    }
  }

  lemma MatchHasNoLineBreak(x: string, k: nat)
    requires MatchesAt(x, k)
    ensures '\n' !in PREFIX + x
  {
    SegmentPrefixMeaning(x, k);
    assert '\n' !in x[..k];
    assert '\n' !in x[k..k + 20];
    TailHasNoLineBreak(x[k + 20..]);
    assert x == x[..k] + x[k..k + 20] + x[k + 20..];
  }

  lemma TailHasNoLineBreak(t: string)
    requires TailStack(t).Some?
    ensures '\n' !in t
  {
    TailIsRendered(t);
  }

  /** The last segment of a path, trailing slashes apart. */
  lemma BaseOfPath(d: string, n: string)
    requires n != "" && '/' !in n
    ensures Base(d + "/" + n) == n && Base(d + "/" + n + "/") == n
  {
    var s := d + "/" + n;
    assert s[|s| - 1] == n[|n| - 1] && n[|n| - 1] in n;
    assert StripSlashes(s) == s;
    AfterSlashOf(d, n);
    var t := s + "/";
    assert t[..|t| - 1] == s && t[|t| - 1] == '/';
  }

  // ---- sanitising, character by character ---------------------------------

  /** Letters, digits, dot, underscore and dash. */
  predicate Allowed(c: char) {
    || 'a' <= c <= 'z' || 'A' <= c <= 'Z' || '0' <= c <= '9'
    || c == '.' || c == '_' || c == '-'
  }

  /** Without markers and dashes at the ends, sanitising replaces exactly the characters
      that are not allowed, each by a dash. */
  lemma SanitisedPointwise(s: string, r: string)
    requires |r| == |s| && forall i :: 0 <= i < |s| ==> r[i] == if Allowed(s[i]) then s[i] else '-'
    requires r != "" && r[0] != '-' && r[|r| - 1] != '-' && !Occurs(MARKER, r)
    ensures Sanitise(s) == r
  {
    assert MapChars(s) == r;
    WithoutMarkerUnchanged(r);
    assert TrimLeft(r) == r && TrimRight(r) == r;
  }

  /** A name of which nothing is left is called unknown. */
  lemma BlankBecomesUnknown(s: string)
    requires forall i :: 0 <= i < |s| ==> s[i] == '-' || !Allowed(s[i])
    ensures Sanitise(s) == "unknown"
  {
    var r := MapChars(s);
    AllDashes(r);
    assert TrimRight("") == "";
  }

  lemma {:induction false} AllDashes(r: string)
    requires forall i :: 0 <= i < |r| ==> r[i] == '-'
    ensures DropMarkers(r) == r && TrimLeft(r) == ""
  {
    if r != "" {
      MarkerAtIsPrefix(r, 0);
      assert r[0..] == r;
      AllDashes(r[1..]);
    }
  }
}
